/** The keywords that change a select list: the select primitives (by index, by value, by
    visible text, with the exact-then-fallback text match), the deselect primitives, and the
    selection keywords built on them, each proved to leave the list as the Policy functions
    say and to report the outcome they say. */
module SelectElement {
  import opened Options
  import opened Text
  import opened Matching
  import opened Policy

  /** A select list on the page. Its options never change; only which of them are
      selected does. */
  class SelectList {
    /** Whether the list is a multi-select list. */
    const multiple: bool
    /** The options, in document order. */
    const options: array<Option>
    /** The select and deselect primitives issued against the list so far. */
    ghost var calls: seq<Step>

    constructor (opts: seq<Option>, multiple: bool)
      ensures this.multiple == multiple && options[..] == opts && calls == []
      ensures fresh(options)
    {
      this.multiple := multiple;
      options := new Option[|opts|](i requires 0 <= i < |opts| => opts[i]);
      calls := [];
    }

    // -------------------------------------------------------------------------------------
    // Select primitives

    /** The marking loop of the select primitives: marks the options found, in order, and on
        a single-select list stops right after the first. `stopped` says it stopped early,
        `matched` that a multi-select list had an option marked. */
    method MarkFound(found: seq<nat>) returns (stopped: bool, matched: bool)
      requires forall j :: 0 <= j < |found| ==> found[j] < options.Length
      modifies options
      ensures options[..] == SetSelected(old(options[..]), Take(found, multiple), true)
      ensures stopped <==> !multiple && found != []
      ensures matched <==> multiple && found != []
    {
      ghost var opts := options[..];
      matched := false;
      var j := 0;
      while j < |found|
        invariant 0 <= j <= |found|
        invariant multiple || j == 0
        invariant matched <==> j > 0
        invariant options[..] == SetSelected(opts, found[..j], true)
      {
        var i := found[j];
        options[i] := options[i].(selected := true);
        if !multiple {
          assert found[..1] == [i];
          return true, false;
        }
        matched := true;
        j := j + 1;
      }
      assert found[..j] == found;
      return false, matched;
    }

    /** Selects the options whose value is `value`; reports whether there was one. */
    method SelectByValue(value: string) returns (found: bool)
      modifies options
      ensures options[..] == Apply(old(options[..]), multiple, Value(value))
      ensures found <==> Hits(old(options[..]), Value(value)) != []
    {
      var hits := Find(options[..], ValueIs(value));
      var stopped, matched := MarkFound(hits);
      return stopped || matched;
    }

    /** Selects the options whose normalized text is `text`; when there are none and `text`
        has a space, falls back to SelectByExactText. Reports whether there was one. */
    method SelectByVisibleText(text: string) returns (found: bool)
      modifies options
      ensures options[..] == Apply(old(options[..]), multiple, VisibleText(text))
      ensures found <==> Hits(old(options[..]), VisibleText(text)) != []
    {
      ghost var opts := options[..];
      var exact := Find(options[..], NormalizedTextIs(text));
      var stopped, matched := MarkFound(exact);
      if stopped {
        return true;
      }
      if |exact| == 0 && ' ' in text {
        SetSelectedNothing(opts, true);
        stopped, matched := SelectByExactText(text);
      }
      return stopped || matched;
    }

    /** The fallback of SelectByVisibleText: among the options whose text contains the
        longest space-free word of `text` (every option when there is none), marks those
        whose text is exactly `text`, in order, stopping after the first on a single-select
        list. `stopped` and `matched` are as for MarkFound. */
    method SelectByExactText(text: string) returns (stopped: bool, matched: bool)
      modifies options
      ensures var fallback := Refine(old(options[..]), FallbackCandidates(old(options[..]), text), TextIs(text));
        && options[..] == SetSelected(old(options[..]), Take(fallback, multiple), true)
        && (stopped <==> !multiple && fallback != [])
        && (matched <==> multiple && fallback != [])
    {
      ghost var opts := options[..];
      var word := LongestSubstringWithoutSpace(text);
      var candidates := if word == "" then Find(options[..], AnyOption) else Find(options[..], TextContains(word));
      assert candidates == FallbackCandidates(opts, text);
      stopped, matched := MarkExact(candidates, text);
    }

    /** The loop of SelectByExactText: marks the candidates whose text is exactly `text`, in
        order, stopping after the first on a single-select list. */
    method MarkExact(candidates: seq<nat>, text: string) returns (stopped: bool, matched: bool)
      modifies options
      ensures var exact := Refine(old(options[..]), candidates, TextIs(text));
        && options[..] == SetSelected(old(options[..]), Take(exact, multiple), true)
        && (stopped <==> !multiple && exact != [])
        && (matched <==> multiple && exact != [])
    {
      ghost var opts := options[..];
      ghost var marked: seq<nat> := [];
      matched := false;
      var j := 0;
      while j < |candidates|
        invariant 0 <= j <= |candidates|
        invariant marked == Refine(opts, candidates[..j], TextIs(text))
        invariant MarkedFrom(opts, marked, true)
        invariant matched <==> marked != []
        invariant multiple || marked == []
      {
        RefineSnoc(opts, candidates, TextIs(text), j);
        var hit;
        hit, marked := MarkIfText(opts, marked, candidates[j], text);
        if hit && !multiple {
          StoppedAt(opts, candidates, text, j, marked);
          return true, false;
        }
        matched := matched || hit;
        assert marked == Refine(opts, candidates[..j + 1], TextIs(text));
        assert MarkedFrom(opts, marked, true);
        j := j + 1;
      }
      assert candidates[..j] == candidates;
      FinishedAll(opts, candidates, text, marked);
      return false, matched;
    }

    /** On a single-select list, the first candidate marked is the first of all the
        candidates that match, and the only one marked. */
    lemma StoppedAt(opts: seq<Option>, candidates: seq<nat>, text: string, j: nat, marked: seq<nat>)
      requires !multiple && j < |candidates| && |marked| == 1
      requires marked == Refine(opts, candidates[..j + 1], TextIs(text))
      requires MarkedFrom(opts, marked, true)
      ensures var exact := Refine(opts, candidates, TextIs(text));
        exact != [] && options[..] == SetSelected(opts, Take(exact, multiple), true)
    {
      RefinePrefix(opts, candidates, TextIs(text), j + 1);
      MarkedIsSetSelected(opts, marked, true);
    }

    /** Past the last candidate without stopping, every matching candidate is marked. */
    lemma FinishedAll(opts: seq<Option>, candidates: seq<nat>, text: string, marked: seq<nat>)
      requires marked == Refine(opts, candidates, TextIs(text))
      requires MarkedFrom(opts, marked, true)
      requires multiple || marked == []
      ensures options[..] == SetSelected(opts, Take(marked, multiple), true)
    {
      MarkedIsSetSelected(opts, marked, true);
    }

    /** The options are those of `opts` with exactly the positions in `marked` set to
        selectedness `on`. */
    ghost predicate MarkedFrom(opts: seq<Option>, marked: seq<nat>, on: bool)
      reads options
    {
      options.Length == |opts|
      && forall p :: 0 <= p < options.Length ==>
        options[p] == if p in marked then opts[p].(selected := on) else opts[p]
    }

    lemma MarkedIsSetSelected(opts: seq<Option>, marked: seq<nat>, on: bool)
      requires MarkedFrom(opts, marked, on)
      ensures options[..] == SetSelected(opts, marked, on)
    {
    }

    /** One step of MarkExact: marks the option at `c` when its text is exactly `text`. */
    method MarkIfText(ghost opts: seq<Option>, ghost marked: seq<nat>, c: nat, text: string)
      returns (hit: bool, ghost marked': seq<nat>)
      requires MarkedFrom(opts, marked, true)
      modifies options
      ensures hit <==> c < |opts| && Hit(opts[c], TextIs(text))
      ensures marked' == if hit then marked + [c] else marked
      ensures MarkedFrom(opts, marked', true)
    {
      hit := c < options.Length && text == options[c].text;
      if hit {
        options[c] := options[c].(selected := true);
      }
      marked' := if hit then marked + [c] else marked;
    }

    /** Selects the option at position `index`; reports whether there is one. */
    method SelectByIndex(index: nat) returns (found: bool)
      modifies options
      ensures options[..] == Apply(old(options[..]), multiple, Index(index))
      ensures found <==> index < options.Length
    {
      for i := 0 to options.Length
        invariant i <= index
      {
        if i == index {
          options[i] := options[i].(selected := true);
          return true;
        }
      }
      return false;
    }

    /** One select primitive, recorded in `calls`. */
    method Select(how: Locate) returns (found: bool)
      modifies this, options
      ensures options[..] == Apply(old(options[..]), multiple, how)
      ensures found <==> Hits(old(options[..]), how) != []
      ensures calls == old(calls) + [SelectBy(how)]
    {
      match how {
        case Index(i) =>
          found := SelectByIndex(i);
        case Value(v) =>
          found := SelectByValue(v);
        case VisibleText(t) =>
          found := SelectByVisibleText(t);
      }
      calls := calls + [SelectBy(how)];
    }

    // -------------------------------------------------------------------------------------
    // Deselect primitives

    /** One deselect primitive, recorded in `calls`: clears every option it finds that is
        selected; finding nothing is not an error. */
    method Deselect(how: Locate)
      modifies this, options
      ensures options[..] == SetSelected(old(options[..]), DeselectHits(old(options[..]), how), false)
      ensures calls == old(calls) + [DeselectBy(how)]
    {
      ghost var opts := options[..];
      var hits := DeselectHits(options[..], how);
      assert forall k :: 0 <= k < |hits| ==> hits[k] < |opts| by {
        HitsInRange(opts, how);
      }
      ghost var cleared: seq<nat> := [];
      for j := 0 to |hits|
        modifies options
        invariant cleared == hits[..j]
        invariant MarkedFrom(opts, cleared, false)
      {
        Clear(opts, cleared, hits[j]);
        cleared := cleared + [hits[j]];
        assert cleared == hits[..j + 1];
      }
      assert cleared == hits;
      MarkedIsSetSelected(opts, hits, false);
      calls := calls + [DeselectBy(how)];
    }

    /** One step of Deselect: clears the option at `i`, if it is selected. */
    method Clear(ghost opts: seq<Option>, ghost cleared: seq<nat>, i: nat)
      requires MarkedFrom(opts, cleared, false) && i < options.Length
      modifies options
      ensures MarkedFrom(opts, cleared + [i], false)
    {
      if options[i].selected {
        options[i] := options[i].(selected := false);
      }
    }

    /** Clears every selected option of a multi-select list, recorded in `calls`. */
    method DeselectAll()
      requires multiple
      modifies this, options
      ensures SameContent(options[..], old(options[..]))
      ensures forall i :: 0 <= i < options.Length ==> !options[i].selected
      ensures calls == old(calls) + [DeselectEvery]
    {
      ghost var opts := options[..];
      for i := 0 to options.Length
        modifies options
        invariant SameContent(options[..], opts)
        invariant forall k :: 0 <= k < i ==> !options[k].selected
      {
        if options[i].selected {
          options[i] := options[i].(selected := false);
        }
      }
      calls := calls + [DeselectEvery];
    }

    // -------------------------------------------------------------------------------------
    // Selection keywords

    /** Selects every index in order: every option of a multi-select list. */
    method SelectEveryIndex()
      modifies this, options
      ensures options[..] == ApplyEach(old(options[..]), multiple, AllIndices(options.Length))
      ensures calls == old(calls) + SelectSteps(AllIndices(options.Length))
    {
      ghost var opts := options[..];
      ghost var c0 := calls;
      var all := AllIndices(options.Length);
      for i := 0 to options.Length
        invariant options[..] == ApplyEach(opts, multiple, all[..i])
        invariant calls == c0 + SelectSteps(all[..i])
      {
        var _ := SelectNext(opts, c0, all, i);
      }
      assert all[..options.Length] == all;
    }

    /** `selectAllFromList`: selects every option; only for multi-select lists. */
    method SelectAllFromList() returns (outcome: Outcome)
      modifies this, options
      ensures outcome == if multiple then Ok else Fatal(NotMultiselect)
      ensures options[..] == if multiple then ApplyEach(old(options[..]), true, AllIndices(options.Length)) else old(options[..])
      ensures calls == old(calls) + if multiple then SelectSteps(AllIndices(options.Length)) else []
    {
      if !multiple {
        return Fatal(NotMultiselect);
      }
      SelectEveryIndex();
      return Ok;
    }

    /** `selectFromList`: with no items selects every index; otherwise tries each item by
        value, then by visible text, collects the items found neither way and escalates as
        SelectFromListOutcome says. */
    method SelectFromList(items: seq<string>) returns (outcome: Outcome)
      modifies this, options
      ensures outcome == SelectFromListOutcome(old(options[..]), multiple, items)
      ensures options[..] == if items == [] then ApplyEach(old(options[..]), multiple, AllIndices(options.Length))
                             else ApplyItems(old(options[..]), multiple, items)
      ensures calls == old(calls) + if items == [] then SelectSteps(AllIndices(options.Length))
                                   else Attempts(old(options[..]), items)
    {
      if |items| == 0 {
        SelectEveryIndex();
        return Ok;
      }
      ghost var opts := options[..];
      ghost var c0 := calls;
      var lastItemFound := false;
      var nonExistingItems: seq<string> := [];
      for k := 0 to |items|
        invariant options[..] == ApplyItems(opts, multiple, items[..k])
        invariant nonExistingItems == Misses(opts, items[..k])
        invariant k > 0 ==> lastItemFound == Found(opts, items[k - 1])
        invariant calls == c0 + Attempts(opts, items[..k])
      {
        MissesSnoc(opts, items, k);
        lastItemFound := SelectItem(opts, c0, items, k);
        if !lastItemFound {
          nonExistingItems := nonExistingItems + [items[k]];
        }
      }
      assert items[..|items|] == items;
      if |nonExistingItems| != 0 {
        if multiple {
          return Fatal(OptionsNotFound(nonExistingItems));
        }
        if !lastItemFound {
          return Fail(OptionNotFound(nonExistingItems[|nonExistingItems| - 1]), nonExistingItems);
        }
        return Warn(nonExistingItems);
      }
      return Ok;
    }

    /** One item of SelectFromList: a selection by value and, when that finds nothing, one
        by visible text. Reports whether either found an option. */
    method SelectItem(ghost opts: seq<Option>, ghost c0: seq<Step>, items: seq<string>, k: nat) returns (found: bool)
      requires k < |items|
      requires options[..] == ApplyItems(opts, multiple, items[..k]) && calls == c0 + Attempts(opts, items[..k])
      modifies this, options
      ensures found == Found(opts, items[k])
      ensures options[..] == ApplyItems(opts, multiple, items[..k + 1])
      ensures calls == c0 + Attempts(opts, items[..k + 1])
    {
      ApplyItemsNext(opts, options[..], multiple, items, k);
      AttemptsSnoc(opts, items, k);
      ghost var done := Attempts(opts, items[..k]);
      AppendOne(c0, done, SelectBy(Value(items[k])));
      AppendTwo(c0, done, SelectBy(Value(items[k])), SelectBy(VisibleText(items[k])));
      found := Select(Value(items[k]));
      if !found {
        found := Select(VisibleText(items[k]));
      }
    }

    /** What a by-index, by-value or by-label selection keyword did, from the list and the
        calls before it: no locators fails at once; otherwise the locators up to the first
        that finds nothing were applied and issued, and that one was issued too. */
    ghost predicate SelectedEach(opts: seq<Option>, c0: seq<Step>, hows: seq<Locate>, outcome: Outcome)
      reads this, options
    {
      if hows == [] then outcome == Fatal(NoInput) && options[..] == opts && calls == c0
      else
        var k := FirstMiss(opts, hows);
        && outcome == SelectEachOutcome(opts, hows)
        && options[..] == ApplyEach(opts, multiple, hows[..k])
        && calls == c0 + SelectSteps(hows[..if k < |hows| then k + 1 else k])
    }

    /** One step of SelectFromListBy: the next locator, applied to the list after the ones
        before it. */
    method SelectNext(ghost opts: seq<Option>, ghost c0: seq<Step>, hows: seq<Locate>, k: nat) returns (found: bool)
      requires k < |hows|
      requires options[..] == ApplyEach(opts, multiple, hows[..k]) && calls == c0 + SelectSteps(hows[..k])
      modifies this, options
      ensures found <==> Hits(opts, hows[k]) != []
      ensures found ==> options[..] == ApplyEach(opts, multiple, hows[..k + 1])
      ensures !found ==> options[..] == old(options[..])
      ensures calls == c0 + SelectSteps(hows[..k + 1])
    {
      ApplyEachNext(opts, options[..], multiple, hows, k);
      StepsSnoc(hows, k);
      found := Select(hows[k]);
    }

    /** The loop of the by-index, by-value and by-label selection keywords. */
    method SelectFromListBy(hows: seq<Locate>) returns (outcome: Outcome)
      modifies this, options
      ensures SelectedEach(old(options[..]), old(calls), hows, outcome)
    {
      if |hows| == 0 {
        return Fatal(NoInput);
      }
      ghost var opts := options[..];
      ghost var c0 := calls;
      for k := 0 to |hows|
        invariant options[..] == ApplyEach(opts, multiple, hows[..k])
        invariant k <= FirstMiss(opts, hows)
        invariant calls == c0 + SelectSteps(hows[..k])
      {
        var found := SelectNext(opts, c0, hows, k);
        if !found {
          outcome := Fatal(NotFound(hows[k]));
          SelectedUpTo(opts, c0, hows, k, outcome);
          return;
        }
        assert options[..] == ApplyEach(opts, multiple, hows[..k + 1]);
        assert calls == c0 + SelectSteps(hows[..k + 1]);
        assert k + 1 <= FirstMiss(opts, hows);
      }
      SelectedUpTo(opts, c0, hows, |hows|, Ok);
      return Ok;
    }

    /** The locators before `k` found something and the one at `k`, if any, did not: the
        state and the outcome are those SelectedEach describes. */
    lemma SelectedUpTo(opts: seq<Option>, c0: seq<Step>, hows: seq<Locate>, k: nat, outcome: Outcome)
      requires 0 < |hows| && k <= |hows|
      requires k <= FirstMiss(opts, hows)
      requires k < |hows| ==> Hits(opts, hows[k]) == [] && outcome == Fatal(NotFound(hows[k]))
      requires k == |hows| ==> outcome == Ok
      requires options[..] == ApplyEach(opts, multiple, hows[..k])
      requires calls == c0 + SelectSteps(hows[..if k < |hows| then k + 1 else k])
      ensures SelectedEach(opts, c0, hows, outcome)
    {
      FirstMissAt(opts, hows, k);
    }

    /** `selectFromListByIndex`. */
    method SelectFromListByIndex(indexes: seq<nat>) returns (outcome: Outcome)
      modifies this, options
      ensures SelectedEach(old(options[..]), old(calls), IndexLocators(indexes), outcome)
    {
      outcome := SelectFromListBy(IndexLocators(indexes));
    }

    /** `selectFromListByValue`. */
    method SelectFromListByValue(values: seq<string>) returns (outcome: Outcome)
      modifies this, options
      ensures SelectedEach(old(options[..]), old(calls), ValueLocators(values), outcome)
    {
      outcome := SelectFromListBy(ValueLocators(values));
    }

    /** `selectFromListByLabel`. */
    method SelectFromListByLabel(labels: seq<string>) returns (outcome: Outcome)
      modifies this, options
      ensures SelectedEach(old(options[..]), old(calls), TextLocators(labels), outcome)
    {
      outcome := SelectFromListBy(TextLocators(labels));
    }

    // -------------------------------------------------------------------------------------
    // Deselection keywords

    /** `unselectFromList`: only for multi-select lists; with no items clears the whole
        selection, otherwise deselects each item by value and then by visible text. */
    method UnselectFromList(items: seq<string>) returns (outcome: Outcome)
      modifies this, options
      ensures outcome == if multiple then Ok else Fatal(NotMultiselect)
      ensures !multiple ==> options[..] == old(options[..]) && calls == old(calls)
      ensures multiple && items == [] ==>
        && SameContent(options[..], old(options[..]))
        && (forall i :: 0 <= i < options.Length ==> !options[i].selected)
        && calls == old(calls) + [DeselectEvery]
      ensures multiple && items != [] ==>
        && options[..] == DeselectEach(old(options[..]), BothWays(items))
        && calls == old(calls) + DeselectSteps(BothWays(items))
    {
      if !multiple {
        return Fatal(NotMultiselect);
      }
      if |items| == 0 {
        DeselectAll();
        return Ok;
      }
      ghost var opts := options[..];
      ghost var c0 := calls;
      for k := 0 to |items|
        invariant options[..] == DeselectEach(opts, BothWays(items[..k]))
        invariant calls == c0 + DeselectSteps(BothWays(items[..k]))
      {
        DeselectItem(opts, c0, items, k);
      }
      assert items[..|items|] == items;
      return Ok;
    }

    /** One item of UnselectFromList: a deselection by value, then one by visible text. */
    method DeselectItem(ghost opts: seq<Option>, ghost c0: seq<Step>, items: seq<string>, k: nat)
      requires k < |items|
      requires options[..] == DeselectEach(opts, BothWays(items[..k]))
      requires calls == c0 + DeselectSteps(BothWays(items[..k]))
      modifies this, options
      ensures options[..] == DeselectEach(opts, BothWays(items[..k + 1]))
      ensures calls == c0 + DeselectSteps(BothWays(items[..k + 1]))
    {
      DeselectBothWaysNext(opts, options[..], items, k);
      AppendTwo(c0, DeselectSteps(BothWays(items[..k])), DeselectBy(Value(items[k])), DeselectBy(VisibleText(items[k])));
      Deselect(Value(items[k]));
      Deselect(VisibleText(items[k]));
    }

    /** One step of UnselectFromListBy. */
    method DeselectNext(ghost opts: seq<Option>, ghost c0: seq<Step>, hows: seq<Locate>, k: nat)
      requires k < |hows|
      requires options[..] == DeselectEach(opts, hows[..k]) && calls == c0 + DeselectSteps(hows[..k])
      modifies this, options
      ensures options[..] == DeselectEach(opts, hows[..k + 1])
      ensures calls == c0 + DeselectSteps(hows[..k + 1])
    {
      DeselectEachNext(opts, options[..], hows, k);
      StepsSnoc(hows, k);
      Deselect(hows[k]);
    }

    /** The loop of the unselect-by keywords, after their checks (UnselectCheck). */
    method UnselectFromListBy(hows: seq<Locate>) returns (outcome: Outcome)
      modifies this, options
      ensures outcome == UnselectCheck(multiple, |hows|)
      ensures outcome == Ok ==>
        options[..] == DeselectEach(old(options[..]), hows) && calls == old(calls) + DeselectSteps(hows)
      ensures outcome != Ok ==> options[..] == old(options[..]) && calls == old(calls)
    {
      outcome := UnselectCheck(multiple, |hows|);
      if outcome != Ok {
        return;
      }
      ghost var opts := options[..];
      ghost var c0 := calls;
      for k := 0 to |hows|
        invariant options[..] == DeselectEach(opts, hows[..k])
        invariant calls == c0 + DeselectSteps(hows[..k])
      {
        DeselectNext(opts, c0, hows, k);
      }
      assert hows[..|hows|] == hows;
    }

    /** `unselectFromListByIndex`. */
    method UnselectFromListByIndex(indexes: seq<nat>) returns (outcome: Outcome)
      modifies this, options
      ensures outcome == UnselectCheck(multiple, |indexes|)
      ensures outcome == Ok ==>
        && options[..] == DeselectEach(old(options[..]), IndexLocators(indexes))
        && calls == old(calls) + DeselectSteps(IndexLocators(indexes))
      ensures outcome != Ok ==> options[..] == old(options[..]) && calls == old(calls)
    {
      outcome := UnselectFromListBy(IndexLocators(indexes));
    }

    /** `unselectFromListByValue`. */
    method UnselectFromListByValue(values: seq<string>) returns (outcome: Outcome)
      modifies this, options
      ensures outcome == UnselectCheck(multiple, |values|)
      ensures outcome == Ok ==>
        && options[..] == DeselectEach(old(options[..]), ValueLocators(values))
        && calls == old(calls) + DeselectSteps(ValueLocators(values))
      ensures outcome != Ok ==> options[..] == old(options[..]) && calls == old(calls)
    {
      outcome := UnselectFromListBy(ValueLocators(values));
    }

    /** `unselectFromListByLabel`. */
    method UnselectFromListByLabel(labels: seq<string>) returns (outcome: Outcome)
      modifies this, options
      ensures outcome == UnselectCheck(multiple, |labels|)
      ensures outcome == Ok ==>
        && options[..] == DeselectEach(old(options[..]), TextLocators(labels))
        && calls == old(calls) + DeselectSteps(TextLocators(labels))
      ensures outcome != Ok ==> options[..] == old(options[..]) && calls == old(calls)
    {
      outcome := UnselectFromListBy(TextLocators(labels));
    }
  }
}
