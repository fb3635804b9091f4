/** What the selection keywords are specified to do, as functions of the list before the call:
    the multi-item selection of `selectFromList` (value first, then visible text, misses
    collected in order, escalation by list kind), the direct single-strategy selectors
    (stop at the first miss), and deselection.

    Which options a primitive finds never depends on the selection state (HitsSameContent),
    so every fold below is stated over the hit lists of the list as it was before the call. */
module Policy {
  import opened Options
  import opened Matching

  // ---------------------------------------------------------------------------------------
  // Folds over hit lists

  /** The list after marking, in order, the options of each hit list: all of them on a
      multi-select list, the first of each on a single-select list. */
  function MarkEach(opts: seq<Option>, hitLists: seq<seq<nat>>, multiple: bool): seq<Option>
    decreases |hitLists|
  {
    if hitLists == [] then opts
    else SetSelected(MarkEach(opts, hitLists[..|hitLists| - 1], multiple), Take(hitLists[|hitLists| - 1], multiple), true)
  }

  /** The list after clearing, in order, the options of each hit list. */
  function ClearEach(opts: seq<Option>, hitLists: seq<seq<nat>>): seq<Option>
    decreases |hitLists|
  {
    if hitLists == [] then opts
    else SetSelected(ClearEach(opts, hitLists[..|hitLists| - 1]), hitLists[|hitLists| - 1], false)
  }

  /** The items whose hit list is empty, in input order. */
  function Unfound(items: seq<string>, hitLists: seq<seq<nat>>): seq<string>
    requires |hitLists| == |items|
    decreases |items|
  {
    if items == [] then []
    else
      Unfound(items[..|items| - 1], hitLists[..|items| - 1])
      + (if hitLists[|items| - 1] != [] then [] else [items[|items| - 1]])
  }

  /** The position of the first empty hit list from `i` on, or the number of lists. */
  function FirstEmpty(hitLists: seq<seq<nat>>, i: nat): (k: nat)
    requires i <= |hitLists|
    ensures i <= k <= |hitLists|
    ensures forall j :: i <= j < k ==> hitLists[j] != []
    ensures k < |hitLists| ==> hitLists[k] == []
    decreases |hitLists| - i
  {
    if i == |hitLists| || hitLists[i] == [] then i else FirstEmpty(hitLists, i + 1)
  }

  /** The positions of the empty hit lists. */
  function EmptyPositions(hitLists: seq<seq<nat>>): seq<nat>
    decreases |hitLists|
  {
    if hitLists == [] then []
    else
      EmptyPositions(hitLists[..|hitLists| - 1])
      + (if hitLists[|hitLists| - 1] != [] then [] else [|hitLists| - 1])
  }

  /** The select primitives issued for the items, given what each value selection finds:
      for each item a value selection, then a visible-text selection only when the value
      selection found nothing. */
  function Tries(items: seq<string>, valueHits: seq<seq<nat>>): seq<Step>
    requires |valueHits| == |items|
    decreases |items|
  {
    if items == [] then []
    else
      var item := items[|items| - 1];
      Tries(items[..|items| - 1], valueHits[..|items| - 1]) + [SelectBy(Value(item))]
      + (if valueHits[|items| - 1] != [] then [] else [SelectBy(VisibleText(item))])
  }

  // ---------------------------------------------------------------------------------------
  // selectFromList

  /** The options an item of `selectFromList` resolves to: its value matches, or, when there
      are none, its visible-text matches. */
  function ItemHits(opts: seq<Option>, item: string): seq<nat> {
    var byValue := Hits(opts, Value(item));
    if byValue != [] then byValue else Hits(opts, VisibleText(item))
  }

  /** An item is found when it matches by value or by visible text. */
  predicate Found(opts: seq<Option>, item: string) {
    Hits(opts, Value(item)) != [] || Hits(opts, VisibleText(item)) != []
  }

  function ItemHitLists(opts: seq<Option>, items: seq<string>): (r: seq<seq<nat>>)
    ensures |r| == |items|
  {
    seq(|items|, k requires 0 <= k < |items| => ItemHits(opts, items[k]))
  }

  function ValueHitLists(opts: seq<Option>, items: seq<string>): (r: seq<seq<nat>>)
    ensures |r| == |items|
  {
    seq(|items|, k requires 0 <= k < |items| => Hits(opts, Value(items[k])))
  }

  /** The list after `selectFromList`'s items, applied in order. */
  function ApplyItems(opts: seq<Option>, multiple: bool, items: seq<string>): seq<Option> {
    MarkEach(opts, ItemHitLists(opts, items), multiple)
  }

  /** The select primitives `selectFromList` issues for its items. */
  function Attempts(opts: seq<Option>, items: seq<string>): seq<Step> {
    Tries(items, ValueHitLists(opts, items))
  }

  /** The items found neither by value nor by visible text, in input order. */
  function Misses(opts: seq<Option>, items: seq<string>): seq<string> {
    Unfound(items, ItemHitLists(opts, items))
  }

  /** The positions in the input of the items found neither by value nor by visible text. */
  function MissPositions(opts: seq<Option>, items: seq<string>): seq<nat> {
    EmptyPositions(ItemHitLists(opts, items))
  }

  /** The escalation rule once every item has been tried: no misses is success; on a
      multi-select list any miss fails naming all misses; on a single-select list the misses
      are a warning, and the call fails, naming the last miss, only when the last item missed. */
  function Escalate(multiple: bool, misses: seq<string>, lastItemFound: bool): Outcome {
    if misses == [] then Ok
    else if multiple then Fatal(OptionsNotFound(misses))
    else if lastItemFound then Warn(misses)
    else Fail(OptionNotFound(misses[|misses| - 1]), misses)
  }

  /** What `selectFromList` reports: with no items it selects every option and succeeds. */
  function SelectFromListOutcome(opts: seq<Option>, multiple: bool, items: seq<string>): Outcome {
    if items == [] then Ok
    else Escalate(multiple, Misses(opts, items), Found(opts, items[|items| - 1]))
  }

  // ---------------------------------------------------------------------------------------
  // Direct selectors: by index, by value, by label

  /** The error a direct selector raises for an option it cannot locate. */
  function NotFound(how: Locate): Error {
    match how
    case Index(i) => IndexNotFound(i)
    case Value(v) => OptionNotFound(v)
    case VisibleText(t) => OptionNotFound(t)
  }

  function HitLists(opts: seq<Option>, hows: seq<Locate>): (r: seq<seq<nat>>)
    ensures |r| == |hows|
  {
    seq(|hows|, k requires 0 <= k < |hows| => Hits(opts, hows[k]))
  }

  /** The position of the first locator that finds nothing, or the number of locators. */
  function FirstMiss(opts: seq<Option>, hows: seq<Locate>): (k: nat)
    ensures k <= |hows|
    ensures forall j :: 0 <= j < k ==> Hits(opts, hows[j]) != []
    ensures k < |hows| ==> Hits(opts, hows[k]) == []
  {
    var lists := HitLists(opts, hows);
    assert forall j :: 0 <= j < |hows| ==> lists[j] == Hits(opts, hows[j]);
    FirstEmpty(lists, 0)
  }

  /** The list after select primitives applied in order. */
  function ApplyEach(opts: seq<Option>, multiple: bool, hows: seq<Locate>): seq<Option> {
    MarkEach(opts, HitLists(opts, hows), multiple)
  }

  /** What a direct selector reports: it fails at the first locator that finds nothing. */
  function SelectEachOutcome(opts: seq<Option>, hows: seq<Locate>): Outcome {
    var k := FirstMiss(opts, hows);
    if k < |hows| then Fatal(NotFound(hows[k])) else Ok
  }

  function SelectSteps(hows: seq<Locate>): seq<Step> {
    seq(|hows|, j requires 0 <= j < |hows| => SelectBy(hows[j]))
  }

  // ---------------------------------------------------------------------------------------
  // Deselection

  function DeselectHitLists(opts: seq<Option>, hows: seq<Locate>): (r: seq<seq<nat>>)
    ensures |r| == |hows|
  {
    seq(|hows|, k requires 0 <= k < |hows| => DeselectHits(opts, hows[k]))
  }

  /** The list after deselect primitives applied in order. */
  function DeselectEach(opts: seq<Option>, hows: seq<Locate>): seq<Option> {
    ClearEach(opts, DeselectHitLists(opts, hows))
  }

  /** For each item a deselection by value, then one by visible text. */
  function BothWays(items: seq<string>): (r: seq<Locate>)
    ensures |r| == 2 * |items|
    ensures forall j :: 0 <= j < |items| ==> r[2 * j] == Value(items[j]) && r[2 * j + 1] == VisibleText(items[j])
  {
    if items == [] then []
    else BothWays(items[..|items| - 1]) + [Value(items[|items| - 1]), VisibleText(items[|items| - 1])]
  }

  function DeselectSteps(hows: seq<Locate>): seq<Step> {
    seq(|hows|, j requires 0 <= j < |hows| => DeselectBy(hows[j]))
  }

  /** Every position of a list of `n` options, as index locators in order: what
      `selectAllFromList` and `selectFromList` without items select. */
  function AllIndices(n: nat): (r: seq<Locate>)
    ensures |r| == n && forall i :: 0 <= i < n ==> r[i] == Index(i)
  {
    seq(n, i requires 0 <= i < n => Index(i))
  }

  /** The locators of the by-index, by-value and by-label keywords' arguments. */
  function IndexLocators(indexes: seq<nat>): seq<Locate> {
    seq(|indexes|, j requires 0 <= j < |indexes| => Index(indexes[j]))
  }

  function ValueLocators(values: seq<string>): seq<Locate> {
    seq(|values|, j requires 0 <= j < |values| => Value(values[j]))
  }

  function TextLocators(labels: seq<string>): seq<Locate> {
    seq(|labels|, j requires 0 <= j < |labels| => VisibleText(labels[j]))
  }

  // ---------------------------------------------------------------------------------------
  // The checks the unselect-by keywords run before deselecting

  /** The checks as written: the "no input" guard compares the argument array with `null`,
      which an array that exists never equals, so only the list kind is checked. */
  function UnselectCheckAsWritten(multiple: bool, count: nat): (r: Outcome)
    ensures r != Fatal(NoInput)
    ensures r == Ok <==> multiple
  {
    var isNull := false;
    if isNull then Fatal(NoInput)
    else if !multiple then Fatal(NotMultiselect)
    else Ok
  }

  /** The checks as intended, like the select-by keywords': no arguments fails first, then a
      single-select list fails. */
  function UnselectCheck(multiple: bool, count: nat): (r: Outcome)
    ensures r == Fatal(NoInput) <==> count == 0
    ensures r == Ok <==> count > 0 && multiple
    ensures r != Ok && count > 0 ==> r == Fatal(NotMultiselect)
  {
    if count == 0 then Fatal(NoInput)
    else if !multiple then Fatal(NotMultiselect)
    else Ok
  }

  // ---------------------------------------------------------------------------------------
  // Lemmas about the folds

  /** After marking, the options keep their values and texts, and an option is selected
      exactly when it was before or one of the hit lists marked it. */
  lemma {:induction false} MarkEachSelects(opts: seq<Option>, hitLists: seq<seq<nat>>, multiple: bool)
    ensures SameContent(MarkEach(opts, hitLists, multiple), opts)
    ensures forall i :: 0 <= i < |opts| ==>
      (MarkEach(opts, hitLists, multiple)[i].selected <==>
         opts[i].selected || exists k :: 0 <= k < |hitLists| && i in Take(hitLists[k], multiple))
    decreases |hitLists|
  {
    if hitLists != [] {
      var init := hitLists[..|hitLists| - 1];
      MarkEachSelects(opts, init, multiple);
      forall i | 0 <= i < |opts|
        ensures MarkEach(opts, hitLists, multiple)[i].selected <==>
          opts[i].selected || exists k :: 0 <= k < |hitLists| && i in Take(hitLists[k], multiple)
      {
        if exists k :: 0 <= k < |init| && i in Take(init[k], multiple) {
          var k :| 0 <= k < |init| && i in Take(init[k], multiple);
          assert hitLists[k] == init[k];
        }
        if exists k :: 0 <= k < |hitLists| && i in Take(hitLists[k], multiple) {
          var k :| 0 <= k < |hitLists| && i in Take(hitLists[k], multiple);
          if k < |init| {
            assert hitLists[k] == init[k];
          }
        }
      }
    }
  }

  /** After clearing, the options keep their values and texts, and an option is selected
      exactly when it was before and no hit list contains it. */
  lemma {:induction false} ClearEachClears(opts: seq<Option>, hitLists: seq<seq<nat>>)
    ensures SameContent(ClearEach(opts, hitLists), opts)
    ensures forall i :: 0 <= i < |opts| ==>
      (ClearEach(opts, hitLists)[i].selected <==>
         opts[i].selected && forall k :: 0 <= k < |hitLists| ==> i !in hitLists[k])
    decreases |hitLists|
  {
    if hitLists != [] {
      var init := hitLists[..|hitLists| - 1];
      ClearEachClears(opts, init);
      forall i | 0 <= i < |opts|
        ensures ClearEach(opts, hitLists)[i].selected <==>
          opts[i].selected && forall k :: 0 <= k < |hitLists| ==> i !in hitLists[k]
      {
        if !(forall k :: 0 <= k < |init| ==> i !in init[k]) {
          var k :| 0 <= k < |init| && i in init[k];
          assert hitLists[k] == init[k];
        }
        if !(forall k :: 0 <= k < |hitLists| ==> i !in hitLists[k]) {
          var k :| 0 <= k < |hitLists| && i in hitLists[k];
          if k < |init| {
            assert hitLists[k] == init[k];
          }
        }
      }
    }
  }

  /** The empty positions are increasing, in range, and are exactly the positions of the
      empty hit lists. */
  lemma {:induction false} EmptyPositionsExact(hitLists: seq<seq<nat>>)
    ensures var pos := EmptyPositions(hitLists);
      && Increasing(pos)
      && (forall j :: 0 <= j < |pos| ==> pos[j] < |hitLists|)
      && (forall i :: 0 <= i < |hitLists| ==> (i in pos <==> hitLists[i] == []))
    decreases |hitLists|
  {
    if hitLists != [] {
      var n := |hitLists|;
      var init := hitLists[..n - 1];
      var before := EmptyPositions(init);
      EmptyPositionsExact(init);
      if hitLists[n - 1] == [] {
        IncreasingSnoc(before, n - 1);
      }
      EmptyPositionsMembers(hitLists, before);
    }
  }

  /** The step of EmptyPositionsExact for membership. */
  lemma EmptyPositionsMembers(hitLists: seq<seq<nat>>, before: seq<nat>)
    requires hitLists != [] && before == EmptyPositions(hitLists[..|hitLists| - 1])
    requires forall i :: 0 <= i < |hitLists| - 1 ==> (i in before <==> hitLists[i] == [])
    requires forall j :: 0 <= j < |before| ==> before[j] < |hitLists| - 1
    ensures forall i :: 0 <= i < |hitLists| ==> (i in EmptyPositions(hitLists) <==> hitLists[i] == [])
  {
    var n := |hitLists|;
    var last: seq<nat> := if hitLists[n - 1] != [] then [] else [n - 1];
    assert EmptyPositions(hitLists) == before + last;
    forall i | 0 <= i < n
      ensures i in before + last <==> hitLists[i] == []
    {
      if i < n - 1 {
        assert i !in last;
      } else {
        assert i !in before;
      }
    }
  }

  /** The unfound items are exactly the items with an empty hit list, each at its position,
      in input order. */
  lemma {:induction false} UnfoundInOrder(items: seq<string>, hitLists: seq<seq<nat>>)
    requires |hitLists| == |items|
    ensures var pos := EmptyPositions(hitLists);
      && Increasing(pos)
      && |pos| == |Unfound(items, hitLists)|
      && (forall j :: 0 <= j < |pos| ==> pos[j] < |items| && items[pos[j]] == Unfound(items, hitLists)[j])
      && (forall i :: 0 <= i < |items| ==> (i in pos <==> hitLists[i] == []))
    decreases |items|
  {
    EmptyPositionsExact(hitLists);
    if items != [] {
      var n := |items|;
      UnfoundInOrder(items[..n - 1], hitLists[..n - 1]);
      UnfoundStep(items, hitLists);
    }
  }

  /** The step of UnfoundInOrder: one more item keeps the positions and the unfound items
      aligned. */
  lemma UnfoundStep(items: seq<string>, hitLists: seq<seq<nat>>)
    requires |hitLists| == |items| && items != []
    requires var n := |items|;
      var before := EmptyPositions(hitLists[..n - 1]);
      && |before| == |Unfound(items[..n - 1], hitLists[..n - 1])|
      && forall j :: 0 <= j < |before| ==>
        before[j] < n - 1 && items[..n - 1][before[j]] == Unfound(items[..n - 1], hitLists[..n - 1])[j]
    ensures var pos := EmptyPositions(hitLists);
      && |pos| == |Unfound(items, hitLists)|
      && forall j :: 0 <= j < |pos| ==> pos[j] < |items| && items[pos[j]] == Unfound(items, hitLists)[j]
  {
    var n := |items|;
    var init, initLists := items[..n - 1], hitLists[..n - 1];
    var pos, before := EmptyPositions(hitLists), EmptyPositions(initLists);
    var un, unBefore := Unfound(items, hitLists), Unfound(init, initLists);
    assert pos == before + (if hitLists[n - 1] != [] then [] else [n - 1]);
    assert un == unBefore + (if hitLists[n - 1] != [] then [] else [items[n - 1]]);
    forall j | 0 <= j < |pos|
      ensures pos[j] < |items| && items[pos[j]] == un[j]
    {
      if j < |before| {
        assert pos[j] == before[j] && un[j] == unBefore[j];
        assert init[before[j]] == items[before[j]];
      }
    }
  }

  /** Every item is tried by value, in input order, and an item is tried by visible text only
      right after its own value attempt found nothing. */
  lemma {:induction false} TriesValueFirst(items: seq<string>, valueHits: seq<seq<nat>>)
    requires |valueHits| == |items|
    ensures forall i :: 0 <= i < |items| ==> SelectBy(Value(items[i])) in Tries(items, valueHits)
    ensures forall j, t :: 0 <= j < |Tries(items, valueHits)| && Tries(items, valueHits)[j] == SelectBy(VisibleText(t)) ==>
      j > 0 && Tries(items, valueHits)[j - 1] == SelectBy(Value(t))
      && exists i :: 0 <= i < |items| && items[i] == t && valueHits[i] == []
    decreases |items|
  {
    if items != [] {
      var n := |items|;
      var before := Tries(items[..n - 1], valueHits[..n - 1]);
      TriesValueFirst(items[..n - 1], valueHits[..n - 1]);
      assert forall i :: 0 <= i < n - 1 ==> items[..n - 1][i] == items[i] && valueHits[..n - 1][i] == valueHits[i];
      var all := Tries(items, valueHits);
      forall j, t | 0 <= j < |all| && all[j] == SelectBy(VisibleText(t))
        ensures j > 0 && all[j - 1] == SelectBy(Value(t))
        ensures exists i :: 0 <= i < |items| && items[i] == t && valueHits[i] == []
      {
        if j < |before| {
          assert before[j] == all[j];
          var i :| 0 <= i < n - 1 && items[..n - 1][i] == t && valueHits[..n - 1][i] == [];
          assert items[i] == t && valueHits[i] == [];
        } else {
          assert j == |before| + 1;
          assert items[n - 1] == t && valueHits[n - 1] == [];
        }
      }
    }
  }

  // ---------------------------------------------------------------------------------------
  // Lemmas about selectFromList

  /** An item is found exactly when it resolves to some option. */
  lemma FoundIff(opts: seq<Option>, item: string)
    ensures Found(opts, item) <==> ItemHits(opts, item) != []
  {
  }

  /** The misses are exactly the items found neither way, in input order: the subsequence
      of the items at the positions of the unfound ones, repeats included. */
  lemma MissesAreTheUnfoundItems(opts: seq<Option>, items: seq<string>)
    ensures var pos := MissPositions(opts, items);
      && |pos| == |Misses(opts, items)| && Increasing(pos)
      && (forall j :: 0 <= j < |pos| ==> pos[j] < |items| && items[pos[j]] == Misses(opts, items)[j])
      && (forall i :: 0 <= i < |items| ==> (i in pos <==> !Found(opts, items[i])))
    ensures forall j :: 0 <= j < |Misses(opts, items)| ==> Misses(opts, items)[j] in items
    ensures forall j :: 0 <= j < |Misses(opts, items)| ==> !Found(opts, Misses(opts, items)[j])
    ensures forall i :: 0 <= i < |items| && !Found(opts, items[i]) ==> items[i] in Misses(opts, items)
    ensures Misses(opts, items) == [] <==> forall i :: 0 <= i < |items| ==> Found(opts, items[i])
  {
    MissesPositions(opts, items);
    SubsequenceOfUnfound(opts, items, Misses(opts, items), MissPositions(opts, items));
  }

  /** A sequence taken from the items at exactly the positions of the unfound ones holds
      only unfound items, every unfound item, and is empty exactly when all are found. */
  lemma SubsequenceOfUnfound(opts: seq<Option>, items: seq<string>, misses: seq<string>, pos: seq<nat>)
    requires |pos| == |misses|
    requires forall j :: 0 <= j < |pos| ==> pos[j] < |items| && items[pos[j]] == misses[j]
    requires forall i :: 0 <= i < |items| ==> (i in pos <==> !Found(opts, items[i]))
    ensures forall j :: 0 <= j < |misses| ==> misses[j] in items && !Found(opts, misses[j])
    ensures forall i :: 0 <= i < |items| && !Found(opts, items[i]) ==> items[i] in misses
    ensures misses == [] <==> forall i :: 0 <= i < |items| ==> Found(opts, items[i])
  {
    forall j | 0 <= j < |misses|
      ensures misses[j] in items && !Found(opts, misses[j])
    {
      assert pos[j] in pos;
    }
    forall i | 0 <= i < |items| && !Found(opts, items[i])
      ensures items[i] in misses
    {
      var j :| 0 <= j < |pos| && pos[j] == i;
    }
    if misses != [] {
      assert !Found(opts, misses[0]);
    }
  }

  /** The positions of the misses: those of the unfound items, increasing, each holding
      the corresponding miss. */
  lemma MissesPositions(opts: seq<Option>, items: seq<string>)
    ensures var pos := MissPositions(opts, items);
      && |pos| == |Misses(opts, items)| && Increasing(pos)
      && (forall j :: 0 <= j < |pos| ==> pos[j] < |items| && items[pos[j]] == Misses(opts, items)[j])
      && (forall i :: 0 <= i < |items| ==> (i in pos <==> !Found(opts, items[i])))
  {
    var lists := ItemHitLists(opts, items);
    UnfoundInOrder(items, lists);
    forall i | 0 <= i < |items|
      ensures lists[i] == [] <==> !Found(opts, items[i])
    {
      FoundIff(opts, items[i]);
    }
  }

  /** The last miss is the last item whenever the last item is not found. */
  lemma LastMissIsLastItem(opts: seq<Option>, items: seq<string>)
    requires items != [] && !Found(opts, items[|items| - 1])
    ensures Misses(opts, items) != [] && Misses(opts, items)[|Misses(opts, items)| - 1] == items[|items| - 1]
  {
    FoundIff(opts, items[|items| - 1]);
  }

  /** The escalation of `selectFromList`, case by case: no misses is success; a multi-select
      list fails naming every miss; a single-select list whose last item was found only warns;
      a single-select list whose last item missed warns and fails naming that item. */
  lemma SelectFromListEscalation(opts: seq<Option>, multiple: bool, items: seq<string>)
    requires items != []
    ensures Misses(opts, items) == [] ==> SelectFromListOutcome(opts, multiple, items) == Ok
    ensures multiple && Misses(opts, items) != [] ==>
      SelectFromListOutcome(opts, multiple, items) == Fatal(OptionsNotFound(Misses(opts, items)))
    ensures !multiple && Found(opts, items[|items| - 1]) ==>
      SelectFromListOutcome(opts, multiple, items) == if Misses(opts, items) == [] then Ok else Warn(Misses(opts, items))
    ensures !multiple && !Found(opts, items[|items| - 1]) ==>
      SelectFromListOutcome(opts, multiple, items) == Fail(OptionNotFound(items[|items| - 1]), Misses(opts, items))
  {
    if !Found(opts, items[|items| - 1]) {
      LastMissIsLastItem(opts, items);
    }
  }

  /** `selectFromList` with items fails exactly when the list is multi-select and some item
      missed, or the list is single-select and the last item missed. */
  lemma SelectFromListFailsIff(opts: seq<Option>, multiple: bool, items: seq<string>)
    requires items != []
    ensures SelectFromListOutcome(opts, multiple, items).Fail? <==>
      (multiple && exists i :: 0 <= i < |items| && !Found(opts, items[i]))
      || (!multiple && !Found(opts, items[|items| - 1]))
  {
    MissesAreTheUnfoundItems(opts, items);
    if !Found(opts, items[|items| - 1]) {
      LastMissIsLastItem(opts, items);
    }
  }

  /** `selectFromList` tries every item by value, in input order, and an item by visible
      text only right after its own value attempt found nothing. */
  lemma AttemptsValueFirst(opts: seq<Option>, items: seq<string>)
    ensures forall i :: 0 <= i < |items| ==> SelectBy(Value(items[i])) in Attempts(opts, items)
    ensures forall j, t :: 0 <= j < |Attempts(opts, items)| && Attempts(opts, items)[j] == SelectBy(VisibleText(t)) ==>
      j > 0 && Attempts(opts, items)[j - 1] == SelectBy(Value(t)) && Hits(opts, Value(t)) == []
  {
    var lists := ValueHitLists(opts, items);
    TriesValueFirst(items, lists);
    forall j, t | 0 <= j < |Attempts(opts, items)| && Attempts(opts, items)[j] == SelectBy(VisibleText(t))
      ensures Hits(opts, Value(t)) == []
    {
      var i :| 0 <= i < |items| && items[i] == t && lists[i] == [];
    }
  }

  /** After `selectFromList`'s items the options keep their values and texts, and an option
      is selected exactly when it was before or some item marked it: on a multi-select list
      every option an item resolves to, on a single-select list the first of them. */
  lemma ApplyItemsSelects(opts: seq<Option>, multiple: bool, items: seq<string>)
    ensures SameContent(ApplyItems(opts, multiple, items), opts)
    ensures forall i :: 0 <= i < |opts| ==>
      (ApplyItems(opts, multiple, items)[i].selected <==>
         opts[i].selected || exists k :: 0 <= k < |items| && i in Take(ItemHits(opts, items[k]), multiple))
  {
    var lists := ItemHitLists(opts, items);
    MarkEachSelects(opts, lists, multiple);
    assert forall k :: 0 <= k < |items| ==> lists[k] == ItemHits(opts, items[k]);
  }

  /** A direct selector succeeds exactly when every locator finds an option, and otherwise
      fails naming the first one that does not. */
  lemma SelectEachOutcomeIff(opts: seq<Option>, hows: seq<Locate>)
    ensures SelectEachOutcome(opts, hows) == Ok <==> forall j :: 0 <= j < |hows| ==> Hits(opts, hows[j]) != []
    ensures SelectEachOutcome(opts, hows) != Ok ==>
      var k := FirstMiss(opts, hows);
      && k < |hows| && Hits(opts, hows[k]) == []
      && SelectEachOutcome(opts, hows) == Fatal(NotFound(hows[k]))
      && (forall j :: 0 <= j < k ==> Hits(opts, hows[j]) != [])
  {
  }

  /** After deselection the options keep their values and texts, and an option is selected
      exactly when it was before and no deselect primitive found it. */
  lemma DeselectEachClears(opts: seq<Option>, hows: seq<Locate>)
    ensures SameContent(DeselectEach(opts, hows), opts)
    ensures forall i :: 0 <= i < |opts| ==>
      (DeselectEach(opts, hows)[i].selected <==>
         opts[i].selected && forall k :: 0 <= k < |hows| ==> i !in DeselectHits(opts, hows[k]))
  {
    var lists := DeselectHitLists(opts, hows);
    ClearEachClears(opts, lists);
    assert forall k :: 0 <= k < |hows| ==> lists[k] == DeselectHits(opts, hows[k]);
  }

  /** Selecting every index of a multi-select list selects every option and changes no
      value or text. */
  lemma SelectAllSelectsEverything(opts: seq<Option>)
    ensures SameContent(ApplyEach(opts, true, AllIndices(|opts|)), opts)
    ensures forall i :: 0 <= i < |opts| ==> ApplyEach(opts, true, AllIndices(|opts|))[i].selected
  {
    var hows := AllIndices(|opts|);
    var lists := HitLists(opts, hows);
    MarkEachSelects(opts, lists, true);
    forall i | 0 <= i < |opts|
      ensures ApplyEach(opts, true, hows)[i].selected
    {
      assert lists[i] == [i];
      assert i in Take(lists[i], true);
    }
  }

  /** The unselect-by checks as written never report missing arguments: with none on a
      multi-select list they pass and nothing is deselected. */
  lemma UnselectGuardNeverFires()
    ensures UnselectCheckAsWritten(true, 0) == Ok
    ensures UnselectCheck(true, 0) == Fatal(NoInput)
  {
  }

  // ---------------------------------------------------------------------------------------
  // One more item: how each fold grows by one step (used by the keyword loops)

  lemma ApplyItemsStep(opts: seq<Option>, multiple: bool, items: seq<string>, k: nat)
    requires k < |items|
    ensures ApplyItems(opts, multiple, items[..k + 1])
      == SetSelected(ApplyItems(opts, multiple, items[..k]), Take(ItemHits(opts, items[k]), multiple), true)
  {
    assert items[..k + 1][..k] == items[..k];
    assert ItemHitLists(opts, items[..k + 1])[..k] == ItemHitLists(opts, items[..k]);
  }

  lemma AttemptsSnoc(opts: seq<Option>, items: seq<string>, k: nat)
    requires k < |items|
    ensures Hits(opts, Value(items[k])) != [] ==>
      Attempts(opts, items[..k + 1]) == Attempts(opts, items[..k]) + [SelectBy(Value(items[k]))]
    ensures Hits(opts, Value(items[k])) == [] ==>
      Attempts(opts, items[..k + 1])
      == Attempts(opts, items[..k]) + [SelectBy(Value(items[k])), SelectBy(VisibleText(items[k]))]
  {
    assert items[..k + 1][..k] == items[..k];
    assert ValueHitLists(opts, items[..k + 1])[..k] == ValueHitLists(opts, items[..k]);
  }

  lemma ApplyEachStep(opts: seq<Option>, multiple: bool, hows: seq<Locate>, k: nat)
    requires k < |hows|
    ensures ApplyEach(opts, multiple, hows[..k + 1])
      == SetSelected(ApplyEach(opts, multiple, hows[..k]), Take(Hits(opts, hows[k]), multiple), true)
  {
    assert hows[..k + 1][..k] == hows[..k];
    assert HitLists(opts, hows[..k + 1])[..k] == HitLists(opts, hows[..k]);
  }

  lemma DeselectEachStep(opts: seq<Option>, hows: seq<Locate>, k: nat)
    requires k < |hows|
    ensures DeselectEach(opts, hows[..k + 1])
      == SetSelected(DeselectEach(opts, hows[..k]), DeselectHits(opts, hows[k]), false)
  {
    assert hows[..k + 1][..k] == hows[..k];
    assert DeselectHitLists(opts, hows[..k + 1])[..k] == DeselectHitLists(opts, hows[..k]);
  }

  lemma DeselectBothWaysStep(opts: seq<Option>, items: seq<string>, k: nat)
    requires k < |items|
    ensures DeselectEach(opts, BothWays(items[..k + 1]))
      == SetSelected(SetSelected(DeselectEach(opts, BothWays(items[..k])),
           DeselectHits(opts, Value(items[k])), false), DeselectHits(opts, VisibleText(items[k])), false)
    ensures DeselectSteps(BothWays(items[..k + 1]))
      == DeselectSteps(BothWays(items[..k])) + [DeselectBy(Value(items[k])), DeselectBy(VisibleText(items[k]))]
  {
    BothWaysSnoc(items, k);
    DeselectEachTwo(opts, BothWays(items[..k]), Value(items[k]), VisibleText(items[k]));
    BothWaysStepsSnoc(BothWays(items[..k]), items[k]);
  }

  lemma BothWaysSnoc(items: seq<string>, k: nat)
    requires k < |items|
    ensures BothWays(items[..k + 1]) == BothWays(items[..k]) + [Value(items[k]), VisibleText(items[k])]
  {
    assert items[..k + 1][..k] == items[..k];
  }

  /** Two deselect primitives after `prev`. */
  lemma DeselectEachTwo(opts: seq<Option>, prev: seq<Locate>, a: Locate, b: Locate)
    ensures DeselectEach(opts, prev + [a, b])
      == SetSelected(SetSelected(DeselectEach(opts, prev), DeselectHits(opts, a), false), DeselectHits(opts, b), false)
  {
    var hows := prev + [a, b];
    var n := |prev|;
    assert hows[..n] == prev;
    assert hows[..n + 2] == hows;
    DeselectEachStep(opts, hows, n);
    DeselectEachStep(opts, hows, n + 1);
  }

  lemma BothWaysStepsSnoc(prev: seq<Locate>, item: string)
    ensures DeselectSteps(prev + [Value(item), VisibleText(item)])
      == DeselectSteps(prev) + [DeselectBy(Value(item)), DeselectBy(VisibleText(item))]
  {
  }

  /** One deselect primitive applied to the list after the first `k` primitives gives the
      list after `k + 1`. */
  lemma DeselectEachNext(opts: seq<Option>, cur: seq<Option>, hows: seq<Locate>, k: nat)
    requires k < |hows| && cur == DeselectEach(opts, hows[..k])
    ensures SetSelected(cur, DeselectHits(cur, hows[k]), false) == DeselectEach(opts, hows[..k + 1])
  {
    ClearEachClears(opts, DeselectHitLists(opts, hows[..k]));
    HitsSameContent(cur, opts, hows[k]);
    DeselectEachStep(opts, hows, k);
  }

  /** One select primitive applied to the list after the first `k` primitives gives the
      list after `k + 1`; it finds what it would have found on the list before them. */
  lemma ApplyEachNext(opts: seq<Option>, cur: seq<Option>, multiple: bool, hows: seq<Locate>, k: nat)
    requires k < |hows| && cur == ApplyEach(opts, multiple, hows[..k])
    ensures Apply(cur, multiple, hows[k]) == ApplyEach(opts, multiple, hows[..k + 1])
    ensures Hits(cur, hows[k]) == Hits(opts, hows[k])
    ensures Hits(cur, hows[k]) == [] ==> Apply(cur, multiple, hows[k]) == cur
  {
    MarkEachSelects(opts, HitLists(opts, hows[..k]), multiple);
    HitsSameContent(cur, opts, hows[k]);
    ApplyEachStep(opts, multiple, hows, k);
    SetSelectedNothing(cur, true);
  }

  /** One item of `selectFromList` applied to the list after the first `k` items gives the
      list after `k + 1`: a value selection that finds something, or else a value selection
      that changes nothing followed by a visible-text selection. */
  lemma ApplyItemsNext(opts: seq<Option>, cur: seq<Option>, multiple: bool, items: seq<string>, k: nat)
    requires k < |items| && cur == ApplyItems(opts, multiple, items[..k])
    ensures Hits(cur, Value(items[k])) == Hits(opts, Value(items[k]))
    ensures Hits(cur, VisibleText(items[k])) == Hits(opts, VisibleText(items[k]))
    ensures Hits(cur, Value(items[k])) != [] ==>
      Apply(cur, multiple, Value(items[k])) == ApplyItems(opts, multiple, items[..k + 1])
    ensures Hits(cur, Value(items[k])) == [] ==>
      Apply(cur, multiple, Value(items[k])) == cur
      && Apply(cur, multiple, VisibleText(items[k])) == ApplyItems(opts, multiple, items[..k + 1])
  {
    MarkEachSelects(opts, ItemHitLists(opts, items[..k]), multiple);
    HitsSameContent(cur, opts, Value(items[k]));
    HitsSameContent(cur, opts, VisibleText(items[k]));
    ApplyItemsStep(opts, multiple, items, k);
    SetSelectedNothing(cur, true);
  }

  /** Deselecting one more item by value and then by visible text, applied to the list after
      the first `k` items, gives the list after `k + 1`. */
  lemma DeselectBothWaysNext(opts: seq<Option>, cur: seq<Option>, items: seq<string>, k: nat)
    requires k < |items| && cur == DeselectEach(opts, BothWays(items[..k]))
    ensures var mid := SetSelected(cur, DeselectHits(cur, Value(items[k])), false);
      SetSelected(mid, DeselectHits(mid, VisibleText(items[k])), false) == DeselectEach(opts, BothWays(items[..k + 1]))
    ensures DeselectSteps(BothWays(items[..k + 1]))
      == DeselectSteps(BothWays(items[..k])) + [DeselectBy(Value(items[k])), DeselectBy(VisibleText(items[k]))]
  {
    ClearEachClears(opts, DeselectHitLists(opts, BothWays(items[..k])));
    var mid := SetSelected(cur, DeselectHits(cur, Value(items[k])), false);
    HitsSameContent(cur, opts, Value(items[k]));
    HitsSameContent(mid, opts, VisibleText(items[k]));
    DeselectBothWaysStep(opts, items, k);
  }

  /** A locator list whose first `k` locators find something and whose locator `k`, if
      any, finds nothing, first misses at `k`. */
  lemma FirstMissAt(opts: seq<Option>, hows: seq<Locate>, k: nat)
    requires k <= |hows|
    requires forall j :: 0 <= j < k ==> Hits(opts, hows[j]) != []
    requires k < |hows| ==> Hits(opts, hows[k]) == []
    ensures FirstMiss(opts, hows) == k
    ensures SelectEachOutcome(opts, hows) == if k < |hows| then Fatal(NotFound(hows[k])) else Ok
  {
  }

  lemma StepsSnoc(hows: seq<Locate>, k: nat)
    requires k < |hows|
    ensures SelectSteps(hows[..k + 1]) == SelectSteps(hows[..k]) + [SelectBy(hows[k])]
    ensures DeselectSteps(hows[..k + 1]) == DeselectSteps(hows[..k]) + [DeselectBy(hows[k])]
  {
  }

  lemma MissesSnoc(opts: seq<Option>, items: seq<string>, k: nat)
    requires k < |items|
    ensures Misses(opts, items[..k + 1])
      == Misses(opts, items[..k]) + (if Found(opts, items[k]) then [] else [items[k]])
  {
    assert items[..k + 1][..k] == items[..k];
    assert ItemHitLists(opts, items[..k + 1])[..k] == ItemHitLists(opts, items[..k]);
    FoundIff(opts, items[k]);
  }
}
