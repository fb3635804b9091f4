/** How a token is resolved to options: the XPath queries the manual selectors run
    (`@value = token`, `normalize-space(.) = token`, `contains(., word)`, every option),
    the exact-then-fallback text match, and what selecting the hits does to the list. */
module Matching {
  import opened Options
  import opened Text

  /** The option queries issued against the page. */
  datatype Query =
    | ValueIs(value: string)              // .//option[@value = value]
    | NormalizedTextIs(text: string)      // .//option[normalize-space(.) = text]
    | TextIs(text: string)                // option.getText() equals text
    | TextContains(fragment: string)      // .//option[contains(., fragment)]
    | AnyOption                           // every option element

  predicate Hit(o: Option, q: Query) {
    match q
    case ValueIs(v) => o.value == v
    case NormalizedTextIs(t) => NormalizeSpace(o.text) == t
    case TextIs(t) => o.text == t
    case TextContains(w) => Contains(o.text, w)
    case AnyOption => true
  }

  /** Positions listed in strictly increasing (document) order. */
  predicate Increasing(r: seq<nat>) {
    forall a, b :: 0 <= a < b < |r| ==> r[a] < r[b]
  }

  /** The positions of the options a query finds, in document order. */
  function Find(opts: seq<Option>, q: Query): (r: seq<nat>)
    ensures Increasing(r)
    ensures forall j :: 0 <= j < |r| ==> r[j] < |opts| && Hit(opts[r[j]], q)
    ensures forall i :: 0 <= i < |opts| && Hit(opts[i], q) ==> i in r
  {
    if opts == [] then []
    else
      var r := Find(opts[..|opts| - 1], q);
      if Hit(opts[|opts| - 1], q) then r + [|opts| - 1] else r
  }

  /** The candidates, in their order, whose option also satisfies `q`. */
  function Refine(opts: seq<Option>, cand: seq<nat>, q: Query): (r: seq<nat>)
    ensures forall j :: 0 <= j < |r| ==> r[j] in cand && r[j] < |opts| && Hit(opts[r[j]], q)
    ensures forall j :: 0 <= j < |cand| && cand[j] < |opts| && Hit(opts[cand[j]], q) ==> cand[j] in r
  {
    if cand == [] then []
    else
      var r := Refine(opts, cand[..|cand| - 1], q);
      var c := cand[|cand| - 1];
      if c < |opts| && Hit(opts[c], q) then r + [c] else r
  }

  /** The fallback's candidates: every option when the token has no non-space character,
      otherwise the options whose text contains the token's longest word. */
  function FallbackCandidates(opts: seq<Option>, token: string): seq<nat> {
    var word := LongestWord(token);
    if word == "" then Find(opts, AnyOption) else Find(opts, TextContains(word))
  }

  /** The options a visible-text selection marks (before the single-select cut): those whose
      normalized text equals the token; if there are none and the token contains a space,
      the fallback candidates whose text equals the token exactly. */
  function TextHits(opts: seq<Option>, token: string): seq<nat> {
    var exact := Find(opts, NormalizedTextIs(token));
    if exact != [] then exact
    else if ' ' in token then Refine(opts, FallbackCandidates(opts, token), TextIs(token))
    else []
  }

  /** The options a select primitive finds. */
  function Hits(opts: seq<Option>, how: Locate): seq<nat> {
    match how
    case Index(i) => if i < |opts| then [i] else []
    case Value(v) => Find(opts, ValueIs(v))
    case VisibleText(t) => TextHits(opts, t)
  }

  /** The options a deselect primitive finds: by position, by value, or by normalized text. */
  function DeselectHits(opts: seq<Option>, how: Locate): seq<nat> {
    match how
    case Index(i) => if i < |opts| then [i] else []
    case Value(v) => Find(opts, ValueIs(v))
    case VisibleText(t) => Find(opts, NormalizedTextIs(t))
  }

  /** The hits a selection actually marks: all of them on a multi-select list, only the
      first on a single-select list (the marking loop returns after its first option). */
  function Take(hits: seq<nat>, multiple: bool): seq<nat> {
    if multiple || hits == [] then hits else [hits[0]]
  }

  /** The list after a select primitive. */
  function Apply(opts: seq<Option>, multiple: bool, how: Locate): seq<Option> {
    SetSelected(opts, Take(Hits(opts, how), multiple), true)
  }

  // ---------------------------------------------------------------------------------------
  // Lemmas

  lemma FirstIsMember(b: seq<nat>)
    ensures b != [] ==> b[0] in b
  {
  }

  /** Two increasing position lists with the same members are equal. */
  lemma {:induction false} IncreasingUnique(a: seq<nat>, b: seq<nat>)
    requires Increasing(a) && Increasing(b)
    requires forall x :: x in a <==> x in b
    ensures a == b
  {
    if a == [] {
      FirstIsMember(b);
    } else {
      assert a[0] in b;
      assert b[0] in a;
      assert a[0] == b[0];
      forall x
        ensures x in a[1..] <==> x in b[1..]
      {
        if x in a[1..] {
          assert x in b && x != b[0];
        }
        if x in b[1..] {
          assert x in a && x != a[0];
        }
      }
      IncreasingUnique(a[1..], b[1..]);
    }
  }

  /** Narrowing the options found by `q1` with a stronger query `q2` finds what `q2` finds. */
  lemma RefineFind(opts: seq<Option>, q1: Query, q2: Query)
    requires forall o :: Hit(o, q2) ==> Hit(o, q1)
    ensures Refine(opts, Find(opts, q1), q2) == Find(opts, q2)
  {
    var cand := Find(opts, q1);
    var r := Refine(opts, cand, q2);
    var f := Find(opts, q2);
    RefineIncreasing(opts, cand, q2);
    forall x
      ensures x in r <==> x in f
    {
      if x in f {
        assert Hit(opts[x], q1);
        assert x in cand;
      }
    }
    IncreasingUnique(r, f);
  }

  /** The substring fallback is exactly a search for options whose text equals the token:
      its candidate narrowing never loses an option the exact filter keeps. */
  lemma FallbackIsExactText(opts: seq<Option>, token: string)
    ensures Refine(opts, FallbackCandidates(opts, token), TextIs(token)) == Find(opts, TextIs(token))
  {
    var word := LongestWord(token);
    LongestWordSpec(token);
    if word == "" {
      RefineFind(opts, AnyOption, TextIs(token));
    } else {
      forall o | Hit(o, TextIs(token))
        ensures Hit(o, TextContains(word))
      {
      }
      RefineFind(opts, TextContains(word), TextIs(token));
    }
  }

  /** A query finds something exactly when some option satisfies it. */
  lemma FindNonEmptyIff(opts: seq<Option>, q: Query)
    ensures Find(opts, q) != [] <==> exists i :: 0 <= i < |opts| && Hit(opts[i], q)
  {
    if exists i :: 0 <= i < |opts| && Hit(opts[i], q) {
      var i :| 0 <= i < |opts| && Hit(opts[i], q);
      assert i in Find(opts, q);
    }
  }

  /** A visible-text selection finds something exactly when some option's normalized text
      equals the token, or the token contains a space and some option's text equals it. */
  lemma TextFoundIff(opts: seq<Option>, token: string)
    ensures TextHits(opts, token) != [] <==>
      (exists i :: 0 <= i < |opts| && Hit(opts[i], NormalizedTextIs(token)))
      || (' ' in token && exists i :: 0 <= i < |opts| && Hit(opts[i], TextIs(token)))
    ensures TextHits(opts, token) == Find(opts, NormalizedTextIs(token)) ||
      (' ' in token && TextHits(opts, token) == Find(opts, TextIs(token)))
    ensures Find(opts, NormalizedTextIs(token)) != [] ==> TextHits(opts, token) == Find(opts, NormalizedTextIs(token))
    ensures Find(opts, NormalizedTextIs(token)) == [] ==>
      TextHits(opts, token) == (if ' ' in token then Find(opts, TextIs(token)) else [])
  {
    FallbackIsExactText(opts, token);
    FindNonEmptyIff(opts, NormalizedTextIs(token));
    FindNonEmptyIff(opts, TextIs(token));
  }

  /** For a token that is already normalized the fallback never finds anything new: every
      option whose text equals the token also has normalized text equal to it. */
  lemma NormalizedTokenNeedsNoFallback(opts: seq<Option>, token: string)
    requires Normalized(token)
    ensures TextHits(opts, token) == Find(opts, NormalizedTextIs(token))
  {
    NormalizeSpaceKeepsNormalized(token);
    FallbackIsExactText(opts, token);
    if Find(opts, NormalizedTextIs(token)) == [] && ' ' in token {
      var f := Find(opts, TextIs(token));
      if f != [] {
        assert Hit(opts[f[0]], NormalizedTextIs(token));
        assert false;
      }
    }
  }

  /** Refining candidates in document order keeps them in document order. */
  lemma {:induction false} RefineIncreasing(opts: seq<Option>, cand: seq<nat>, q: Query)
    requires Increasing(cand)
    ensures Increasing(Refine(opts, cand, q))
    decreases |cand|
  {
    if cand != [] {
      var n := |cand|;
      var init := cand[..n - 1];
      IncreasingPrefix(cand, n - 1);
      RefineIncreasing(opts, init, q);
      RefineBelow(opts, init, q, cand[n - 1]);
      var r := Refine(opts, init, q);
      if cand[n - 1] < |opts| && Hit(opts[cand[n - 1]], q) {
        IncreasingSnoc(r, cand[n - 1]);
      }
    }
  }

  /** A prefix of an increasing sequence is increasing and lies below the next element. */
  lemma IncreasingPrefix(s: seq<nat>, k: nat)
    requires Increasing(s) && k <= |s|
    ensures Increasing(s[..k])
    ensures k < |s| ==> forall j :: 0 <= j < k ==> s[..k][j] < s[k]
  {
  }

  /** Appending an element above all others keeps a sequence increasing. */
  lemma IncreasingSnoc(s: seq<nat>, x: nat)
    requires Increasing(s) && forall j :: 0 <= j < |s| ==> s[j] < x
    ensures Increasing(s + [x])
  {
  }

  /** Refining candidates that are all below `x` gives positions below `x`. */
  lemma RefineBelow(opts: seq<Option>, cand: seq<nat>, q: Query, x: nat)
    requires forall j :: 0 <= j < |cand| ==> cand[j] < x
    ensures forall j :: 0 <= j < |Refine(opts, cand, q)| ==> Refine(opts, cand, q)[j] < x
  {
  }

  /** Refining one more candidate. */
  lemma RefineSnoc(opts: seq<Option>, cand: seq<nat>, q: Query, j: nat)
    requires j < |cand|
    ensures Refine(opts, cand[..j + 1], q)
      == Refine(opts, cand[..j], q) + if cand[j] < |opts| && Hit(opts[cand[j]], q) then [cand[j]] else []
  {
    assert cand[..j + 1][..j] == cand[..j];
  }

  /** Refining a prefix of the candidates gives a prefix of the refinement. */
  lemma {:induction false} RefinePrefix(opts: seq<Option>, cand: seq<nat>, q: Query, j: nat)
    requires j <= |cand|
    ensures |Refine(opts, cand[..j], q)| <= |Refine(opts, cand, q)|
    ensures Refine(opts, cand[..j], q) == Refine(opts, cand, q)[..|Refine(opts, cand[..j], q)|]
    decreases |cand|
  {
    if j < |cand| {
      RefinePrefix(opts, cand[..|cand| - 1], q, j);
      assert cand[..|cand| - 1][..j] == cand[..j];
    } else {
      assert cand[..j] == cand;
    }
  }

  /** Finding depends only on values and texts, never on which options are selected. */
  lemma FindSameContent(a: seq<Option>, b: seq<Option>, q: Query)
    requires SameContent(a, b)
    ensures Find(a, q) == Find(b, q)
  {
    forall i | 0 <= i < |a|
      ensures Hit(a[i], q) == Hit(b[i], q)
    {
    }
    IncreasingUnique(Find(a, q), Find(b, q));
  }

  lemma {:induction false} RefineSameContent(a: seq<Option>, b: seq<Option>, cand: seq<nat>, q: Query)
    requires SameContent(a, b)
    ensures Refine(a, cand, q) == Refine(b, cand, q)
  {
    if cand != [] {
      RefineSameContent(a, b, cand[..|cand| - 1], q);
      var c := cand[|cand| - 1];
      if c < |a| {
        assert Hit(a[c], q) == Hit(b[c], q);
      }
    }
  }

  /** What the select and deselect primitives find does not depend on the selection state. */
  lemma HitsSameContent(a: seq<Option>, b: seq<Option>, how: Locate)
    requires SameContent(a, b)
    ensures Hits(a, how) == Hits(b, how)
    ensures DeselectHits(a, how) == DeselectHits(b, how)
  {
    match how
    case Index(i) =>
    case Value(v) =>
      FindSameContent(a, b, ValueIs(v));
    case VisibleText(t) =>
      FindSameContent(a, b, NormalizedTextIs(t));
      FindSameContent(a, b, AnyOption);
      FindSameContent(a, b, TextContains(LongestWord(t)));
      RefineSameContent(a, b, FallbackCandidates(a, t), TextIs(t));
  }

  /** The hits of every primitive are valid positions, in document order. */
  lemma HitsInRange(opts: seq<Option>, how: Locate)
    ensures Increasing(Hits(opts, how)) && Increasing(DeselectHits(opts, how))
    ensures forall j :: 0 <= j < |Hits(opts, how)| ==> Hits(opts, how)[j] < |opts|
    ensures forall j :: 0 <= j < |DeselectHits(opts, how)| ==> DeselectHits(opts, how)[j] < |opts|
  {
    if how.VisibleText? {
      RefineIncreasing(opts, FallbackCandidates(opts, how.text), TextIs(how.text));
    }
  }

  /** What a select primitive does: on a multi-select list it marks every option it finds;
      on a single-select list it marks exactly the first of them in document order; every
      other option, and every value and text, is left as it was. */
  lemma ApplyMarks(opts: seq<Option>, multiple: bool, how: Locate)
    ensures SameContent(Apply(opts, multiple, how), opts)
    ensures multiple ==> forall i :: 0 <= i < |opts| ==>
      Apply(opts, multiple, how)[i].selected == (opts[i].selected || i in Hits(opts, how))
    ensures !multiple && Hits(opts, how) != [] ==>
      var k := Hits(opts, how)[0];
      && k < |opts|
      && (forall i :: 0 <= i < k ==> i !in Hits(opts, how))
      && Apply(opts, multiple, how) == opts[k := opts[k].(selected := true)]
    ensures Hits(opts, how) == [] ==> Apply(opts, multiple, how) == opts
  {
    HitsInRange(opts, how);
    var hits := Hits(opts, how);
    SetSelectedKeepsContent(opts, Take(hits, multiple), true);
    if hits == [] {
      SetSelectedNothing(opts, true);
    } else if !multiple {
      var k := hits[0];
      assert Take(hits, multiple) == [k];
      SetSelectedOne(opts, k, true);
      forall i | 0 <= i < k
        ensures i !in hits
      {
      }
    }
  }
}
