/** The keywords that read a select list without changing it: its labels, its selected
    options, their labels and values, and the two selection assertions. */
module Assertions {
  import opened Options
  import opened Matching

  /** The positions of the selected options, in document order. */
  function SelectedPositions(opts: seq<Option>): (pos: seq<nat>)
    ensures Increasing(pos)
    ensures forall j :: 0 <= j < |pos| ==> pos[j] < |opts|
    ensures forall i :: 0 <= i < |opts| ==> (i in pos <==> opts[i].selected)
  {
    if opts == [] then []
    else SelectedPositions(opts[..|opts| - 1]) + (if opts[|opts| - 1].selected then [|opts| - 1] else [])
  }

  /** The selected options, in document order: one entry per selected option, as the
      driver's all-selected lookup returns them. */
  function Selected(opts: seq<Option>): (r: seq<Option>)
    ensures |r| <= |opts|
    ensures forall j :: 0 <= j < |r| ==> r[j].selected && r[j] in opts
    ensures forall i :: 0 <= i < |opts| && opts[i].selected ==> opts[i] in r
  {
    if opts == [] then []
    else Selected(opts[..|opts| - 1]) + (if opts[|opts| - 1].selected then [opts[|opts| - 1]] else [])
  }

  /** The texts of the options, in order. */
  function Labels(opts: seq<Option>): seq<string> {
    seq(|opts|, i requires 0 <= i < |opts| => opts[i].text)
  }

  /** The `value` attributes of the options, in order. */
  function Values(opts: seq<Option>): seq<string> {
    seq(|opts|, i requires 0 <= i < |opts| => opts[i].value)
  }

  /** The first selected option, as the driver's first-selected lookup returns it: the
      options are scanned from the front and the lookup fails when none is selected. */
  function FirstSelected(opts: seq<Option>): (r: Result<Option>)
    ensures r.Failure? ==> r.error == NothingSelected
    ensures r.Success? ==> r.value.selected && r.value in opts
  {
    if opts == [] then Failure(NothingSelected)
    else if opts[0].selected then Success(opts[0])
    else FirstSelected(opts[1..])
  }

  /** Whether the items name the selection exactly as `listSelectionShouldBe` checks it:
      as many items as selected options, each item the value or the label of a selected
      option. */
  predicate SelectionMatches(items: seq<string>, sel: seq<Option>) {
    |items| == |sel| && forall j :: 0 <= j < |items| ==> items[j] in Values(sel) || items[j] in Labels(sel)
  }

  // ---------------------------------------------------------------------------------------
  // Keywords

  /** The texts of the options, in order. */
  method LabelsFor(opts: seq<Option>) returns (labels: seq<string>)
    ensures labels == Labels(opts)
  {
    labels := [];
    for i := 0 to |opts|
      invariant labels == Labels(opts[..i])
    {
      labels := labels + [opts[i].text];
    }
    assert opts[..|opts|] == opts;
  }

  /** The `value` attributes of the options, in order. */
  method ValuesFor(opts: seq<Option>) returns (values: seq<string>)
    ensures values == Values(opts)
  {
    values := [];
    for i := 0 to |opts|
      invariant values == Values(opts[..i])
    {
      values := values + [opts[i].value];
    }
    assert opts[..|opts|] == opts;
  }

  /** The labels of all options of the list. */
  method GetListItems(opts: seq<Option>) returns (items: seq<string>)
    ensures |items| == |opts| && forall i :: 0 <= i < |opts| ==> items[i] == opts[i].text
  {
    items := LabelsFor(opts);
  }

  /** The label of the first selected option; fails when nothing is selected. */
  function SelectedListLabel(opts: seq<Option>): (r: Result<string>)
    ensures r.Failure? <==> Selected(opts) == []
    ensures r.Failure? ==> r.error == NothingSelected
    ensures r.Success? ==> r.value == Selected(opts)[0].text
  {
    FirstSelectedIsFirstOfSelection(opts);
    match FirstSelected(opts)
    case Success(o) => Success(o.text)
    case Failure(e) => Failure(e)
  }

  /** The value of the first selected option; fails when nothing is selected. */
  function SelectedListValue(opts: seq<Option>): (r: Result<string>)
    ensures r.Failure? <==> Selected(opts) == []
    ensures r.Failure? ==> r.error == NothingSelected
    ensures r.Success? ==> r.value == Selected(opts)[0].value
  {
    FirstSelectedIsFirstOfSelection(opts);
    match FirstSelected(opts)
    case Success(o) => Success(o.value)
    case Failure(e) => Failure(e)
  }

  /** The labels of the selected options, in order; fails when nothing is selected. */
  method GetSelectedListLabels(opts: seq<Option>) returns (r: Result<seq<string>>)
    ensures r.Failure? <==> forall i :: 0 <= i < |opts| ==> !opts[i].selected
    ensures r.Failure? ==> r.error == NothingSelected
    ensures r.Success? ==> r.value == Labels(Selected(opts))
  {
    var options := Selected(opts);
    NothingSelectedIff(opts);
    if |options| == 0 {
      return Failure(NothingSelected);
    }
    var labels := LabelsFor(options);
    return Success(labels);
  }

  /** The values of the selected options, in order; fails when nothing is selected. */
  method GetSelectedListValues(opts: seq<Option>) returns (r: Result<seq<string>>)
    ensures r.Failure? <==> forall i :: 0 <= i < |opts| ==> !opts[i].selected
    ensures r.Failure? ==> r.error == NothingSelected
    ensures r.Success? ==> r.value == Values(Selected(opts))
  {
    var options := Selected(opts);
    NothingSelectedIff(opts);
    if |options| == 0 {
      return Failure(NothingSelected);
    }
    var values := ValuesFor(options);
    return Success(values);
  }

  /** Passes when the items name the selection (SelectionMatches); otherwise fails,
      reporting the items and the labels of the selection. */
  method ListSelectionShouldBe(opts: seq<Option>, items: seq<string>) returns (outcome: Outcome)
    ensures outcome == Ok <==> SelectionMatches(items, Selected(opts))
    ensures outcome != Ok ==> outcome == Fatal(SelectionMismatch(items, Labels(Selected(opts))))
  {
    var options := Selected(opts);
    var selectedLabels := LabelsFor(options);
    var mismatch := Fatal(SelectionMismatch(items, selectedLabels));
    if |items| != |options| {
      return mismatch;
    }
    var selectedValues := ValuesFor(options);
    for j := 0 to |items|
      invariant forall k :: 0 <= k < j ==> items[k] in selectedValues || items[k] in selectedLabels
    {
      if items[j] !in selectedValues && items[j] !in selectedLabels {
        return mismatch;
      }
    }
    return Ok;
  }

  /** `listShouldHaveNoSelections` as written: its guard compares the selection list with
      `null`, which a list that exists never equals, so it fails whatever is selected. */
  function ListShouldHaveNoSelectionsAsWritten(opts: seq<Option>): (r: Outcome)
    ensures r.Fail? && r.error.UnexpectedSelection?
  {
    var options := Selected(opts);
    var isNull := false;
    if !isNull then Fatal(UnexpectedSelection(Labels(options))) else Ok
  }

  /** `listShouldHaveNoSelections` as intended: passes exactly when no option is selected,
      and otherwise fails reporting the labels of the selection. */
  function ListShouldHaveNoSelections(opts: seq<Option>): (r: Outcome)
    ensures r == Ok <==> forall i :: 0 <= i < |opts| ==> !opts[i].selected
    ensures r != Ok ==> r == Fatal(UnexpectedSelection(Labels(Selected(opts))))
  {
    var options := Selected(opts);
    NothingSelectedIff(opts);
    if options != [] then Fatal(UnexpectedSelection(Labels(options))) else Ok
  }

  // ---------------------------------------------------------------------------------------
  // Lemmas

  /** The selection is empty exactly when no option is selected. */
  lemma NothingSelectedIff(opts: seq<Option>)
    ensures Selected(opts) == [] <==> forall i :: 0 <= i < |opts| ==> !opts[i].selected
  {
    if Selected(opts) != [] {
      var o := Selected(opts)[0];
      assert o in opts;
    }
  }

  /** The selection is the selected options in document order, one entry per selected
      option: its j-th entry is the option at the j-th selected position. */
  lemma {:induction false} SelectedInOrder(opts: seq<Option>)
    ensures |Selected(opts)| == |SelectedPositions(opts)|
    ensures forall j :: 0 <= j < |Selected(opts)| ==> Selected(opts)[j] == opts[SelectedPositions(opts)[j]]
    decreases |opts|
  {
    if opts != [] {
      var n := |opts|;
      var init := opts[..n - 1];
      SelectedInOrder(init);
      var sel, before := Selected(opts), Selected(init);
      var pos, posBefore := SelectedPositions(opts), SelectedPositions(init);
      assert sel == before + (if opts[n - 1].selected then [opts[n - 1]] else []);
      assert pos == posBefore + (if opts[n - 1].selected then [n - 1] else []);
      forall j | 0 <= j < |sel|
        ensures sel[j] == opts[pos[j]]
      {
        if j < |before| {
          assert sel[j] == before[j] == init[posBefore[j]];
          assert pos[j] == posBefore[j];
        }
      }
    }
  }

  /** The selection read from the front: the first option if it is selected, then the
      selection of the rest. */
  lemma {:induction false} SelectedFromFront(opts: seq<Option>)
    requires opts != []
    ensures Selected(opts) == (if opts[0].selected then [opts[0]] else []) + Selected(opts[1..])
    decreases |opts|
  {
    if |opts| > 1 {
      var n := |opts|;
      SelectedFromFront(opts[..n - 1]);
      assert opts[..n - 1][1..] == opts[1..][..n - 2];
      assert opts[..n - 1][0] == opts[0];
    }
  }

  /** The first-selected lookup returns the first option of the selection, and fails exactly
      when the selection is empty. */
  lemma {:induction false} FirstSelectedIsFirstOfSelection(opts: seq<Option>)
    ensures FirstSelected(opts).Success? <==> Selected(opts) != []
    ensures FirstSelected(opts).Success? ==> FirstSelected(opts).value == Selected(opts)[0]
    decreases |opts|
  {
    if opts != [] {
      SelectedFromFront(opts);
      FirstSelectedIsFirstOfSelection(opts[1..]);
    }
  }

  /** Asking for the current selection, by values or by labels, passes. */
  lemma CurrentSelectionMatches(opts: seq<Option>)
    ensures SelectionMatches(Values(Selected(opts)), Selected(opts))
    ensures SelectionMatches(Labels(Selected(opts)), Selected(opts))
  {
  }

  /** Giving no items checks that nothing is selected. */
  lemma NoItemsMatchIff(opts: seq<Option>)
    ensures SelectionMatches([], Selected(opts)) <==> forall i :: 0 <= i < |opts| ==> !opts[i].selected
  {
    NothingSelectedIff(opts);
  }

  /** The check counts items, not distinct items: naming one selected option twice passes
      for a selection of two. */
  lemma SelectionMatchIgnoresRepeats()
    ensures var opts := [Option("a", "A", true), Option("b", "B", true)];
      SelectionMatches(["a", "a"], Selected(opts)) && "b" !in ["a", "a"]
  {
    var opts := [Option("a", "A", true), Option("b", "B", true)];
    assert opts[..1] == [Option("a", "A", true)];
    assert Selected(opts) == opts;
    assert Values(opts)[0] == "a";
  }

  /** The check as written fails on a list with nothing selected. */
  lemma NoSelectionsAsWrittenFailsOnEmptySelection()
    ensures var opts := [Option("a", "A", false)];
      Selected(opts) == [] && ListShouldHaveNoSelectionsAsWritten(opts).Fail?
      && ListShouldHaveNoSelections(opts) == Ok
  {
    var opts := [Option("a", "A", false)];
    NothingSelectedIff(opts);
  }
}
