/** The data of a select list: its options, the ways an option is located, the calls the
    keywords issue to the driver, and the errors and warnings they report. */
module Options {

  /** One `<option>` of a select list: its `value` attribute, its text as the driver
      reports it, and whether it is currently selected. */
  datatype Option = Option(value: string, text: string, selected: bool)

  /** The three ways the keywords address an option: by position, by value, by visible text. */
  datatype Locate = Index(index: nat) | Value(value: string) | VisibleText(text: string)

  /** One select or deselect primitive issued against the list, in the order issued. */
  datatype Step = SelectBy(how: Locate) | DeselectBy(how: Locate) | DeselectEvery

  /** The failures the keywords raise. */
  datatype Error =
    | NotMultiselect                                        // "works only for multiselect lists"
    | NoInput                                               // "No index given." / "No value given."
    | OptionNotFound(item: string)                          // one value or label not in the list
    | OptionsNotFound(items: seq<string>)                   // several items not in the list
    | IndexNotFound(index: nat)                             // an index past the last option
    | SelectionMismatch(expected: seq<string>, actual: seq<string>)
    | UnexpectedSelection(actual: seq<string>)
    | NothingSelected                                       // "does not have any selected values"

  /** What a keyword reports: success, success with a warning naming the missing items,
      or failure (with the items a warning was logged for just before, if any). */
  datatype Outcome = Ok | Warn(missing: seq<string>) | Fail(error: Error, warned: seq<string>)

  /** The result of a keyword that returns a value. */
  datatype Result<T> = Success(value: T) | Failure(error: Error)

  /** A failure with no warning before it. */
  function Fatal(e: Error): Outcome {
    Fail(e, [])
  }

  /** `a` and `b` are the same options, up to which of them are selected. */
  predicate SameContent(a: seq<Option>, b: seq<Option>) {
    |a| == |b| && forall i :: 0 <= i < |a| ==> a[i].value == b[i].value && a[i].text == b[i].text
  }

  /** The options after setting `selected` to `on` on every option whose position is in `idx`. */
  function SetSelected(opts: seq<Option>, idx: seq<nat>, on: bool): seq<Option> {
    seq(|opts|, i requires 0 <= i < |opts| => if i in idx then opts[i].(selected := on) else opts[i])
  }

  lemma SetSelectedNothing(opts: seq<Option>, on: bool)
    ensures SetSelected(opts, [], on) == opts
  {
  }

  lemma SetSelectedKeepsContent(opts: seq<Option>, idx: seq<nat>, on: bool)
    ensures SameContent(SetSelected(opts, idx, on), opts)
  {
  }

  /** Setting one position is an update of that position. */
  lemma SetSelectedOne(opts: seq<Option>, k: nat, on: bool)
    requires k < |opts|
    ensures SetSelected(opts, [k], on) == opts[k := opts[k].(selected := on)]
  {
  }

  /** Appending a step to a trace. */
  lemma AppendOne<T>(trace: seq<T>, done: seq<T>, a: T)
    ensures trace + done + [a] == trace + (done + [a])
  {
  }

  /** Appending two steps one after the other to a trace. */
  lemma AppendTwo<T>(trace: seq<T>, done: seq<T>, a: T, b: T)
    ensures trace + done + [a] + [b] == trace + (done + [a, b])
  {
  }
}
