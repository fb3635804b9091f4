# Select-list keywords of Selenium2Library (Java port)

This project models the select-list keywords of `SelectElement`, from the Java port of
Robot Framework's Selenium2Library, and proves what they do to a select list.

The browser is replaced by an abstract select list: an array of options (`value`, visible
`text`, `selected`) and a flag saying whether the list is a multi-select list. On that list
the model covers:

- how a token is resolved to options:
  - by position, or by `value` attribute;
  - by visible text: first an exact match on XPath 1.0 `normalize-space` (section 4.2 of
    XPath 1.0), then, for a token with a space that found nothing, a substring search on
    the token's longest space-free word, filtered by exact text;
- the marking loops of the manual selectors. On a single-select list they stop after the
  first option they mark;
- the longest-word helper, modelled as a `StringTokenizer` on `" "`;
- the selection keywords:
  - `selectFromList`: value first, then visible text, for each item; misses collected in
    order; escalation by list kind; every index when no item is given;
  - `selectAllFromList`;
  - `selectFromListByIndex`, `selectFromListByValue` and `selectFromListByLabel`, which stop
    at the first locator that finds nothing;
- the deselection keywords: `unselectFromList` and the three `unselectFromListBy*`
  keywords, with their guards;
- the read-side keywords: `getListItems`, `getSelectedListLabel(s)`,
  `getSelectedListValue(s)`, `listSelectionShouldBe` and `listShouldHaveNoSelections`,
  together with the order-preserving label and value projections.

Modules, one file each:

| file | module | contents |
|---|---|---|
| `options.dfy` | `Options` | the option record, locators, the primitive calls, errors and outcomes |
| `text.dfy` | `Text` | tokenizer, `normalize-space`, longest word |
| `matching.dfy` | `Matching` | the option queries and what a primitive finds and marks |
| `policy.dfy` | `Policy` | the keywords' specification as functions of the list before the call |
| `select_list.dfy` | `SelectElement` | class `SelectList`, whose methods change the options array in place and are proved against `Policy` |
| `assertions.dfy` | `Assertions` | the keywords that only read the list |

`SelectList` also keeps a ghost trace, `calls`, of the select and deselect primitives issued
in order. The keyword methods state that trace exactly, which captures the following:

- the value-first order of `selectFromList`;
- that `selectFromList` tries every item, with no early exit;
- that a by-index, by-value or by-label selector issues nothing past its first miss.

## Model

| member | source | states |
|---|---|---|
| `Assertions.LabelsFor` | src/main/java/com/github/markusbernhardt/selenium2library/keywords/SelectElement.java:765-773 | the labels are the options' texts, one per option, in the options' order |
| `Assertions.ValuesFor` | src/main/java/com/github/markusbernhardt/selenium2library/keywords/SelectElement.java:797-805 | the values are the options' `value` fields, one per option, in the options' order; in the model that field is both the attribute the by-value match reads and the value Selenium reports |
| `Assertions.GetListItems` | src/main/java/com/github/markusbernhardt/selenium2library/keywords/SelectElement.java:64-68 | returns as many labels as options, the i-th being the i-th option's text |
| `Assertions.Selected` | src/main/java/com/github/markusbernhardt/selenium2library/keywords/SelectElement.java:791-795 | the selection contains only selected options of the list, and every selected option |
| `Assertions.SelectedPositions` | src/main/java/com/github/markusbernhardt/selenium2library/keywords/SelectElement.java:791-795 | the selected positions, increasing, in range, holding exactly the positions of selected options |
| `Assertions.SelectedInOrder` | src/main/java/com/github/markusbernhardt/selenium2library/keywords/SelectElement.java:791-795 | the selection has one entry per selected position, and its j-th entry is the option at the j-th selected position: the selected options in document order |
| `Assertions.FirstSelected` | src/main/java/com/github/markusbernhardt/selenium2library/keywords/SelectElement.java:84-88 | the first-selected lookup fails only with "nothing selected", and otherwise returns a selected option of the list |
| `Assertions.FirstSelectedIsFirstOfSelection` | src/main/java/com/github/markusbernhardt/selenium2library/keywords/SelectElement.java:84-88 | the lookup succeeds exactly when the selection is non-empty, and then returns its first option in document order |
| `Assertions.SelectedListLabel` | src/main/java/com/github/markusbernhardt/selenium2library/keywords/SelectElement.java:84-88 | fails with "nothing selected" exactly when no option is selected; otherwise returns the text of the first selected option |
| `Assertions.SelectedListValue` | src/main/java/com/github/markusbernhardt/selenium2library/keywords/SelectElement.java:134-138 | fails with "nothing selected" exactly when no option is selected; otherwise returns the value of the first selected option |
| `Assertions.NothingSelectedIff` | src/main/java/com/github/markusbernhardt/selenium2library/keywords/SelectElement.java:109-112 | the selection is empty exactly when no option is selected |
| `Assertions.GetSelectedListLabels` | src/main/java/com/github/markusbernhardt/selenium2library/keywords/SelectElement.java:106-117 | fails with "nothing selected" exactly when no option is selected; otherwise returns the labels of the selection, in order |
| `Assertions.GetSelectedListValues` | src/main/java/com/github/markusbernhardt/selenium2library/keywords/SelectElement.java:157-168 | fails with "nothing selected" exactly when no option is selected; otherwise returns the values of the selection, in order |
| `Assertions.ListSelectionShouldBe` | src/main/java/com/github/markusbernhardt/selenium2library/keywords/SelectElement.java:185-208 | passes exactly when the items number as many as the selected options and each is a selected value or label; otherwise fails with the items and the selection's labels |
| `Assertions.CurrentSelectionMatches` | src/main/java/com/github/markusbernhardt/selenium2library/keywords/SelectElement.java:196-206 | naming the current selection by its values, or by its labels, passes the check |
| `Assertions.NoItemsMatchIff` | src/main/java/com/github/markusbernhardt/selenium2library/keywords/SelectElement.java:196-206 | with no items the check passes exactly when nothing is selected |
| `Assertions.SelectionMatchIgnoresRepeats` | src/main/java/com/github/markusbernhardt/selenium2library/keywords/SelectElement.java:199-205 | items are checked one by one, not as a set: one selected value named twice passes for a selection of two |
| `Assertions.ListShouldHaveNoSelectionsAsWritten` | src/main/java/com/github/markusbernhardt/selenium2library/keywords/SelectElement.java:221-231 | as written, the keyword fails with "unexpected selection" whatever the list |
| `Assertions.NoSelectionsAsWrittenFailsOnEmptySelection` | src/main/java/com/github/markusbernhardt/selenium2library/keywords/SelectElement.java:224-230 | on a list with nothing selected the keyword as written fails, where the intended one passes |
| `Assertions.ListShouldHaveNoSelections` | src/main/java/com/github/markusbernhardt/selenium2library/keywords/SelectElement.java:221-231 | as intended: passes exactly when no option is selected, otherwise fails naming the labels of the selection |
| `Text.Fields` | src/main/java/com/github/markusbernhardt/selenium2library/keywords/SelectElement.java:479-485 | the tokens are non-empty and contain no delimiter |
| `Text.FieldsEmptyIff` | src/main/java/com/github/markusbernhardt/selenium2library/keywords/SelectElement.java:479-485 | a string has no tokens exactly when it is made of delimiters only |
| `Text.FieldsOccur` | src/main/java/com/github/markusbernhardt/selenium2library/keywords/SelectElement.java:479-485 | every token is a substring of the string |
| `Text.FieldsAreRuns` | src/main/java/com/github/markusbernhardt/selenium2library/keywords/SelectElement.java:479-485 | the m-th token is a maximal run of non-delimiters: it occurs at `FieldStart(m)`, holds no delimiter, and has a delimiter or an end of the string on each side |
| `Text.RunsAreFields` | src/main/java/com/github/markusbernhardt/selenium2library/keywords/SelectElement.java:479-485 | every maximal run of non-delimiters is a token, the one starting at the run's position |
| `Text.FieldStartIncreasing` | src/main/java/com/github/markusbernhardt/selenium2library/keywords/SelectElement.java:479-485 | later tokens start further right, so the tokens are the maximal runs in left-to-right order |
| `Text.StretchWithinField` | src/main/java/com/github/markusbernhardt/selenium2library/keywords/SelectElement.java:479-485 | every stretch of non-delimiters is no longer than some token |
| `Text.LongestSubstringWithoutSpace` | src/main/java/com/github/markusbernhardt/selenium2library/keywords/SelectElement.java:477-487 | the tokenizer loop returns the longest word of the string, keeping the first on a tie |
| `Text.LongestIsFirstMaximal` | src/main/java/com/github/markusbernhardt/selenium2library/keywords/SelectElement.java:480-485 | the strict `>` keeps a word at least as long as every other, and the first such word |
| `Text.LongestWordIsFirstLongestRun` | src/main/java/com/github/markusbernhardt/selenium2library/keywords/SelectElement.java:477-487 | on the string itself: no space-free substring is longer than the result, and a non-empty result is a maximal space-free run that every run starting before it is strictly shorter than |
| `Text.LongestWordSpec` | src/main/java/com/github/markusbernhardt/selenium2library/keywords/SelectElement.java:477-487 | the result is "" exactly when the string has no non-space character; otherwise it is a space-free substring of the string, as long as any token, and the first such token |
| `Text.NormalizeSpaceNormalizes` | src/main/java/com/github/markusbernhardt/selenium2library/keywords/SelectElement.java:438 | `normalize-space` yields no tabs or line breaks, no leading or trailing space and no double space |
| `Text.NormalizeSpaceKeepsNormalized` | src/main/java/com/github/markusbernhardt/selenium2library/keywords/SelectElement.java:438 | `normalize-space` leaves a string already in that form unchanged |
| `Text.NormalizeSpaceIdempotent` | src/main/java/com/github/markusbernhardt/selenium2library/keywords/SelectElement.java:438 | normalizing twice is normalizing once |
| `Matching.Find` | src/main/java/com/github/markusbernhardt/selenium2library/keywords/SelectElement.java:419-420 | an option query returns, in increasing document order, exactly the positions of the options it matches |
| `Matching.FindNonEmptyIff` | src/main/java/com/github/markusbernhardt/selenium2library/keywords/SelectElement.java:431-433 | a query finds nothing exactly when no option matches it, which is when the selector raises |
| `Matching.Refine` | src/main/java/com/github/markusbernhardt/selenium2library/keywords/SelectElement.java:462-470 | the filter keeps exactly those candidates whose option passes the test |
| `Matching.RefineFind` | src/main/java/com/github/markusbernhardt/selenium2library/keywords/SelectElement.java:457-470 | narrowing a weaker query's result with a stronger test gives the stronger query's result |
| `Matching.FallbackIsExactText` | src/main/java/com/github/markusbernhardt/selenium2library/keywords/SelectElement.java:452-469 | in the model, where one `text` stands for both the XPath string-value and `getText()`, the substring fallback finds exactly the options whose text equals the token: the longest-word narrowing loses none |
| `Matching.TextFoundIff` | src/main/java/com/github/markusbernhardt/selenium2library/keywords/SelectElement.java:436-475 | a visible-text selection finds something exactly when some normalized text equals the token, or the token has a space and some text equals it; its result is the exact match when that found something, and otherwise the options whose text equals a token with a space, or nothing for a token without one |
| `Matching.NormalizedTokenNeedsNoFallback` | src/main/java/com/github/markusbernhardt/selenium2library/keywords/SelectElement.java:452-469 | in the model, where one `text` stands for both the XPath string-value and `getText()`, an already normalized token is found by the fallback only where the exact match found it |
| `Matching.HitsInRange` | src/main/java/com/github/markusbernhardt/selenium2library/keywords/SelectElement.java:418-475 | every select and deselect primitive finds valid positions, in document order |
| `Matching.HitsSameContent` | src/main/java/com/github/markusbernhardt/selenium2library/keywords/SelectElement.java:418-475 | what a primitive finds depends only on values and texts, not on the current selection |
| `Matching.ApplyMarks` | src/main/java/com/github/markusbernhardt/selenium2library/keywords/SelectElement.java:418-491 | a selection changes no value or text; a multi-select list marks every hit and nothing else; a single-select list marks exactly the first hit in document order; no hit changes nothing |
| `Policy.FoundIff` | src/main/java/com/github/markusbernhardt/selenium2library/keywords/SelectElement.java:364-384 | an item counts as found exactly when it resolves to some option |
| `Policy.AttemptsValueFirst` | src/main/java/com/github/markusbernhardt/selenium2library/keywords/SelectElement.java:361-386 | every item is tried by value; an item is tried by visible text only right after its own value attempt, and only when that found nothing |
| `Policy.MissesAreTheUnfoundItems` | src/main/java/com/github/markusbernhardt/selenium2library/keywords/SelectElement.java:359-386 | the misses are the unfound items in input order: `MissPositions` is increasing, holds exactly the positions of the unfound items, and its j-th entry is where the j-th miss stands; there are no misses exactly when every item is found |
| `Policy.LastMissIsLastItem` | src/main/java/com/github/markusbernhardt/selenium2library/keywords/SelectElement.java:359-386 | when the last item is not found, it is the last miss |
| `Policy.ApplyItemsSelects` | src/main/java/com/github/markusbernhardt/selenium2library/keywords/SelectElement.java:361-386 | after the items no value or text changes; an option is selected exactly when it was before or some item marked it |
| `Policy.SelectFromListEscalation` | src/main/java/com/github/markusbernhardt/selenium2library/keywords/SelectElement.java:388-405 | case by case: no misses succeeds; a multi-select list fails naming every miss; a single-select list warns when the last item was found, and warns then fails naming it when it was not |
| `Policy.SelectFromListFailsIff` | src/main/java/com/github/markusbernhardt/selenium2library/keywords/SelectElement.java:388-405 | the keyword fails exactly when a multi-select list has some miss, or a single-select list misses its last item |
| `Policy.SelectAllSelectsEverything` | src/main/java/com/github/markusbernhardt/selenium2library/keywords/SelectElement.java:308-320 | selecting every index of a multi-select list selects every option and changes no value or text |
| `Policy.FirstMiss` | src/main/java/com/github/markusbernhardt/selenium2library/keywords/SelectElement.java:537-541 | the position of the first locator that finds nothing: every earlier one finds something |
| `Policy.SelectEachOutcomeIff` | src/main/java/com/github/markusbernhardt/selenium2library/keywords/SelectElement.java:526-606 | a by-index, by-value or by-label selection succeeds exactly when every locator finds an option, and otherwise fails naming the first that does not |
| `Policy.BothWays` | src/main/java/com/github/markusbernhardt/selenium2library/keywords/SelectElement.java:646-649 | each item is deselected by value, then by visible text, in input order |
| `Policy.DeselectEachClears` | src/main/java/com/github/markusbernhardt/selenium2library/keywords/SelectElement.java:646-649 | after deselection no value or text changes; an option is selected exactly when it was before and no deselect primitive found it |
| `Policy.UnselectCheckAsWritten` | src/main/java/com/github/markusbernhardt/selenium2library/keywords/SelectElement.java:667-684 | as written, the guards never report missing input; they pass exactly on a multi-select list |
| `Policy.UnselectGuardNeverFires` | src/main/java/com/github/markusbernhardt/selenium2library/keywords/SelectElement.java:668-670 | with no arguments on a multi-select list the guards as written pass, where the intended ones report missing input |
| `Policy.UnselectCheck` | src/main/java/com/github/markusbernhardt/selenium2library/keywords/SelectElement.java:667-684 | as intended: missing input exactly when there are no arguments; success exactly with arguments on a multi-select list; otherwise "works only for multiselect lists" |
| `SelectElement.SelectList.MarkFound` | src/main/java/com/github/markusbernhardt/selenium2library/keywords/SelectElement.java:422-429 | marks the options found, all of them on a multi-select list and only the first on a single-select list, and reports which |
| `SelectElement.SelectList.SelectByValue` | src/main/java/com/github/markusbernhardt/selenium2library/keywords/SelectElement.java:418-434 | the list becomes the value selection's result (see `Matching.ApplyMarks`); reports found exactly when some option has the value |
| `SelectElement.SelectList.SelectByExactText` | src/main/java/com/github/markusbernhardt/selenium2library/keywords/SelectElement.java:452-469 | marks the fallback candidates whose text equals the token, stopping after the first on a single-select list |
| `SelectElement.SelectList.MarkExact` | src/main/java/com/github/markusbernhardt/selenium2library/keywords/SelectElement.java:462-469 | the loop marks exactly the candidates whose text equals the token, in order, and stops after the first on a single-select list |
| `SelectElement.SelectList.SelectByVisibleText` | src/main/java/com/github/markusbernhardt/selenium2library/keywords/SelectElement.java:436-475 | the list becomes the visible-text selection's result; reports found exactly when the exact match or the fallback found an option |
| `SelectElement.SelectList.SelectByIndex` | src/main/java/com/github/markusbernhardt/selenium2library/keywords/SelectElement.java:538-541 | marks the option at the index; reports found exactly when the index is in range |
| `SelectElement.SelectList.Deselect` | src/main/java/com/github/markusbernhardt/selenium2library/keywords/SelectElement.java:646-648 | clears exactly the options the deselect primitive finds and records the call |
| `SelectElement.SelectList.DeselectAll` | src/main/java/com/github/markusbernhardt/selenium2library/keywords/SelectElement.java:640-643 | clears every option, changes no value or text, and records the call |
| `SelectElement.SelectList.SelectEveryIndex` | src/main/java/com/github/markusbernhardt/selenium2library/keywords/SelectElement.java:352-357 | selects the indices 0 to n-1, in order |
| `SelectElement.SelectList.SelectAllFromList` | src/main/java/com/github/markusbernhardt/selenium2library/keywords/SelectElement.java:308-320 | a single-select list fails with nothing changed and nothing issued; a multi-select list has every index selected, in order |
| `SelectElement.SelectList.SelectItem` | src/main/java/com/github/markusbernhardt/selenium2library/keywords/SelectElement.java:362-385 | one item: by value, then by visible text only if value found nothing; reports whether either found it |
| `SelectElement.SelectList.SelectFromList` | src/main/java/com/github/markusbernhardt/selenium2library/keywords/SelectElement.java:342-405 | no items selects every index; otherwise the list, the calls issued and the outcome are those of `Policy`, whose lemmas above state misses, escalation and attempt order |
| `SelectElement.SelectList.SelectFromListByIndex` | src/main/java/com/github/markusbernhardt/selenium2library/keywords/SelectElement.java:526-541 | no index fails before any lookup; otherwise the indices up to the first out of range are selected, and that one fails |
| `SelectElement.SelectList.SelectFromListByValue` | src/main/java/com/github/markusbernhardt/selenium2library/keywords/SelectElement.java:559-575 | no value fails before any lookup; otherwise the values up to the first missing are selected, and that one fails |
| `SelectElement.SelectList.SelectFromListByLabel` | src/main/java/com/github/markusbernhardt/selenium2library/keywords/SelectElement.java:593-606 | no label fails before any lookup; otherwise the labels up to the first missing are selected, and that one fails |
| `SelectElement.SelectList.UnselectFromList` | src/main/java/com/github/markusbernhardt/selenium2library/keywords/SelectElement.java:628-650 | a single-select list fails with nothing changed; no items clears the whole selection; otherwise each item is deselected by value, then by visible text |
| `SelectElement.SelectList.UnselectFromListByIndex` | src/main/java/com/github/markusbernhardt/selenium2library/keywords/SelectElement.java:667-689 | runs the intended guards with nothing changed on failure; otherwise deselects each index in order |
| `SelectElement.SelectList.UnselectFromListByValue` | src/main/java/com/github/markusbernhardt/selenium2library/keywords/SelectElement.java:706-724 | runs the intended guards with nothing changed on failure; otherwise deselects each value in order |
| `SelectElement.SelectList.UnselectFromListByLabel` | src/main/java/com/github/markusbernhardt/selenium2library/keywords/SelectElement.java:741-759 | runs the intended guards with nothing changed on failure; otherwise deselects each label in order |

## Left out

- The WebDriver is replaced by the options array:
  - locating the list (`getSelectList`, `elementFind`);
  - `findElements`;
  - the `Select` class;
  - script execution.
- The manual selectors' XPath `.//option` starts at the driver root, so it would find options anywhere on the page. The model searches only the list's own options.
- `Assertions.ValuesFor`, `Assertions.SelectedListValue`, `Assertions.GetSelectedListValues`: one `value` field stands for both the `value` attribute and Selenium's `getAttribute("value")`. The by-value match (the XPath `@value`, and `Select.selectByValue`) reads the attribute. `getAttribute("value")` reads the DOM property, which for an option with no `value` attribute is its text. Options without a `value` attribute are not represented. For `<option>Foo</option>` the program reports the value `"Foo"` but does not select it by the value `"Foo"`, and no single option of the model does both. The value half of `listSelectionShouldBe` is affected in the same way.
- `Text.LongestSubstringWithoutSpace`: strings are sequences of Unicode characters, and a word's length is its number of characters, not the UTF-16 code units Java's `length()` counts. The strict `>` tie-break can therefore pick a different word when the string has characters outside the Basic Multilingual Plane. For `"\U{1F600} ab"` Java keeps the emoji, since both words are two units long, while the model returns `"ab"`. `Text.LongestWord`, `Text.LongestWordSpec` and `Text.LongestWordIsFirstLongestRun` share this. The longest word only narrows the fallback's candidates, and `Matching.FallbackIsExactText` shows the choice never changes which options are selected.
- `Matching.FallbackIsExactText`: one `text` field stands for both the DOM string-value that XPath `normalize-space(.)` and `contains(., …)` read and the `getText()` that the fallback compares. The model does not distinguish them. In a browser they differ, for example on `&nbsp;`, which `getText()` turns into a space; such an option is found only by the fallback, and the model does not promise the fallback's result for it.
- `Matching.NormalizedTokenNeedsNoFallback`: holds only in the model, for the same reason. With an `&nbsp;` in an option the fallback can find an option that the exact match missed, even for a normalized token.
- `Quotes.escape`: XPath string quoting is taken to be faithful, so matching is plain string equality.
- The marionette capability probe is not a parameter, so both branches are one method. The native selectors `Select.selectByValue` and `Select.selectByVisibleText` are given the manual selectors' behaviour. `Select.selectByIndex`, which the index selections always call directly, is modelled as marking the option at that position. The native selectors' code is not part of this model.
- The deselect primitives (`deselectByValue`, `deselectByVisibleText`, `deselectByIndex`) are not part of this model:
  - they clear every option they find;
  - a token that finds nothing is not an error;
  - deselection by visible text uses the `normalize-space` match only, with no fallback.
- `SelectElement.SelectList.DeselectAll`: requires a multi-select list, since `Select.deselectAll` refuses any other and the only caller checks first.
- `setAttribute` and `triggerOnChange`: setting the attribute is `selected := true`. The `onchange` script call, whose failure is swallowed, is not modelled.
- What a browser does to the other options when one option of a single-select list is selected is not modelled: options are marked independently.
- `Integer.parseInt`: indices are natural numbers, so a malformed or negative index string is not modelled. A parse error part-way through `selectFromListByIndex` is not modelled either.
- Logging, message text, `String.format` and `Python.join`: errors and warnings are reduced to their kind and their item lists.
- `pageShouldContainList` and `pageShouldNotContainList` delegate to `Element`, which is not part of this model. The `pageShouldContainList` call at the start of `listSelectionShouldBe` is left out with them.
- The keywords' `locator` argument is not modelled: each `SelectList` is one already located list.
- Robot Framework keyword annotations and dependency injection are not modelled.

## Findings

| source | as written | input that shows it | evidently intended | confidence | as-written member | corrected member |
|---|---|---|---|---|---|---|
| src/main/java/com/github/markusbernhardt/selenium2library/keywords/SelectElement.java:225 | `listShouldHaveNoSelections` tests `!options.equals(null)`. That is true for every list returned, so the keyword always fails | a list with one option, not selected | fail only when some option is selected | high; not executed | `Assertions.ListShouldHaveNoSelectionsAsWritten`, `Assertions.NoSelectionsAsWrittenFailsOnEmptySelection` | `Assertions.ListShouldHaveNoSelections` |
| src/main/java/com/github/markusbernhardt/selenium2library/keywords/SelectElement.java:668 | the `unselectFromListBy*` guards (also lines 707 and 742) test `x.equals(null)`. That is false for every argument array, so "No index given." / "No value given." is never raised | no arguments, on a multi-select list: the keyword passes and deselects nothing | fail with missing input when no argument is given, like the `selectFromListBy*` keywords | high; not executed | `Policy.UnselectCheckAsWritten`, `Policy.UnselectGuardNeverFires` | `Policy.UnselectCheck` (used by `SelectElement.SelectList.UnselectFromListBy`) |
