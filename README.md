# Dialog, wizard and validation-rule model

A Dafny model of two parts of Azure Data Studio:

- **The model-view dialog types** (`DialogTypes`, `dialog_types.dfy`).
  - A `ModelViewPane` carries a validity flag. Its validity-changed event fires only on a change.
  - A `DialogTab` and a `WizardPage` are panes with a title and content.
  - A `Dialog` has content, a message and a close gate.
  - A `Wizard` has a page list, a current-page cursor (`-1` until a page is made current), a navigation gate and a message.
  - Every event emitter is a log field that a method appends to when the source fires the event.
  - A thrown `Error` is the `Outcome` value `Thrown("Index is out of bounds")`. A method that throws leaves the page list, the cursor and the event log unchanged.
  - The source's subclassing (`DialogTab extends ModelViewPane`, `WizardPage extends DialogTab`, `Dialog extends ModelViewPane`) is modelled by composition: a `pane` or `tab` field.
  - The wizard's page list and cursor are specified by value functions on sequences: `Inserted`, `CursorAfterInsert`, `Removed`, `Neighbour`, `CursorAfterRemove` and `RemoveSucceeds`. The methods are proved against these functions, and lemmas state what the functions guarantee.
- **The validation rules of the resource-deployment extension** (`Validations`, `validations.dfy`), as their test suite fixes them.
  - There are four rules: integer, regex `^[0-9]+$`, `<=` a target, and `>=` a target.
  - A value is text, a number, or absent.
  - Text is read as an exact decimal literal (`Numbers`, `numbers.dfy`).
  - Two texts compare as text (`TextOrder`, `text_order.dfy`); any other pair compares as numbers.
  - `GetValidator` returns a validator whose message is always the configured description.
  - `ValidationVectors` (`validation_vectors.dfy`) states every row of the test tables as a lemma. Each lemma holds for every description.

`Wrappers` (`wrappers.dfy`) holds the `Option` type.

## Model

| member | source | states |
|---|---|---|
| DialogTypes.ModelViewPane.constructor | src/sql/workbench/services/dialog/common/dialogTypes.ts:11-14 | a new pane is valid and has fired nothing |
| DialogTypes.ModelViewPane.NotifyValidityChanged | src/sql/workbench/services/dialog/common/dialogTypes.ts:20-25 | the flag takes the new value; the event fires with it exactly when the flag changes |
| DialogTypes.DialogTab.constructor | src/sql/workbench/services/dialog/common/dialogTypes.ts:28-36 | title as given; content as given, or the empty text when absent; its own fresh pane, valid and with nothing fired |
| DialogTypes.WizardPage.constructor | src/sql/workbench/services/dialog/common/dialogTypes.ts:153-162 | a page is its own fresh tab, with the given title and content, and that tab its own fresh valid pane |
| DialogTypes.Dialog.constructor | src/sql/workbench/services/dialog/common/dialogTypes.ts:41-59 | content defaults to the empty text; its own fresh valid pane; no message and no close validator |
| DialogTypes.Dialog.SetMessage | src/sql/workbench/services/dialog/common/dialogTypes.ts:65-68 | the message is replaced and the event fires on every set, even with an equal value |
| DialogTypes.Dialog.RegisterCloseValidator | src/sql/workbench/services/dialog/common/dialogTypes.ts:70-72 | the new validator replaces any earlier one; nothing else changes |
| DialogTypes.Dialog.ValidateClose | src/sql/workbench/services/dialog/common/dialogTypes.ts:74-80 | true with no validator, otherwise exactly the registered validator's answer |
| DialogTypes.Wizard.constructor | src/sql/workbench/services/dialog/common/dialogTypes.ts:185-208 | no pages, cursor -1, no validator, no message, no events |
| DialogTypes.Wizard.SetCurrentPage | src/sql/workbench/services/dialog/common/dialogTypes.ts:214-226 | throws exactly for an index outside the page list, changing nothing; otherwise the cursor moves there and page-changed (last, new) fires only when it moved |
| DialogTypes.Wizard.AddPage | src/sql/workbench/services/dialog/common/dialogTypes.ts:228-241 | throws exactly for an index outside 0..count; otherwise the page list is `Inserted`, the cursor `CursorAfterInsert`, and page-added fires once; the cursor stays valid |
| DialogTypes.Wizard.RemovePage | src/sql/workbench/services/dialog/common/dialogTypes.ts:243-258 | succeeds exactly when `RemoveSucceeds`; otherwise throws and changes nothing; on success the list is `Removed`, the cursor `CursorAfterRemove`, and the events are page-changed (only when the current page goes) then page-removed with the removed page |
| DialogTypes.Wizard.RegisterNavigationValidator | src/sql/workbench/services/dialog/common/dialogTypes.ts:260-262 | the new validator replaces any earlier one; pages, cursor and events unchanged |
| DialogTypes.Wizard.ValidateNavigation | src/sql/workbench/services/dialog/common/dialogTypes.ts:264-273 | true with no validator, otherwise the validator's answer for a move from the current page to `newPage` |
| DialogTypes.Wizard.SetMessage | src/sql/workbench/services/dialog/common/dialogTypes.ts:279-282 | the message is replaced and message-changed fires on every set |
| DialogTypes.InsertedContents | src/sql/workbench/services/dialog/common/dialogTypes.ts:235-239 | one more page, `page` at the index (last when none), the pages before it unmoved and those after it shifted by one |
| DialogTypes.InsertKeepsCursorValid | src/sql/workbench/services/dialog/common/dialogTypes.ts:232-234 | after an insertion the cursor is still valid and still on the page that was current |
| DialogTypes.RemovedContents | src/sql/workbench/services/dialog/common/dialogTypes.ts:255-256 | one page fewer, the pages before the index unmoved, those after it shifted back by one, and the removed page is the only one lost (as multisets) |
| DialogTypes.RemoveKeepsCursorValid | src/sql/workbench/services/dialog/common/dialogTypes.ts:247-254 | a successful removal leaves the cursor valid |
| DialogTypes.RemoveKeepsCurrentPage | src/sql/workbench/services/dialog/common/dialogTypes.ts:247-256 | removing another page keeps the same page current; removing the current page makes its neighbour (previous, or next from the first) current |
| DialogTypes.RemoveFailsOnlyForLastCurrentPage | src/sql/workbench/services/dialog/common/dialogTypes.ts:247-251 | for an index on the list, removal fails exactly when it names the only page while that page is current |
| DialogTypes.RepeatedValidity | src/sql/workbench/services/dialog/common/dialogTypes.ts:12-25 | setting one value twice on a new pane fires nothing for `true` and `[false]` once for `false` |
| DialogTypes.SeparateValidity | src/sql/workbench/services/dialog/common/dialogTypes.ts:28-59 | tabs, pages and dialogs each have their own validity flag: a new tab set invalid fires once, while a new page and a new dialog stay valid |
| DialogTypes.CloseGateScenario | src/sql/workbench/services/dialog/common/dialogTypes.ts:70-80 | a new dialog may close; after two registrations the second validator alone decides |
| DialogTypes.NavigationGateScenario | src/sql/workbench/services/dialog/common/dialogTypes.ts:260-273 | with no validator navigation is allowed; afterwards the last validator decides and sees the current page (1) as `lastPage` |
| DialogTypes.RemoveOnlyPage | src/sql/workbench/services/dialog/common/dialogTypes.ts:247-251 | removing the only page while it is current throws, keeps the page, and fires nothing beyond the earlier add and page change |
| DialogTypes.RemoveFirstCurrentPage | src/sql/workbench/services/dialog/common/dialogTypes.ts:247-257 | removing the current first of two pages moves to page 1, then leaves the second page as page 0, firing page-changed (0, 1) then page-removed with the first page |
| Validations.GetValidator | extensions/resource-deployment/src/test/ui/validation/validations.test.ts:161-167 | the validator reports whether the rule holds for the values its resolvers give, and its message is the configured description whatever the outcome |
| Validations.AbsentNeverValid | extensions/resource-deployment/src/test/ui/validation/validations.test.ts:89-94 | no rule holds of an absent value, and no comparison holds against an absent target |
| Validations.DigitTextPassesBoth | extensions/resource-deployment/src/test/ui/validation/validations.test.ts:14 | any non-empty run of digits as text passes both the integer rule and `^[0-9]+$` |
| Validations.FractionTextFailsBoth | extensions/resource-deployment/src/test/ui/validation/validations.test.ts:16 | digits, a point and a non-zero fraction as text fail both the integer rule and `^[0-9]+$` |
| Validations.IntegerRuleIgnoresRepresentation | extensions/resource-deployment/src/test/ui/validation/validations.test.ts:14-15 | an integer of magnitude below 10^21 and the digits it converts to pass the integer rule together |
| Validations.DecimalRuleIgnoresRepresentation | extensions/resource-deployment/src/test/ui/validation/validations.test.ts:14-17 | a terminating decimal n / 10^k and its positional text pass or fail the integer rule together, and both pass exactly when 10^k divides n |
| Validations.DigitsOnlyNumbers | extensions/resource-deployment/src/test/ui/validation/validations.test.ts:40-44 | a number matches `^[0-9]+$` if and only if it is a whole number in 0 <= x < 10^21 |
| Validations.AtLeastIsConverse | extensions/resource-deployment/src/test/ui/validation/validations.test.ts:116-119 | `a >= b` holds exactly when `b <= a`, in both comparison modes |
| Validations.BothDirectionsIffSame | extensions/resource-deployment/src/test/ui/validation/validations.test.ts:83-86 | `<=` and `>=` both hold if and only if the operands are equal texts or denote the same number |
| Validations.ComparableIffOrdered | extensions/resource-deployment/src/test/ui/validation/validations.test.ts:62 | one of `<=` and `>=` holds if and only if both operands are text or both read as numbers |
| Validations.AtMostTransitiveWithinMode | extensions/resource-deployment/src/test/ui/validation/validations.test.ts:62-80 | `<=` is transitive while every pair compares in the same mode |
| Validations.AtMostNotTransitiveAcrossModes | extensions/resource-deployment/src/test/ui/validation/validations.test.ts:62-72 | across modes `<=` is not transitive: "5" <= 10 <= "20" but not "5" <= "20" |
| Numbers.ParseDigits | extensions/resource-deployment/src/test/ui/validation/validations.test.ts:14 | a run of digits reads as the natural number it spells |
| Numbers.ParseFraction | extensions/resource-deployment/src/test/ui/validation/validations.test.ts:16 | `w.f` reads as the digits of `w` and `f` scaled down by the places of `f` |
| Numbers.ParseScientific | extensions/resource-deployment/src/test/ui/validation/validations.test.ts:18 | `w.fex` reads as the mantissa scaled by 10 to the exponent |
| Numbers.FractionNotIntegral | extensions/resource-deployment/src/test/ui/validation/validations.test.ts:16-17 | a literal with a non-zero fraction and no exponent reads as a number that is not whole |
| Numbers.NatTextValue | extensions/resource-deployment/src/test/ui/validation/validations.test.ts:44 | the text of a natural number is a non-empty run of digits that denotes it |
| Numbers.IntTextRoundTrip | extensions/resource-deployment/src/test/ui/validation/validations.test.ts:44 | the text of every integer reads back as that integer |
| Numbers.NumberTextRoundTrip | extensions/resource-deployment/src/test/ui/validation/validations.test.ts:44 | wherever a number is written as digits, reading the text back gives the same number |
| Numbers.DecimalTextRoundTrip | extensions/resource-deployment/src/test/ui/validation/validations.test.ts:16-17 | the positional text of every terminating decimal n / 10^k, sign included, reads back as n / 10^k |
| Numbers.DecimalIntegral | extensions/resource-deployment/src/test/ui/validation/validations.test.ts:16-17 | n / 10^k is a whole number exactly when 10^k divides n |
| Numbers.DigitsValueAppend | extensions/resource-deployment/src/test/ui/validation/validations.test.ts:14 | supports reading the long digit literal of that row: digits written after others shift the earlier ones left by as many places |
| Numbers.DigitsValueBound | extensions/resource-deployment/src/test/ui/validation/validations.test.ts:16 | supports the fraction rows: k digits denote a number below 10^k |
| Numbers.FindEitherFinds | extensions/resource-deployment/src/test/ui/validation/validations.test.ts:18 | supports reading the scientific literals: the marker search returns the first `e` or `E`, or the end |
| Numbers.ParseWithExponent | extensions/resource-deployment/src/test/ui/validation/validations.test.ts:18 | a mantissa followed by `e` and an exponent reads as the mantissa scaled by 10 to the exponent |
| TextOrder.Reflexive | extensions/resource-deployment/src/test/ui/validation/validations.test.ts:83 | supports the equal-text rows: every text sorts at or before itself |
| TextOrder.AntiSymmetric | extensions/resource-deployment/src/test/ui/validation/validations.test.ts:83 | supports the equal-text rows: texts that sort at or before each other are equal |
| TextOrder.Transitive | extensions/resource-deployment/src/test/ui/validation/validations.test.ts:65 | supports the text-against-text rows: the text order is transitive |
| TextOrder.Total | extensions/resource-deployment/src/test/ui/validation/validations.test.ts:65 | supports the text-against-text rows: any two texts are ordered one way or the other |
| TextOrder.FirstDifferenceDecides | extensions/resource-deployment/src/test/ui/validation/validations.test.ts:65 | supports the text-against-text rows: after a common prefix, the first differing character decides the order |
| ValidationVectors.IntegerRow | extensions/resource-deployment/src/test/ui/validation/validations.test.ts:22-31 | an integer-rule run reports whether the value is whole, with the description as message |
| ValidationVectors.RegexRow | extensions/resource-deployment/src/test/ui/validation/validations.test.ts:47-56 | a `^[0-9]+$` run reports whether the value matches, with the description as message |
| ValidationVectors.NumericRow | extensions/resource-deployment/src/test/ui/validation/validations.test.ts:62 | operands that are not both text compare as the numbers they read as |
| ValidationVectors.TextRow | extensions/resource-deployment/src/test/ui/validation/validations.test.ts:62 | two texts compare in text order |
| ValidationVectors.MissingRow | extensions/resource-deployment/src/test/ui/validation/validations.test.ts:89 | an absent operand on either side fails both comparisons |
| ValidationVectors.Read342520596781 | extensions/resource-deployment/src/test/ui/validation/validations.test.ts:14 | "342520596781" reads as 342520596781 |
| ValidationVectors.Read314 | extensions/resource-deployment/src/test/ui/validation/validations.test.ts:16 | "3.14" reads as 3.14 |
| ValidationVectors.Read314e2 | extensions/resource-deployment/src/test/ui/validation/validations.test.ts:18 | "3.14e2" reads as 314 |
| ValidationVectors.Read34215 | extensions/resource-deployment/src/test/ui/validation/validations.test.ts:83 | "342.15" reads as 342.15 |
| ValidationVectors.Read34215eMinus1 | extensions/resource-deployment/src/test/ui/validation/validations.test.ts:77 | "342.15e-1" reads as 34.215 |
| ValidationVectors.Read4215eMinus1 | extensions/resource-deployment/src/test/ui/validation/validations.test.ts:77 | "42.15e-1" reads as 4.215 |
| ValidationVectors.IntegerLongDigitText | extensions/resource-deployment/src/test/ui/validation/validations.test.ts:14 | "342520596781" passes the integer rule |
| ValidationVectors.IntegerLongDigitNumber | extensions/resource-deployment/src/test/ui/validation/validations.test.ts:15 | 342520596781 passes the integer rule |
| ValidationVectors.IntegerFractionText | extensions/resource-deployment/src/test/ui/validation/validations.test.ts:16 | "3.14" fails the integer rule |
| ValidationVectors.IntegerFractionNumber | extensions/resource-deployment/src/test/ui/validation/validations.test.ts:17 | 3.14 fails the integer rule |
| ValidationVectors.IntegerFractionBothWays | extensions/resource-deployment/src/test/ui/validation/validations.test.ts:16-17 | the number 3.14 and the text "3.14" are the same decimal 314 / 10^2, and the integer rule fails for both |
| ValidationVectors.IntegerScientificText | extensions/resource-deployment/src/test/ui/validation/validations.test.ts:18 | "3.14e2" passes the integer rule |
| ValidationVectors.IntegerScientificNumber | extensions/resource-deployment/src/test/ui/validation/validations.test.ts:19 | 3.14e2 passes the integer rule |
| ValidationVectors.IntegerMissing | extensions/resource-deployment/src/test/ui/validation/validations.test.ts:20-21 | undefined and NaN fail the integer rule |
| ValidationVectors.RegexLongDigitText | extensions/resource-deployment/src/test/ui/validation/validations.test.ts:39 | "3425205616179816" matches `^[0-9]+$` |
| ValidationVectors.RegexLongDigitNumber | extensions/resource-deployment/src/test/ui/validation/validations.test.ts:40 | 3425205616179816 matches `^[0-9]+$` |
| ValidationVectors.RegexFractionText | extensions/resource-deployment/src/test/ui/validation/validations.test.ts:41 | "3.14" does not match |
| ValidationVectors.RegexFractionNumber | extensions/resource-deployment/src/test/ui/validation/validations.test.ts:42 | 3.14 does not match |
| ValidationVectors.RegexScientificText | extensions/resource-deployment/src/test/ui/validation/validations.test.ts:43 | "3.14e2" does not match |
| ValidationVectors.RegexScientificNumber | extensions/resource-deployment/src/test/ui/validation/validations.test.ts:44 | the number literal 3.14e2 is 314, whose text is all digits, so it matches |
| ValidationVectors.RegexArbitraryText | extensions/resource-deployment/src/test/ui/validation/validations.test.ts:45 | "arbitraryString" does not match |
| ValidationVectors.RegexMissing | extensions/resource-deployment/src/test/ui/validation/validations.test.ts:46 | undefined does not match |
| ValidationVectors.AtMostIntegerText | extensions/resource-deployment/src/test/ui/validation/validations.test.ts:65 | "342" <= "42" holds, as text |
| ValidationVectors.AtMostIntegerMixed | extensions/resource-deployment/src/test/ui/validation/validations.test.ts:67-72 | each mixed pair compares as numbers, with the expected outcome of each of the five rows |
| ValidationVectors.AtMostIntegerNumbers | extensions/resource-deployment/src/test/ui/validation/validations.test.ts:74 | 342 <= 42 fails |
| ValidationVectors.AtMostScientificText | extensions/resource-deployment/src/test/ui/validation/validations.test.ts:77 | "342.15e-1" <= "42.15e-1" holds, as text |
| ValidationVectors.AtMostScientificMixed | extensions/resource-deployment/src/test/ui/validation/validations.test.ts:78-79 | both mixed rows fail, comparing 34.215 with 4.215 |
| ValidationVectors.AtMostScientificNumbers | extensions/resource-deployment/src/test/ui/validation/validations.test.ts:80 | 34.215 <= 4.215 fails |
| ValidationVectors.AtMostEqualValues | extensions/resource-deployment/src/test/ui/validation/validations.test.ts:83-86 | 342.15 <= 342.15 holds in all four combinations of text and number |
| ValidationVectors.AtMostMissing | extensions/resource-deployment/src/test/ui/validation/validations.test.ts:90-94 | all five rows with an undefined operand fail |
| ValidationVectors.AtLeastIntegerText | extensions/resource-deployment/src/test/ui/validation/validations.test.ts:116 | "342" >= "42" fails, as text |
| ValidationVectors.AtLeastIntegerMixed | extensions/resource-deployment/src/test/ui/validation/validations.test.ts:117-118 | both mixed rows hold, comparing 342 with 42 |
| ValidationVectors.AtLeastIntegerNumbers | extensions/resource-deployment/src/test/ui/validation/validations.test.ts:119 | 342 >= 42 holds |
| ValidationVectors.AtLeastScientificText | extensions/resource-deployment/src/test/ui/validation/validations.test.ts:122 | "342.15e-1" >= "42.15e-1" fails, as text |
| ValidationVectors.AtLeastScientificMixed | extensions/resource-deployment/src/test/ui/validation/validations.test.ts:123-124 | both mixed rows hold, comparing 34.215 with 4.215 |
| ValidationVectors.AtLeastScientificNumbers | extensions/resource-deployment/src/test/ui/validation/validations.test.ts:125 | 34.215 >= 4.215 holds |
| ValidationVectors.AtLeastEqualValues | extensions/resource-deployment/src/test/ui/validation/validations.test.ts:128-131 | 342.15 >= 342.15 holds in all four combinations of text and number |
| ValidationVectors.AtLeastMissing | extensions/resource-deployment/src/test/ui/validation/validations.test.ts:134-138 | all five rows with an undefined operand fail |

Every `ValidationVectors` row lemma also states that the reported message is the row's description.

## Left out

- The validation rules' implementation (`extensions/resource-deployment/src/ui/validation/validations.ts`) is not part of this model. The rules' behaviour is the one their test tables fix, extended to all values as stated in the rows above.
- Reading text as a number follows a strict decimal grammar: an optional sign, digits with an optional point, and an optional `e`/`E` exponent. JavaScript's `Number()` also accepts surrounding whitespace, the empty text (as 0), hexadecimal, binary and octal prefixes, and `Infinity`; these are not modelled and read as no number.
- Numbers are exact rationals, not IEEE doubles: rounding, `-0`, infinities and precision loss above 2^53 are not modelled.
- NaN is folded into the absent value. Only the integer table has a NaN row, and there NaN fails like undefined.
- Numbers.NumberText: the text a number converts to is modelled only for integers of magnitude below 10^21. Every other number's text contains a `.` or an exponent, so the `^[0-9]+$` rule stays exact for all numbers (`Validations.DigitsOnlyNumbers`).
- General regular expressions: only the pattern `^[0-9]+$` is modelled.
- The `ValidationType` a rule is configured with is kept but never consulted; the tables configure every rule as `IsInteger`.
- Resolvers are asynchronous, and promises can be rejected; here resolvers and validators are plain functions that run synchronously.
- Resolvers are modelled as constant functions: a resolver cannot read mutable state, so a validator reports the same outcome on every call. The extension's validator resolves the value afresh on each call; that re-resolution after a change is not modelled.
- Text comparison orders Unicode code points. JavaScript compares UTF-16 code units, so the two orders differ for texts with characters outside the Basic Multilingual Plane (for example U+1F600 against U+FFFF).
- Dialog close and wizard navigation validators may answer with a promise. Here they answer a boolean directly.
- Event emitters and their listeners are not modelled. Each event is an append-only log of what it fired with.
- `DialogButton` and its label, enabled, hidden, focused and position setters and `registerClickEvent` are not modelled, nor are the buttons a dialog or wizard holds.
- `WizardPage` enabled and description setters, `customButtons`, `displayPageTitles`, the dialog and wizard `width`, and localized labels are not modelled.
- DialogTypes.Wizard.AddPage and DialogTypes.Wizard.RemovePage: the page list is a sequence value the methods reassign. The source appends and splices the array in place, but inserts at an index by building a new array; code that holds the old array sees the first two changes and not the third. That aliasing and in-place update is not modelled.
- Validations.IntegerRuleIgnoresRepresentation: states only integers below 10^21, the numbers whose text is plain digits. Terminating decimals written positionally are covered by `Validations.DecimalRuleIgnoresRepresentation`. Numbers that JavaScript prints with an exponent (`1e21`, `1e-7`) are not covered.
- Numbers.DecimalText: keeps trailing zeros in the places it is asked for. JavaScript prints the shortest text (`3.14`, not `3.140`); both texts read as the same number.
- An `undefined` or non-integer page index is not modelled. An absent index to `addPage` is `None`; the other methods take an integer.
- DialogTypes.Wizard.RemovePage: removing the only page while it is current throws from the inner `setCurrentPage` call. This is modelled as written, and `RemoveFailsOnlyForLastCurrentPage` states exactly when it happens.
