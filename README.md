# Data preparation: four pieces of sequential logic, modelled in Dafny

This project models four small pieces of logic from a data-preparation
application, one module each:

- `Absolute` (`absolute.dfy`): the integer branch of the "absolute value" column
  action. A cell is parsed with `Long.parseLong` semantics, `Math.abs` is taken
  on 64-bit two's-complement longs, and the result is printed with
  `Long.toString`. The answer is `null` (here `None`) when parsing fails.
  `ParseLong` follows the JDK's digit loop: it reads left to right and gives up
  at the first non-digit or as soon as the magnitude passes the limit of the
  sign. It is proved equal to a declarative definition: an optional sign, one or
  more digits, and a value in [-2^63, 2^63-1]. The corner case `-9223372036854775808`
  maps to itself, because `Math.abs(Long.MIN_VALUE)` is still negative.
- `ActionsSuggestions` (`actions_suggestions.dfy`): the `$watch` listener of the
  action-suggestions panel. It updates every suggestion's `labelHtml` in place.
  It first removes the highlight markers added by earlier runs. Then, if the
  search string occurs in the lower-cased label, it wraps each case-insensitive
  match in `<span class="highlighted">…</span>`.
- `TransformSimpleParams` (`transform_simple_params.dfy`): the simple-parameter
  form controller. It makes two in-place passes over the parameter records: the
  value/default precedence pass, then the input-type pass.
- `TransformMenu` (`transform_menu.dfy`): the transformation-menu controller.
  It holds the `select` state machine (dynamic, parameterised or immediate
  entry), the transformation closure that fills in the step's parameters, and
  the effect of the two asynchronous completions on `showModal` and
  `dynamicFetchInProgress`.

`Wrappers` (`wrappers.dfy`) holds `Option`. `None` stands for Java's `null`
and JavaScript's `undefined`.

Inputs and outside services are parameters:
- the converter service's `adaptValue` and `toInputType` are function-valued
  constructor arguments;
- the dataset id and the preparation id the menu reads from the playground and
  preparation services are parameters of `Select` and `InitDynamicParams`, as
  the services hold them at the time of each call;
- the column the directive binds to the menu controller is a field that the
  event method `BindColumn` replaces, and every call reads the column bound at
  that moment.

Service calls are recorded in the controller's `effects` sequence. The settling
of each request is an explicit event method (`DynamicParamsSettled`,
`AppendStepSettled`).

## Model

| member | source | states |
|---|---|---|
| `Absolute.WrapLong` | dataprep-backend-common/src/main/java/org/talend/dataprep/transformation/api/action/metadata/math/AbstractAbsolute.java:15 | reducing to 64 bits gives a long with the same low 64 bits (the difference is a multiple of 2^64), and leaves a long unchanged |
| `Absolute.AbsLong` | dataprep-backend-common/src/main/java/org/talend/dataprep/transformation/api/action/metadata/math/AbstractAbsolute.java:15 | `Math.abs` gives the magnitude for every long except `Long.MIN_VALUE`, which it returns unchanged |
| `Absolute.ScanDigits` | dataprep-backend-common/src/main/java/org/talend/dataprep/transformation/api/action/metadata/math/AbstractAbsolute.java:14 | an accepted digit run never exceeds the overflow limit it was scanned against |
| `Absolute.ParseLong` | dataprep-backend-common/src/main/java/org/talend/dataprep/transformation/api/action/metadata/math/AbstractAbsolute.java:14 | whatever `Long.parseLong` accepts lies in the long range |
| `Absolute.ScanDigitsCorrect` | dataprep-backend-common/src/main/java/org/talend/dataprep/transformation/api/action/metadata/math/AbstractAbsolute.java:14 | the digit loop with early overflow exits yields exactly the value of the digits, and fails exactly on a non-digit or a value past the limit |
| `Absolute.ParseLongCorrect` | dataprep-backend-common/src/main/java/org/talend/dataprep/transformation/api/action/metadata/math/AbstractAbsolute.java:14-17 | `Long.parseLong` succeeds if and only if the input is non-null, is one optional sign followed by at least one digit, and denotes a long; it then yields that value |
| `Absolute.NatToDigits` | dataprep-backend-common/src/main/java/org/talend/dataprep/transformation/api/action/metadata/math/AbstractAbsolute.java:15 | the digits printed for a non-negative number form a canonical numeral (digits only, no leading zero), starting with '0' only for zero; `NatToDigitsCorrect` adds that they denote the number |
| `Absolute.LongToString` | dataprep-backend-common/src/main/java/org/talend/dataprep/transformation/api/action/metadata/math/AbstractAbsolute.java:15 | `Long.toString` is never empty, starts with '-' exactly for negative values, and is otherwise a canonical numeral; `LongToStringRoundTrip` proves it parses back |
| `Absolute.NatToDigitsCorrect` | dataprep-backend-common/src/main/java/org/talend/dataprep/transformation/api/action/metadata/math/AbstractAbsolute.java:15 | `Long.toString` of a non-negative number is a canonical numeral (digits only, no leading zero) that denotes it |
| `Absolute.CanonicalUnique` | dataprep-backend-common/src/main/java/org/talend/dataprep/transformation/api/action/metadata/math/AbstractAbsolute.java:15 | every canonical numeral is the one printed for its value |
| `Absolute.LongToStringRoundTrip` | dataprep-backend-common/src/main/java/org/talend/dataprep/transformation/api/action/metadata/math/AbstractAbsolute.java:14-15 | parsing the printed form of any long gives that long back |
| `Absolute.ExecuteOnLong` | dataprep-backend-common/src/main/java/org/talend/dataprep/transformation/api/action/metadata/math/AbstractAbsolute.java:12-18 | the result is non-null exactly when `Long.parseLong` accepts the input, and every non-null result parses back to `Math.abs` of the parsed input; `ExecuteOnLongNullIff` and `Idempotent` build on it |
| `Absolute.ExecuteOnLongNullIff` | dataprep-backend-common/src/main/java/org/talend/dataprep/transformation/api/action/metadata/math/AbstractAbsolute.java:12-18 | the result is `null` exactly when the input is `null`, malformed (empty, a lone sign, a second sign, a non-digit) or outside the long range |
| `Absolute.CanonicalMagnitude` | dataprep-backend-common/src/main/java/org/talend/dataprep/transformation/api/action/metadata/math/AbstractAbsolute.java:14-15 | for any accepted value other than `Long.MIN_VALUE`, the result is the canonical unsigned numeral of its magnitude |
| `Absolute.SignInsensitive` | dataprep-backend-common/src/main/java/org/talend/dataprep/transformation/api/action/metadata/math/AbstractAbsolute.java:14-15 | "n", "+n" and "-n" give the same result whenever n is a long; when n exceeds `Long.MAX_VALUE`, "n" and "+n" both give `null` |
| `Absolute.MinLongCorner` | dataprep-backend-common/src/main/java/org/talend/dataprep/transformation/api/action/metadata/math/AbstractAbsolute.java:15 | the input "-9223372036854775808" comes back unchanged, sign included |
| `Absolute.MinLongToString` | dataprep-backend-common/src/main/java/org/talend/dataprep/transformation/api/action/metadata/math/AbstractAbsolute.java:15 | `Long.toString(Long.MIN_VALUE)` is "-9223372036854775808" |
| `Absolute.Pow63Rejected` | dataprep-backend-common/src/main/java/org/talend/dataprep/transformation/api/action/metadata/math/AbstractAbsolute.java:14-17 | "9223372036854775808" and "+9223372036854775808" (2^63) overflow and give `null` |
| `Absolute.NegativeResultOnlyForMinLong` | dataprep-backend-common/src/main/java/org/talend/dataprep/transformation/api/action/metadata/math/AbstractAbsolute.java:15 | a non-null result is never empty, and it starts with '-' if and only if the input parsed to `Long.MIN_VALUE`; the result is then "-9223372036854775808" |
| `Absolute.Idempotent` | dataprep-backend-common/src/main/java/org/talend/dataprep/transformation/api/action/metadata/math/AbstractAbsolute.java:14-15 | applying the action to a non-null result returns that same result |
| `Absolute.Examples` | dataprep-backend-common/src/main/java/org/talend/dataprep/transformation/api/action/metadata/math/AbstractAbsolute.java:14-15 | "+007" and "-7" give "7", "-0" gives "0" |
| `Absolute.RejectedExamples` | dataprep-backend-common/src/main/java/org/talend/dataprep/transformation/api/action/metadata/math/AbstractAbsolute.java:14-17 | "", "-", "1a" and `null` give `null` |
| `ActionsSuggestions.IndexOf` | dataprep-webapp/src/components/suggestions-stats/actions-suggestions/actions-suggestions-directive.js:58 | `indexOf` is -1 exactly when the needle occurs nowhere; otherwise it is an occurrence with no occurrence before it |
| `ActionsSuggestions.IndexFrom` | dataprep-webapp/src/components/suggestions-stats/actions-suggestions/actions-suggestions-directive.js:58 | the first occurrence at or after a start position, or -1 when there is none from there on |
| `ActionsSuggestions.ToLower` | dataprep-webapp/src/components/suggestions-stats/actions-suggestions/actions-suggestions-directive.js:58 | lower-casing keeps the length and lower-cases each character on its own |
| `ActionsSuggestions.RemoveAll` | dataprep-webapp/src/components/suggestions-stats/actions-suggestions/actions-suggestions-directive.js:54-55 | a global replacement by the empty string never lengthens the label; `RemoveAllSkip` states that a prefix without the pattern's first character is copied, `RemoveAllCopyPrefix` that a prefix in which no occurrence starts is copied, and `RemoveAllDrop` that a leading occurrence is deleted; split at the first occurrence, these fix the result |
| `ActionsSuggestions.RemoveAllCopyPrefix` | dataprep-webapp/src/components/suggestions-stats/actions-suggestions/actions-suggestions-directive.js:54-55 | the text before the first occurrence of the pattern is kept character for character, including any copy of the pattern's first character that starts no occurrence |
| `ActionsSuggestions.Strip` | dataprep-webapp/src/components/suggestions-stats/actions-suggestions/actions-suggestions-directive.js:54-55 | the two marker removals never lengthen the label; `StripPlain`, `MarkersRemoved` and `StripHighlight` state what they remove and keep |
| `ActionsSuggestions.Highlight` | dataprep-webapp/src/components/suggestions-stats/actions-suggestions/actions-suggestions-directive.js:59-60 | the `gi` replacement only adds text, in whole 33-character marker pairs; `HighlightFirstMatch` and `HighlightNoMatch` place every pair, and `StripHighlight` states that stripping undoes it |
| `ActionsSuggestions.HighlightFirstMatch` | dataprep-webapp/src/components/suggestions-stats/actions-suggestions/actions-suggestions-directive.js:59-60 | scanning left to right, the text before the first case-insensitive match is copied unchanged, that match is wrapped in one opening and one closing marker with its own spelling kept, and the scan resumes right after it |
| `ActionsSuggestions.RefreshLabel` | dataprep-webapp/src/components/suggestions-stats/actions-suggestions/actions-suggestions-directive.js:54-61 | the refreshed label is never shorter than the stripped label; `RefreshLabelCharacterization` fixes which label it is |
| `ActionsSuggestions.RefreshLabelLength` | dataprep-webapp/src/components/suggestions-stats/actions-suggestions/actions-suggestions-directive.js:54-61 | the refreshed label's length exceeds the stripped label's by a multiple of 33, the length of one marker pair |
| `ActionsSuggestions.OnSearchChange` | dataprep-webapp/src/components/suggestions-stats/actions-suggestions/actions-suggestions-directive.js:47-66 | after the listener, each item's `labelHtml` is its refreshed label; the number and order of items and every other field are unchanged |
| `ActionsSuggestions.RefreshItem` | dataprep-webapp/src/components/suggestions-stats/actions-suggestions/actions-suggestions-directive.js:54-61 | the three successive assignments to one item's `labelHtml` leave it at the refreshed label, every other field kept |
| `ActionsSuggestions.StripPlain` | dataprep-webapp/src/components/suggestions-stats/actions-suggestions/actions-suggestions-directive.js:54-55 | a label with no '<' is left unchanged by the two marker removals |
| `ActionsSuggestions.MarkersRemoved` | dataprep-webapp/src/components/suggestions-stats/actions-suggestions/actions-suggestions-directive.js:54-55 | for a label whose only tags are highlight markers, the removals leave no '<', and so neither marker, in the label |
| `ActionsSuggestions.StripHighlight` | dataprep-webapp/src/components/suggestions-stats/actions-suggestions/actions-suggestions-directive.js:54-60 | removing the markers from a highlighted label gives back the stripped label |
| `ActionsSuggestions.HighlightOnlyMarkerTags` | dataprep-webapp/src/components/suggestions-stats/actions-suggestions/actions-suggestions-directive.js:59-60 | highlighting a label without '<' produces a label whose only tags are highlight markers |
| `ActionsSuggestions.HighlightNoMatch` | dataprep-webapp/src/components/suggestions-stats/actions-suggestions/actions-suggestions-directive.js:59-60 | without a case-insensitive match, the highlighting replacement changes nothing |
| `ActionsSuggestions.LowerHasNoUpper` | dataprep-webapp/src/components/suggestions-stats/actions-suggestions/actions-suggestions-directive.js:58 | a lower-cased label has no upper-case letter, which is why a search string with one never highlights |
| `ActionsSuggestions.LowerOccurrence` | dataprep-webapp/src/components/suggestions-stats/actions-suggestions/actions-suggestions-directive.js:58-59 | a search string without upper-case letters occurs in the lower-cased label exactly where the case-insensitive pattern matches; one with an upper-case letter occurs nowhere in it |
| `ActionsSuggestions.RefreshLabelCharacterization` | dataprep-webapp/src/components/suggestions-stats/actions-suggestions/actions-suggestions-directive.js:54-61 | the refreshed label is the stripped label when the search string is empty or undefined or has an upper-case letter, and the stripped label with every match highlighted otherwise |
| `ActionsSuggestions.RefreshForgetsHighlight` | dataprep-webapp/src/components/suggestions-stats/actions-suggestions/actions-suggestions-directive.js:54-61 | a label highlighted for an earlier search string is refreshed exactly as its plain text would be: highlights never pile up |
| `ActionsSuggestions.RefreshIdempotent` | dataprep-webapp/src/components/suggestions-stats/actions-suggestions/actions-suggestions-directive.js:54-61 | re-running the listener with the same search string leaves the label as it is |
| `TransformSimpleParams.AdaptValues` | dataprep-webapp/src/components/transformation/params/simple/transformation-simple-params-controller.js:22-35 | a defined `initialValue` is adapted and an undefined one stays undefined; a defined `value` is adapted and `default` is left alone; otherwise a defined `default` is adapted and copied into `value`; with neither, both stay undefined; a value ends up defined exactly when a value or a default was; name, type and input type are untouched |
| `TransformSimpleParams.WithInputType` | dataprep-webapp/src/components/transformation/params/simple/transformation-simple-params-controller.js:45-47 | the input type becomes `toInputType(type)` and nothing else changes |
| `TransformSimpleParams.PassesCommute` | dataprep-webapp/src/components/transformation/params/simple/transformation-simple-params-controller.js:50-51 | the value pass does not affect input types: the two passes give the same parameters in either order, and every parameter ends with `toInputType(type)` |
| `TransformSimpleParams.ReinitializeStable` | dataprep-webapp/src/components/transformation/params/simple/transformation-simple-params-controller.js:24-34 | with an idempotent converter, initialising the same records again changes nothing |
| `TransformSimpleParams.TransformSimpleParamsCtrl.constructor` | dataprep-webapp/src/components/transformation/params/simple/transformation-simple-params-controller.js:50-51 | after creation every parameter in the bound list has gone through the value pass and then the input-type pass, in place, with length and order kept |
| `TransformSimpleParams.TransformSimpleParamsCtrl.InitParamsValues` | dataprep-webapp/src/components/transformation/params/simple/transformation-simple-params-controller.js:21-36 | each record, in place, becomes its value-pass result |
| `TransformSimpleParams.TransformSimpleParamsCtrl.InitInputTypes` | dataprep-webapp/src/components/transformation/params/simple/transformation-simple-params-controller.js:44-48 | each record, in place, gets its input type and keeps every other field |
| `TransformMenu.ClosureParams` | dataprep-webapp/src/components/transformation/menu/transformation-menu-controller.js:67-72 | the step parameters hold every caller key; `scope`, `column_id` and `column_name` are always overwritten with the scope and the column's id and name; all other caller values are kept |
| `TransformMenu.ClosureParamsIdempotent` | dataprep-webapp/src/components/transformation/menu/transformation-menu-controller.js:68-71 | filling in the same object twice sends the same parameters |
| `TransformMenu.StepParams.constructor` | dataprep-webapp/src/components/transformation/menu/transformation-menu-controller.js:67-68 | the parameter object a form hands to the closure starts with the entries it is given |
| `TransformMenu.TransformMenuCtrl.constructor` | dataprep-webapp/src/components/transformation/menu/transformation-menu-controller.js:13-15 | a new controller has the column it is bound to, no modal, no fetch in flight, no selection and no service call |
| `TransformMenu.TransformMenuCtrl.BindColumn` | dataprep-webapp/src/components/transformation/menu/transformation-menu-controller.js:26 | after the directive binds another column, that column is the one read at :26 and at :70-71, whose id and name later requests and steps carry, and `Valid()` still holds |
| `TransformMenu.TransformMenuCtrl.Select` | dataprep-webapp/src/components/transformation/menu/transformation-menu-controller.js:44-64 | a dynamic entry (even one with parameters) opens the modal, starts the fetch spinner, records the selection and requests its dynamic parameters with the dataset and preparation ids current at the call; every branch keeps the bound column; otherwise an entry with parameters or items opens the modal and records the selection without touching the spinner or appending; any other entry appends a step named after it with the closure's parameters and leaves modal, spinner and selection as they were |
| `TransformMenu.TransformMenuCtrl.InitDynamicParams` | dataprep-webapp/src/components/transformation/menu/transformation-menu-controller.js:24-31 | the request for dynamic parameters is made with the column id and the dataset and preparation ids the services hold at the time of the call |
| `TransformMenu.TransformMenuCtrl.TransformClosure` | dataprep-webapp/src/components/transformation/menu/transformation-menu-controller.js:66-75 | a missing parameter object counts as empty; the caller's object receives the scope and column entries in place, and a step is appended with exactly those parameters |
| `TransformMenu.TransformMenuCtrl.Transform` | dataprep-webapp/src/components/transformation/menu/transformation-menu-controller.js:84-89 | a step named after the entry is appended with the given parameters |
| `TransformMenu.TransformMenuCtrl.DynamicParamsSettled` | dataprep-webapp/src/components/transformation/menu/transformation-menu-controller.js:52-54 | when the dynamic-parameter request settles, successfully or not, the spinner stops |
| `TransformMenu.TransformMenuCtrl.AppendStepSettled` | dataprep-webapp/src/components/transformation/menu/transformation-menu-controller.js:85-88 | the modal closes only when the append succeeds; a rejected append leaves it as it was |

The constructor establishes the invariant `Valid()` of `TransformMenuCtrl`, and `Select`, `BindColumn`, `TransformClosure`, `Transform`, `DynamicParamsSettled` and `AppendStepSettled` keep it. `InitDynamicParams` is the private helper `Select` calls after turning the spinner on, so it only states its effect. The invariant says:
- the spinner is shown only while a dynamic-parameter request is in flight;
- the modal is open only on a selected entry and scope.

## Left out

- `executeOnFloat` (double parsing and formatting): floating point is not modelled.
- `Long.parseLong` also accepts non-ASCII Unicode digits through `Character.digit`. The model accepts ASCII digits only.
- The highlight pattern is built from the raw search string as a regular expression. The model treats the search string as a literal string without metacharacters.
- Case folding (`toLowerCase` and the `i` flag) is modelled on ASCII letters only.
- `scrollToBottom` and `resizePanels`: DOM offsets, animation and `$timeout`.
- The suggestion list and the parameter list are modelled as arrays of records updated in place, so each element is a distinct record. The JavaScript lists hold object references; the same object listed twice is not modelled.
- `ConverterService.adaptValue` and `ConverterService.toInputType` are uninterpreted: their source is not part of this model.
- `TransformationService.initDynamicParameters` and `PlaygroundService.appendStep` are recorded as effects. The menu entry has dynamic parameters injected into it; the model does not capture that.
- `transformClosure` returns a closure. The model has the closure's application as a method, not the closure as a first-class value.
- Step parameter values are modelled as strings. Values of other JavaScript types that a form may supply are not distinguished.
- `showModal` and `dynamicFetchInProgress` start out `undefined`, which is falsy. The model starts them at `false`.
- The doc comment of `select` mentions a "divider" entry with no action. The code has no such branch, so none is modelled.
- ActionsSuggestions.StripHighlight: stated only for label text without '<'. Removing a marker can join the pieces around it into a new marker, so arbitrary HTML is not covered.
- ActionsSuggestions.RefreshIdempotent: stated only for labels whose stripped text has no '<', for the same reason.
- ActionsSuggestions.MarkersRemoved: stated for labels whose only tags are highlight markers, for the same reason. For those labels every marker that was present is removed.
- The menu directive that binds the column to `TransformMenuCtrl` is not part of this model; `BindColumn` stands for a new binding.
- The range-slider widget, the quality analysis service, state and module wiring, templates and the UI test files are not part of this model.
