# Candidate widget core, modelled in Dafny

This project models the logic of a browser widget for managing recruiting candidates:

- **Candidate store** (`CandidateStore`, `candidate_store.dfy`):
  - the candidate list kept under one local-storage key;
  - the `cand_NNNN` id generator;
  - `createCandidate`, which prepends a defaulted record with a fresh id and `isNew: true`;
  - `updateCandidate`, which merges a payload into the first record whose id matches and keeps that record's id.
- **Form controller** (`CandidateForm`, `candidate_form.dfy`):
  - the trim step of `readFormData`;
  - the short-circuit `validate` (full name, applied date, e-mail shape, 9–11 phone digits);
  - the edit-or-create decision of `handleSubmit`.
- **Selection controller** (`Selection`, `selection.dfy`):
  - the set of selected row ids, changed by the row handler, the check-all handler and `clearSelection`;
  - `isSelected`;
  - the pure derivations of the header checkbox (checked / indeterminate), the toolbar count and the per-row checkboxes.
- **Common helpers** (`Common`, `common.dfy`): `safeText`, `normalizeText`, `normalizePhone`, `clamp`, `initials`, `hashString` (31-multiplier hash with the int32 wrap `| 0`, then `Math.abs`), `avatarBg` and `rateToNumber`.
- **Support modules**:
  - `Text` (`text.dfy`): the JavaScript string primitives the code relies on. These are the `\s` / `trim` whitespace set, ASCII case mapping, the `\D` filter, decimal parsing and printing, and `padStart`.
  - `JsValues` (`jsvalues.dfy`): scalar JSON values, plain objects as `map<string, Value>`, and the `String(v)`, `v ?? ""` and truthiness coercions.
  - `Wrappers` (`wrappers.dfy`): `Option` and `Outcome`.
  - `Doubles` (`doubles.dfy`): which naturals a JavaScript number holds exactly, rounding to nearest with ties to even, and the point where `Number()` becomes `Infinity`.

Storage is a value passed in and returned (`Storage = Absent | Corrupt | Stored(list)`). Rows on screen are an explicit parameter: each row is the `Option` of its `data-id` attribute. The visible ids are a `seq<string>`. An object spread such as `{...a, ...b, id: x}` is map override.

Details of the code that the model keeps:

- `createCandidate` gives defaults only to `campaign`, `position` ("Nhân viên"), `jobPost`, `recruitStage` ("Mới"), `rate`, `unit`, `personaFit`, `receptionInfo` and `talentPool`. Other fields are not given an empty-string default.
- A default applies only when the payload's value is `null` or `undefined`. An explicit empty string is kept.
- Whitespace is JavaScript's full `\s` / `trim` set.
- The generator reads ids as `String(item?.id ?? "")`, while `updateCandidate` compares `String(x.id)`. So a record without an id reads as "undefined" to the update lookup. `CandidateStore.UpdateFindsMissingIdAsUndefined` states this behaviour as written.
- When the matched record has no `id`, the merge sets `id: undefined`, which `JSON.stringify` drops. The merged record therefore has no `id` either.
- JavaScript numbers are doubles. `Doubles` (`doubles.dfy`) states which naturals a double holds exactly and how larger ones round (to nearest, ties to even). The id generator and `rateToNumber` use it where the model reproduces the code as written.

## Model

| member | source | states |
|---|---|---|
| `Text.Trim` | js/utils/common.js:11 | `trim` leaves a string with no whitespace at either end. The result is empty exactly when the input is all whitespace, and otherwise it is the slice between the leading and the trailing whitespace. |
| `Text.TrimStripsPadding` | js/features/candidates/candidates.selection.js:50 | Trimming whitespace padding around a trimmed core gives back exactly that core. |
| `Text.TrimIdempotent` | js/features/candidates/candidate.modal.js:161-163 | Trimming twice is the same as trimming once. |
| `Text.TrimIgnoresPadding` | js/utils/common.js:21 | Whitespace added around any text, blank or not, does not change its trim. |
| `Text.DigitsAppend` | js/utils/common.js:31 | The `\D` filter maps a concatenation to the concatenation of the filtered parts. So digits keep their order. |
| `Text.DigitsOfDigits` | js/features/candidates/candidate.modal.js:184 | A string of digits passes the `\D` filter unchanged. |
| `Text.NatToStringRoundTrip` | js/features/candidates/candidate.modal.js:217-218 | Parsing `String(n)` as decimal digits gives `n` back. |
| `Text.PadStart` | js/features/candidates/candidate.modal.js:218 | `padStart(4, "0")` gives length max(4, original length), ends with the original string and is '0' before it. |
| `Text.LeadingZerosValue` | js/features/candidates/candidate.modal.js:205-207 | Leading zeros do not change the number a digit suffix denotes (`Number("0007") == 7`). |
| `Common.SafeText` | js/utils/common.js:10-13 | The result is never empty and always trimmed. It is the trimmed text when that is non-empty, and "—" for null, undefined or blank input. |
| `Common.SafeTextIgnoresPadding` | js/utils/common.js:10-13 | A non-blank trimmed text shows as itself whatever whitespace surrounds it. |
| `Common.SafeTextIdempotent` | js/utils/common.js:10-13 | Applying `safeText` to its own output gives the same output. |
| `Common.NormalizeText` | js/utils/common.js:20-22 | The result is trimmed, has no upper-case letters and is no longer than the input text. |
| `Common.NormalizeTextIdempotent` | js/utils/common.js:20-22 | Normalising normalised text changes nothing. |
| `Common.NormalizeTextOfNormal` | js/utils/common.js:20-22 | Text that is already trimmed and has no upper-case letters is its own normal form. |
| `Common.NormalizeTextIgnoresPadding` | js/utils/common.js:20-22 | Whitespace around the text does not change its normal form. |
| `Common.NormalizeTextIgnoresCase` | js/utils/common.js:20-22 | Upper-casing the text first does not change its normal form. |
| `Common.NormalizePhone` | js/utils/common.js:30-32 | The output is only digits, no longer than the input, and equal to the input when the input is already all digits. |
| `Common.NormalizePhoneIdempotent` | js/utils/common.js:30-32 | Normalising a normalised phone changes nothing. |
| `Common.NormalizePhoneKeepsDigitsInOrder` | js/utils/common.js:30-32 | Around any character, the output is the digits before it, then the character if it is a digit, then the digits after it. So every digit is kept, in order. |
| `Common.Clamp` | js/utils/common.js:41-43 | The result is never below `min`. With `min <= max` it lies in `[min, max]`, equals `n` when `n` is in range, `min` below it and `max` above it. |
| `Common.WordsEmptyIff` | js/utils/common.js:52-53 | `split(/\s+/).filter(Boolean)` finds no words exactly when the name is all whitespace. |
| `Common.WordsSplitAt` | js/utils/common.js:52 | Splitting at a whitespace character splits the word list there. |
| `Common.Initials` | js/utils/common.js:51-57 | At most two characters. A blank or missing name gives "--". |
| `Common.InitialsOfOneWord` | js/utils/common.js:51-57 | A single word, with any padding, gives its upper-cased first character alone. |
| `Common.InitialsOfFirstAndLast` | js/utils/common.js:51-57 | A name of two or more words gives the upper-cased first characters of the first and the last word, whatever lies between them. |
| `Common.ToInt32` | js/utils/common.js:67 | `x \| 0` lies in the int32 range and is congruent to `x` modulo 2^32. |
| `Common.HashIsWrappedPolynomial` | js/utils/common.js:64-69 | The running `(h * 31 + code) \| 0` equals the int32 wrap of the exact polynomial hash of the string. |
| `Common.HashString` | js/utils/common.js:64-69 | The hash is non-negative and at most 2^31. It is the wrapped polynomial hash or its negation. |
| `Common.AvatarIndex` | js/utils/common.js:93 | The palette index `hashString(key) % 12` lies in `[0, 12)`. |
| `Common.AvatarBg` | js/utils/common.js:77-95 | The colour is always one of the twelve palette entries, chosen by the hash of the id (or of the full name when the id is nullish). |
| `Common.AvatarBgStablePerId` | js/utils/common.js:92-94 | Two candidates with the same non-null id get the same colour, whatever their other fields. |
| `Common.RateToNumber` | js/utils/common.js:102-125 | The corrected rating, which looks up only the table's own entries. It is always 0..5. Null or undefined gives 0, and an integer gives its value clamped to 0..5. |
| `Common.RateToNumberAsWritten` | js/utils/common.js:102-125 | The rating as written: null or undefined gives 0 stars, and the only non-number results are the inherited `constructor` and `__proto__` properties. |
| `Common.RateAsWrittenDiffersOnlyOnInheritedNames` | js/utils/common.js:123-124 | The code as written returns a non-number exactly when the input is not nullish, not a finite number, and normalises to an inherited name. Every other input gets the same stars from both versions. |
| `Common.InheritedNameReads` | js/utils/common.js:108-124 | "constructor" or "__proto__", with any padding, gives that inherited property as written and 0 stars when corrected. |
| `Common.RateOverflowingDigitsAreZero` | js/utils/common.js:105-106 | A digit string too long for a finite number fails `Number.isFinite`, matches no label and reads as 0. |
| `Common.RateLabelsRead` | js/utils/common.js:108-124 | Every label of the table, such as "tốt" or "tot", reads as its listed number of stars. |
| `Common.RateUnknownLabelIsZero` | js/utils/common.js:105-124 | A non-blank text without a digit is not a finite number (`Number()` gives NaN or an infinity), so it is looked up by its normal form. When that form is not a label it reads as 0 with the own-entry lookup, and also as written unless the form is an inherited name. |
| `CandidateStore.GetCandidates` | js/features/candidates/candidate.modal.js:20-28 | A stored list reads as itself, and a missing or corrupt entry reads as the empty list. `SaveCandidates` shows that a saved list reads back unchanged, and `CreateOnEmptyStorage` that a create on a missing or corrupt entry starts from the empty list. |
| `CandidateStore.SaveCandidates` | js/features/candidates/candidate.modal.js:35-37 | Reading back a saved list gives exactly that list. |
| `CandidateStore.CreateOnEmptyStorage` | js/features/candidates/candidate.modal.js:20-28 | A missing or corrupt entry acts as an empty list: a create replaces it with the one new record, numbered `cand_0001`. |
| `CandidateStore.UpdateOnEmptyStorage` | js/features/candidates/candidate.modal.js:261-264 | A missing or corrupt entry holds no record: an update returns false and leaves the entry unchanged. |
| `CandidateStore.CandIdReads` | js/features/candidates/candidate.modal.js:204-209 | An id `cand_` followed by digits contributes the value of those digits. |
| `CandidateStore.BareNumberReads` | js/features/candidates/candidate.modal.js:212-214 | An id made only of digits contributes its own value. |
| `CandidateStore.IdNumberShapes` | js/features/candidates/candidate.modal.js:204-214 | Only two shapes contribute: `cand_` (in any letter case) followed by digits, and bare digits. Every other id leaves the maximum alone. |
| `CandidateStore.MaxIdNumber` | js/features/candidates/candidate.modal.js:201-215 | The scan's maximum bounds every record's contribution. |
| `CandidateStore.MaxIsAttained` | js/features/candidates/candidate.modal.js:201-215 | The scan's maximum is 0 or the contribution of some record: it never overshoots. |
| `CandidateStore.FormatId` | js/features/candidates/candidate.modal.js:217-218 | The id is `cand_` followed by max(4, length of `String(n)`) digits, which denote `n`. |
| `CandidateStore.FormatIdRoundTrip` | js/features/candidates/candidate.modal.js:205-218 | The generator's own scan reads a formatted id back as its number. |
| `CandidateStore.FreshId` | js/features/candidates/candidate.modal.js:203-217 | An id that starts with 'c' and whose number exceeds the list's maximum equals no existing id, read either with `?? ""` or with `String(x.id)`. |
| `CandidateStore.NextCandidateId` | js/features/candidates/candidate.modal.js:199-219 | The new id starts `cand_` and is followed by digits that denote one more than the list's maximum. |
| `CandidateStore.NextIdReadsBack` | js/features/candidates/candidate.modal.js:199-219 | Scanning the new id gives max+1, which is above every record's contribution. |
| `CandidateStore.NextIdIsFresh` | js/features/candidates/candidate.modal.js:199-219 | The new id equals no id in the list, whether ids are read with `?? ""` or with `String(x.id)`. |
| `CandidateStore.NextIdOfEmpty` | js/features/candidates/candidate.modal.js:199-219 | An empty list gives `cand_0001`. |
| `CandidateStore.NextIdCountsBareNumbers` | js/features/candidates/candidate.modal.js:203-218 | Bare numeric ids share one counter with `cand_` ids. A list holding the formatted id of `a` and the bare number `b` continues at max(a, b) + 1, so `cand_0007` and `99` give `cand_0100`. |
| `CandidateStore.MaxAsWrittenIsExact` | js/features/candidates/candidate.modal.js:203-215 | While the exact maximum is below 2^53, the scan in doubles finds the same maximum. |
| `CandidateStore.NextCandidateIdAsWritten` | js/features/candidates/candidate.modal.js:199-219 | The id as written is `cand_` followed by at least four digits, which denote the double nearest to max + 1, where max is the scan's maximum in doubles. Up to 2^54 these are the digits `String()` prints (`Doubles.NoShorterDecimal`). Below 2^53 - 1 it is the exact generator's id (`NextIdAsWrittenAgrees`), and at 2^53 it repeats an id (`NextIdAsWrittenRepeats`). |
| `CandidateStore.NextIdAsWrittenAgrees` | js/features/candidates/candidate.modal.js:199-219 | While the maximum is below 2^53 - 1, the generator as written, computing in doubles, gives the same id as the exact one. |
| `CandidateStore.NextIdAsWrittenRepeats` | js/features/candidates/candidate.modal.js:217-218 | As written, the list holding `cand_9007199254740992` (2^53) gets that same id back, because 2^53 + 1 rounds to 2^53. |
| `Doubles.ExactBelowPrecision` | js/features/candidates/candidate.modal.js:207 | Every natural number below 2^53 is a double, so `Number()` reads it exactly. |
| `Doubles.FirstGap` | js/features/candidates/candidate.modal.js:217 | 2^53 is a double but 2^53 + 1 is not: it is a tie and rounds to the even 2^53. |
| `Doubles.NoShorterDecimal` | js/features/candidates/candidate.modal.js:217-218 | Up to 2^54, no multiple of ten other than p rounds to the double p. Every decimal shorter than an integer's own digits is a multiple of ten, so up to 2^54 `String(p)` prints every digit of p. |
| `Doubles.PrecisionBelowOverflow` | js/features/candidates/candidate.modal.js:208 | Every integer up to 2^53 is finite, so `Number.isFinite` keeps it. |
| `CandidateStore.NewCandidate` | js/features/candidates/candidate.modal.js:228-248 | The record has the payload's keys plus the defaulted keys, `id` and `isNew`. It has the given `id` and `isNew: true`, each default applies only to nullish fields, and every other payload field is kept. |
| `CandidateStore.CreateCandidate` | js/features/candidates/candidate.modal.js:225-252 | The saved list is the new record followed by the previous list, unchanged and in order. The new record's id is the generated one, even if the payload carried an id. |
| `CandidateStore.CreateDefaultsOnlyMissingFields` | js/features/candidates/candidate.modal.js:236-244 | A defaulted field such as `position` or `recruitStage` falls back only when the payload's value is null or undefined. An explicit empty string is kept. |
| `CandidateStore.CreatePreservesUniqueIds` | js/features/candidates/candidate.modal.js:228-251 | If the ids were pairwise distinct before a create, they still are after it. |
| `CandidateStore.CreateAdvancesCounter` | js/features/candidates/candidate.modal.js:217-250 | Each create raises the maximum id number by exactly one, so successive creates number consecutively. |
| `CandidateStore.Merge` | js/features/candidates/candidate.modal.js:266 | The merged record keeps the old `id` (or its absence). Outside `id`, its keys are the union of both key sets, payload values win, and other old values stay. |
| `CandidateStore.FindIndex` | js/features/candidates/candidate.modal.js:263-264 | The index found is the first record whose `String(x.id)` equals the key. None is returned exactly when no record matches. |
| `CandidateStore.UpdateCandidate` | js/features/candidates/candidate.modal.js:261-269 | Returns true exactly when some id matches. With no match the storage is unchanged. With a match the length is kept and only the first matching index is replaced, by the merge. |
| `CandidateStore.UpdateFindsMissingIdAsUndefined` | js/features/candidates/candidate.modal.js:263-266 | A record without an `id` is found by the key "undefined", and it still has no `id` after the merge. |
| `CandidateStore.UpdateKeepsIds` | js/features/candidates/candidate.modal.js:266 | An update changes no record's id. So it keeps ids unique and leaves the next generated id unchanged. |
| `CandidateForm.ReadFormData` | js/features/candidates/candidate.modal.js:149-166 | Every text entry is trimmed. The talent-pool field is a boolean from its checkbox, false when the box is missing. No other field is added. |
| `CandidateForm.Message` | js/features/candidates/candidate.modal.js:175-186 | Every rule has a non-empty message, so the generic fallback message is never needed. |
| `CandidateForm.EmailShapeMatchesPattern` | js/features/candidates/candidate.modal.js:178-181 | The direct statement of the e-mail shape agrees with `^[^\s@]+@[^\s@]+\.[^\s@]+$` in both directions. The direct statement is: no whitespace, exactly one '@' with text before it, and a '.' strictly inside the part after it. |
| `CandidateForm.PhoneShapeIgnoresSeparators` | js/features/candidates/candidate.modal.js:183-188 | A phone number is accepted exactly when its digits alone would be. |
| `CandidateForm.Validate` | js/features/candidates/candidate.modal.js:174-191 | A missing full name fails with its message whatever else is present. The applied date is checked only once the name passes, the e-mail only after both, and the phone last. An empty e-mail or phone is never rejected. |
| `CandidateForm.ValidateReadsOnlyItsFields` | js/features/candidates/candidate.modal.js:174-191 | Payloads that agree on the four validated fields get the same verdict. |
| `CandidateForm.Submit` | js/features/candidates/candidate.modal.js:302-330 | A failed validation writes nothing. A valid payload with a non-empty id is an update. It reports success exactly when some stored record has that id, and otherwise reports not found. A payload without an id is a create. Any non-success leaves storage unchanged. |
| `CandidateForm.SubmitEditsIffIdPresent` | js/features/candidates/candidate.modal.js:313-322 | A valid submission adds one record exactly when it has no id. An edit keeps the length and every id, and a create's record has an id no earlier record had. |
| `CandidateForm.FormEditsIffIdFilled` | js/features/candidates/candidate.modal.js:314 | For a submission read from the form, edit mode is chosen exactly when the hidden id field is not blank. |
| `Selection.RowKey` | js/features/candidates/candidates.selection.js:140 | A row's id is its trimmed `data-id`. A missing attribute gives "", and an already trimmed value is its own id. |
| `Selection.RowKeyIgnoresPadding` | js/features/candidates/candidates.selection.js:140 | Whitespace around `data-id` does not change the id the row stands for. |
| `Selection.VisibleRowIds` | js/features/candidates/candidates.selection.js:46-52 | The visible ids are trimmed and non-blank, and they are exactly the non-blank row keys. |
| `Selection.VisibleRowIdsInOrder` | js/features/candidates/candidates.selection.js:46-52 | The visible ids keep the rows' order. The ids of concatenated rows are the concatenated ids, and a single row gives its key, or nothing when the key is blank. |
| `Selection.ToggleRow` | js/features/candidates/candidates.selection.js:135-148 | A blank id is a no-op. Otherwise the id is in the result exactly when the box is checked, and every other id is unchanged. |
| `Selection.ToggleOnThenOff` | js/features/candidates/candidates.selection.js:143-144 | Checking a row and unchecking it gives the prior selection minus that id. |
| `Selection.HandlersKeepSelectionValid` | js/features/candidates/candidates.selection.js:140-156 | Every handler keeps the selection free of blank and untrimmed ids, starting from the empty selection. |
| `Selection.CheckAll` | js/features/candidates/candidates.selection.js:152-161 | A visible id ends up selected exactly when the header is checked. Ids that are not visible are untouched. |
| `Selection.CheckAllIsSetAlgebra` | js/features/candidates/candidates.selection.js:155-156 | Check-all is the union with the visible ids, and uncheck-all is the difference. |
| `Selection.CheckAllThenUncheckAll` | js/features/candidates/candidates.selection.js:155-156 | Checking and then unchecking all removes exactly the visible ids. |
| `Selection.CheckAllExample` | js/features/candidates/candidates.selection.js:153-156 | Check-all over 1, 2, 3 from empty, then uncheck-all over 2, leaves {1, 3}. |
| `Selection.IsSelected` | js/features/candidates/candidates.selection.js:195-198 | An id is selected exactly when its trimmed text is non-blank and in the selection, so a blank key never is. `IsSelectedIgnoresPadding` shows that padding never matters, and `IsSelectedAfterToggle` that it reports what the row handler last set. |
| `Selection.IsSelectedAfterToggle` | js/features/candidates/candidates.selection.js:140-144 | After the row handler runs, `isSelected` reports the row's id as the box's new state. |
| `Selection.IsSelectedAfterPaddedToggle` | js/features/candidates/candidates.selection.js:140-144 | The same holds with any whitespace around the id, both in the attribute and in the query. |
| `Selection.IsSelectedIgnoresPadding` | js/features/candidates/candidates.selection.js:195-198 | A non-blank id with whitespace around it is selected exactly when the id is. |
| `Selection.CountSelected` | js/features/candidates/candidates.selection.js:86 | The count of selected visible positions is at most the number of visible ids. It is full exactly when all are selected, and zero exactly when none is. |
| `Selection.Header` | js/features/candidates/candidates.selection.js:75-89 | No visible ids give neither flag. Checked holds iff every visible id is selected, indeterminate iff some are and some are not, and never both. |
| `Selection.CheckAllSetsHeader` | js/features/candidates/candidates.selection.js:152-161 | When some row is visible, check-all leaves the header checked and not indeterminate, and uncheck-all leaves it in neither state. |
| `Selection.Toolbar` | js/features/candidates/candidates.selection.js:59-68 | The count is the size of the whole selection, visible or not, and `has-selection` holds exactly when the selection is non-empty. `ToolbarAfterToggle` and `ToolbarCountsHiddenSelections` follow it through the row and check-all handlers. |
| `Selection.ToolbarAfterToggle` | js/features/candidates/candidates.selection.js:59-68 | After a row toggle the count grows by one when a new id is checked and shrinks by one when a selected id is unchecked. Otherwise it stays the same. |
| `Selection.ToolbarCountsHiddenSelections` | js/features/candidates/candidates.selection.js:59-68 | After uncheck-all the count is the number of selected ids that are not visible, and `has-selection` holds exactly when such an id exists. |
| `Selection.RowChecks` | js/features/candidates/candidates.selection.js:95-104 | Each row's checkbox agrees with what `isSelected` answers for the row's `data-id`. |
| `Selection.AfterRender` | js/features/candidates/candidates.selection.js:184-188 | Each row's box agrees with `isSelected`. The header is checked exactly when some row has an id and every such row is checked, and indeterminate exactly when some such rows are checked and some are not. The toolbar counts the whole selection. |
| `Selection.HeaderMatchesRowChecks` | js/features/candidates/candidates.selection.js:75-104 | The header checkbox summarises the row checkboxes, both for checked and for indeterminate. |
| `Selection.SelectedIdList` | js/features/candidates/candidates.selection.js:208 | The list holds every selected id exactly once and nothing else, so its length is the toolbar count. |
| `Selection.ClearSelection` | js/features/candidates/candidates.selection.js:109-122 | The selection becomes empty whatever is visible. No row is checked, the header shows neither state and the toolbar shows zero. |

## Left out

- Local storage and `JSON.parse` / `JSON.stringify` are not modelled: the stored entry is a `Storage` value. Unparsable and non-array JSON are one `Corrupt` case. Property order inside objects is not modelled.
- `JsValues.Value` holds null, booleans, integers and strings only. Nested objects or arrays inside a record, and non-integer numbers, are not modelled.
- All DOM work is out of scope because it is presentation plumbing. This covers `open`, `close`, `setTitle`, `fillForm`, `resetForm`, `openForCreate`, `openForEdit`, `init`, `bindEventsOnce`, the selector configuration and `qs`. The `FormData` enumeration is replaced by a map of entries, so repeated field names are not modelled.
- Toast messages, the `candidates:changed` event and console logging are side-effect notifications. They are not modelled; `CandidateForm.SubmitOutcome` says which one would follow.
- `handleSubmit`'s catch of arbitrary exceptions is not modelled; only the `NOT_FOUND` path is.
- Selection.SelectedIdList: lists each selected id once, in an order left open. `getSelectedIds` follows insertion order, which a set does not keep.
- `js/features/header/header-actions.js` is not part of this model: it only shows and hides a search box and opens a window.
- CandidateStore.IdNumber: it follows `Number()` only on non-empty all-digit ids. Ids such as " 12", "0x10", "1e3" or "1.5" contribute nothing here, though `Number()` would read a value from them. `Number("")` is 0, which never changes the maximum.
- CandidateStore.IdNumber: reads digits as unbounded integers. The source's doubles are modelled only by `CandidateStore.NextCandidateIdAsWritten`, which the rest of the model does not use.
- CandidateStore.NextIdIsFresh: freshness holds for the exact generator. As written, `max + 1` is computed in doubles, so from 2^53 on the generator can repeat an id (see Findings).
- CandidateStore.FormatId: prints every digit of `n`. For a double up to 2^54 that is what `String(n)` prints (`Doubles.NoShorterDecimal`). Above 2^54 `String(n)` prints the shortest digits that read back as the same double, padded with zeros, and from 10^21 on it uses exponent notation. Neither is modelled.
- CandidateStore.NextCandidateIdAsWritten: follows the source only while the double sum `max + 1` is at most 2^54. For the list holding `cand_1152921504606846976` (2^60) the source returns `cand_1152921504606847000`, while the function prints all digits of 2^60. `CandidateStore.RepeatsAt` is stated only up to 2^54 for this reason.
- CandidateStore.UpdateCandidate: a stored list is a sequence of objects. A `null` element makes `String(x.id)` throw in the source, and `Storage.Stored` cannot hold one.
- Common.RateToNumber: the numeric path is modelled for integers, booleans and trimmed all-digit strings, including those too long to be finite. Signed, decimal, hex and exponent strings, and `Math.round` on fractions, are not modelled.
- Common.Initials: "at most two characters" relies on the model's ASCII case mapping. JavaScript's `toUpperCase` turns "ß" into "SS", so the source can return up to four characters.
- Common.Initials: takes an optional string. A `fullName` that is neither nullish nor a string makes the source throw, because it has no `trim`.
- Text.ToLower and Text.ToUpper map ASCII letters only, while JavaScript maps all of Unicode. So `normalizeText`, `initials` and the label lookup of `rateToNumber` do not lower-case or upper-case non-ASCII letters, such as "TỐT".
- Common.HashString and Common.Initials treat a character as one code unit, which holds only inside the Basic Multilingual Plane. JavaScript's `charCodeAt` and `[0]` see two code units for characters beyond it.
- CandidateForm.Validate: a truthy phone that is not a string makes the source throw, because `replace` is missing. The model reads it through `String()` instead. `readFormData` only ever produces strings there.
- The regular-expression engine is not modelled. The e-mail pattern and `\D` are written as predicates over characters, and `CandidateForm.EmailShapeMatchesPattern` relates the e-mail one to the pattern.

## Findings

| source | as written | input that shows it | evidently intended | confidence | as-written member | corrected member |
|---|---|---|---|---|---|---|
| js/utils/common.js:108-124 | `map[s] ?? 0` on an object literal also finds the inherited `constructor` and `__proto__` properties | `rateToNumber("constructor")` returns the `Object` function, not a number of stars | a text that is not a label reads as 0 stars | not executed | `Common.InheritedNameReads` | `Common.RateToNumber` |
| js/features/candidates/candidate.modal.js:207-218 | `max + 1` is computed in doubles, which stop holding every integer at 2^53 | `generateNextCandidateId([{id: "cand_9007199254740992"}])` returns `cand_9007199254740992` again | an id that no record has | not executed | `CandidateStore.NextIdAsWrittenRepeats` | `CandidateStore.NextIdIsFresh` |
