# User roster screens, modelled in Dafny

A model of the client-side logic of two React Native screens that keep a roster of users in a
Firestore collection, with proofs of what that logic guarantees.

- **Registration screen** (`screens/RegistrationScreen.js`). `handleSubmit` runs three checks in a fixed order:
  - the name has at least three characters;
  - the email contains `@`;
  - the phone has exactly ten characters and `isNaN` does not reject it.

  If the checks pass, it raises `loading`, writes a new user document and lowers `loading`. The form is cleared only when the store accepts the write. The Submit button is disabled while `loading` is set.
- **User list screen** (`screens/UserListScreen.js`). It holds the fetched roster, a search term, a sort toggle (key and direction) and an edit session (the selected user, three draft fields and modal visibility). Its handlers:
  - `handleSort`;
  - `handleEdit`;
  - `handleUpdate`, which blank-checks, writes to the store, then maps the roster;
  - the confirmed branch of `handleDelete`, which deletes in the store, then filters the roster;
  - the modal's Cancel and dismiss.

  The list displayed (`filteredUsers`) is the roster filtered by a case-insensitive substring search over name, email and phone, then sorted with `Array.prototype.sort` on one lowercased field.

The store is replaced by a `Success | Failure` outcome passed to each handler, and the clock by a timestamp parameter.

Modules:

| module | file | contents |
|---|---|---|
| `Wrappers` | `wrappers.dfy` | `Option` |
| `Gateway` | `gateway.dfy` | the store's outcome |
| `Seqs` | `seqs.dfy` | order-preserving filtering (`Array.prototype.filter`) and subsequences |
| `JsText` | `js_text.dfy` | the JavaScript string operations used: `trim`, `toLowerCase`, `includes`, `<` on strings (ECMA-262 IsLessThan), and the StringNumericLiteral grammar behind `isNaN` (ECMA-262 StringToNumber) |
| `Roster` | `roster.dfy` | the user record, the update-by-id map and the remove-by-id filter |
| `StableSort` | `stable_sort.dfy` | `Array.prototype.sort` for a consistent comparator: insertion sort, proved sorted, a permutation and stable, and shown to be the only such arrangement |
| `QueryView` | `query_view.dfy` | `filteredUsers` |
| `UserListScreen` | `user_list_screen.dfy` | the sort toggle, the `EditSession` specification of `handleUpdate`, and class `UserList` with the screen's state and handlers |
| `RegistrationScreen` | `registration_screen.dfy` | the validation chain, the `Submit` specification, and class `Registration` with its state and `handleSubmit` split at the store call |

The model follows the code where a plain reading of the screens might expect otherwise:
- Cancel and dismiss only hide the modal. The selected user and the drafts stay.
- A failed `deleteDoc` has no `catch`, so the roster is unchanged and no alert is raised.
- `handleUpdate` only checks that the drafts are not blank after `trim`. It does not re-run the registration checks.
- The phone check is `isNaN`, which is not a digits-only test:
  - it accepts a sign, a decimal point, surrounding white space, hexadecimal literals and ten spaces;
  - the lemmas `SignedPhoneIsAccepted`, `PointedPhoneIsAccepted`, `PaddedPhoneIsAccepted`, `HexPhoneIsAccepted` and `BlankPhoneIsAccepted` show each case.
- `handleUpdate` with no selected user throws a `TypeError` at `editingUser.id`. The `catch` turns that into the error alert, and nothing changes.

## Model

| member | source | states |
|---|---|---|
| Seqs.Keep | screens/UserListScreen.js:90-95 | the filter keeps at most the input's elements, and an element is in the result exactly when it is in the input and passes the predicate |
| Seqs.KeepIsSubsequence | screens/UserListScreen.js:90-95 | filtering keeps the relative order of the kept elements |
| Seqs.KeepCount | screens/UserListScreen.js:90-95 | filtering keeps every occurrence of a passing element and none of a failing one |
| Seqs.KeepAll | screens/UserListScreen.js:90-95 | a filter every element passes returns its input unchanged |
| JsText.LeadingSpace | screens/UserListScreen.js:60 | the count of leading characters `trim` strips: all of them are white space and the next one is not |
| JsText.TrailingSpace | screens/UserListScreen.js:60 | the count of trailing characters `trim` strips: all of them are white space and the one before them is not |
| JsText.TrimStart | screens/UserListScreen.js:60 | the result is a suffix of the input, does not start with white space, and only white space was removed |
| JsText.TrimEnd | screens/UserListScreen.js:60 | the result is a prefix of the input, does not end with white space, and only white space was removed |
| JsText.Trim | screens/UserListScreen.js:60 | `trim` never lengthens a string |
| JsText.TrimStripsBothEnds | screens/UserListScreen.js:60 | what `trim` returns neither starts nor ends with white space |
| JsText.IsBlank | screens/UserListScreen.js:60 | `!s.trim()`; its contract is `JsText.BlankIffAllSpace` |
| JsText.BlankIffAllSpace | screens/UserListScreen.js:60 | `!s.trim()` holds exactly when every character of `s` is JavaScript white space or a line terminator |
| JsText.ToLower | screens/UserListScreen.js:92-94 | lowercasing keeps the length, turns each upper-case ASCII letter into its lower-case letter, and leaves every other character unchanged |
| JsText.ToLowerIdempotent | screens/UserListScreen.js:92-94 | lowercasing an already lowercased string changes nothing |
| JsText.Includes | screens/UserListScreen.js:92-94 | `String.prototype.includes` as a left-to-right scan; its contract is `JsText.IncludesIffOccurs`, and `JsText.IncludesChar` for `email.includes("@")` at RegistrationScreen.js:17 |
| JsText.IncludesIffOccurs | screens/UserListScreen.js:92-94 | `includes` holds exactly when the needle occurs at some position of the haystack |
| JsText.IncludesEmpty | screens/UserListScreen.js:92-94 | every string includes the empty string |
| JsText.IncludesChar | screens/RegistrationScreen.js:17 | `email.includes("@")` is membership of `@` in the email |
| JsText.LessThan | screens/UserListScreen.js:100-101 | `<` on two strings; its contract is `JsText.LessThanIsLexicographic`, with `LessThanIrreflexive`, `LessThanTransitive` and `LessThanTrichotomy` |
| JsText.LessThanIsLexicographic | screens/UserListScreen.js:100-101 | string `<` holds exactly for a proper prefix, or at the first differing position with the smaller character |
| JsText.LessThanIrreflexive | screens/UserListScreen.js:100-101 | no string is below itself |
| JsText.LessThanTransitive | screens/UserListScreen.js:100-101 | string `<` is transitive |
| JsText.LessThanTrichotomy | screens/UserListScreen.js:100-101 | of two strings exactly one is below the other, or they are equal |
| JsText.IndexOf | screens/RegistrationScreen.js:21 | the index is the first occurrence of the character, or the length when it is absent |
| JsText.IndexOfAbsent | screens/RegistrationScreen.js:21 | the index of an absent character is the length |
| JsText.ParsesAsNumber | screens/RegistrationScreen.js:21 | `!isNaN(s)`: the trimmed string is empty or a StrNumericLiteral; what it accepts and refuses is stated by `JsText.DigitsParseAsNumber` and the `RegistrationScreen` phone lemmas |
| JsText.DigitsParseAsNumber | screens/RegistrationScreen.js:21 | a non-empty run of decimal digits is never NaN |
| JsText.DigitsTrim | screens/RegistrationScreen.js:21 | a run of digits has nothing to trim |
| JsText.TrimEnds | screens/RegistrationScreen.js:21 | a string that starts and ends with non-white-space is its own trim |
| JsText.TrimmedParse | screens/RegistrationScreen.js:21 | for a string with nothing to trim, the conversion reads the string itself |
| JsText.DigitsAreDecimalLiteral | screens/RegistrationScreen.js:21 | a run of digits is an unsigned decimal literal |
| Roster.UpdateById | screens/UserListScreen.js:69 | the map keeps length, ids and timestamps; records with the id get the drafts; every other record is unchanged |
| Roster.UpdateAbsentId | screens/UserListScreen.js:69 | updating an id the roster does not hold changes nothing |
| Roster.UpdateKeepsIds | screens/UserListScreen.js:69 | an update keeps the id column, so it keeps ids unique |
| Roster.RemoveId | screens/UserListScreen.js:45 | `users.filter(u => u.id !== id)` never lengthens the roster and keeps exactly the records with another id; `Roster.RemoveIdSpec` adds order and multiplicities |
| Roster.RemoveIdSpec | screens/UserListScreen.js:45 | after the filter no record has the id, every other record keeps all its occurrences, and the order is kept |
| Roster.RemoveAbsentId | screens/UserListScreen.js:45 | removing an id the roster does not hold changes nothing |
| Roster.RemoveKeepsUniqueIds | screens/UserListScreen.js:45 | a removal keeps ids unique |
| StableSort.Transitive | screens/UserListScreen.js:96 | a consistent comparator's "not after" relation is transitive |
| StableSort.TiesSnoc | screens/UserListScreen.js:96 | appending an element adds it to the group of every element it ties with |
| StableSort.SortedLast | screens/UserListScreen.js:96 | in a sorted sequence every element compares at most equal to the last |
| StableSort.InsertPermutes | screens/UserListScreen.js:96 | insertion adds exactly the inserted element |
| StableSort.InsertSorted | screens/UserListScreen.js:96 | inserting into a sorted sequence keeps it sorted |
| StableSort.InsertTies | screens/UserListScreen.js:96 | the inserted element goes after every element it ties with |
| StableSort.SortBy | screens/UserListScreen.js:96 | the `.sort` call keeps the length; its full contract is `StableSort.SortBySpec` |
| StableSort.SortBySpec | screens/UserListScreen.js:96-103 | `sort` returns a sorted permutation of its input in which tied elements keep their input order |
| StableSort.TiesContains | screens/UserListScreen.js:96 | the group of `x` holds exactly the elements tying with `x` |
| StableSort.StableSameElements | screens/UserListScreen.js:96 | sequences with the same groups of ties hold the same elements |
| StableSort.SameLast | screens/UserListScreen.js:96 | two sorted sequences with the same groups of ties end alike |
| StableSort.LastTie | screens/UserListScreen.js:96 | two last elements that tie and end the same group are equal |
| StableSort.CancelSuffix | screens/UserListScreen.js:96 | a proof step of `StableSort.SortedStableUnique`: a common suffix cancels from two equal concatenations |
| StableSort.SortedStableUnique | screens/UserListScreen.js:96-103 | any two sorted, stable arrangements of the same sequence are equal, so every conforming engine returns the same list |
| StableSort.SortBySorted | screens/UserListScreen.js:97 | sorting an already sorted sequence, as with the comparator that always returns 0, leaves it unchanged |
| QueryView.Matches | screens/UserListScreen.js:91-94 | the search test; its contract is `QueryView.FilterIsExact`, with `QueryView.MatchesLowerTerm` for case-insensitivity |
| QueryView.Filter | screens/UserListScreen.js:90-95 | the filter never lengthens the roster and keeps exactly the matching records; `QueryView.FilterIsExact` adds order and multiplicities |
| QueryView.MatchesLowerTerm | screens/UserListScreen.js:92-94 | the search is case-insensitive in the term: searching the lowercased term finds the same records |
| QueryView.FilterIsExact | screens/UserListScreen.js:89-95 | the filtered list is an order-preserving subsequence of the roster holding exactly the matching records, each as often as in the roster |
| QueryView.EmptyTermMatchesAll | screens/UserListScreen.js:92-94 | every record matches the empty search term |
| QueryView.EmptyTermKeepsAll | screens/UserListScreen.js:92-94 | the empty search term keeps the whole roster in order |
| QueryView.Compare | screens/UserListScreen.js:96-103 | the comparator returns -1, 0 or 1, and 0 when there is no key; `QueryView.CompareAntisymmetric` and `QueryView.CompareByDirection` state its order |
| QueryView.Comparator | screens/UserListScreen.js:96-103 | the comparator as the value handed to `sort`; its contract is `QueryView.ComparatorConsistent` |
| QueryView.CompareAntisymmetric | screens/UserListScreen.js:96-103 | swapping the records negates the comparator, which is 0 exactly when the lowercased keys are equal or there is no key |
| QueryView.CompareTransitive | screens/UserListScreen.js:96-103 | the comparator's "not after" is transitive in both directions |
| QueryView.CompareByDirection | screens/UserListScreen.js:100-101 | with a key, asc accepts a pair exactly when the keys are in ascending string order, desc exactly when they are in descending order |
| QueryView.ComparatorConsistent | screens/UserListScreen.js:96-103 | the screen's comparator meets ECMA-262's requirements on a consistent comparator |
| QueryView.ComparatorTies | screens/UserListScreen.js:102 | the comparator returns 0 exactly on records with equal lowercased keys |
| QueryView.Project | screens/UserListScreen.js:89-103 | `filteredUsers`; its contract is `QueryView.ProjectSpec` |
| QueryView.ProjectSpec | screens/UserListScreen.js:89-103 | the list is a sorted, stable permutation of the filtered roster and holds exactly the roster's matching records |
| QueryView.ProjectOrderedByKey | screens/UserListScreen.js:98-101 | with a key the lowercased field is non-decreasing for asc and non-increasing for desc |
| QueryView.ProjectIsStable | screens/UserListScreen.js:96-103 | records with equal lowercased keys appear in their roster order |
| QueryView.KeyTiesAreTies | screens/UserListScreen.js:102 | the records with the same lowercased key are the comparator's ties |
| QueryView.ProjectIsTheStableSort | screens/UserListScreen.js:96-103 | any sorted, stable arrangement of the filtered roster equals the modelled list |
| QueryView.ProjectIdentity | screens/UserListScreen.js:89-97 | an empty term with no key shows the roster unchanged and in order |
| QueryView.ProjectIdempotent | screens/UserListScreen.js:89-103 | filtering and sorting the shown list again changes nothing |
| QueryView.DirectionKeepsRecords | screens/UserListScreen.js:100-101 | asc and desc show the same records |
| QueryView.ProjectAfterUpdate | screens/UserListScreen.js:69 | after an update, every shown record with the id shows the new fields |
| QueryView.ProjectAfterRemove | screens/UserListScreen.js:45 | after a removal, no shown record has the id |
| QueryView.IncludesFirstChar | screens/UserListScreen.js:92-94 | a string includes a needle only if it contains the needle's first character |
| QueryView.LacksFirstChar | screens/UserListScreen.js:92-94 | a string without the needle's first character does not include it |
| QueryView.BobMatches | screens/UserListScreen.js:93 | a record whose email contains the term matches |
| QueryView.AnnDoesNotMatch | screens/UserListScreen.js:92-94 | a record with the term in none of its fields does not match |
| QueryView.FirstOfTwo | screens/UserListScreen.js:89-97 | with no key, of two records only the matching one is shown |
| QueryView.SearchExample | screens/UserListScreen.js:89-95 | searching `b@x` over Bob and Ann shows Bob only |
| QueryView.SortByNameExample | screens/UserListScreen.js:96-103 | sorting by name ascending lists Ann before Bob |
| QueryView.DescendingIsNotReversedAscending | screens/UserListScreen.js:96-103 | "Sam" and "sam" tie, so both directions list them in roster order and desc is not asc reversed |
| UserListScreen.Flip | screens/UserListScreen.js:82 | the direction always changes |
| UserListScreen.NextSort | screens/UserListScreen.js:80-87 | the key becomes the pressed key; the direction flips on the active key and is asc for any other key |
| UserListScreen.ToggleTwiceRestores | screens/UserListScreen.js:81-82 | pressing the active key twice restores the direction |
| UserListScreen.NewKeyStartsAscending | screens/UserListScreen.js:83-86 | a new key, or the first key from `null`, starts asc |
| UserListScreen.ToggleKeepsRecords | screens/UserListScreen.js:80-87 | a sort toggle never changes which records are shown |
| UserListScreen.Update | screens/UserListScreen.js:59-78 | the update reports success exactly when a write is sent and the store accepts it; on every other path the session is unchanged |
| UserListScreen.UpdateRefusesBlank | screens/UserListScreen.js:60-63 | a draft that is blank after `trim` is refused with the validation alert, no write, and no change |
| UserListScreen.EmptiedDraftIsRefused | screens/UserListScreen.js:60-63 | an emptied draft is refused and nothing changes |
| UserListScreen.UpdateFailureChangesNothing | screens/UserListScreen.js:74-77 | a store failure leaves the roster, selection, drafts and modal unchanged, never reports success, and raises the error alert whenever the drafts were not blank |
| UserListScreen.UpdateSuccess | screens/UserListScreen.js:66-72 | on success the write carries the drafts; the roster keeps length, order and ids; records with the id get the drafts; the rest are unchanged; the session is closed and cleared |
| UserListScreen.UpdateKeepsSessionValid | screens/UserListScreen.js:70-71 | no update leaves the modal open with no selected user |
| UserListScreen.SavingUnchangedDraftsKeepsRoster | screens/UserListScreen.js:69 | saving a record's own fields, with unique ids, leaves the roster unchanged |
| UserListScreen.UserList.constructor | screens/UserListScreen.js:8-17 | the initial state of every hook |
| UserListScreen.UserList.FetchUsers | screens/UserListScreen.js:19-31 | a fetch replaces the roster; a failed fetch keeps it and alerts; the open-modal invariant is kept |
| UserListScreen.UserList.HandleSort | screens/UserListScreen.js:80-87 | the new key and direction are `NextSort` of the old ones; the open-modal invariant is kept |
| UserListScreen.UserList.HandleEdit | screens/UserListScreen.js:51-57 | the user is selected, the drafts are its name, email and phone, and the modal is open |
| UserListScreen.UserList.CloseModal | screens/UserListScreen.js:150-156 | Cancel and dismiss only hide the modal; the selection and drafts are untouched |
| UserListScreen.UserList.HandleUpdate | screens/UserListScreen.js:59-78 | the new session, the alert and the write sent are those `Update` gives for the old session |
| UserListScreen.UserList.ConfirmDelete | screens/UserListScreen.js:43-45 | on success the roster loses the id; on failure it is unchanged; the open-modal invariant is kept |
| RegistrationScreen.Validate | screens/RegistrationScreen.js:13-24 | name error exactly when the name is short; email error exactly when the name passes and the email lacks `@`; phone error exactly when both pass and the phone is not ten characters or is NaN; accepted otherwise |
| RegistrationScreen.DigitPhoneIsAccepted | screens/RegistrationScreen.js:21 | a valid name and email with ten decimal digits pass |
| RegistrationScreen.SignedPhoneIsAccepted | screens/RegistrationScreen.js:21 | a sign and nine digits pass, although they are not ten digits |
| RegistrationScreen.PointedPhoneIsAccepted | screens/RegistrationScreen.js:21 | digits around a decimal point pass |
| RegistrationScreen.PaddedPhoneIsAccepted | screens/RegistrationScreen.js:21 | white space and nine digits pass |
| RegistrationScreen.HexPhoneIsAccepted | screens/RegistrationScreen.js:21 | `0x` and eight hexadecimal digits pass |
| RegistrationScreen.BlankPhoneIsAccepted | screens/RegistrationScreen.js:21 | ten white-space characters pass, since they convert to 0 |
| RegistrationScreen.DashedPhoneIsRefused | screens/RegistrationScreen.js:21 | digits around a dash are NaN |
| RegistrationScreen.NotANumber | screens/RegistrationScreen.js:21 | a string starting with a digit, with no point, exponent or radix letter, is a numeric literal only if it is all digits |
| RegistrationScreen.NotUnsignedLiteral | screens/RegistrationScreen.js:21 | such a string is not an unsigned decimal literal unless it is all digits |
| RegistrationScreen.SignedDigits | screens/RegistrationScreen.js:21 | a sign followed by digits is a number |
| RegistrationScreen.PointedDigits | screens/RegistrationScreen.js:21 | digits around a point are a number |
| RegistrationScreen.PaddedDigits | screens/RegistrationScreen.js:21 | digits after white space are a number |
| RegistrationScreen.Submit | screens/RegistrationScreen.js:12-43 | a document is written exactly when the checks pass |
| RegistrationScreen.RejectedChangesNothing | screens/RegistrationScreen.js:13-24 | a failed check writes nothing, keeps every field and reports the first failure |
| RegistrationScreen.NameCheckComesFirst | screens/RegistrationScreen.js:13-16 | a short name is reported whatever the email and phone are |
| RegistrationScreen.WrongLengthPhoneIsRefused | screens/RegistrationScreen.js:21-23 | once name and email pass, a phone whose length is not ten is refused and nothing is written |
| RegistrationScreen.AcceptedWritesEnteredFields | screens/RegistrationScreen.js:28-39 | the document carries exactly the entered fields; they are cleared on store success and kept on failure |
| RegistrationScreen.Registration.constructor | screens/RegistrationScreen.js:7-10 | empty fields and `loading` false |
| RegistrationScreen.Registration.BeginSubmit | screens/RegistrationScreen.js:13-33 | callable only while not loading; returns the verdict and, exactly when it is accepted, the document of the entered fields, raising `loading` then and only then |
| RegistrationScreen.Registration.CompleteSubmit | screens/RegistrationScreen.js:34-42 | lowers `loading`; clears the fields on success and keeps them on failure |
| RegistrationScreen.Registration.HandleSubmit | screens/RegistrationScreen.js:12-51 | a press of the enabled button ends with `loading` false and the form, alert and document `Submit` gives |

## Left out

- Firestore I/O: `getDocs`, `addDoc`, `updateDoc`, `deleteDoc`, `collection` and `doc` are not modelled. Each handler takes the store's outcome (or the fetched roster) as a parameter.
- `new Date()` is the `now` parameter of `HandleSubmit`; the clock is not modelled.
- `Alert.alert`, `console.error`, `navigation.navigate`, styles and rendering are left out. Alerts are an outcome value.
- The confirmation dialog of `handleDelete` is left out. `ConfirmDelete` is its Delete button; Cancel does nothing.
- Async interleaving is not modelled. Each handler runs to completion before the next event, and the registration submit is split at its one `await`. The `users` that `handleDelete`'s callback captured when the dialog opened is not modelled either: `ConfirmDelete` filters the current roster.
- A rejected `deleteDoc` is an unhandled promise rejection in the app. The model only states that the roster is unchanged and no alert is raised.
- JsText.ToLower: lowercases ASCII letters only, whereas `toLowerCase` applies full Unicode case mapping.
- JsText.LessThan: compares characters, whereas JavaScript compares UTF-16 code units. The two differ only outside the Basic Multilingual Plane.
- RegistrationScreen.Validate: a string's length is counted in characters, not UTF-16 code units.
- Records whose name, email or phone is missing or not a string are left out. The `?.` in the filter, and the `TypeError` those records would cause in the comparator, are not modelled: every `User` has three strings.
- `UserList.Displayed` has no contract of its own; `QueryView.ProjectSpec` states what it shows.
