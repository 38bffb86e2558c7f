# Employee attendance manager — a Dafny model

This project models the single React component of the employee attendance
report app (`src/App.jsx`). The app keeps a list of employee records in
component state. When the user submits the form, it either adds the draft as
a new record or replaces the record that is being edited. Deleting a record
goes through a confirmation dialog. The table shows only the records that
match the search box.

The component's state is the class `AttendanceApp.App`. Its fields are:

- `employees`: the collection.
- `draft`: the form's `formData`.
- `editingId`: `Option<string>` standing for the JavaScript `null` or string.
- `searchTerm`.
- `deleteModal`: `Hidden`, or `Pending(empId)`.
- `lastPopup`: a ghost field holding the last notification raised.

Each event handler is a method of the class. Each method states its whole new
state in terms of the old one, and all of them keep the object invariant
`Valid()`. `Valid()` says three things:

- ids are unique;
- ids are never empty;
- while editing, the draft carries the id being edited. This holds because the
  id input is disabled in edit mode.

The list computations inside the handlers are pure functions over sequences:
`some`, `map` and `filter` (module `JsArray`), and the id-keyed operations
built on them (module `Records`). The search predicate is in module `Search`.
Lemmas about these functions state what the handlers promise: order-preserving
deletes and filters, in-place replacement, append-at-end, and uniqueness.

Modules, one per concern:

- `Wrappers`: `Option`.
- `JsArray`: `some`, `map` and `filter`, with their characterising lemmas.
- `Text`: ASCII `toLowerCase` and `includes`.
- `Records`: the `Employee` record, field updates, and the id-keyed list
  operations with their uniqueness lemmas.
- `Search`: the table filter.
- `AttendanceApp`: submit validation, the `App` class, and an example session.

Points where the code's behaviour is easy to misread:

- The search matches name, department and gender case-insensitively and the
  id verbatim. It does not look at attendance or trim the term
  (`src/App.jsx:132-138`); the search box's placeholder at line 222 names the
  same four fields. So searching "present" finds a record only through its
  name, id, department or gender: see `Search.PresentFindsNoAttendance`.
- The profile test uses JavaScript truthiness, `!editingId` (line 75). The
  branch choice uses `editingId !== null` (line 80). Both are modelled as
  written: `IsFalsy` and `Some?`. They agree whenever the line-75 test is
  reached. In edit mode the draft's id is `editingId`: lines 109-110 set both
  and the id input is disabled (line 153). A falsy `editingId` other than
  `null` would therefore be an empty draft id, and the `!id` test at line 70
  rejects that first. `AttendanceApp.ProfileTestAfterFieldCheck` states this
  argument. In the model, where records only enter the collection through a
  submit (the load at lines 30-34 is left out), ids are never empty, and
  `App.ProfileTestFollowsMode` proves that the two tests agree in every valid
  state.
- Deleting the record that is being edited does not leave edit mode
  (`src/App.jsx:120-125` does not touch `editingId`). A later submit then runs
  the `map` of lines 81-85, which matches no record, so the collection is
  unchanged; line 87 still reports "Employee updated successfully" and edit
  mode ends. `AttendanceApp.ExampleStaleEdit` walks through this.

## Model

| member | source | states |
|---|---|---|
| `JsArray.AnyIff` | src/App.jsx:89 | `some` holds exactly when some position satisfies the predicate |
| `JsArray.MapAt` | src/App.jsx:82-84 | `map` keeps the length and transforms each position independently |
| `JsArray.FilterMembers` | src/App.jsx:122 | an element is in the `filter` result iff it was in the input and satisfies the predicate |
| `JsArray.FilterCount` | src/App.jsx:122 | `filter` keeps every occurrence of a satisfying element and no occurrence of the others |
| `JsArray.FilterIsSubsequence` | src/App.jsx:132-138 | the `filter` result is a subsequence of the input: nothing is reordered |
| `JsArray.FilterKeepsAll` | src/App.jsx:132-138 | when every element satisfies the predicate, `filter` returns its input |
| `JsArray.FilterKeepsNone` | src/App.jsx:132-138 | when no element satisfies the predicate, `filter` returns the empty list |
| `JsArray.FilterMapCommute` | src/App.jsx:132-138 | rewriting elements in a way the predicate cannot see commutes with filtering |
| `Text.LowerShape` | src/App.jsx:134 | `toLowerCase` keeps the length and leaves no ASCII capital |
| `Text.LowerIdempotent` | src/App.jsx:134 | lower-casing twice equals lower-casing once |
| `Text.IncludesIff` | src/App.jsx:134-137 | `includes` holds iff the term is a prefix of some suffix of the text |
| `Text.IncludesEmpty` | src/App.jsx:134-137 | every text includes the empty term |
| `Text.IncludesLength` | src/App.jsx:134-137 | a text only includes terms no longer than itself |
| `Records.WithField` | src/App.jsx:51-54 | the named field gets the new value; every other field of the draft is unchanged |
| `Records.HasIdIff` | src/App.jsx:89 | the duplicate test holds iff some stored record has exactly the draft's id (string equality) |
| `Records.ReplaceByIdAt` | src/App.jsx:81-85 | the update keeps the length, replaces each record with the edited id by the draft, and leaves every other record at its position |
| `Records.RemoveByIdSpec` | src/App.jsx:122 | the delete keeps exactly the records whose id differs from the target, as often as before and in order |
| `Records.RemoveKeepsIdsNonEmpty` | src/App.jsx:122 | deleting keeps every remaining id non-empty when all were |
| `Records.RemoveAbsentId` | src/App.jsx:122 | deleting an id that no record has leaves the collection unchanged |
| `Records.AppendFreshKeepsUnique` | src/App.jsx:89-93 | appending a draft whose id is absent keeps ids unique |
| `Records.ReplaceKeepsUnique` | src/App.jsx:80-86 | the update with a draft carrying the edited id keeps ids unique |
| `Records.RemoveKeepsUnique` | src/App.jsx:122 | deleting keeps ids unique |
| `Search.FilteredSpec` | src/App.jsx:132-138 | the table shows an order-preserving selection of the collection: exactly the matching records, each as often as stored |
| `Search.EmptyTermKeepsAll` | src/App.jsx:132-138 | an empty search term shows the whole collection in its order |
| `Search.AttendanceIsNotSearched` | src/App.jsx:132-138 | overwriting attendance commutes with filtering, so attendance never decides whether a record is shown |
| `Search.CaseInsensitiveFields` | src/App.jsx:134-137 | records whose name, department and gender differ only in letter case (same id) match the same terms |
| `Search.CaseInsensitiveTerm` | src/App.jsx:134-137 | terms that agree after lower-casing get the same answer from the name, department and gender tests |
| `Search.TooLongTermMisses` | src/App.jsx:132-138 | a term longer than every searched field of a record does not match it |
| `Search.HrFindsHrDepartment` | src/App.jsx:136 | the term "hr" shows every record of department "HR" |
| `Search.IdIsCaseSensitive` | src/App.jsx:135 | the id is compared verbatim: "e1" does not find id "E1" |
| `Search.PresentFindsNoAttendance` | src/App.jsx:132-138 | the term "present" does not find a record whose only match would be its attendance |
| `AttendanceApp.SubmitAccepted` | src/App.jsx:70-92 | a submit is accepted iff the five fields are non-empty, a profile is present whenever `editingId` is falsy, and in create mode no stored record has the draft's id |
| `AttendanceApp.ProfileTestAfterFieldCheck` | src/App.jsx:70-80 | when the draft carries the edited id and the field test has passed, `!editingId` and `editingId === null` agree |
| `AttendanceApp.App.constructor` | src/App.jsx:7-27 | the initial state: empty collection, empty draft, not editing, empty search, dialog hidden |
| `AttendanceApp.App.ProfileTestFollowsMode` | src/App.jsx:75-80 | in every valid state, `!editingId` and `editingId === null` agree |
| `AttendanceApp.App.HandleChange` | src/App.jsx:51-54 | exactly the named draft field takes the value; the id field is only changed outside edit mode (line 153); nothing else changes |
| `AttendanceApp.App.FileLoaded` | src/App.jsx:60-62 | the completed file read sets only the draft's profile |
| `AttendanceApp.App.HandleSubmit` | src/App.jsx:66-106 | a rejected submit raises its notification and changes nothing else; edit mode replaces the matching records in place and leaves edit mode; create mode appends the draft at the end; success resets the draft; ids stay unique |
| `AttendanceApp.App.EditEmployee` | src/App.jsx:108-110 | the draft becomes the chosen record and `editingId` its id |
| `AttendanceApp.App.OpenDeleteModal` | src/App.jsx:115-117 | the dialog asks about the given id, replacing any pending request; the invariant is kept |
| `AttendanceApp.App.ConfirmDelete` | src/App.jsx:120-125 | exactly the records with the pending id are removed, the rest keep their order, the dialog is hidden, the delete notification is raised |
| `AttendanceApp.App.CancelDelete` | src/App.jsx:128-130 | the dialog is hidden; the collection is not touched (it is outside the frame); the invariant is kept |
| `AttendanceApp.App.SetSearchTerm` | src/App.jsx:224 | the search term becomes the typed text; the invariant is kept |
| `AttendanceApp.App.Filtered` | src/App.jsx:132-138 | the shown rows are a subsequence of the collection, are exactly its records that match the current term, and keep each such record as often as it is stored |
| `AttendanceApp.ExampleAdd` | src/App.jsx:66-106 | filling every field and submitting in create mode stores exactly that record and resets the draft |
| `AttendanceApp.ExampleSearch` | src/App.jsx:132-138 | for the one stored record, "present" shows no row and the empty term shows that record |
| `AttendanceApp.ExampleStaleEdit` | src/App.jsx:80-87 | after the record being edited is deleted, submitting the edit leaves the collection empty, ends edit mode and still raises the update notification |
| `AttendanceApp.ExampleDelete` | src/App.jsx:115-125 | opening the dialog for id "1" and confirming empties the one-record collection |

## Left out

- Loading from and saving to `localStorage`, and the `isLoaded` guard (`src/App.jsx:30-41`). This is browser storage plus `JSON.parse`/`JSON.stringify`. The model starts from the component's initial empty state, and the serialisation round trip is not modelled.
- Reading the image file (`handleFileChange`, `src/App.jsx:56-64`). `FileReader` is asynchronous browser I/O with data-URL encoding. Only its completion is modelled: `FileLoaded` stores an opaque string as the profile. The race between overlapping reads is not modelled. A failed or aborted read also fires `onloadend`, with `reader.result` equal to `null`, and line 61 stores that as the profile; `FileLoaded("")` stands for it, since `null` and the empty string are both falsy at line 75 and no other handler test reads the profile.
- The notification banner (`showPopup`, `src/App.jsx:44-49`). Its three-second auto-hide timer is asynchronous. The model keeps only the last message and style raised, in the ghost field `lastPopup`. Visibility and the overlapping-timer race are not modelled.
- Rendering, `window.scrollTo`, `e.preventDefault` and the `Date.now()` file-input key (`src/App.jsx:21`, `105`, `111`, `140-321`). These are user-interface concerns with no effect on the data.
- Unicode case folding. `toLowerCase` is modelled on the ASCII letters only; every other character is kept unchanged.
- String representation. Dafny's `string` is a sequence of Unicode scalar values, while JavaScript strings are sequences of UTF-16 code units; `includes` in the search filter (`src/App.jsx:134-137`) can differ between the two only for strings holding lone surrogates. `toString()` on a string id is the identity and is left implicit.
- React's deferred state updates. The handlers run one event at a time, so the current-render `employees` read by the duplicate test and the `prev` used by the updater are the same list. The model applies each update at once.
- `handleChange` with an input name other than the six record fields. The form renders no such input. The model's `Field` type lists only the six.
- App.HandleChange: requires that the id field is not changed while editing. The id input is disabled in edit mode (`src/App.jsx:153`), so the browser never fires that change.
- App.ConfirmDelete: requires a pending dialog. The confirm button is only rendered while the dialog is visible (`src/App.jsx:305-310`). The `null.toString()` failure of a confirm with no target is therefore not modelled.
- App.EditEmployee: requires that the chosen record is in the collection. The edit buttons are rendered from the collection's own rows (`src/App.jsx:243-270`).
