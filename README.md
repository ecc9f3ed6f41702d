# Employee dashboard — a verified model of its list logic

The employee management admin panel keeps an ordered list of employee records
(`id`, `name`, `gender`, `dob`, `state`, `image`, `isActive`) and lets an administrator
search and filter it, add and edit records through a validated form, delete records after
a confirmation, and flip a record's active flag. The dashboard also shows three summary
cards: total, active and inactive.

This project models that logic in Dafny:

- `list_ops.dfy` (`ListOps`): `Array.prototype.filter` and `Array.prototype.map` as
  functions on sequences, with order (subsequence), membership, concatenation and
  filter-fusion facts.
- `text.dfy` (`Text`): `toLowerCase` (ASCII letters), `includes`, and `trim` with the
  ECMAScript whitespace set.
- `employees.dfy` (`Employees`): the record, the form, and id uniqueness.
- `validation.dfy` (`Validation`): `validateForm`'s four presence checks and the error
  object it builds.
- `employee_list.dfy` (`EmployeeList`): the summary counts, the three-stage filter, and
  add, edit, delete, toggle and save as functions from the current list to the next one,
  with their properties.
- `dashboard.dfy` (`DashboardComponent`): the component's state (`employees`, `errors`,
  `showModal`) as a class whose handlers replace that state through the functions above.

Inputs that come from the browser are parameters. `Date.now()` is the `now` argument of
save/add. The `window.confirm` answer is the `confirmed` argument of delete.

Editing, toggling or deleting an id that no record carries raises no error and leaves the
list as it was (`EmployeeList.EditProperties`, `EmployeeList.DeleteEmployee`). The clock
reading that becomes a new record's id is not checked against the list, so two adds in
the same millisecond would share an id. Id uniqueness is therefore stated only for a
clock reading that is not already an id (`EmployeeList.AddKeepsIdsUnique`,
`EmployeeList.SaveKeepsIdsUnique`).

## Model

| member | source | states |
|---|---|---|
| `ListOps.Filter` | src/components/Dashboard/Dashboard.jsx:33-42 | `filter` returns elements of the input that the predicate accepts, keeps every accepted element as often as it occurs (an accepted value's count is its count in the input, a rejected value's count is zero), and keeps them in their original order (a subsequence) |
| `ListOps.Map` | src/components/Dashboard/Dashboard.jsx:119-121 | `map` keeps the length and applies the callback at every position |
| `ListOps.FilterAppend` | src/components/Dashboard/Dashboard.jsx:105 | filtering a list with a record appended is filtering the list, then the record |
| `ListOps.FilterKeepsAll` | src/components/Dashboard/Dashboard.jsx:33-42 | a filter that accepts every element returns the list unchanged |
| `ListOps.FilterDropsAll` | src/components/Dashboard/Dashboard.jsx:113 | a filter that accepts no element returns the empty list |
| `ListOps.FilterCutsOut` | src/components/Dashboard/Dashboard.jsx:113 | when the filter rejects the element at one position and accepts every other one, the result is the list with exactly that position cut out |
| `ListOps.FilterTwice` | src/components/Dashboard/Dashboard.jsx:33-42 | two chained `.filter` calls equal one filter by the conjunction of their conditions |
| `ListOps.FilterSplitsLength` | src/components/Dashboard/Dashboard.jsx:29-31 | the elements a filter keeps plus those its negation keeps number as many as the list |
| `Text.LowerChar` | src/components/Dashboard/Dashboard.jsx:34 | lowering yields no capital letter, keeps every non-capital, and maps a capital to its small letter |
| `Text.Lower` | src/components/Dashboard/Dashboard.jsx:34 | `toLowerCase` keeps the length, leaves no capital letter, and lowers the character at every position |
| `Text.LowerIdempotent` | src/components/Dashboard/Dashboard.jsx:34 | lowering an already lowered string changes nothing |
| `Text.Includes` | src/components/Dashboard/Dashboard.jsx:34 | every string includes the empty string, and a string includes only texts no longer than itself |
| `Text.IncludesIffOccurs` | src/components/Dashboard/Dashboard.jsx:34 | `includes` holds exactly when the search text occurs at some position as a contiguous run |
| `Text.IncludesEmpty` | src/components/Dashboard/Dashboard.jsx:34 | every string includes the empty string |
| `Text.TrimStart` | src/components/Dashboard/Dashboard.jsx:76 | the result is a suffix not starting with whitespace, and all that was dropped is whitespace |
| `Text.TrimEnd` | src/components/Dashboard/Dashboard.jsx:76 | the result is a prefix not ending with whitespace, and all that was dropped is whitespace |
| `Text.Trim` | src/components/Dashboard/Dashboard.jsx:76 | `trim` never lengthens a string, a non-empty result neither starts nor ends with whitespace, and the result is empty exactly when the string has no non-whitespace character |
| `Text.TrimEmptyIff` | src/components/Dashboard/Dashboard.jsx:76 | trimming the start and then the end leaves the empty string exactly when the name has no non-whitespace character |
| `Text.TrimEnds` | src/components/Dashboard/Dashboard.jsx:76 | trimming both ends leaves a string whose first and last characters are not whitespace |
| `Employees.FormRoundTrip` | src/components/Dashboard/Dashboard.jsx:101 | a record read into the form and saved under its own id is the same record; a form saved under an id carries that id and the form's fields |
| `Employees.WithId` | src/components/Dashboard/Dashboard.jsx:101-105 | `{ ...form, id }` carries the given id and every field of the form |
| `Validation.ValidIffNothingMissing` | src/components/Dashboard/Dashboard.jsx:73-90 | a form is valid (name with content, gender, dob and state non-empty) exactly when none of the four checks fails |
| `Validation.EmptyIffNoKey` | src/components/Dashboard/Dashboard.jsx:90 | an error object has zero keys exactly when no field is a key |
| `Validation.Message` | src/components/Dashboard/Dashboard.jsx:76-88 | every error message ends with " is required" after a non-empty label |
| `Validation.Missing` | src/components/Dashboard/Dashboard.jsx:76-78 | the name check fails exactly when the name has no non-whitespace character |
| `Validation.FormValid` | src/components/Dashboard/Dashboard.jsx:73-90 | the form is valid exactly when none of the four field checks fails |
| `Validation.BlankFormFailsAll` | src/components/Dashboard/Dashboard.jsx:46-87 | the blank form the add dialog opens with fails all four checks, so it cannot be saved as it is |
| `Validation.BuildErrors` | src/components/Dashboard/Dashboard.jsx:74-88 | the error object has a key for exactly the failing fields, each with that field's message, and is empty exactly when the form is valid |
| `EmployeeList.ActiveCount` | src/components/Dashboard/Dashboard.jsx:30 | the active count never exceeds the total |
| `EmployeeList.InactiveCount` | src/components/Dashboard/Dashboard.jsx:31 | `total - activeCount` lies between zero and the total and is exactly the number of inactive records |
| `EmployeeList.AllActiveIff` | src/components/Dashboard/Dashboard.jsx:29-30 | the active count equals the total exactly when every record is active |
| `EmployeeList.SummaryCounts` | src/components/Dashboard/Dashboard.jsx:29-31 | `0 <= active <= total`, `active + inactive == total`, and `total - active` is exactly the number of inactive records |
| `EmployeeList.FilteredEmployees` | src/components/Dashboard/Dashboard.jsx:33-42 | the shown list is never longer than the list, and every shown record is in the list and passes the search, gender and status conditions |
| `EmployeeList.FilteredIsOnePass` | src/components/Dashboard/Dashboard.jsx:33-42 | the three-stage pipeline equals one filter by name match AND gender match AND status match |
| `EmployeeList.FilteredSoundAndComplete` | src/components/Dashboard/Dashboard.jsx:33-42 | the shown list is an order-preserving subsequence of the list; each shown record's lowered name includes the lowered search, has the selected gender when one is selected, is active for "active" and inactive for any other non-empty status; every record passing all three is shown |
| `EmployeeList.NoFilterShowsAll` | src/components/Dashboard/Dashboard.jsx:33-42 | with empty search, gender and status the shown list is the whole list, in order |
| `EmployeeList.SearchExample` | src/components/Dashboard/Dashboard.jsx:33-42 | of an active "Asha" and an inactive "Ravi", searching "a" with status "active" shows only Asha |
| `EmployeeList.AddEmployee` | src/components/Dashboard/Dashboard.jsx:104-105 | adding grows the list by one, keeps every earlier record in its position, and puts last a record with id `now` and the form's fields |
| `EmployeeList.ReplaceIfId` | src/components/Dashboard/Dashboard.jsx:101 | the edit callback keeps every record's id, gives a record with the edited id the form's fields, and returns any other record unchanged |
| `EmployeeList.EditEmployee` | src/components/Dashboard/Dashboard.jsx:98-103 | the edit keeps the length; every record with the edited id becomes the form under that id, every other record is unchanged in its place |
| `EmployeeList.FilterAbsentIdKeepsAll` | src/components/Dashboard/Dashboard.jsx:113 | filtering out an id that no record carries returns the list unchanged |
| `EmployeeList.DeleteEmployee` | src/components/Dashboard/Dashboard.jsx:111-115 | unconfirmed, or with an id no record carries, the list is unchanged; confirmed, the result is an order-preserving subsequence with no record of that id, in which every record with another id occurs as many times as in the list |
| `EmployeeList.FlipIfId` | src/components/Dashboard/Dashboard.jsx:120 | the toggle callback flips `isActive` exactly on a record with the id, changes no other field, and undoes itself when applied twice |
| `EmployeeList.ToggleStatus` | src/components/Dashboard/Dashboard.jsx:117-123 | the toggle keeps the length and every field but `isActive` of every record, and flips `isActive` exactly on the records with that id |
| `EmployeeList.SaveEmployee` | src/components/Dashboard/Dashboard.jsx:93-109 | an invalid form leaves the list unchanged; a valid add grows it by one with the form under id `now` last; a valid edit keeps the length and replaces the records with the edited id by the form under that id; every other record keeps its place |
| `EmployeeList.AddAppends` | src/components/Dashboard/Dashboard.jsx:104-105 | adding grows the list by one, keeps every earlier record in its position, puts the form under id `now` last, and raises the active count by one exactly when the form is active |
| `EmployeeList.AddKeepsIdsUnique` | src/components/Dashboard/Dashboard.jsx:105 | when the clock reading is not an id in the list, unique ids stay unique after the add |
| `EmployeeList.EditProperties` | src/components/Dashboard/Dashboard.jsx:98-103 | editing keeps every id and so their uniqueness; editing an absent id leaves the list unchanged with no error; repeating the edit changes nothing |
| `EmployeeList.ToggleTwice` | src/components/Dashboard/Dashboard.jsx:117-123 | toggling the same id twice restores the list |
| `EmployeeList.ActiveCountUpdate` | src/components/Dashboard/Dashboard.jsx:30 | changing one record changes the active count by that record's own change of flag |
| `EmployeeList.ToggleMovesOne` | src/components/Dashboard/Dashboard.jsx:117-123 | with unique ids, toggling a present record keeps the total and the ids' uniqueness and moves the active count by exactly one, down if it was active, up if not |
| `EmployeeList.DeleteRemovesOne` | src/components/Dashboard/Dashboard.jsx:111-115 | with unique ids, a confirmed delete of a present id cuts exactly that record out, so the list shrinks by one |
| `EmployeeList.DeleteTwice` | src/components/Dashboard/Dashboard.jsx:111-115 | after a confirmed delete, deleting the same id again changes nothing |
| `EmployeeList.DeleteKeepsIdsUnique` | src/components/Dashboard/Dashboard.jsx:113 | deleting keeps unique ids unique |
| `EmployeeList.SubsequenceKeepsIdsUnique` | src/components/Dashboard/Dashboard.jsx:113 | any order-preserving subsequence of a list with unique ids has unique ids |
| `EmployeeList.SubsequenceMembers` | src/components/Dashboard/Dashboard.jsx:113 | every element of a subsequence is an element of the whole list |
| `EmployeeList.SaveInvalidKeepsList` | src/components/Dashboard/Dashboard.jsx:93-96 | a form that fails validation stores nothing |
| `EmployeeList.SaveKeepsIdsUnique` | src/components/Dashboard/Dashboard.jsx:93-109 | saving keeps unique ids unique, provided a new record's clock reading is not already an id |
| `DashboardComponent.Dashboard.constructor` | src/components/Dashboard/Dashboard.jsx:7-27 | the dashboard starts over the stored list with no errors and the dialog closed |
| `DashboardComponent.Dashboard.ValidateForm` | src/components/Dashboard/Dashboard.jsx:73-91 | the error state becomes the messages of exactly the failing fields, and the answer is whether the form is valid |
| `DashboardComponent.Dashboard.SaveEmployee` | src/components/Dashboard/Dashboard.jsx:93-109 | the list becomes the saved list; an invalid form changes neither the list nor the dialog and shows the message of exactly each failing field; a valid one closes the dialog and clears the errors; unique ids stay unique given a fresh clock reading |
| `DashboardComponent.Dashboard.DeleteEmployee` | src/components/Dashboard/Dashboard.jsx:111-115 | the list becomes the deleted list: unchanged if not confirmed, without the id if confirmed, unique ids kept |
| `DashboardComponent.Dashboard.ToggleStatus` | src/components/Dashboard/Dashboard.jsx:117-123 | the list becomes the toggled list, of the same length, unique ids kept |

## Left out

- Text.Lower: lowers only the ASCII capitals `A`–`Z`. JavaScript's `toLowerCase` applies full Unicode case mapping, which the model does not capture, so the search is case-insensitive for ASCII letters only.
- `printEmployees` (Dashboard.jsx:126-188): clones the table in the page, opens a window and prints it. This is browser I/O.
- `handleImage` (Dashboard.jsx:65-71): reads a file asynchronously into a data URL. `image` is an opaque string in the model.
- `openAddModal`, `openEditModal`, the form-field setters (Dashboard.jsx:44-63, 346-401) and the Cancel button (Dashboard.jsx:410-415): these only assign UI state. The form and the record being edited are parameters of the handlers instead. `Employees.EmptyForm` and `Employees.ToForm` give what the two dialogs load.
- `handleLogout`, the render tree, `SummaryCard` and `styles` (Dashboard.jsx:190-607): navigation and presentation only.
- `Date.now()` and `window.confirm`: the clock reading and the user's answer are parameters (`now`, `confirmed`). Clock behaviour is not modelled, so two adds in the same millisecond are not ruled out.
- The storage layer, src/context/EmployeeContext.jsx: `localStorage` reads and writes through `JSON.parse`/`JSON.stringify`. This is browser storage behind a serializer whose code is not part of this model. The constructor takes the stored list as given.
- The login check in src/components/Auth/Login.jsx and the route wiring in src/App.jsx: a literal comparison and routing, outside the list logic. The authentication context and the protected route are not part of this model.
- JavaScript values are modelled at the types the dashboard gives them: ids are integers, the text fields are strings, and `isActive` is a boolean. Records restored from storage with other types are not modelled.
