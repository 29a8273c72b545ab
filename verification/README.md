# belatedly — a Dafny model of its birthday-list core

belatedly is a web app that keeps a list of people's birthdays. It shows how
many days remain until each birthday. It can import birthdays from a
comma-separated file, and it signs in against Azure AD. This project models the
pure logic of the app:

- **The legacy birthdays reducer** (`BirthdaysReducer`) and its action creators
  (`Actions`, `ActionTypes`). It works over an ordered list of records.
- **The entity slice of birthdays** (`BirthdaysSlice`). It works over a map from
  id to record, and includes its delete-button selector.
- **The next-birthday and days-until helpers**, in two places: the date
  utilities (`DateUtils`) and the local copies in the view row (`ViewBirthdayRow`).
  - Both rest on the ECMAScript day arithmetic behind `new Date(y, m, d)`
    (`Calendar`), with its roll-over of out-of-range days and months.
- **The import pane's logic**: it turns an uploaded file into draft birthdays,
  and its two selectors decide what to import (`ImportPane`).
- **The auth hook's classifier** of errors that need an interactive sign-in
  (`AadAuth`).
- **The application slice's case reducers** (`AppSlice`).

Three helper modules support these:

- `Wrappers` holds the `Option` type.
- `Seqs` holds `Array.prototype.filter` and a counting fold.
- `Text` holds `String.prototype.split`, `indexOf` and decimal rendering.

How the model represents the app's values:

- **Dates.** A stored `Date` (a record's `date`) is a `CivilDate`: the values
  of `getFullYear`, `getMonth` and `getDate`. Its time of day is not kept,
  because only those getters are read from it. A `Date` the code computes
  (`new Date(y, m, d)`, the argument of `daysUntil`) is its time value in
  milliseconds, in local time. The current time is a `Clock` parameter holding
  the local calendar date and the milliseconds past midnight.
- **Months** are 0-based, as in `Date`.
- **Record ids** are integers.
- **Import collaborators.** Two are parameters of the import model:
  - the draft-id generator, as `freshId(i)`, the id its `i`-th call returns;
  - `new Date(cell).toISOString()`, as `toIso(cell)`, which is `None` where the
    cell does not parse.

Malformed import rows: a row without a parseable second cell makes
`new Date(row[1]).toISOString()` throw, and then nothing is dispatched. The
model follows this with the `DateError(row)` outcome. One consequence is that
a file of fewer than 100 lines that ends in a line break never imports
(`ImportPane.TrailingLineBreakDispatchesNothing`).

## Model

| member | source | states |
|---|---|---|
| Seqs.Filter | belatedly-app/src/redux/reducers/birthdays.ts:54 | the filtered list holds exactly the elements of the input that pass the test, and is no longer than the input |
| Seqs.FilterConcat | belatedly-app/src/redux/reducers/birthdays.ts:54 | filtering a concatenation is the concatenation of the filtered parts, so the kept elements stay in their original order |
| Seqs.Count | belatedly-app/src/components/ImportPane.tsx:16-20 | the counting fold is positive exactly when some element passes the test, and never exceeds the length |
| Seqs.CountIsFilterLength | belatedly-app/src/components/ImportPane.tsx:16-23 | counting the elements that pass equals the length of the filtered list, so the count selector and the filter selector agree |
| Text.Split | belatedly-app/src/components/ImportPane.tsx:59-61 | splitting yields at least one piece and no piece holds the separator |
| Text.JoinSplit | belatedly-app/src/components/ImportPane.tsx:59-61 | joining the pieces with the separator gives back the original text, so splitting loses nothing |
| Text.SplitJoin | belatedly-app/src/components/ImportPane.tsx:59-61 | splitting a join of separator-free pieces gives back the pieces |
| Text.SplitTrailingSeparator | belatedly-app/src/components/ImportPane.tsx:59 | a text ending in the separator splits into the pieces of the text without it, followed by one empty piece |
| Text.SplitPiecesFromString | belatedly-app/src/components/ImportPane.tsx:59-61 | every character of every piece occurs in the split text |
| Text.SplitLength | belatedly-app/src/components/ImportPane.tsx:59 | the number of pieces is one more than the number of separators |
| Text.IndexOf | belatedly-app/src/hooks/auth/useAadAuth.ts:87-90 | `indexOf(sub) > -1` exactly when the text contains `sub`, and the result is then the first position of it |
| Text.IntToStringRoundTrip | belatedly-app/src/components/ViewBirthdayTableRow.tsx:59 | the decimal rendering of an integer parses back to that integer |
| Text.IntToStringInjective | belatedly-app/src/components/ViewBirthdayTableRow.tsx:59 | different integers render to different strings |
| Calendar.YearLength | belatedly-app/src/utils/dateUtils.ts:16 | consecutive years begin 365 or 366 days apart, by the Gregorian leap rule |
| Calendar.YearOrder | belatedly-app/src/utils/dateUtils.ts:16 | every day of an earlier year comes before the first day of any later year |
| Calendar.MonthOrder | belatedly-app/src/utils/dateUtils.ts:16 | every day of an earlier month of a year comes before the first day of a later month of it |
| Calendar.MakeDayOrder | belatedly-app/src/utils/dateUtils.ts:12-16 | a real date that is lexicographically earlier in (year, month, day) has a strictly smaller day number |
| Calendar.MakeDayInjective | belatedly-app/src/utils/dateUtils.ts:16 | two real dates with the same day number are the same date |
| Calendar.NextDay | belatedly-app/src/utils/dateUtils.ts:16 | `new Date(y, m, d + 1)` is one day after a real date `(y, m, d)` and is the next calendar date: the next day of the month, else the 1st of the next month, else 1 January of the next year |
| Calendar.FebruaryRollOver | belatedly-app/src/utils/dateUtils.ts:16 | 29 February of a common year is not a real date and `new Date` rolls it over to 1 March |
| DateUtils.NextBirthdayYear | belatedly-app/src/utils/dateUtils.ts:10-17 | the next birthday falls in the current year exactly when (month, day) is at or after today's, and otherwise in the next year |
| DateUtils.NextBirthdayIsNextOccurrence | belatedly-app/src/utils/dateUtils.ts:10-17 | for a date that is real in the current year, the result is the first occurrence of that month and day that is not before today |
| DateUtils.NextBirthdayNotBeforeToday | belatedly-app/src/utils/dateUtils.ts:10-17 | the next birthday is never before today's midnight, and equals it exactly when month and day are today's |
| DateUtils.NextBirthdayKeepsMonthAndDay | belatedly-app/src/utils/dateUtils.ts:16 | when the day is real in the chosen year, the result reads back with the given month and day, and its year is now or now + 1 |
| DateUtils.NextBirthdayByDateIgnoresYear | belatedly-app/src/utils/dateUtils.ts:19-21 | dates with the same month and day have the same next birthday, whatever their year |
| DateUtils.DaysUntilCountsDays | belatedly-app/src/utils/dateUtils.ts:23-33 | any time during day n is n minus today's day number days away, however far into the day it is |
| DateUtils.DaysUntilTodayAndTomorrow | belatedly-app/src/utils/dateUtils.ts:23-33 | today's midnight is 0 days away and tomorrow's is 1 |
| DateUtils.DaysUntilNextBirthday | belatedly-app/src/utils/dateUtils.ts:10-33 | the days until the next birthday of a real date are never negative, and are 0 exactly on its month and day |
| DateUtils.NextBirthdayBeforeItsDate | belatedly-app/src/utils/dateUtils.ts:12-16 | 15 June seen on 1 January 2024 falls in 2024 |
| DateUtils.NextBirthdayAfterItsDate | belatedly-app/src/utils/dateUtils.ts:12-16 | 15 June seen on 1 July 2024 falls in 2025 |
| ViewBirthdayRow.NextBirthdayAgrees | belatedly-app/src/components/ViewBirthdayTableRow.tsx:16-25 | the row's own next-birthday helper agrees with the date utilities' one on every date and clock |
| ViewBirthdayRow.DaysUntilAgrees | belatedly-app/src/components/ViewBirthdayTableRow.tsx:27-37 | the row's own day count agrees with the date utilities' one |
| ViewBirthdayRow.TodayIffZero | belatedly-app/src/components/ViewBirthdayTableRow.tsx:57-60 | the label is "today" exactly when the count is 0 |
| ViewBirthdayRow.NonzeroCountLabel | belatedly-app/src/components/ViewBirthdayTableRow.tsx:59 | a nonzero count is labelled with a decimal rendering that parses back to the count, followed by " days" |
| ViewBirthdayRow.LabelInjective | belatedly-app/src/components/ViewBirthdayTableRow.tsx:57-60 | two different counts never share a label |
| ViewBirthdayRow.OneDayLabel | belatedly-app/src/components/ViewBirthdayTableRow.tsx:59 | a count of 1 reads "1 days": there is no singular form |
| ViewBirthdayRow.LabelTodayIffBirthday | belatedly-app/src/components/ViewBirthdayTableRow.tsx:39-60 | a stored real date is labelled "today" exactly on its month and day |
| Actions.ToggleAllCheckedAction | belatedly-app/src/redux/actions.ts:13-17 | builds the payload-free toggle-all action |
| Actions.DeleteCheckedBirthdaysAction | belatedly-app/src/redux/actions.ts:19-23 | builds the payload-free delete-checked action |
| Actions.AddBirthdayAction | belatedly-app/src/redux/actions.ts:25-30 | the new birthday passes through unchanged as the payload |
| Actions.UpdateBirthdayAction | belatedly-app/src/redux/actions.ts:32-47 | the payload carries the given id, name and date, with selection and edit mode both off |
| Actions.DeleteBirthdayAction | belatedly-app/src/redux/actions.ts:49-54 | the given id is the payload |
| Actions.ToggleEditingBirthdayAction | belatedly-app/src/redux/actions.ts:56-61 | the given id is the payload |
| Actions.ToggleBirthdayCheckedAction | belatedly-app/src/redux/actions.ts:63-68 | the given id is the payload |
| BirthdaysReducer.InitialState | belatedly-app/src/redux/reducers/birthdays.ts:17-35 | two records with distinct ids, none checked or being edited, and the flag off |
| BirthdaysReducer.NextId | belatedly-app/src/redux/reducers/birthdays.ts:63-67 | the new id is at least 1 and above every existing id, and it is 1 or one more than an existing id |
| BirthdaysReducer.ToggleAll | belatedly-app/src/redux/reducers/birthdays.ts:42-52 | the flag flips, and every record becomes checked exactly as the new flag says, with its length, id, name, date and edit mode unchanged |
| BirthdaysReducer.DeleteChecked | belatedly-app/src/redux/reducers/birthdays.ts:53-59 | exactly the unchecked records remain, and the flag is untouched |
| BirthdaysReducer.Add | belatedly-app/src/redux/reducers/birthdays.ts:60-75 | one record is appended after the unchanged list: it has the given name and date, is neither checked nor being edited, and has an id above every existing one |
| BirthdaysReducer.ToggleEditing | belatedly-app/src/redux/reducers/birthdays.ts:76-89 | edit mode flips on the records with the id, and every other record and field is unchanged |
| BirthdaysReducer.ToggleChecked | belatedly-app/src/redux/reducers/birthdays.ts:90-103 | the selection flips on the records with the id, and every other record and field is unchanged |
| BirthdaysReducer.Update | belatedly-app/src/redux/reducers/birthdays.ts:104-117 | the records with the payload's id become the payload, while the others and the length are unchanged |
| BirthdaysReducer.Delete | belatedly-app/src/redux/reducers/birthdays.ts:118-126 | exactly the records with another id remain, and the flag is untouched |
| BirthdaysReducer.ToggleAllTwice | belatedly-app/src/redux/reducers/birthdays.ts:43-50 | toggling all twice restores the flag, but leaves every record checked exactly as the old flag was |
| BirthdaysReducer.ToggleAllTwiceForgetsSelection | belatedly-app/src/redux/reducers/birthdays.ts:43-50 | a list with mixed selections is not restored by toggling all twice |
| BirthdaysReducer.DeleteCheckedKeepsOrder | belatedly-app/src/redux/reducers/birthdays.ts:53-59 | deleting the checked records keeps the remaining ones in their original order |
| BirthdaysReducer.DeleteCheckedNoneChecked | belatedly-app/src/redux/reducers/birthdays.ts:53-59 | with nothing checked, deleting the checked records changes nothing |
| BirthdaysReducer.DeleteKeepsOrder | belatedly-app/src/redux/reducers/birthdays.ts:118-126 | deleting by id keeps the remaining records in their original order |
| BirthdaysReducer.ToggleCheckedTwice | belatedly-app/src/redux/reducers/birthdays.ts:90-103 | toggling a selection twice with the same id is the identity |
| BirthdaysReducer.ToggleEditingTwice | belatedly-app/src/redux/reducers/birthdays.ts:76-89 | toggling edit mode twice with the same id is the identity |
| BirthdaysReducer.UnknownIdIsNoOp | belatedly-app/src/redux/reducers/birthdays.ts:76-126 | an id no record has leaves toggle-editing, toggle-checked, update and delete without effect |
| BirthdaysReducer.UnrecognisedIsNoOp | belatedly-app/src/redux/reducers/birthdays.ts:127-128 | any other action returns the state unchanged |
| BirthdaysReducer.UpdateLeavesEditMode | belatedly-app/src/redux/actions.ts:32-47 | an update built by the creator gives the matching records the new name and date, and takes them out of edit mode and selection |
| BirthdaysReducer.FilterKeepsUniqueIds | belatedly-app/src/redux/reducers/birthdays.ts:54 | filtering a list with unique ids keeps them unique |
| BirthdaysReducer.ReducePreservesUniqueIds | belatedly-app/src/redux/reducers/birthdays.ts:37-130 | every action keeps the record ids unique |
| BirthdaysReducer.ReduceAllPreservesUniqueIds | belatedly-app/src/redux/reducers/birthdays.ts:37-130 | id uniqueness survives any sequence of actions |
| BirthdaysSlice.InitialState | belatedly-app/src/features/birthdays/birthdaysSlice.ts:12-28 | two records stored under their own ids 0 and 1, none checked or being edited, and the flag off |
| BirthdaysSlice.CheckedIds | belatedly-app/src/features/birthdays/birthdaysSlice.ts:45-47 | the collected set holds the `id` field of every checked record and nothing else; when every record is stored under its own id, these are exactly the keys of the checked records |
| BirthdaysSlice.AllBirthdaysChecked | belatedly-app/src/features/birthdays/birthdaysSlice.ts:37-43 | every record's selection becomes the payload, and nothing else changes |
| BirthdaysSlice.CheckedBirthdaysDeleted | belatedly-app/src/features/birthdays/birthdaysSlice.ts:44-49 | no record is added or changed; when every record is stored under its own id, exactly the unchecked records remain and that keying is kept |
| BirthdaysSlice.DeleteGoesByRecordId | belatedly-app/src/features/birthdays/birthdaysSlice.ts:45-48 | removal goes by the records' `id` fields, so a checked record stored under a different key survives |
| BirthdaysSlice.AllBirthdaysToggled | belatedly-app/src/features/birthdays/birthdaysSlice.ts:50-55 | every record's selection becomes the flag as it was before the toggle, and then the flag flips |
| BirthdaysSlice.BirthdayEditingToggled | belatedly-app/src/features/birthdays/birthdaysSlice.ts:56-61 | the record with the id, if any, flips its edit mode, and every other record is unchanged |
| BirthdaysSlice.BirthdayToggled | belatedly-app/src/features/birthdays/birthdaysSlice.ts:62-67 | the record with the id, if any, flips its selection, and every other record is unchanged |
| BirthdaysSlice.ShowDeleteButton | belatedly-app/src/features/birthdays/birthdaysSlice.ts:93-97 | the delete button shows exactly when some record is checked |
| BirthdaysSlice.AllCheckedIdempotent | belatedly-app/src/features/birthdays/birthdaysSlice.ts:37-43 | checking all with the same value twice is the same as once |
| BirthdaysSlice.FirstToggleUnchecksAll | belatedly-app/src/features/birthdays/birthdaysSlice.ts:12-55 | from the initial state, the first toggle-all unchecks every record and sets the flag |
| BirthdaysSlice.ToggledDisagreesWithFlag | belatedly-app/src/features/birthdays/birthdaysSlice.ts:50-55 | after toggle-all, every record's selection is the opposite of the flag |
| BirthdaysSlice.ToggledTwice | belatedly-app/src/features/birthdays/birthdaysSlice.ts:62-67 | toggling a record's selection twice is the identity, also for a missing id |
| BirthdaysSlice.EditingToggledTwice | belatedly-app/src/features/birthdays/birthdaysSlice.ts:56-61 | toggling a record's edit mode twice is the identity, also for a missing id |
| BirthdaysSlice.MissingIdIsNoOp | belatedly-app/src/features/birthdays/birthdaysSlice.ts:56-67 | a missing id leaves both per-record toggles without effect |
| BirthdaysSlice.NoDeleteButtonAfterDelete | belatedly-app/src/features/birthdays/birthdaysSlice.ts:44-49 | on a state whose records are stored under their own ids, after the checked records are deleted the delete button is hidden |
| BirthdaysSlice.DeleteButtonAfterCheckAll | belatedly-app/src/features/birthdays/birthdaysSlice.ts:37-43 | after checking all, the delete button shows exactly when there is a record |
| BirthdaysSlice.ReducePreservesKeyed | belatedly-app/src/features/birthdays/birthdaysSlice.ts:33-67 | every case reducer keeps each record stored under its own id |
| ImportPane.Cells | belatedly-app/src/components/ImportPane.tsx:59-61 | one row per line of the file, and each row is that line split on commas |
| ImportPane.BuildDrafts | belatedly-app/src/components/ImportPane.tsx:64-73 | the drafts are dispatched exactly when every row's date converts: one draft per row, in order, with the generator's i-th id, the first cell as name, the converted date, and not checked; otherwise the first row that fails is reported |
| ImportPane.ImportButtonDisabled | belatedly-app/src/components/ImportPane.tsx:16-20 | the import button is disabled exactly when no staged draft is checked |
| ImportPane.BirthdaysToImport | belatedly-app/src/components/ImportPane.tsx:22-23 | the drafts to import are exactly the checked staged drafts |
| ImportPane.EmptyContentsDispatchNothing | belatedly-app/src/components/ImportPane.tsx:58 | an empty file dispatches nothing |
| ImportPane.UploadedDrafts | belatedly-app/src/components/ImportPane.tsx:58-74 | a dispatched upload holds one draft for each of the first 100 lines, in order, each named by the text of its line up to the first comma, with the next generated id, and not checked |
| ImportPane.DraftNameFromFile | belatedly-app/src/components/ImportPane.tsx:59-68 | a draft's name holds no comma and no line break, and all its characters come from the file |
| ImportPane.RowCount | belatedly-app/src/components/ImportPane.tsx:59 | the file has one more row than it has line breaks |
| ImportPane.TrailingLineBreakDispatchesNothing | belatedly-app/src/components/ImportPane.tsx:59-69 | a file of under 100 lines that ends in a line break has an empty last row with no date, so nothing is dispatched |
| ImportPane.FreshUploadDisablesImport | belatedly-app/src/components/ImportPane.tsx:16-72 | every dispatched draft is unchecked, so the import-button selector on that batch reports disabled |
| ImportPane.DisabledIffNothingToImport | belatedly-app/src/components/ImportPane.tsx:16-23 | the import button is disabled exactly when the list of drafts to import is empty |
| ImportPane.ToImportKeepsOrder | belatedly-app/src/components/ImportPane.tsx:22-23 | the drafts to import keep their staged order |
| AadAuth.IsInteractionRequired | belatedly-app/src/hooks/auth/useAadAuth.ts:81-92 | true exactly when the message is non-empty and contains one of the four error codes |
| AadAuth.EmptyMessageIsNotInteractive | belatedly-app/src/hooks/auth/useAadAuth.ts:82-84 | the empty message does not need interaction |
| AadAuth.NoAccountsErrorIsInteractive | belatedly-app/src/hooks/auth/useAadAuth.ts:44 | the error thrown when no account is signed in leads to the interactive popup |
| AadAuth.MarkerInsideMessage | belatedly-app/src/hooks/auth/useAadAuth.ts:86-91 | any of the four error codes anywhere inside a longer message is found |
| AadAuth.NoMarkerIsNotInteractive | belatedly-app/src/hooks/auth/useAadAuth.ts:86-91 | a message without any of the four codes does not need interaction |
| AppSlice.InitialState | belatedly-app/src/features/app/appSlice.ts:15-21 | signed out, no error, no user, no time zone, and loading |
| AppSlice.LoggedInFrame | belatedly-app/src/features/app/appSlice.ts:27-29 | signing in sets the login flag and changes no other field |
| AppSlice.LoggedOutStaysLoggedIn | belatedly-app/src/features/app/appSlice.ts:30-33 | as written, signing out sets the login flag to true and clears the error, changing nothing else |
| AppSlice.LoginLogoutAsWritten | belatedly-app/src/features/app/appSlice.ts:27-33 | as written, signing in and then out still reads as signed in |
| AppSlice.LoggedOutIntended | belatedly-app/src/features/app/appSlice.ts:30-33 | with the corrected reducer, signing out clears the login flag and the error, changes nothing else, and undoes a sign-in |
| AppSlice.IntendedAgreesElsewhere | belatedly-app/src/features/app/appSlice.ts:27-54 | the corrected reducer differs from the written one only on sign-out |
| AppSlice.FailureReplacesError | belatedly-app/src/features/app/appSlice.ts:34-48 | each of the three failure actions replaces the error with its message and touches nothing else |
| AppSlice.LastErrorWins | belatedly-app/src/features/app/appSlice.ts:34-48 | of two failures in a row, the later message is the one kept |
| AppSlice.LoadingFlags | belatedly-app/src/features/app/appSlice.ts:49-54 | loading-started and loading-completed set the flag on and off, change nothing else, and are each idempotent |
| AppSlice.SettersFrame | belatedly-app/src/features/app/appSlice.ts:40-45 | setting the time zone or the profile replaces that field only |

## Left out

- **Network and sign-in flows.** These are calls into libraries whose code is not part of this model:
  - `services/graph.ts` and `services/auth.ts`;
  - the body of the `useAadAuth` hook;
  - the thunks of the application slice (`appSlice.ts:70-106`).
- **Rendering.** React components, hook-local state, the `FileReader` plumbing, and the store and bootstrap wiring are left out as outside the modelled core. This includes the edit row's `validateAndSubmit` (`EditBirthdayTableRow.tsx:49-62`), which submits only a non-empty name, with the date taken from `getNextBirthday`.
- **Logging.** The `console.log` calls in the import pane's `onload` handler (`ImportPane.tsx:55` and `:62`) have no effect on state and are not modelled.
- **The entity adapter's own operations.** `addOne`, `removeOne`, `updateOne` and `removeMany` are library code. `removeMany` is modelled as map key removal, and nothing is claimed about the others.
- **The adapter's id list.** The slice keeps an order of its ids. The model keeps only the map from id to record, because no modelled reducer reads that order.
- **Time zones, DST and locale.**
  - Local time is taken as the time value itself, with no DST offset.
  - `toLocaleString`, the `MONTHS` names, `getUserTimezone` and the import pane's `formatBirthday` are formatting only.
  - `toISOString` is the `toIso` parameter, because date-string parsing is implementation-defined.
- **Id generation.** `nanoid` is the `freshId` parameter, with the `i`-th call giving `freshId(i)`. Nothing is assumed about its values.
- BirthdaysReducer.NextId: the source seeds the fold with the float `Number.MIN_VALUE`. Over integer ids this gives `max(0, largest id) + 1`, which is what is modelled; float ids are not. Ids are unbounded integers, so the uniqueness of new ids does not cover the loss of precision of JavaScript numbers beyond 2^53.
- Calendar.MakeDay: the `Date` constructor's mapping of years 0..99 to 1900..1999 and its Invalid Date outside the time-value range are not modelled. The `Clock` year is unbounded, so neither case arises in the model.
- **The reducer's default state.** `birthdaysReducer` starts from `initialState` when called without a state (`redux/reducers/birthdays.ts:38`). The model always passes a state; `BirthdaysReducer.InitialState` is that default.
- **Two reads of the clock.** `getNextBirthday` and `daysUntil` each call `Date.now()` (`utils/dateUtils.ts:11` and `:24`), as do the table row's local `getNextBirthday` and `daysUntil` (`ViewBirthdayTableRow.tsx:17` and `:28`). The model gives both calls one `Clock`, so a midnight between the two reads is not modelled.
- **Reducers defined outside the modelled files.** The draft-staging reducers `birthdaysToUploadAdded`, `birthdayToUploadToggled` and `allBirthdaysToUploadToggled`, `importBirthdaysRequested`, and the remote sync are left out. Their code is not part of this model.
- **Type declarations.** `features/birthdays/Birthday.ts` and `models/NewBirthday.ts` are not part of this model. Their fields are read off the reducers that use them.
- BirthdaysReducer.Update: the payload is a whole record, as `updateBirthday` builds it. A partial payload, which TypeScript's spread would merge field by field, is not modelled.

## Findings

| source | as written | input that shows it | evidently intended | confidence | as-written member | corrected member |
|---|---|---|---|---|---|---|
| belatedly-app/src/features/app/appSlice.ts:30-33 | `userLoggedOut` sets `isLoggedIn` to true | sign in, then dispatch `userLoggedOut`: `isLoggedIn` is still true | signing out sets `isLoggedIn` to false | high (not executed) | AppSlice.LoggedOutStaysLoggedIn | AppSlice.LoggedOutIntended |
