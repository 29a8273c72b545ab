/**
 The legacy reducer's action union: one constructor per action type, each
 carrying the payload its interface declares.
 */
module ActionTypes {
  import opened Records

  datatype Action =
    | ToggleAllChecked
    | DeleteCheckedBirthdays
    | AddBirthday(newBirthday: NewBirthday)
    | UpdateBirthday(birthday: Birthday)
    | DeleteBirthday(id: int)
    | ToggleBirthdayChecked(id: int)
    | ToggleEditingBirthday(id: int)
      /** Any other action the store dispatches (its own initialisation action, say). */
    | Unrecognised(actionType: string)
}
