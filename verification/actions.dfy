/**
 The legacy action creators: each builds one action of the union.
 */
module Actions {
  import opened Calendar
  import opened Records
  import opened ActionTypes

  /** `toggleAllChecked()`: no payload. */
  function ToggleAllCheckedAction(): (a: Action)
    ensures a.ToggleAllChecked?
  {
    ToggleAllChecked
  }

  /** `deleteCheckedBirthdays()`: no payload. */
  function DeleteCheckedBirthdaysAction(): (a: Action)
    ensures a.DeleteCheckedBirthdays?
  {
    DeleteCheckedBirthdays
  }

  /** `addBirthday(birthday)`: the new birthday is passed through untouched. */
  function AddBirthdayAction(birthday: NewBirthday): (a: Action)
    ensures a.AddBirthday? && a.newBirthday == birthday
  {
    AddBirthday(birthday)
  }

  /**
   `updateBirthday(id, name, date)`: the payload is a whole record whose
   selection and edit-mode flags are both reset.
   */
  function UpdateBirthdayAction(id: int, name: string, date: CivilDate): (a: Action)
    ensures a.UpdateBirthday?
    ensures a.birthday.id == id && a.birthday.name == name && a.birthday.date == date
    ensures !a.birthday.checked && !a.birthday.editing
  {
    UpdateBirthday(Birthday(id, name, date, false, false))
  }

  /** `deleteBirthday(id)`: the id is the payload. */
  function DeleteBirthdayAction(id: int): (a: Action)
    ensures a.DeleteBirthday? && a.id == id
  {
    DeleteBirthday(id)
  }

  /** `toggleEditingBirthday(id)`: the id is the payload. */
  function ToggleEditingBirthdayAction(id: int): (a: Action)
    ensures a.ToggleEditingBirthday? && a.id == id
  {
    ToggleEditingBirthday(id)
  }

  /** `toggleBirthdayChecked(id)`: the id is the payload. */
  function ToggleBirthdayCheckedAction(id: int): (a: Action)
    ensures a.ToggleBirthdayChecked? && a.id == id
  {
    ToggleBirthdayChecked(id)
  }
}
