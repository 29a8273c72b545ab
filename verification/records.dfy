/**
 The birthday record shared by the legacy reducer and the entity slice, and
 the id-uniqueness invariant over a list of records.
 */
module Records {
  import opened Calendar

  /** `Birthday`: a stored date with its per-row selection and edit-mode flags. */
  datatype Birthday = Birthday(id: int, name: string, date: CivilDate, checked: bool, editing: bool)

  /** `NewBirthday`: what the add form supplies. */
  datatype NewBirthday = NewBirthday(name: string, date: CivilDate)

  /** No two records of the list share an id. */
  predicate UniqueIds(bs: seq<Birthday>)
  {
    forall i, j :: 0 <= i < j < |bs| ==> bs[i].id != bs[j].id
  }

  /** The ids present in the list. */
  function Ids(bs: seq<Birthday>): set<int>
  {
    set i | 0 <= i < |bs| :: bs[i].id
  }
}
