/**
 The case reducers of the birthdays entity slice and its delete-button
 selector. The entity adapter's normalised state is a map from id to
 record; the order of its id list plays no part in these reducers.
 */
module BirthdaysSlice {
  import opened Calendar
  import opened Records

  datatype SliceState = SliceState(entities: map<int, Birthday>, allChecked: bool)

  /** The adapter's invariant: every record is stored under its own id. */
  predicate Keyed(s: SliceState)
  {
    forall k :: k in s.entities ==> s.entities[k].id == k
  }

  /** The slice's initial state: the two sample records upserted, nothing checked. */
  function InitialState(): (s: SliceState)
    ensures Keyed(s) && !s.allChecked
    ensures s.entities.Keys == {0, 1}
    ensures forall k :: k in s.entities ==> !s.entities[k].checked && !s.entities[k].editing
  {
    SliceState(map[
      0 := Birthday(0, "Daniel Coats", CivilDate(1996, 7, 2), false, false),
      1 := Birthday(1, "Marina HV", CivilDate(1994, 11, 19), false, false)
    ], false)
  }

  /** Keys of the stored records that are checked. */
  function CheckedKeys(s: SliceState): (keys: set<int>)
    ensures forall k :: k in keys <==> k in s.entities && s.entities[k].checked
  {
    set k | k in s.entities && s.entities[k].checked
  }

  /** The `id` fields of the checked records, as `checkedBirthdaysDeleted` collects them. */
  function CheckedIds(s: SliceState): (ids: set<int>)
    ensures forall k :: k in s.entities && s.entities[k].checked ==> s.entities[k].id in ids
    ensures forall id :: id in ids ==> exists k :: k in s.entities && s.entities[k].checked && s.entities[k].id == id
    ensures Keyed(s) ==> forall k :: k in ids <==> k in s.entities && s.entities[k].checked
  {
    set k | k in CheckedKeys(s) :: s.entities[k].id
  }

  /** `allBirthdaysChecked(b)`: every record's `checked` becomes `b`. */
  function AllBirthdaysChecked(s: SliceState, b: bool): (r: SliceState)
    ensures r.allChecked == s.allChecked
    ensures r.entities.Keys == s.entities.Keys
    ensures forall k :: k in r.entities ==>
      var e, e' := s.entities[k], r.entities[k];
      e'.checked == b && e'.id == e.id && e'.name == e.name && e'.date == e.date && e'.editing == e.editing
  {
    s.(entities := map k | k in s.entities :: s.entities[k].(checked := b))
  }

  /**
   `checkedBirthdaysDeleted`: collect the `id` of every checked record, then
   remove the records stored under those ids. On a keyed state that removes
   exactly the checked records.
   */
  function CheckedBirthdaysDeleted(s: SliceState): (r: SliceState)
    ensures r.allChecked == s.allChecked
    ensures forall k :: k in r.entities ==> k in s.entities && r.entities[k] == s.entities[k]
    ensures Keyed(s) ==> forall k :: k in r.entities <==> k in s.entities && !s.entities[k].checked
    ensures Keyed(s) ==> Keyed(r)
  {
    s.(entities := s.entities - CheckedIds(s))
  }

  /**
   `allBirthdaysToggled`: every record's `checked` becomes the flag as it was
   before the toggle, and then the flag is negated.
   */
  function AllBirthdaysToggled(s: SliceState): (r: SliceState)
    ensures r.allChecked == !s.allChecked
    ensures r.entities.Keys == s.entities.Keys
    ensures forall k :: k in r.entities ==>
      var e, e' := s.entities[k], r.entities[k];
      e'.checked == s.allChecked && e'.id == e.id && e'.name == e.name && e'.date == e.date
      && e'.editing == e.editing
  {
    var entities := map k | k in s.entities :: s.entities[k].(checked := s.allChecked);
    SliceState(entities, !s.allChecked)
  }

  /** `birthdayEditingToggled(id)`: flips edit mode of that record, if there is one. */
  function BirthdayEditingToggled(s: SliceState, id: int): (r: SliceState)
    ensures r.allChecked == s.allChecked
    ensures r.entities.Keys == s.entities.Keys
    ensures id in s.entities ==> r.entities[id] == s.entities[id].(editing := !s.entities[id].editing)
    ensures forall k :: k in s.entities && k != id ==> r.entities[k] == s.entities[k]
  {
    if id in s.entities then
      s.(entities := s.entities[id := s.entities[id].(editing := !s.entities[id].editing)])
    else s
  }

  /** `birthdayToggled(id)`: flips the selection of that record, if there is one. */
  function BirthdayToggled(s: SliceState, id: int): (r: SliceState)
    ensures r.allChecked == s.allChecked
    ensures r.entities.Keys == s.entities.Keys
    ensures id in s.entities ==> r.entities[id] == s.entities[id].(checked := !s.entities[id].checked)
    ensures forall k :: k in s.entities && k != id ==> r.entities[k] == s.entities[k]
  {
    if id in s.entities then
      s.(entities := s.entities[id := s.entities[id].(checked := !s.entities[id].checked)])
    else s
  }

  /**
   `selectShowDeleteButton`: the number of checked records, counted over the
   stored records, is positive.
   */
  function ShowDeleteButton(s: SliceState): (show: bool)
    ensures show <==> exists k :: k in s.entities && s.entities[k].checked
  {
    var checked := CheckedKeys(s);
    if |checked| > 0 then
      NonEmptyHasMember(checked);
      true
    else
      EmptyHasNoMember(checked);
      false
  }

  lemma EmptyHasNoMember(ids: set<int>)
    requires |ids| == 0
    ensures forall k :: k !in ids
  {
    assert ids == {};
  }

  lemma NoMemberIsEmpty(ids: set<int>)
    requires forall k :: k !in ids
    ensures |ids| == 0
  {
    assert forall k :: k in ids <==> k in {};
    assert ids == {};
  }

  lemma NonEmptyHasMember(ids: set<int>)
    requires |ids| > 0
    ensures exists k :: k in ids
  {
    if forall k :: k !in ids {
      NoMemberIsEmpty(ids);
      assert false;
    }
  }

  /** The slice's actions that these case reducers handle. */
  datatype SliceAction =
    | AllChecked(checked: bool)
    | CheckedDeleted
    | AllToggled
    | EditingToggled(id: int)
    | Toggled(id: int)

  function Reduce(s: SliceState, a: SliceAction): SliceState
  {
    match a
    case AllChecked(b) => AllBirthdaysChecked(s, b)
    case CheckedDeleted => CheckedBirthdaysDeleted(s)
    case AllToggled => AllBirthdaysToggled(s)
    case EditingToggled(id) => BirthdayEditingToggled(s, id)
    case Toggled(id) => BirthdayToggled(s, id)
  }

  // ---------------------------------------------------------------------------
  // lemmas

  /** Checking all with the same value twice is the same as once. */
  lemma AllCheckedIdempotent(s: SliceState, b: bool)
    ensures AllBirthdaysChecked(AllBirthdaysChecked(s, b), b) == AllBirthdaysChecked(s, b)
  {
  }

  /** From the initial state the first toggle-all unchecks every record and sets the flag. */
  lemma FirstToggleUnchecksAll()
    ensures var r := AllBirthdaysToggled(InitialState());
      r.allChecked && forall k :: k in r.entities ==> !r.entities[k].checked
  {
  }

  /**
   Toggle-all never leaves the records and the flag in agreement: afterwards
   every record's `checked` is the opposite of the flag.
   */
  lemma ToggledDisagreesWithFlag(s: SliceState)
    ensures var r := AllBirthdaysToggled(s);
      forall k :: k in r.entities ==> r.entities[k].checked == !r.allChecked
  {
  }

  /** Toggling a record's selection twice is the identity, also for a missing id. */
  lemma ToggledTwice(s: SliceState, id: int)
    ensures BirthdayToggled(BirthdayToggled(s, id), id) == s
  {
    if id in s.entities {
      assert BirthdayToggled(BirthdayToggled(s, id), id).entities == s.entities;
    }
  }

  /** Toggling a record's edit mode twice is the identity, also for a missing id. */
  lemma EditingToggledTwice(s: SliceState, id: int)
    ensures BirthdayEditingToggled(BirthdayEditingToggled(s, id), id) == s
  {
    if id in s.entities {
      assert BirthdayEditingToggled(BirthdayEditingToggled(s, id), id).entities == s.entities;
    }
  }

  /** A missing id leaves both per-record toggles without effect. */
  lemma MissingIdIsNoOp(s: SliceState, id: int)
    requires id !in s.entities
    ensures BirthdayToggled(s, id) == s && BirthdayEditingToggled(s, id) == s
  {
  }

  /** After the checked records are deleted the delete button is hidden. */
  lemma NoDeleteButtonAfterDelete(s: SliceState)
    requires Keyed(s)
    ensures !ShowDeleteButton(CheckedBirthdaysDeleted(s))
  {
  }

  /** After checking all, the delete button shows exactly when there is a record. */
  lemma DeleteButtonAfterCheckAll(s: SliceState)
    ensures ShowDeleteButton(AllBirthdaysChecked(s, true)) <==> |s.entities| > 0
  {
    var r := AllBirthdaysChecked(s, true);
    if |s.entities| > 0 {
      NonEmptyHasMember(s.entities.Keys);
      var k :| k in s.entities;
      assert r.entities[k].checked;
    }
  }

  /**
   Deletion goes by the records' `id` fields, not by the keys they are stored
   under: a checked record whose id is not its key survives.
   */
  lemma DeleteGoesByRecordId()
    ensures var s := SliceState(map[5 := Birthday(7, "a", CivilDate(2000, 0, 1), true, false)], false);
      CheckedBirthdaysDeleted(s) == s
  {
    var s := SliceState(map[5 := Birthday(7, "a", CivilDate(2000, 0, 1), true, false)], false);
    assert CheckedKeys(s) == {5};
    assert CheckedIds(s) == {7};
    assert s.entities - {7} == s.entities;
  }

  /** Every action keeps each record stored under its own id. */
  lemma ReducePreservesKeyed(s: SliceState, a: SliceAction)
    requires Keyed(s)
    ensures Keyed(Reduce(s, a))
  {
  }
}
