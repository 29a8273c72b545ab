/**
 The legacy birthdays reducer: a pure function from the current state and an
 action to the next state, over an ordered list of records and the
 "all checked" flag of the header checkbox.
 */
module BirthdaysReducer {
  import opened Seqs
  import opened Calendar
  import opened Records
  import opened ActionTypes
  import Actions

  datatype BirthdaysState = BirthdaysState(allChecked: bool, birthdays: seq<Birthday>)

  /** The state the reducer starts from: two sample records, nothing checked. */
  function InitialState(): (s: BirthdaysState)
    ensures !s.allChecked && |s.birthdays| == 2 && UniqueIds(s.birthdays)
    ensures forall i :: 0 <= i < |s.birthdays| ==> !s.birthdays[i].checked && !s.birthdays[i].editing
  {
    BirthdaysState(false, [
      Birthday(0, "Daniel Coats", CivilDate(1996, 7, 2), false, false),
      Birthday(1, "Marina HV", CivilDate(1994, 11, 19), false, false)
    ])
  }

  predicate IsUnchecked(b: Birthday)
  {
    !b.checked
  }

  /** The filter that keeps the records whose id differs from `id`. */
  function HasOtherId(id: int): Birthday -> bool
  {
    (b: Birthday) => b.id != id
  }

  /**
   `reduce((prev, curr) => Math.max(prev, curr.id), seed)`: the largest of
   the seed and every id.
   */
  function MaxId(seed: int, bs: seq<Birthday>): (m: int)
    ensures m >= seed
    ensures forall i :: 0 <= i < |bs| ==> bs[i].id <= m
    ensures m == seed || exists i :: 0 <= i < |bs| && bs[i].id == m
    decreases |bs|
  {
    if |bs| == 0 then seed
    else
      var rest := MaxId(if bs[0].id > seed then bs[0].id else seed, bs[1..]);
      assert forall i :: 1 <= i < |bs| ==> bs[i] == bs[1..][i - 1];
      rest
  }

  /**
   The id given to an added record. The source seeds the fold with the
   smallest positive float and adds 1; on integer ids that is
   `max(0, largest id) + 1`.
   */
  function NextId(bs: seq<Birthday>): (id: int)
    ensures id >= 1
    ensures forall i :: 0 <= i < |bs| ==> bs[i].id < id
    ensures id == 1 || exists i :: 0 <= i < |bs| && bs[i].id == id - 1
  {
    MaxId(0, bs) + 1
  }

  // ---------------------------------------------------------------------------
  // one function per case of the reducer

  /** TOGGLE_ALL_CHECKED */
  function ToggleAll(s: BirthdaysState): (r: BirthdaysState)
    ensures r.allChecked == !s.allChecked
    ensures |r.birthdays| == |s.birthdays|
    ensures forall i :: 0 <= i < |s.birthdays| ==>
      var b, b' := s.birthdays[i], r.birthdays[i];
      b'.checked == r.allChecked
      && b'.id == b.id && b'.name == b.name && b'.date == b.date && b'.editing == b.editing
  {
    var bs := s.birthdays;
    BirthdaysState(!s.allChecked, seq(|bs|, i requires 0 <= i < |bs| => bs[i].(checked := !s.allChecked)))
  }

  /** DELETE_CHECKED_BIRTHDAYS */
  function DeleteChecked(s: BirthdaysState): (r: BirthdaysState)
    ensures r.allChecked == s.allChecked
    ensures forall b :: b in r.birthdays <==> b in s.birthdays && !b.checked
  {
    s.(birthdays := Filter(s.birthdays, IsUnchecked))
  }

  /** ADD_BIRTHDAY */
  function Add(s: BirthdaysState, nb: NewBirthday): (r: BirthdaysState)
    ensures r.allChecked == s.allChecked
    ensures |r.birthdays| == |s.birthdays| + 1
    ensures r.birthdays[..|s.birthdays|] == s.birthdays
    ensures var b := r.birthdays[|s.birthdays|];
      && b.name == nb.name && b.date == nb.date && !b.checked && !b.editing
      && b.id == NextId(s.birthdays) && b.id >= 1 && b.id !in Ids(s.birthdays)
      && (forall i :: 0 <= i < |s.birthdays| ==> s.birthdays[i].id < b.id)
  {
    var b := Birthday(NextId(s.birthdays), nb.name, nb.date, false, false);
    assert (s.birthdays + [b])[..|s.birthdays|] == s.birthdays;
    s.(birthdays := s.birthdays + [b])
  }

  /** TOGGLE_EDITING_BIRTHDAY */
  function ToggleEditing(s: BirthdaysState, id: int): (r: BirthdaysState)
    ensures r.allChecked == s.allChecked
    ensures |r.birthdays| == |s.birthdays|
    ensures forall i :: 0 <= i < |s.birthdays| ==>
      var b, b' := s.birthdays[i], r.birthdays[i];
      if b.id == id then b'.editing == !b.editing && b' == b.(editing := b'.editing) else b' == b
  {
    var bs := s.birthdays;
    s.(birthdays := seq(|bs|, i requires 0 <= i < |bs| =>
      if bs[i].id == id then bs[i].(editing := !bs[i].editing) else bs[i]))
  }

  /** TOGGLE_BIRTHDAY_CHECKED */
  function ToggleChecked(s: BirthdaysState, id: int): (r: BirthdaysState)
    ensures r.allChecked == s.allChecked
    ensures |r.birthdays| == |s.birthdays|
    ensures forall i :: 0 <= i < |s.birthdays| ==>
      var b, b' := s.birthdays[i], r.birthdays[i];
      if b.id == id then b'.checked == !b.checked && b' == b.(checked := b'.checked) else b' == b
  {
    var bs := s.birthdays;
    s.(birthdays := seq(|bs|, i requires 0 <= i < |bs| =>
      if bs[i].id == id then bs[i].(checked := !bs[i].checked) else bs[i]))
  }

  /** UPDATE_BIRTHDAY: the payload's fields overwrite every field of the matching records. */
  function Update(s: BirthdaysState, payload: Birthday): (r: BirthdaysState)
    ensures r.allChecked == s.allChecked
    ensures |r.birthdays| == |s.birthdays|
    ensures forall i :: 0 <= i < |s.birthdays| ==>
      r.birthdays[i] == if s.birthdays[i].id == payload.id then payload else s.birthdays[i]
  {
    var bs := s.birthdays;
    s.(birthdays := seq(|bs|, i requires 0 <= i < |bs| =>
      if bs[i].id == payload.id then payload else bs[i]))
  }

  /** DELETE_BIRTHDAY */
  function Delete(s: BirthdaysState, id: int): (r: BirthdaysState)
    ensures r.allChecked == s.allChecked
    ensures forall b :: b in r.birthdays <==> b in s.birthdays && b.id != id
  {
    s.(birthdays := Filter(s.birthdays, HasOtherId(id)))
  }

  /** `birthdaysReducer(state, action)`. */
  function Reduce(s: BirthdaysState, a: Action): BirthdaysState
  {
    match a
    case ToggleAllChecked => ToggleAll(s)
    case DeleteCheckedBirthdays => DeleteChecked(s)
    case AddBirthday(nb) => Add(s, nb)
    case ToggleEditingBirthday(id) => ToggleEditing(s, id)
    case ToggleBirthdayChecked(id) => ToggleChecked(s, id)
    case UpdateBirthday(b) => Update(s, b)
    case DeleteBirthday(id) => Delete(s, id)
    case Unrecognised(_) => s
  }

  /** The state after dispatching `actions` in order. */
  function ReduceAll(s: BirthdaysState, actions: seq<Action>): BirthdaysState
    decreases |actions|
  {
    if |actions| == 0 then s else ReduceAll(Reduce(s, actions[0]), actions[1..])
  }

  // ---------------------------------------------------------------------------
  // lemmas

  /**
   Toggling all twice restores the flag but not the per-record selection:
   every record ends up checked exactly when the flag was set before.
   */
  lemma ToggleAllTwice(s: BirthdaysState)
    ensures var r := Reduce(Reduce(s, ToggleAllChecked), ToggleAllChecked);
      && r.allChecked == s.allChecked
      && |r.birthdays| == |s.birthdays|
      && forall i :: 0 <= i < |s.birthdays| ==>
           r.birthdays[i] == s.birthdays[i].(checked := s.allChecked)
  {
  }

  /** A state with mixed selections is not restored by toggling all twice. */
  lemma ToggleAllTwiceForgetsSelection()
    ensures var s := BirthdaysState(false, [
                       Birthday(0, "a", CivilDate(2000, 0, 1), true, false),
                       Birthday(1, "b", CivilDate(2000, 0, 2), false, false)]);
      Reduce(Reduce(s, ToggleAllChecked), ToggleAllChecked) != s
  {
    var s := BirthdaysState(false, [
               Birthday(0, "a", CivilDate(2000, 0, 1), true, false),
               Birthday(1, "b", CivilDate(2000, 0, 2), false, false)]);
    ToggleAllTwice(s);
    var r := Reduce(Reduce(s, ToggleAllChecked), ToggleAllChecked);
    assert !r.birthdays[0].checked;
  }

  /** Deleting the checked records keeps the unchecked ones in their original order. */
  lemma DeleteCheckedKeepsOrder(flag: bool, front: seq<Birthday>, back: seq<Birthday>)
    ensures Reduce(BirthdaysState(flag, front + back), DeleteCheckedBirthdays).birthdays
         == Reduce(BirthdaysState(flag, front), DeleteCheckedBirthdays).birthdays
          + Reduce(BirthdaysState(flag, back), DeleteCheckedBirthdays).birthdays
  {
    FilterConcat(front, back, IsUnchecked);
  }

  /** With nothing checked, deleting the checked records changes nothing. */
  lemma DeleteCheckedNoneChecked(s: BirthdaysState)
    requires forall i :: 0 <= i < |s.birthdays| ==> !s.birthdays[i].checked
    ensures Reduce(s, DeleteCheckedBirthdays) == s
  {
    FilterKeepsAll(s.birthdays, IsUnchecked);
  }

  /** Deleting by id keeps the other records in their original order. */
  lemma DeleteKeepsOrder(flag: bool, front: seq<Birthday>, back: seq<Birthday>, id: int)
    ensures Reduce(BirthdaysState(flag, front + back), DeleteBirthday(id)).birthdays
         == Reduce(BirthdaysState(flag, front), DeleteBirthday(id)).birthdays
          + Reduce(BirthdaysState(flag, back), DeleteBirthday(id)).birthdays
  {
    FilterConcat(front, back, HasOtherId(id));
  }

  /** Toggling a record's selection twice with the same id is the identity. */
  lemma ToggleCheckedTwice(s: BirthdaysState, id: int)
    ensures Reduce(Reduce(s, ToggleBirthdayChecked(id)), ToggleBirthdayChecked(id)) == s
  {
    var r := Reduce(Reduce(s, ToggleBirthdayChecked(id)), ToggleBirthdayChecked(id));
    assert r.birthdays == s.birthdays;
  }

  /** Toggling a record's edit mode twice with the same id is the identity. */
  lemma ToggleEditingTwice(s: BirthdaysState, id: int)
    ensures Reduce(Reduce(s, ToggleEditingBirthday(id)), ToggleEditingBirthday(id)) == s
  {
    var r := Reduce(Reduce(s, ToggleEditingBirthday(id)), ToggleEditingBirthday(id));
    assert r.birthdays == s.birthdays;
  }

  /** An id no record has leaves every id-addressed action without effect. */
  lemma UnknownIdIsNoOp(s: BirthdaysState, id: int, payload: Birthday)
    requires id !in Ids(s.birthdays) && payload.id !in Ids(s.birthdays)
    ensures Reduce(s, ToggleEditingBirthday(id)) == s
    ensures Reduce(s, ToggleBirthdayChecked(id)) == s
    ensures Reduce(s, UpdateBirthday(payload)) == s
    ensures Reduce(s, DeleteBirthday(id)) == s
  {
    NoRecordHasId(s.birthdays, id);
    NoRecordHasId(s.birthdays, payload.id);
    UnknownIdToggles(s, id);
    UnknownIdUpdate(s, payload);
    UnknownIdDelete(s, id);
  }

  lemma UnknownIdDelete(s: BirthdaysState, id: int)
    requires forall i :: 0 <= i < |s.birthdays| ==> s.birthdays[i].id != id
    ensures Delete(s, id) == s
  {
    FilterKeepsAll(s.birthdays, HasOtherId(id));
  }

  lemma UnknownIdToggles(s: BirthdaysState, id: int)
    requires forall i :: 0 <= i < |s.birthdays| ==> s.birthdays[i].id != id
    ensures ToggleEditing(s, id) == s && ToggleChecked(s, id) == s
  {
    assert ToggleEditing(s, id).birthdays == s.birthdays;
    assert ToggleChecked(s, id).birthdays == s.birthdays;
  }

  lemma UnknownIdUpdate(s: BirthdaysState, payload: Birthday)
    requires forall i :: 0 <= i < |s.birthdays| ==> s.birthdays[i].id != payload.id
    ensures Update(s, payload) == s
  {
    assert Update(s, payload).birthdays == s.birthdays;
  }

  lemma NoRecordHasId(bs: seq<Birthday>, id: int)
    requires id !in Ids(bs)
    ensures forall i :: 0 <= i < |bs| ==> bs[i].id != id
  {
    assert forall i :: 0 <= i < |bs| ==> bs[i].id in Ids(bs);
  }

  /** An action the reducer does not recognise returns the state unchanged. */
  lemma UnrecognisedIsNoOp(s: BirthdaysState, actionType: string)
    ensures Reduce(s, Unrecognised(actionType)) == s
  {
  }

  /**
   An update built by `updateBirthday(id, name, date)` gives every record with
   that id the new name and date and takes it out of edit mode and selection.
   */
  lemma UpdateLeavesEditMode(s: BirthdaysState, id: int, name: string, date: CivilDate)
    ensures var r := Reduce(s, Actions.UpdateBirthdayAction(id, name, date));
      && |r.birthdays| == |s.birthdays|
      && forall i :: 0 <= i < |s.birthdays| && s.birthdays[i].id == id ==>
           var b := r.birthdays[i];
           b.id == id && b.name == name && b.date == date && !b.checked && !b.editing
  {
  }

  /** Filtering keeps ids unique. */
  lemma {:induction false} FilterKeepsUniqueIds(bs: seq<Birthday>, p: Birthday -> bool)
    requires UniqueIds(bs)
    ensures UniqueIds(Filter(bs, p))
    decreases |bs|
  {
    if |bs| > 0 {
      var tail := bs[1..];
      assert UniqueIds(tail) by {
        forall i, j | 0 <= i < j < |tail| ensures tail[i].id != tail[j].id {
          assert tail[i] == bs[i + 1] && tail[j] == bs[j + 1];
        }
      }
      FilterKeepsUniqueIds(tail, p);
      var ft := Filter(tail, p);
      forall k | 0 <= k < |ft| ensures ft[k].id != bs[0].id {
        assert ft[k] in tail;
        var j :| 0 <= j < |tail| && tail[j] == ft[k];
        assert tail[j] == bs[j + 1];
      }
    }
  }

  /** Every action keeps the ids of the list unique. */
  lemma ReducePreservesUniqueIds(s: BirthdaysState, a: Action)
    requires UniqueIds(s.birthdays)
    ensures UniqueIds(Reduce(s, a).birthdays)
  {
    match a
    case DeleteCheckedBirthdays =>
      FilterKeepsUniqueIds(s.birthdays, IsUnchecked);
    case DeleteBirthday(id) =>
      FilterKeepsUniqueIds(s.birthdays, HasOtherId(id));
    case AddBirthday(nb) =>
      var r := Reduce(s, a).birthdays;
      assert forall i :: 0 <= i < |s.birthdays| ==> r[i] == s.birthdays[i];
    case UpdateBirthday(p) =>
      var r := Reduce(s, a).birthdays;
      assert forall i :: 0 <= i < |r| ==> r[i].id == s.birthdays[i].id;
    case _ =>
  }

  /** Id uniqueness holds after any sequence of actions. */
  lemma {:induction false} ReduceAllPreservesUniqueIds(s: BirthdaysState, actions: seq<Action>)
    requires UniqueIds(s.birthdays)
    ensures UniqueIds(ReduceAll(s, actions).birthdays)
    decreases |actions|
  {
    if |actions| > 0 {
      ReducePreservesUniqueIds(s, actions[0]);
      ReduceAllPreservesUniqueIds(Reduce(s, actions[0]), actions[1..]);
    }
  }
}
