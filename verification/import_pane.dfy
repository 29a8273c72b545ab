/**
 The import pane's pure logic: turning the uploaded file's text into draft
 birthdays, and the two selectors over the staged drafts.

 Two collaborators are parameters: `freshId(i)` is the id the id generator
 returns on its `i`-th call, and `toIso(cell)` is `new Date(cell).toISOString()`,
 `None` when the cell does not parse (an Invalid Date, on which
 `toISOString` throws a RangeError).
 */
module ImportPane {
  import opened Seqs
  import opened Wrappers
  import Text

  datatype DraftBirthday = DraftBirthday(id: string, name: string, date: string, checked: bool)

  /** At most this many rows of a file are staged. */
  const MaxRows: nat := 100

  /** What the upload handler does with the file contents. */
  datatype Upload =
      /** Empty contents: nothing is dispatched. */
    | NoDispatch
      /** `birthdaysToUploadAdded(drafts)` is dispatched. */
    | Dispatched(drafts: seq<DraftBirthday>)
      /** Building the draft of this row threw, so nothing is dispatched. */
    | DateError(row: nat)

  /** The file split on '\n' into rows and each row split on ',' into cells. */
  function Cells(contents: string): (rows: seq<seq<string>>)
    ensures |rows| == |Text.Split(contents, '\n')|
    ensures forall i :: 0 <= i < |rows| ==> rows[i] == Text.Split(Text.Split(contents, '\n')[i], ',')
  {
    var lines := Text.Split(contents, '\n');
    seq(|lines|, i requires 0 <= i < |lines| => Text.Split(lines[i], ','))
  }

  /** The ISO date of a row's second cell; a missing cell is `new Date(undefined)`, invalid. */
  function RowDate(row: seq<string>, toIso: string -> Option<string>): Option<string>
  {
    if |row| > 1 then toIso(row[1]) else None
  }

  /**
   `uploadRows.map(row => ({ id: nanoid(), name: row[0], date: ..., checked: false }))`,
   with the rows numbered from `first`. The first row whose date does not
   convert stops the whole map.
   */
  function BuildDrafts(rows: seq<seq<string>>, first: nat, freshId: nat -> string,
                       toIso: string -> Option<string>): (u: Upload)
    requires forall i :: 0 <= i < |rows| ==> |rows[i]| >= 1
    ensures !u.NoDispatch?
    ensures u.Dispatched? <==> forall i :: 0 <= i < |rows| ==> RowDate(rows[i], toIso).Some?
    ensures u.Dispatched? ==>
      && |u.drafts| == |rows|
      && forall i :: 0 <= i < |rows| ==>
           u.drafts[i] == DraftBirthday(freshId(first + i), rows[i][0],
                                        RowDate(rows[i], toIso).value, false)
    ensures u.DateError? ==>
      && first <= u.row < first + |rows|
      && RowDate(rows[u.row - first], toIso).None?
      && forall i :: 0 <= i < u.row - first ==> RowDate(rows[i], toIso).Some?
    decreases |rows|
  {
    if |rows| == 0 then Dispatched([])
    else
      match RowDate(rows[0], toIso)
      case None => DateError(first)
      case Some(date) =>
        var draft := DraftBirthday(freshId(first), rows[0][0], date, false);
        var rest := BuildDrafts(rows[1..], first + 1, freshId, toIso);
        assert forall i :: 1 <= i < |rows| ==> rows[i] == rows[1..][i - 1];
        match rest
        case Dispatched(ds) => Dispatched([draft] + ds)
        case other => other
  }

  /** The `onload` handler of the upload's file reader. */
  function OnLoad(contents: string, freshId: nat -> string, toIso: string -> Option<string>): Upload
  {
    if contents == "" then NoDispatch
    else
      var cells := Cells(contents);
      var uploadRows := if |cells| <= MaxRows then cells else cells[..MaxRows];
      BuildDrafts(uploadRows, 0, freshId, toIso)
  }

  predicate IsChecked(d: DraftBirthday)
  {
    d.checked
  }

  /** `selectImportButtonDisabled`: the count of checked drafts is not positive. */
  function ImportButtonDisabled(drafts: seq<DraftBirthday>): (disabled: bool)
    ensures disabled <==> forall i :: 0 <= i < |drafts| ==> !drafts[i].checked
  {
    Count(drafts, IsChecked) <= 0
  }

  /** `selectBirthdaysToImport`: the checked drafts. */
  function BirthdaysToImport(drafts: seq<DraftBirthday>): (chosen: seq<DraftBirthday>)
    ensures forall d :: d in chosen <==> d in drafts && d.checked
    ensures |chosen| <= |drafts|
  {
    Filter(drafts, IsChecked)
  }

  // ---------------------------------------------------------------------------
  // lemmas

  /** Empty contents dispatch nothing. */
  lemma EmptyContentsDispatchNothing(freshId: nat -> string, toIso: string -> Option<string>)
    ensures OnLoad("", freshId, toIso) == NoDispatch
  {
  }

  /**
   A dispatched upload holds one draft for each of the first 100 lines of the
   file, in order: its name is the line's text up to the first comma, its id
   is the generator's next id, and it is not checked.
   */
  lemma UploadedDrafts(contents: string, freshId: nat -> string, toIso: string -> Option<string>)
    requires OnLoad(contents, freshId, toIso).Dispatched?
    ensures var ds := OnLoad(contents, freshId, toIso).drafts;
      var lines := Text.Split(contents, '\n');
      && |ds| == (if |lines| <= MaxRows then |lines| else MaxRows)
      && |ds| <= MaxRows
      && forall i :: 0 <= i < |ds| ==>
           && ds[i].name == Text.Split(lines[i], ',')[0]
           && ds[i].id == freshId(i)
           && !ds[i].checked
  {
  }

  /** A draft's name holds no comma and no line break, and comes from the file. */
  lemma DraftNameFromFile(contents: string, freshId: nat -> string, toIso: string -> Option<string>, i: int)
    requires OnLoad(contents, freshId, toIso).Dispatched?
    requires 0 <= i < |OnLoad(contents, freshId, toIso).drafts|
    ensures var name := OnLoad(contents, freshId, toIso).drafts[i].name;
      ',' !in name && '\n' !in name && forall c :: c in name ==> c in contents
  {
    var lines := Text.Split(contents, '\n');
    UploadedDrafts(contents, freshId, toIso);
    var name := OnLoad(contents, freshId, toIso).drafts[i].name;
    forall c | c in name ensures c in contents && c != '\n' {
      Text.SplitPiecesFromString(lines[i], ',', 0, c);
      Text.SplitPiecesFromString(contents, '\n', i, c);
    }
  }

  /** The file splits into one more row than it has line breaks. */
  lemma RowCount(contents: string)
    ensures |Cells(contents)| == Text.Occurrences(contents, '\n') + 1
  {
    Text.SplitLength(contents, '\n');
  }

  /**
   A file ending in a line break, within the 100-row cap, has an empty last
   row with no date cell: the upload throws instead of dispatching.
   */
  lemma TrailingLineBreakDispatchesNothing(body: string, freshId: nat -> string,
                                           toIso: string -> Option<string>)
    requires |Text.Split(body, '\n')| < MaxRows
    ensures !OnLoad(body + "\n", freshId, toIso).Dispatched?
  {
    var contents := body + "\n";
    Text.SplitTrailingSeparator(body, '\n');
    var cells := Cells(contents);
    var last := |cells| - 1;
    assert Text.Split(contents, '\n')[last] == "";
    assert cells[last] == [""];
    assert RowDate(cells[last], toIso).None?;
  }

  /** Every draft an upload dispatches is unchecked, so the import-button selector on that batch reports disabled. */
  lemma FreshUploadDisablesImport(contents: string, freshId: nat -> string, toIso: string -> Option<string>)
    requires OnLoad(contents, freshId, toIso).Dispatched?
    ensures ImportButtonDisabled(OnLoad(contents, freshId, toIso).drafts)
  {
  }

  /** The import button is disabled exactly when there is nothing to import. */
  lemma DisabledIffNothingToImport(drafts: seq<DraftBirthday>)
    ensures ImportButtonDisabled(drafts) <==> BirthdaysToImport(drafts) == []
  {
    CountIsFilterLength(drafts, IsChecked);
  }

  /** The drafts to import keep their staged order. */
  lemma ToImportKeepsOrder(front: seq<DraftBirthday>, back: seq<DraftBirthday>)
    ensures BirthdaysToImport(front + back) == BirthdaysToImport(front) + BirthdaysToImport(back)
  {
    FilterConcat(front, back, IsChecked);
  }
}
