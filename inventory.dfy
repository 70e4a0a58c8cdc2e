/**
 * The BookInventoryApp window: its input fields, the table view it fills
 * from the books table, the reload-in-progress flag, and the handlers of
 * the save, paste, search, in-place edit, delete and export actions.
 * Message boxes, the clipboard, the confirmation question and the file
 * dialog are parameters and outcome values.
 */
module Inventory {
  import opened Wrappers
  import opened Text
  import opened Store
  import opened Validation

  const COLUMNS: nat := 4

  /** The horizontal header, also the first line of an export. */
  const HEADER: seq<string> := ["ID", "Judul", "Pengarang", "Tahun"]

  /** A table cell: empty, or an item with its text and whether the user
      may edit it. */
  datatype Cell = Blank | Item(text: string, editable: bool)

  type Row = seq<Cell>

  /** The item load_data puts in column c for a fetched row: str() of the
      value, editable except in the id column. */
  function CellOf(b: Book, c: nat): Cell
    requires c < COLUMNS
  {
    Item(Str(Values(b)[c]), c != 0)
  }

  function RowOf(b: Book): Row {
    seq(COLUMNS, c requires 0 <= c < COLUMNS => CellOf(b, c))
  }

  /** The table as load_data leaves it for a result set. */
  function Project(rows: seq<Book>): seq<Row> {
    seq(|rows|, i requires 0 <= i < |rows| => RowOf(rows[i]))
  }

  /** setRowCount(n): keeps the first n rows, adds empty ones. */
  function Resize(view: seq<Row>, n: nat): seq<Row> {
    seq(n, i requires 0 <= i < n => if i < |view| then view[i] else seq(COLUMNS, _ => Blank))
  }

  /** The view displays the result set `rows`: one row per record, the
      record's id in column 0 as a read-only item, and editable items in
      the other columns (which the user may have typed over). */
  ghost predicate Shows(view: seq<Row>, rows: seq<Book>) {
    |view| == |rows|
    && forall r :: 0 <= r < |rows| ==>
         |view[r]| == COLUMNS && view[r][0] == CellOf(rows[r], 0)
         && forall c :: 1 <= c < COLUMNS ==> view[r][c].Item? && view[r][c].editable
  }

  /** A freshly loaded table shows its result set, one read-only id cell per row. */
  lemma ProjectShows(rows: seq<Book>)
    ensures Shows(Project(rows), rows)
    ensures |Project(rows)| == |rows|
    ensures forall r :: 0 <= r < |rows| ==> !Project(rows)[r][0].editable
  {
  }

  /** The id column of a displayed row reads back, through int(), as the
      id of the record it displays, and the other three cells hold items. */
  lemma ShownIdParses(view: seq<Row>, t: Table, text: string, r: nat)
    requires Store.Valid(t) && Shows(view, Query(t.rows, text)) && r < |Query(t.rows, text)|
    ensures Readable(view[r])
    ensures view[r][0].Item? && ParseInt(view[r][0].text) == Some(Query(t.rows, text)[r].id)
  {
    var b := Query(t.rows, text)[r];
    QueryOrdered(t.rows, text);
    SqlIntegerFits(b.id);
    ParseIntToString(b.id);
  }

  /** The cells of an edited row, checked as on_item_changed checks them. */
  function RowFields(row: Row): Result<Fields, ValidationError>
    requires Readable(row)
  {
    Validate(row[1].text, row[2].text, row[3].text)
  }

  /** The CSV line written for a record: str() of each fetched value. */
  function CsvRecord(b: Book): seq<string> {
    seq(COLUMNS, c requires 0 <= c < COLUMNS => Str(Values(b)[c]))
  }

  /** What export_to_csv writes: the header, then one line per record. */
  function CsvRows(rows: seq<Book>): seq<seq<string>> {
    [HEADER] + seq(|rows|, i requires 0 <= i < |rows| => CsvRecord(rows[i]))
  }

  /** A record's CSV line reads back as that record: its id and year
      parse back with int(), its title and author are verbatim. */
  lemma CsvRecordDecode(b: Book)
    requires IsSqlInteger(b.id) && IsSqlInteger(b.year)
    ensures var line := CsvRecord(b);
      && |line| == COLUMNS
      && ParseInt(line[0]) == Some(b.id)
      && line[1] == b.title
      && line[2] == b.author
      && ParseInt(line[3]) == Some(b.year)
  {
    SqlIntegerFits(b.id);
    SqlIntegerFits(b.year);
    ParseIntToString(b.id);
    ParseIntToString(b.year);
  }

  /** Every export, an empty store's included, is the header followed by
      one line per record. */
  lemma CsvRowsShape(rows: seq<Book>)
    ensures |CsvRows(rows)| == |rows| + 1 && CsvRows(rows)[0] == HEADER
    ensures rows == [] ==> CsvRows(rows) == [HEADER]
  {
  }

  /** An export has one line more than there are records: the header,
      then line i + 1 reads back as record i. */
  lemma CsvRowsDecode(t: Table, i: nat)
    requires Store.Valid(t) && i < |t.rows|
    ensures |CsvRows(t.rows)| == |t.rows| + 1 && CsvRows(t.rows)[0] == HEADER
    ensures var line := CsvRows(t.rows)[i + 1];
      && |line| == COLUMNS
      && ParseInt(line[0]) == Some(t.rows[i].id)
      && line[1] == t.rows[i].title
      && line[2] == t.rows[i].author
      && ParseInt(line[3]) == Some(t.rows[i].year)
  {
    assert CsvRows(t.rows)[i + 1] == CsvRecord(t.rows[i]);
    CsvRecordDecode(t.rows[i]);
  }

  /** An export holds, cell for cell, the texts an unfiltered load shows. */
  lemma CsvMatchesView(rows: seq<Book>, i: nat, c: nat)
    requires i < |rows| && c < COLUMNS
    ensures CsvRows(rows)[i + 1][c] == Project(rows)[i][c].text
  {
  }

  datatype Reply = Yes | No

  datatype SaveOutcome =
    | Saved(id: int)
    | Invalid(error: ValidationError)
    | SaveFailed   // the INSERT raised (a year outside SQLite's INTEGER, or SQLITE_FULL)

  datatype EditOutcome =
    | Ignored       // itemChanged during a reload
    | Updated(id: int)
    | Rejected(error: ValidationError)
    | UpdateFailed  // the UPDATE raised (a year outside SQLite's INTEGER)

  datatype CellEditOutcome = NotEdited | Edited(outcome: EditOutcome)

  datatype DeleteOutcome = NoSelection | NotConfirmed | Deleted(id: int)

  datatype ExportOutcome =
    | Cancelled
    | Exported(path: string, lines: seq<seq<string>>)
    | ExportFailed(path: string)

  /** A row whose title, author and year cells hold items. */
  ghost predicate Readable(row: Row) {
    |row| == COLUMNS && row[1].Item? && row[2].Item? && row[3].Item?
  }

  /** save_book's effect on the table: validation of the three inputs
      decides; an accepted entry is appended under a fresh id larger than
      any id the table has handed out, and a rejected one changes nothing. */
  ghost predicate SaveEffect(before: Table, title: string, author: string, year: string,
                             after: Table, outcome: SaveOutcome)
  {
    match Validate(title, author, year)
    case Failure(e) => outcome == Invalid(e) && after == before
    case Success(f) =>
      if !IsSqlInteger(f.year) || before.sequence == MAX_INTEGER then outcome == SaveFailed && after == before
      else
        && outcome == Saved(after.sequence)
        && after.sequence == before.sequence + 1
        && after.rows == before.rows + [Book(after.sequence, f.title, f.author, f.year)]
        && (forall i :: 0 <= i < |before.rows| ==> before.rows[i].id < after.sequence)
  }

  /** save_book's effect is a function of the table and the inputs: the
      same entry against the same table leaves one outcome and one table. */
  lemma SaveEffectUnique(before: Table, title: string, author: string, year: string,
                         after: Table, outcome: SaveOutcome, after': Table, outcome': SaveOutcome)
    requires SaveEffect(before, title, author, year, after, outcome)
    requires SaveEffect(before, title, author, year, after', outcome')
    ensures after == after' && outcome == outcome'
  {
  }

  /** on_item_changed's effect on the table for an edited row showing
      record `id`: validation of the row's cells decides; an accepted row
      overwrites that record's title, author and year and nothing else,
      and a rejected one changes nothing. */
  ghost predicate EditEffect(before: Table, row: Row, id: int, after: Table, outcome: EditOutcome)
    requires Readable(row)
  {
    match RowFields(row)
    case Failure(e) => outcome == Rejected(e) && after == before
    case Success(f) =>
      if !IsSqlInteger(f.year) then outcome == UpdateFailed && after == before
      else
        && outcome == Updated(id)
        && Success(after) == Store.Update(before, id, f.title, f.author, f.year)
        && Lookup(after.rows, id) == Some(Book(id, f.title, f.author, f.year))
        && (forall k :: k != id ==> Lookup(after.rows, k) == Lookup(before.rows, k))
  }

  /** An accepted entry that SQLite can store is inserted with the effect
      save_book promises, and keeps the table valid. */
  lemma SaveAccepted(t: Table, title: string, author: string, year: string)
    requires Store.Valid(t)
    requires Validate(title, author, year).Success?
    requires IsSqlInteger(Validate(title, author, year).value.year) && t.sequence < MAX_INTEGER
    ensures var f := Validate(title, author, year).value;
      var u := Store.Insert(t, f.title, f.author, f.year);
      && u.Success? && Store.Valid(u.value)
      && SaveEffect(t, title, author, year, u.value, Saved(u.value.sequence))
      && (AllWellFormed(t.rows) ==> AllWellFormed(u.value.rows))
  {
    var f := Validate(title, author, year).value;
    ValidateAccepted(title, author, year);
    InsertSpec(t, f.title, f.author, f.year);
    var u := Store.Insert(t, f.title, f.author, f.year).value;
    var b := Book(u.sequence, f.title, f.author, f.year);
    assert u.rows == t.rows + [b];
    if AllWellFormed(t.rows) {
      AppendWellFormed(t.rows, b);
    }
  }

  /** An accepted edit of the row showing query result i, with a year
      SQLite can store, updates that record with the effect on_item_changed
      promises, and keeps the table valid. */
  lemma EditAccepted(t: Table, text: string, i: nat, row: Row)
    requires Store.Valid(t) && i < |Query(t.rows, text)|
    requires Readable(row) && RowFields(row).Success?
    requires IsSqlInteger(RowFields(row).value.year)
    ensures var id := Query(t.rows, text)[i].id;
      var f := RowFields(row).value;
      var u := Store.Update(t, id, f.title, f.author, f.year);
      && u.Success? && Store.Valid(u.value)
      && EditEffect(t, row, id, u.value, Updated(id))
      && (AllWellFormed(t.rows) ==> AllWellFormed(u.value.rows))
  {
    var f := RowFields(row).value;
    ValidateAccepted(row[1].text, row[2].text, row[3].text);
    UpdateQueried(t, text, i, f.title, f.author, f.year);
  }

  class BookInventoryApp {
    /** The books table and its sqlite_sequence entry. */
    var table: Table
    /** Set while load_data repopulates the view. */
    var isLoading: bool
    var titleInput: string
    var authorInput: string
    var yearInput: string
    var searchInput: string
    /** The QTableWidget's rows of cells. */
    var view: seq<Row>
    /** The search text of the last load, which the view displays. */
    ghost var lastQuery: string

    /** What holds at any time: the table is a valid AUTOINCREMENT table
        and every view row has four cells. */
    ghost predicate Shaped()
      reads this
    {
      Store.Valid(table) && forall r :: 0 <= r < |view| ==> |view[r]| == COLUMNS
    }

    /** Outside a reload, the view displays the result of the last query
        against the current table. */
    ghost predicate Valid()
      reads this
    {
      Shaped() && (!isLoading ==> Shows(view, Query(table.rows, lastQuery)))
    }

    /** The record displayed in view row `row`. */
    ghost function Shown(row: nat): Book
      reads this
      requires Valid() && !isLoading && row < |view|
    {
      Query(table.rows, lastQuery)[row]
    }

    /** Opens (or creates) the books table, then loads every record. */
    constructor (db: Option<Table>)
      requires db.Some? ==> Store.Valid(db.value)
      ensures Valid() && !isLoading
      ensures table == CreateTable(db)
      ensures view == Project(table.rows) && lastQuery == []
      ensures titleInput == [] && authorInput == [] && yearInput == [] && searchInput == []
    {
      table := CreateTable(db);
      isLoading := false;
      titleInput, authorInput, yearInput, searchInput := [], [], [], [];
      view := [];
      lastQuery := [];
      new;
      LoadData([]);
    }

    /** load_data: sets the flag, runs the query, sizes the table and
        writes every cell, then clears the flag. Every setItem notifies
        itemChanged, which reaches on_item_changed while the flag is set. */
    method LoadData(searchText: string)
      requires Shaped()
      modifies this
      decreases 3
      ensures Valid() && !isLoading
      ensures lastQuery == searchText
      ensures view == Project(Query(table.rows, searchText))
      ensures table == old(table)
      ensures unchanged(this`titleInput, this`authorInput, this`yearInput, this`searchInput)
    {
      isLoading := true;
      var rows := Query(table.rows, searchText);
      view := Resize(view, |rows|);
      var r := 0;
      while r < |rows|
        invariant 0 <= r <= |rows|
        invariant isLoading && Shaped()
        invariant |view| == |rows|
        invariant forall i :: 0 <= i < r ==> view[i] == RowOf(rows[i])
        invariant table == old(table)
        invariant unchanged(this`titleInput, this`authorInput, this`yearInput, this`searchInput)
      {
        FillRow(r, rows[r]);
        r := r + 1;
      }
      assert view == Project(rows);
      isLoading := false;
      lastQuery := searchText;
      ProjectShows(rows);
    }

    /** One pass of load_data's inner loop: sets the items of view row r,
        column by column, to the fetched values of record b. */
    method FillRow(r: nat, b: Book)
      requires Shaped() && isLoading && r < |view|
      modifies this
      decreases 2
      ensures Shaped() && isLoading
      ensures view == old(view)[r := RowOf(b)]
      ensures table == old(table) && lastQuery == old(lastQuery)
      ensures unchanged(this`titleInput, this`authorInput, this`yearInput, this`searchInput)
    {
      var c := 0;
      while c < COLUMNS
        invariant 0 <= c <= COLUMNS
        invariant isLoading && Shaped()
        invariant |view| == |old(view)|
        invariant forall i :: 0 <= i < |view| && i != r ==> view[i] == old(view)[i]
        invariant forall k :: 0 <= k < c ==> view[r][k] == CellOf(b, k)
        invariant table == old(table) && lastQuery == old(lastQuery)
        invariant unchanged(this`titleInput, this`authorInput, this`yearInput, this`searchInput)
      {
        SetItem(r, c, CellOf(b, c));
        c := c + 1;
      }
      assert view[r] == RowOf(b);
    }

    /** QTableWidget.setItem during a reload: the cell takes the item,
        and the itemChanged notification it raises reaches on_item_changed,
        which the flag turns away. */
    method SetItem(r: nat, c: nat, item: Cell)
      requires Shaped() && isLoading
      requires r < |view| && c < COLUMNS
      modifies this
      decreases 1
      ensures Shaped() && isLoading
      ensures view == old(view)[r := old(view)[r][c := item]]
      ensures table == old(table) && lastQuery == old(lastQuery)
      ensures unchanged(this`titleInput, this`authorInput, this`yearInput, this`searchInput)
    {
      view := view[r := view[r][c := item]];
      var ignored := OnItemChanged(r);
    }

    /** search_books: reloads with the stripped search text. */
    method SearchBooks()
      requires Shaped()
      modifies this
      ensures Valid() && !isLoading
      ensures lastQuery == Strip(searchInput)
      ensures view == Project(Query(table.rows, Strip(searchInput)))
      ensures table == old(table)
      ensures unchanged(this`titleInput, this`authorInput, this`yearInput, this`searchInput)
    {
      LoadData(Strip(searchInput));
    }

    /** The search field's textChanged signal: a new text triggers a search. */
    method ChangeSearchText(text: string)
      requires Valid()
      modifies this
      ensures Valid() && searchInput == text
      ensures text == old(searchInput) ==> unchanged(this)
      ensures text != old(searchInput) ==>
        && !isLoading && table == old(table)
        && lastQuery == Strip(text)
        && view == Project(Query(table.rows, Strip(text)))
        && unchanged(this`titleInput, this`authorInput, this`yearInput)
    {
      if text != searchInput {
        searchInput := text;
        SearchBooks();
      }
    }

    /** paste_from_clipboard: the clipboard text replaces the title input. */
    method PasteFromClipboard(clipboard: string)
      modifies this`titleInput
      ensures titleInput == clipboard
    {
      titleInput := clipboard;
    }

    /** save_book: on success the inputs are cleared and every record is
        reloaded; on failure nothing at all changes. */
    method SaveBook() returns (outcome: SaveOutcome)
      requires Valid()
      modifies this
      ensures Valid()
      ensures SaveEffect(old(table), old(titleInput), old(authorInput), old(yearInput), table, outcome)
      ensures !outcome.Saved? ==> unchanged(this)
      ensures outcome.Saved? ==>
        && titleInput == [] && authorInput == [] && yearInput == []
        && searchInput == old(searchInput)
        && !isLoading && lastQuery == [] && view == Project(table.rows)
      ensures AllWellFormed(old(table).rows) ==> AllWellFormed(table.rows)
    {
      var fields := Validate(titleInput, authorInput, yearInput);
      if fields.Failure? {
        return Invalid(fields.error);
      }
      var f := fields.value;
      var inserted := Store.Insert(table, f.title, f.author, f.year);
      if inserted.Failure? {
        InsertSpec(table, f.title, f.author, f.year);
        return SaveFailed;
      }
      SaveAccepted(table, titleInput, authorInput, yearInput);
      table := inserted.value;
      titleInput, authorInput, yearInput := [], [], [];
      LoadData([]);
      outcome := Saved(table.sequence);
    }

    /** on_item_changed for the item in row `row`. Ignored during a reload;
        otherwise the row's id is read back from column 0 and the other
        three cells are validated; a rejected edit reloads every record,
        discarding it, and an accepted one updates that record and reloads. */
    method OnItemChanged(row: int) returns (outcome: EditOutcome)
      requires Valid()
      requires 0 <= row < |view|
      modifies this
      decreases if isLoading then 0 else 4
      ensures Valid() && isLoading == old(isLoading)
      ensures old(isLoading) <==> outcome == Ignored
      ensures old(isLoading) || outcome == UpdateFailed ==> unchanged(this)
      ensures unchanged(this`titleInput, this`authorInput, this`yearInput, this`searchInput)
      ensures !old(isLoading) ==>
        && Readable(old(view)[row])
        && EditEffect(old(table), old(view)[row], old(Shown(row)).id, table, outcome)
      ensures outcome.Rejected? || outcome.Updated? ==> lastQuery == [] && view == Project(table.rows)
      ensures AllWellFormed(old(table).rows) ==> AllWellFormed(table.rows)
    {
      if isLoading {
        return Ignored;
      }
      ShownIdParses(view, table, lastQuery, row);
      var bookId := ParseInt(view[row][0].text).value;
      var fields := RowFields(view[row]);
      if fields.Failure? {
        LoadData([]);
        return Rejected(fields.error);
      }
      var f := fields.value;
      var updated := Store.Update(table, bookId, f.title, f.author, f.year);
      if updated.Failure? {
        return UpdateFailed;
      }
      EditAccepted(table, lastQuery, row, view[row]);
      table := updated.value;
      LoadData([]);
      outcome := Updated(bookId);
    }

    /** The user types `text` into cell (row, col). Qt opens no editor on
        a read-only item and raises itemChanged only when the text differs;
        otherwise the edited row goes through on_item_changed. */
    method EditCell(row: int, col: int, text: string) returns (outcome: CellEditOutcome)
      requires Valid() && !isLoading
      requires 0 <= row < |view| && 0 <= col < COLUMNS
      modifies this
      ensures Valid() && !isLoading
      ensures !old(view[row][col]).editable || old(view[row][col]).text == text ==>
        outcome == NotEdited && unchanged(this)
      ensures old(view[row][col]).editable && old(view[row][col]).text != text ==>
        && col != 0 && outcome.Edited? && outcome.outcome != Ignored
        && Readable(old(view)[row][col := Item(text, true)])
        && EditEffect(old(table), old(view)[row][col := Item(text, true)], old(Shown(row)).id, table, outcome.outcome)
        && unchanged(this`titleInput, this`authorInput, this`yearInput, this`searchInput)
        && (outcome.outcome.Rejected? || outcome.outcome.Updated? ==> lastQuery == [] && view == Project(table.rows))
        && (outcome.outcome == UpdateFailed ==>
              table == old(table) && lastQuery == old(lastQuery)
              && view == old(view)[row := old(view)[row][col := Item(text, true)]])
    {
      if !view[row][col].editable || view[row][col].text == text {
        return NotEdited;
      }
      view := view[row := view[row][col := Item(text, true)]];
      var result := OnItemChanged(row);
      outcome := Edited(result);
    }

    /** delete_book, with the table's current row (negative when nothing
        is selected) and the answer to the confirmation question. */
    method DeleteBook(selected: int, reply: Reply) returns (outcome: DeleteOutcome)
      requires Valid() && !isLoading
      requires selected < |view|
      modifies this
      ensures Valid() && !isLoading
      ensures selected < 0 ==> outcome == NoSelection && unchanged(this)
      ensures 0 <= selected && reply == No ==> outcome == NotConfirmed && unchanged(this)
      ensures 0 <= selected && reply == Yes ==>
        var id := old(Shown(selected)).id;
        && outcome == Deleted(id)
        && table == Store.Delete(old(table), id)
        && |table.rows| == |old(table).rows| - 1
        && Lookup(table.rows, id).None?
        && (forall k :: k != id ==> Lookup(table.rows, k) == Lookup(old(table).rows, k))
        && lastQuery == [] && view == Project(table.rows)
        && unchanged(this`titleInput, this`authorInput, this`yearInput, this`searchInput)
      ensures AllWellFormed(old(table).rows) ==> AllWellFormed(table.rows)
    {
      if selected < 0 {
        return NoSelection;
      }
      ShownIdParses(view, table, lastQuery, selected);
      var bookId := ParseInt(view[selected][0].text).value;
      if reply != Yes {
        return NotConfirmed;
      }
      DeleteQueried(table, lastQuery, selected);
      table := Store.Delete(table, bookId);
      LoadData([]);
      outcome := Deleted(bookId);
    }

    /** export_to_csv, with the path the file dialog returned (empty when
        cancelled) and whether writing the file succeeds. Reads every
        record, whatever the view shows, and changes nothing. */
    method ExportToCsv(path: string, writeSucceeds: bool) returns (outcome: ExportOutcome)
      ensures path == [] ==> outcome == Cancelled
      ensures path != [] && writeSucceeds ==> outcome == Exported(path, CsvRows(table.rows))
      ensures path != [] && !writeSucceeds ==> outcome == ExportFailed(path)
    {
      if path == [] {
        return Cancelled;
      }
      var lines := CsvRows(Query(table.rows, []));
      if writeSucceeds {
        outcome := Exported(path, lines);
      } else {
        outcome := ExportFailed(path);
      }
    }
  }
}
