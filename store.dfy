/**
 * The SQLite table `books(id INTEGER PRIMARY KEY AUTOINCREMENT, title TEXT
 * NOT NULL, author TEXT NOT NULL, year INTEGER)` and the single-row
 * statements the application issues against it, as functions on a value.
 */
module Store {
  import opened Wrappers
  import opened Text

  /** One row of `books`. */
  datatype Book = Book(id: int, title: string, author: string, year: int)

  /** The rows in storage (rowid) order, and the table's sqlite_sequence
      entry: the largest id AUTOINCREMENT has handed out, 0 before any. */
  datatype Table = Table(rows: seq<Book>, sequence: int)

  /** Binding a Python int outside SQLite's 64-bit INTEGER raises
      OverflowError before the statement runs (IntegerOverflow); once
      AUTOINCREMENT has handed out the largest rowid, an INSERT fails with
      SQLITE_FULL (Full). */
  datatype StoreError = IntegerOverflow | Full

  /** A column value as `SELECT *` hands it back. */
  datatype Value = IntegerValue(n: int) | TextValue(s: string)

  const MIN_INTEGER: int := -0x8000_0000_0000_0000
  const MAX_INTEGER: int := 0x7FFF_FFFF_FFFF_FFFF

  predicate IsSqlInteger(v: int) {
    MIN_INTEGER <= v <= MAX_INTEGER
  }

  /** The tuple `SELECT *` fetches for a row, in schema column order. */
  function Values(b: Book): seq<Value> {
    [IntegerValue(b.id), TextValue(b.title), TextValue(b.author), IntegerValue(b.year)]
  }

  /** Python's str() on a fetched value. */
  function Str(v: Value): string {
    match v
    case IntegerValue(n) => IntToString(n)
    case TextValue(s) => s
  }

  ghost predicate Ascending(rows: seq<Book>) {
    forall i, j :: 0 <= i < j < |rows| ==> rows[i].id < rows[j].id
  }

  /** What SQLite maintains for an AUTOINCREMENT table: rowids are unique
      and kept in ascending order, and none exceeds sqlite_sequence; rowids,
      sqlite_sequence and the INTEGER column year are 64-bit integers. */
  ghost predicate Valid(t: Table) {
    0 <= t.sequence <= MAX_INTEGER
    && Ascending(t.rows)
    && forall i :: 0 <= i < |t.rows| ==>
         && MIN_INTEGER <= t.rows[i].id <= t.sequence
         && IsSqlInteger(t.rows[i].year)
  }

  /** A 64-bit integer has at most 19 digits, well within what str() and
      int() handle. */
  lemma SqlIntegerFits(v: int)
    requires IsSqlInteger(v)
    ensures StrFits(v)
  {
    assert Pow10(10) == 10_000_000_000;
    assert Pow10(19) == 10_000_000_000_000_000_000;
    NatToStringLength(if v < 0 then -v else v, 19);
  }

  /** A row the application wrote: title and author stripped and non-empty. */
  ghost predicate WellFormed(b: Book) {
    b.title != [] && Trimmed(b.title) && b.author != [] && Trimmed(b.author)
  }

  ghost predicate AllWellFormed(rows: seq<Book>) {
    forall i :: 0 <= i < |rows| ==> WellFormed(rows[i])
  }

  /** r keeps some of the elements of s, in the order s has them. */
  ghost predicate IsSubsequence(r: seq<Book>, s: seq<Book>)
    decreases |s|
  {
    if r == [] then true
    else if s == [] then false
    else (r[0] == s[0] && IsSubsequence(r[1..], s[1..])) || IsSubsequence(r, s[1..])
  }

  lemma {:induction false} SubsequenceMembers(r: seq<Book>, s: seq<Book>, x: Book)
    requires IsSubsequence(r, s) && x in r
    ensures x in s
    decreases |s|
  {
    if r[0] == s[0] && IsSubsequence(r[1..], s[1..]) {
      if x != r[0] {
        SubsequenceMembers(r[1..], s[1..], x);
      }
    } else {
      SubsequenceMembers(r, s[1..], x);
    }
  }

  /** A subsequence of an ascending row sequence is ascending. */
  lemma {:induction false} SubsequenceAscending(r: seq<Book>, s: seq<Book>)
    requires IsSubsequence(r, s) && Ascending(s)
    ensures Ascending(r)
    decreases |s|
  {
    if r != [] {
      if r[0] == s[0] && IsSubsequence(r[1..], s[1..]) {
        SubsequenceAscending(r[1..], s[1..]);
        forall j | 1 <= j < |r| ensures r[0].id < r[j].id {
          SubsequenceMembers(r[1..], s[1..], r[j]);
        }
      } else {
        SubsequenceAscending(r, s[1..]);
      }
    }
  }

  // ---------------------------------------------------------------------
  // CREATE TABLE IF NOT EXISTS
  // ---------------------------------------------------------------------

  /** The table found in the database file, or a new empty one. */
  function CreateTable(db: Option<Table>): Table {
    if db.Some? then db.value else Table([], 0)
  }

  /** `IF NOT EXISTS`: running the statement again changes nothing. */
  lemma CreateTableIdempotent(db: Option<Table>)
    ensures CreateTable(Some(CreateTable(db))) == CreateTable(db)
    ensures db.None? ==> CreateTable(db) == Table([], 0)
    ensures db.Some? ==> CreateTable(db) == db.value
  {
  }

  // ---------------------------------------------------------------------
  // Lookup by id: the reference view of the table as a map
  // ---------------------------------------------------------------------

  /** The row whose id is `id`, if any (the first, should there be two). */
  function Lookup(rows: seq<Book>, id: int): (r: Option<Book>)
    ensures r.Some? ==> r.value in rows && r.value.id == id
    ensures r.None? <==> forall i :: 0 <= i < |rows| ==> rows[i].id != id
  {
    if rows == [] then None
    else if rows[0].id == id then Some(rows[0])
    else Lookup(rows[1..], id)
  }

  /** With unique ids, every row is what Lookup finds under its id. */
  lemma {:induction false} LookupMember(rows: seq<Book>, b: Book)
    requires Ascending(rows) && b in rows
    ensures Lookup(rows, b.id) == Some(b)
  {
    if rows[0] != b {
      assert b in rows[1..];
      LookupMember(rows[1..], b);
    }
  }

  // ---------------------------------------------------------------------
  // INSERT INTO books (title, author, year) VALUES (?, ?, ?)
  // ---------------------------------------------------------------------

  function MaxId(rows: seq<Book>): (m: int)
    ensures 0 <= m
    ensures forall i :: 0 <= i < |rows| ==> rows[i].id <= m
  {
    if rows == [] then 0
    else
      var rest := MaxId(rows[1..]);
      if rows[0].id > rest then rows[0].id else rest
  }

  /** MaxId is the least such bound: below any non-negative bound on the ids. */
  lemma {:induction false} MaxIdLeast(rows: seq<Book>, bound: int)
    requires 0 <= bound
    requires forall i :: 0 <= i < |rows| ==> rows[i].id <= bound
    ensures MaxId(rows) <= bound
  {
    if rows != [] {
      MaxIdLeast(rows[1..], bound);
    }
  }

  /** AUTOINCREMENT: one more than the larger of sqlite_sequence and the
      largest id in the table, hence larger than any id ever handed out. */
  function NextId(t: Table): (id: int)
    ensures t.sequence < id
    ensures forall i :: 0 <= i < |t.rows| ==> t.rows[i].id < id
  {
    var m := MaxId(t.rows);
    (if t.sequence < m then m else t.sequence) + 1
  }

  function Insert(t: Table, title: string, author: string, year: int): Result<Table, StoreError> {
    if !IsSqlInteger(year) then Failure(IntegerOverflow)
    else
      var id := NextId(t);
      if id > MAX_INTEGER then Failure(Full)
      else Success(Table(t.rows + [Book(id, title, author, year)], id))
  }

  lemma AppendWellFormed(rows: seq<Book>, b: Book)
    requires AllWellFormed(rows) && WellFormed(b)
    ensures AllWellFormed(rows + [b])
  {
    forall i | 0 <= i < |rows + [b]| ensures WellFormed((rows + [b])[i]) {
      if i < |rows| { assert (rows + [b])[i] == rows[i]; }
    }
  }

  /** An insert appends exactly one row, under a fresh id larger than any
      assigned before, and keeps the table valid. */
  lemma InsertSpec(t: Table, title: string, author: string, year: int)
    requires Valid(t)
    ensures Insert(t, title, author, year) == Failure(IntegerOverflow) <==> !IsSqlInteger(year)
    ensures Insert(t, title, author, year) == Failure(Full) <==>
      IsSqlInteger(year) && t.sequence == MAX_INTEGER
    ensures Insert(t, title, author, year).Success? ==>
      var u := Insert(t, title, author, year).value;
      && Valid(u)
      && u.sequence == t.sequence + 1
      && u.rows == t.rows + [Book(u.sequence, title, author, year)]
      && (forall i :: 0 <= i < |t.rows| ==> t.rows[i].id < u.sequence)
  {
    MaxIdLeast(t.rows, t.sequence);
  }

  lemma {:induction false} LookupAppend(rows: seq<Book>, b: Book, k: int)
    ensures Lookup(rows + [b], k) ==
      if Lookup(rows, k).Some? then Lookup(rows, k)
      else if b.id == k then Some(b) else None
  {
    if rows != [] {
      assert (rows + [b])[1..] == rows[1..] + [b];
      LookupAppend(rows[1..], b, k);
    } else {
      assert [] + [b] == [b];
    }
  }

  /** After an insert the new id finds the new row and every other id
      finds what it found before. */
  lemma InsertLookup(t: Table, title: string, author: string, year: int, k: int)
    requires Valid(t) && Insert(t, title, author, year).Success?
    ensures var u := Insert(t, title, author, year).value;
      Lookup(u.rows, k) ==
        if k == u.sequence then Some(Book(k, title, author, year)) else Lookup(t.rows, k)
  {
    var u := Insert(t, title, author, year).value;
    LookupAppend(t.rows, Book(u.sequence, title, author, year), k);
  }

  // ---------------------------------------------------------------------
  // UPDATE books SET title = ?, author = ?, year = ? WHERE id = ?
  // ---------------------------------------------------------------------

  function UpdateRows(rows: seq<Book>, id: int, title: string, author: string, year: int): (r: seq<Book>)
    ensures |r| == |rows|
    ensures forall i :: 0 <= i < |r| ==> r[i].id == rows[i].id
  {
    if rows == [] then []
    else
      [if rows[0].id == id then Book(id, title, author, year) else rows[0]]
      + UpdateRows(rows[1..], id, title, author, year)
  }

  function Update(t: Table, id: int, title: string, author: string, year: int): Result<Table, StoreError> {
    if !IsSqlInteger(year) then Failure(IntegerOverflow)
    else Success(Table(UpdateRows(t.rows, id, title, author, year), t.sequence))
  }

  /** The row at each position is rewritten exactly when it carries `id`. */
  lemma {:induction false} UpdateRowsAt(rows: seq<Book>, id: int, title: string, author: string, year: int, i: nat)
    requires i < |rows|
    ensures UpdateRows(rows, id, title, author, year)[i] ==
      if rows[i].id == id then Book(id, title, author, year) else rows[i]
  {
    if i > 0 {
      UpdateRowsAt(rows[1..], id, title, author, year, i - 1);
    }
  }

  /** The id `id` now finds the new values (if it was present at all);
      every other id finds what it found before. */
  lemma {:induction false} UpdateLookup(rows: seq<Book>, id: int, title: string, author: string, year: int, k: int)
    ensures Lookup(UpdateRows(rows, id, title, author, year), k) ==
      if k != id then Lookup(rows, k)
      else if Lookup(rows, id).Some? then Some(Book(id, title, author, year))
      else None
  {
    if rows != [] {
      UpdateLookup(rows[1..], id, title, author, year, k);
    }
  }

  /** An update whose id is absent is a no-op. */
  lemma {:induction false} UpdateAbsent(rows: seq<Book>, id: int, title: string, author: string, year: int)
    requires Lookup(rows, id).None?
    ensures UpdateRows(rows, id, title, author, year) == rows
  {
    if rows != [] {
      UpdateAbsent(rows[1..], id, title, author, year);
    }
  }

  /** An update never touches ids, so the table stays valid. */
  lemma UpdateSpec(t: Table, id: int, title: string, author: string, year: int)
    requires Valid(t)
    ensures Update(t, id, title, author, year).Failure? <==> !IsSqlInteger(year)
    ensures Update(t, id, title, author, year).Success? ==>
      var u := Update(t, id, title, author, year).value;
      Valid(u) && u.sequence == t.sequence && |u.rows| == |t.rows|
  {
    if IsSqlInteger(year) {
      forall i | 0 <= i < |t.rows| ensures IsSqlInteger(UpdateRows(t.rows, id, title, author, year)[i].year) {
        UpdateRowsAt(t.rows, id, title, author, year, i);
      }
    }
  }

  /** Updating the record shown in row i of a query result: its id now
      finds the new values, every other id finds what it found before, the
      table stays valid, and rows the application wrote stay well formed
      when the new values are. */
  lemma UpdateQueried(t: Table, text: string, i: nat, title: string, author: string, year: int)
    requires Valid(t) && i < |Query(t.rows, text)| && IsSqlInteger(year)
    ensures var id := Query(t.rows, text)[i].id;
      var u := Update(t, id, title, author, year);
      && u.Success? && Valid(u.value) && u.value.sequence == t.sequence
      && Lookup(u.value.rows, id) == Some(Book(id, title, author, year))
      && (forall k :: k != id ==> Lookup(u.value.rows, k) == Lookup(t.rows, k))
      && (AllWellFormed(t.rows) && WellFormed(Book(id, title, author, year)) ==> AllWellFormed(u.value.rows))
  {
    var id := Query(t.rows, text)[i].id;
    var rows := UpdateRows(t.rows, id, title, author, year);
    assert Update(t, id, title, author, year) == Success(Table(rows, t.sequence));
    UpdateSpec(t, id, title, author, year);
    QueryOrdered(t.rows, text);
    LookupMember(t.rows, Query(t.rows, text)[i]);
    forall k | k != id ensures Lookup(rows, k) == Lookup(t.rows, k) {
      UpdateLookup(t.rows, id, title, author, year, k);
    }
    UpdateLookup(t.rows, id, title, author, year, id);
    if AllWellFormed(t.rows) && WellFormed(Book(id, title, author, year)) {
      forall j | 0 <= j < |rows| ensures WellFormed(rows[j]) {
        UpdateRowsAt(t.rows, id, title, author, year, j);
      }
    }
  }

  // ---------------------------------------------------------------------
  // DELETE FROM books WHERE id = ?
  // ---------------------------------------------------------------------

  function DeleteRows(rows: seq<Book>, id: int): (r: seq<Book>)
    ensures IsSubsequence(r, rows)
    ensures forall i :: 0 <= i < |r| ==> r[i].id != id
    ensures forall i :: 0 <= i < |rows| && rows[i].id != id ==> rows[i] in r
  {
    if rows == [] then []
    else if rows[0].id == id then DeleteRows(rows[1..], id)
    else [rows[0]] + DeleteRows(rows[1..], id)
  }

  function Delete(t: Table, id: int): Table {
    Table(DeleteRows(t.rows, id), t.sequence)
  }

  /** Deleting an id that no row carries changes nothing. */
  lemma {:induction false} DeleteAbsent(rows: seq<Book>, id: int)
    requires Lookup(rows, id).None?
    ensures DeleteRows(rows, id) == rows
  {
    if rows != [] {
      DeleteAbsent(rows[1..], id);
    }
  }

  /** Only `id` disappears; every other id finds what it found before. */
  lemma {:induction false} DeleteLookup(rows: seq<Book>, id: int, k: int)
    ensures Lookup(DeleteRows(rows, id), k) == if k == id then None else Lookup(rows, k)
  {
    if rows != [] {
      DeleteLookup(rows[1..], id, k);
    }
  }

  /** With unique ids, deleting a present id removes exactly one row. */
  lemma {:induction false} DeleteCount(rows: seq<Book>, id: int)
    requires Ascending(rows)
    ensures |DeleteRows(rows, id)| == if Lookup(rows, id).Some? then |rows| - 1 else |rows|
  {
    if rows != [] {
      if rows[0].id == id {
        assert Lookup(rows[1..], id).None? by {
          assert forall i :: 0 <= i < |rows[1..]| ==> rows[1..][i].id != id by {
            forall i | 0 <= i < |rows[1..]| ensures rows[1..][i].id != id {
              assert rows[1..][i] == rows[i + 1];
            }
          }
        }
        DeleteAbsent(rows[1..], id);
      } else {
        DeleteCount(rows[1..], id);
      }
    }
  }

  /** A delete keeps the table valid and never drops sqlite_sequence, so a
      deleted id is never handed out again. */
  lemma DeleteSpec(t: Table, id: int)
    requires Valid(t)
    ensures Valid(Delete(t, id)) && Delete(t, id).sequence == t.sequence
  {
    var r := DeleteRows(t.rows, id);
    SubsequenceAscending(r, t.rows);
    forall i | 0 <= i < |r| ensures MIN_INTEGER <= r[i].id <= t.sequence && IsSqlInteger(r[i].year) {
      SubsequenceMembers(r, t.rows, r[i]);
    }
  }

  /** Deleting the record shown in row i of a query result removes that
      one row: the count drops by one, its id finds nothing, every other id
      finds what it found before, and the table stays valid. */
  lemma DeleteQueried(t: Table, text: string, i: nat)
    requires Valid(t) && i < |Query(t.rows, text)|
    ensures var id := Query(t.rows, text)[i].id;
      var u := Delete(t, id);
      && Valid(u) && u.sequence == t.sequence
      && |u.rows| == |t.rows| - 1
      && Lookup(u.rows, id).None?
      && (forall k :: k != id ==> Lookup(u.rows, k) == Lookup(t.rows, k))
      && (AllWellFormed(t.rows) ==> AllWellFormed(u.rows))
  {
    var id := Query(t.rows, text)[i].id;
    var rows := DeleteRows(t.rows, id);
    DeleteSpec(t, id);
    QueryOrdered(t.rows, text);
    LookupMember(t.rows, Query(t.rows, text)[i]);
    DeleteCount(t.rows, id);
    forall k ensures Lookup(rows, k) == if k == id then None else Lookup(t.rows, k) {
      DeleteLookup(t.rows, id, k);
    }
    if AllWellFormed(t.rows) {
      forall j | 0 <= j < |rows| ensures WellFormed(rows[j]) {
        SubsequenceMembers(rows, t.rows, rows[j]);
      }
    }
  }

  /** AUTOINCREMENT never hands a deleted id out again: a row inserted
      after a delete gets an id larger than the deleted one. */
  lemma DeletedIdNotReused(t: Table, id: int, title: string, author: string, year: int)
    requires Valid(t) && Lookup(t.rows, id).Some? && IsSqlInteger(year)
    ensures var u := Insert(Delete(t, id), title, author, year);
      && (u.Success? <==> t.sequence < MAX_INTEGER)
      && (u.Success? ==> u.value.sequence > id && Lookup(u.value.rows, id).None?)
  {
    DeleteSpec(t, id);
    var d := Delete(t, id);
    InsertSpec(d, title, author, year);
    DeleteLookup(t.rows, id, id);
    if t.sequence < MAX_INTEGER {
      InsertLookup(d, title, author, year, id);
    }
  }

  // ---------------------------------------------------------------------
  // SELECT * FROM books [WHERE title LIKE ?]
  // ---------------------------------------------------------------------

  /** The rows whose title is LIKE the pattern, in storage order. */
  function Where(rows: seq<Book>, pattern: string): (r: seq<Book>)
    ensures IsSubsequence(r, rows)
    ensures forall i :: 0 <= i < |r| ==> Like(r[i].title, pattern)
  {
    if rows == [] then []
    else if Like(rows[0].title, pattern) then [rows[0]] + Where(rows[1..], pattern)
    else Where(rows[1..], pattern)
  }

  /** No matching row is left out. */
  lemma {:induction false} WhereComplete(rows: seq<Book>, pattern: string, b: Book)
    requires b in rows && Like(b.title, pattern)
    ensures b in Where(rows, pattern)
  {
    if rows[0] != b {
      assert b in rows[1..];
      WhereComplete(rows[1..], pattern, b);
    }
  }

  /** load_data: every row for an empty search text, otherwise the rows
      matching `title LIKE '%text%'`. */
  function Query(rows: seq<Book>, text: string): seq<Book> {
    if text == [] then rows else Where(rows, "%" + text + "%")
  }

  /** A search returns exactly the rows whose title contains the search
      text (up to ASCII case), when the text holds no LIKE wildcard; the
      empty text returns every row. */
  lemma QueryMatches(rows: seq<Book>, text: string, b: Book)
    requires NoWildcards(text)
    ensures b in Query(rows, text) <==> b in rows && ContainsFolded(b.title, text)
  {
    if text != [] {
      LikeContains(b.title, text);
      if b in Query(rows, text) {
        SubsequenceMembers(Where(rows, "%" + text + "%"), rows, b);
        var r := Where(rows, "%" + text + "%");
        var i :| 0 <= i < |r| && r[i] == b;
      } else if b in rows && ContainsFolded(b.title, text) {
        WhereComplete(rows, "%" + text + "%", b);
      }
    } else {
      assert PrefixFolded(b.title, text);
    }
  }

  /** A query result keeps the table's ascending id order and holds only
      rows of the table. */
  lemma QueryOrdered(rows: seq<Book>, text: string)
    requires Ascending(rows)
    ensures Ascending(Query(rows, text))
    ensures forall i :: 0 <= i < |Query(rows, text)| ==> Query(rows, text)[i] in rows
  {
    if text != [] {
      var r := Where(rows, "%" + text + "%");
      SubsequenceAscending(r, rows);
      forall i | 0 <= i < |r| ensures r[i] in rows {
        SubsequenceMembers(r, rows, r[i]);
      }
    }
  }
}
