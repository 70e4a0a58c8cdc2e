# Book inventory: a Dafny model

This project models the core of a small desktop book-inventory application,
`BookInventoryApp` in `tempCodeRunnerFile.py`. The window keeps books
(title, author, year) in an SQLite table `books` with an `AUTOINCREMENT`
id. It lets the user:

- save a new book from three input fields;
- paste clipboard text into the title field;
- search titles live;
- edit title, author or year in place in a four-column table;
- delete the selected row after confirmation;
- export every record to CSV.

The model has six modules:

- `Wrappers`: `Option` and `Result`.
- `Text`: Python's `str.strip()`, `int()` and `str()` on integers, and SQLite's `LIKE`, including `%`, `_` and ASCII case folding.
- `Store`: the `books` table and its `sqlite_sequence` entry, modelled as a value. The `CREATE TABLE`, `INSERT`, `UPDATE … WHERE id`, `DELETE … WHERE id` and `SELECT` statements are functions on it.
- `Validation`: the title, author and year checks shared by saving and in-place editing.
- `Inventory`: the `BookInventoryApp` class.
  - Its fields are the table, the `is_loading` flag, the four text inputs and the table widget's cells.
  - Each slot is a method. Each method states its new state in terms of the old one.
  - `load_data` keeps its nested loop, which writes cells one by one. Every `setItem` raises `itemChanged`, which reaches `on_item_changed` while the flag is set, so the reentrancy guard is exercised.
- `Scenario`: a concrete session. It saves "Laskar Pelangi" and "Bumi", searches for "Bumi", edits the year, deletes the first book and exports. The session is stated once on the `Store` functions and once driven through the window's own methods.

The message boxes, the confirmation question, the file dialog and the clipboard are not modelled as UI. Each becomes a method parameter (`reply`, `path`, `clipboard`, `selected`) or an outcome value (`SaveOutcome`, `EditOutcome`, `DeleteOutcome`, `ExportOutcome`). Whether the CSV file can be written is the parameter `writeSucceeds`.

The export header is the code's `['ID', 'Judul', 'Pengarang', 'Tahun']`
(tempCodeRunnerFile.py:73, :250; `Inventory.HEADER`).

## Model

| member | source | states |
|---|---|---|
| Text.TrimLeftSpec | tempCodeRunnerFile.py:152 | stripping the left end drops exactly a run of whitespace and leaves a text that does not start with whitespace |
| Text.TrimRightSpec | tempCodeRunnerFile.py:152 | stripping the right end drops exactly a run of whitespace and leaves a text that does not end with whitespace |
| Text.Strip | tempCodeRunnerFile.py:152-154 | `strip()` leaves no whitespace at either end |
| Text.StripSplits | tempCodeRunnerFile.py:152-154 | `strip()` only removes whitespace: the input is the stripped text framed by two whitespace runs |
| Text.StripFramed | tempCodeRunnerFile.py:152-154 | stripping a trimmed text framed by whitespace gives back exactly that text |
| Text.StripPadded | tempCodeRunnerFile.py:152-154 | extra whitespace around an input never changes what `strip()` returns |
| Text.StripIdempotent | tempCodeRunnerFile.py:152-154 | stripping twice is stripping once |
| Text.StripEmpty | tempCodeRunnerFile.py:156 | a field is blank after `strip()` exactly when it is all whitespace |
| Text.NatToString | tempCodeRunnerFile.py:190 | `str()` of a non-negative integer (with `Text.IntToString` adding the sign) is a non-empty run of decimal digits without a leading zero, except for 0 itself |
| Text.NatToStringValue | tempCodeRunnerFile.py:190 | the digits `str()` writes have the integer's value |
| Text.ParseIntDigits | tempCodeRunnerFile.py:161 | `int()` accepts a run of ASCII digits exactly when it has at most 4300 of them, leading zeros included (Python's default digit limit), and then reads its decimal value |
| Text.NatToStringLength | tempCodeRunnerFile.py:190 | a number below 10^k is written by `str()` with at most k digits |
| Text.ParseIntToString | tempCodeRunnerFile.py:205 | `int(str(i)) == i` for every integer `str()` can write, with `int()` modelled by `Text.ParseInt` and `str()` by `Text.IntToString`: the id read back from column 0 is the id that was displayed |
| Text.StripIntToString | tempCodeRunnerFile.py:208 | a displayed integer carries no whitespace, so `strip()` leaves it unchanged |
| Text.LikePrefix | tempCodeRunnerFile.py:183 | `s LIKE 't%'` holds exactly when `t` is a case-folded prefix of `s`, for wildcard-free `t` |
| Text.LikeContains | tempCodeRunnerFile.py:183 | `s LIKE '%t%'` (`Text.Like`) holds exactly when `s` contains `t` up to ASCII case, for wildcard-free `t` |
| Text.ContainsAt | tempCodeRunnerFile.py:183 | an occurrence of `t` at any position makes `s` contain `t` |
| Text.ContainsFoldedAt | tempCodeRunnerFile.py:183 | conversely, when `s` contains `t`, the lemma returns a position where `t` occurs, so containment is exactly an occurrence at some index |
| Store.CreateTableIdempotent | tempCodeRunnerFile.py:139-149 | `CREATE TABLE IF NOT EXISTS` (`Store.CreateTable`) creates an empty table when none exists, keeps an existing table exactly as it is, and re-running it changes nothing |
| Store.Lookup | tempCodeRunnerFile.py:220 | `WHERE id = ?` finds a row carrying that id, and finds nothing exactly when no row carries it |
| Store.LookupMember | tempCodeRunnerFile.py:143 | with unique ids (`PRIMARY KEY`), every row is what its id finds |
| Store.MaxId | tempCodeRunnerFile.py:143 | bounds every id in the table from above |
| Store.MaxIdLeast | tempCodeRunnerFile.py:143 | the bound `MaxId` gives is the least non-negative one |
| Store.NextId | tempCodeRunnerFile.py:143 | `AUTOINCREMENT` hands out an id above `sqlite_sequence` and above every id present |
| Store.SqlIntegerFits | tempCodeRunnerFile.py:190 | every 64-bit INTEGER SQLite hands back is within the digits `str()` and `int()` handle |
| Store.InsertSpec | tempCodeRunnerFile.py:166-168 | an `INSERT` (`Store.Insert`) fails with an overflow exactly when the year is outside SQLite's 64-bit INTEGER, and with SQLITE_FULL exactly when `sqlite_sequence` has reached the largest rowid. Otherwise it appends exactly one row with the given values under an id greater than any id ever handed out, and keeps the table valid |
| Store.InsertLookup | tempCodeRunnerFile.py:167-168 | after an `INSERT`, the new id finds the new row and every other id finds what it found before |
| Store.UpdateRows | tempCodeRunnerFile.py:220-221 | an `UPDATE` keeps the number of rows and every row's id, position by position |
| Store.UpdateRowsAt | tempCodeRunnerFile.py:220-221 | a row is rewritten with the new title, author and year exactly when it carries the id |
| Store.UpdateLookup | tempCodeRunnerFile.py:220-221 | after an `UPDATE`, the id finds the new values if it was present, and every other id is unaffected |
| Store.UpdateAbsent | tempCodeRunnerFile.py:220-221 | an `UPDATE` of an absent id changes nothing |
| Store.UpdateSpec | tempCodeRunnerFile.py:220-221 | an `UPDATE` (`Store.Update`) fails exactly on an out-of-range year; otherwise it keeps the table valid, its size and `sqlite_sequence` |
| Store.UpdateQueried | tempCodeRunnerFile.py:204-221 | updating the record shown in a result row overwrites just that record. Every other id finds what it found before, and rows the application wrote stay well formed |
| Store.DeleteRows | tempCodeRunnerFile.py:236 | a `DELETE` leaves no row with the id and keeps every other row, in order |
| Store.DeleteAbsent | tempCodeRunnerFile.py:236 | a `DELETE` of an absent id changes nothing |
| Store.DeleteLookup | tempCodeRunnerFile.py:236 | after a `DELETE`, the id finds nothing and every other id finds what it found before |
| Store.DeleteCount | tempCodeRunnerFile.py:236 | with unique ids, deleting a present id removes exactly one row |
| Store.DeleteSpec | tempCodeRunnerFile.py:236 | a `DELETE` (`Store.Delete`) keeps the table valid and never lowers `sqlite_sequence` |
| Store.DeleteQueried | tempCodeRunnerFile.py:230-236 | deleting the record shown in a result row lowers the count by one, removes that id and leaves every other id as it was |
| Store.DeletedIdNotReused | tempCodeRunnerFile.py:143 | an insert after a delete succeeds unless the rowids are exhausted, and then gets an id greater than the deleted one, so the deleted id stays absent |
| Store.Where | tempCodeRunnerFile.py:183 | a `WHERE title LIKE ?` result keeps rows in storage order and holds only matching titles |
| Store.WhereComplete | tempCodeRunnerFile.py:183 | no row whose title matches is left out of a `WHERE title LIKE ?` result |
| Store.QueryMatches | tempCodeRunnerFile.py:182-185 | a search (`Store.Query`) returns exactly the rows whose title contains the search text up to ASCII case. An empty search text returns every row |
| Store.QueryOrdered | tempCodeRunnerFile.py:185 | a query result holds only table rows, in the table's ascending id order |
| Validation.ValidateMissing | tempCodeRunnerFile.py:156-158 | in `Validation.Validate`, the title/author warning fires exactly when either field is blank or whitespace only |
| Validation.ValidateYear | tempCodeRunnerFile.py:160-164 | with title and author present, a blank year becomes 0. A non-blank year is rejected exactly when `int()` rejects its stripped text, and an accepted one is the value `int()` reads |
| Validation.ValidateLongYear | tempCodeRunnerFile.py:160-164 | a year of more than 4300 digits, leading zeros included, is rejected as not a number |
| Validation.ValidateAccepted | tempCodeRunnerFile.py:152-156 | accepted fields are the stripped inputs, non-empty, with no whitespace at either end |
| Validation.ValidatePadded | tempCodeRunnerFile.py:152-154 | whitespace added around any of the three inputs, independently per field, never changes the outcome of validation |
| Validation.ValidateDisplayed | tempCodeRunnerFile.py:206-214 | re-validating the texts a stored row is displayed with gives back that row's own values |
| Inventory.ProjectShows | tempCodeRunnerFile.py:187-194 | a loaded table (`Inventory.Project`, cell by cell `Inventory.CellOf`) has one row per result record, a read-only id cell per row, and editable items in the other columns |
| Inventory.ShownIdParses | tempCodeRunnerFile.py:205 | column 0 of a row displaying a query result parses back with `int()` as the id of the record it displays |
| Inventory.CsvRecordDecode | tempCodeRunnerFile.py:251 | a record's CSV line (`Inventory.CsvRecord`) reads back as that record: id and year through `int()`, title and author verbatim |
| Inventory.CsvRowsShape | tempCodeRunnerFile.py:249-251 | every export (`Inventory.CsvRows`), an empty store's included, is the header followed by one line per record |
| Inventory.CsvRowsDecode | tempCodeRunnerFile.py:244-251 | an export has the header plus one line per record, in store order, each reading back as its record |
| Inventory.CsvMatchesView | tempCodeRunnerFile.py:245-251 | the export holds, cell for cell, the texts an unfiltered load displays |
| Inventory.SaveAccepted | tempCodeRunnerFile.py:151-168 | an accepted entry whose year SQLite can store, while rowids remain, is inserted with the effect `save_book` promises, and keeps the table valid |
| Inventory.SaveEffectUnique | tempCodeRunnerFile.py:151-173 | the effect of `save_book` is determined by the table and the three inputs: one outcome and one resulting table |
| Inventory.EditAccepted | tempCodeRunnerFile.py:204-221 | an accepted in-place edit overwrites exactly the record whose id the row shows, and keeps the table valid |
| Inventory.BookInventoryApp.constructor | tempCodeRunnerFile.py:136-137 | the window opens or creates the table, clears the flag and shows every record |
| Inventory.BookInventoryApp.LoadData | tempCodeRunnerFile.py:179-195 | the flag is set throughout the reload and clear afterwards. The view becomes exactly the projection of the query result, and the table and inputs are unchanged |
| Inventory.BookInventoryApp.FillRow | tempCodeRunnerFile.py:188-194 | one pass of the inner loop sets exactly the given view row to the record's cells |
| Inventory.BookInventoryApp.SetItem | tempCodeRunnerFile.py:194 | `setItem` during a reload writes one cell; the `itemChanged` it raises changes nothing else |
| Inventory.BookInventoryApp.SearchBooks | tempCodeRunnerFile.py:197-199 | a search reloads the view with the stripped search text and changes nothing in the table |
| Inventory.BookInventoryApp.ChangeSearchText | tempCodeRunnerFile.py:65 | a new search text triggers a search that shows the query for the stripped text; the same text changes nothing |
| Inventory.BookInventoryApp.PasteFromClipboard | tempCodeRunnerFile.py:175-177 | the clipboard text replaces the title input |
| Inventory.BookInventoryApp.SaveBook | tempCodeRunnerFile.py:151-173 | a rejected entry changes nothing at all. A saved one appends exactly one record under a fresh id greater than every id handed out; the inputs are then cleared and every record is reloaded |
| Inventory.BookInventoryApp.OnItemChanged | tempCodeRunnerFile.py:201-223 | during a reload it changes nothing. Otherwise, after a rejected edit, the store is untouched and the view is reloaded, discarding the edit. An accepted edit updates only the record whose id the row shows, then reloads |
| Inventory.BookInventoryApp.EditCell | tempCodeRunnerFile.py:79-80 | typing into a read-only cell, or leaving the text unchanged, does nothing. A real edit of an editable cell goes through `on_item_changed` with the edited row and leaves the inputs alone. A rejected or accepted edit reloads every record; a year SQLite cannot store leaves the table and the edited view as they are |
| Inventory.BookInventoryApp.DeleteBook | tempCodeRunnerFile.py:225-238 | with no selection or no confirmation nothing changes. A confirmed delete removes exactly the selected row's record, lowers the count by one, leaves every other record as it was and reloads |
| Inventory.BookInventoryApp.ExportToCsv | tempCodeRunnerFile.py:240-254 | an empty path does nothing. Otherwise the lines are the header and every record of the unfiltered store, and the store is not modified |
| Scenario.SearchBumi | tempCodeRunnerFile.py:182-185 | searching "Bumi" over the two saved books returns the second one only |
| Scenario.Session | tempCodeRunnerFile.py:151-251 | the concrete session gives ids 1 and 2 and year 0 for a blank year. The search finds "Bumi"; the edit sets year 2014 under id 2; the delete leaves one record; the export is the header plus `2,Bumi,Tere Liye,2014` |
| Scenario.SessionThroughWindow | tempCodeRunnerFile.py:151-254 | the same session driven through the window's slots (paste, save twice, search, edit a cell, confirmed delete, export) writes the header and `2,Bumi,Tere Liye,2014` |

## Left out

- Widget construction, layout, help dock, labels and the status bar (tempCodeRunnerFile.py:12-134). These are presentation only.
- Message box texts. Each warning is an error value (`ValidationError`, `NoSelection`, `ExportFailed`); the dialog itself is not modelled.
- The SQLite connection: `connect`, `commit` and `closeEvent`. Every statement takes effect at once, as with a commit after each.
- CSV byte-level encoding and quoting. An export is modelled as the sequence of its lines' fields, and whether the write succeeds is a parameter.
- Text.Strip: strips ASCII whitespace only (the characters Python's `str.isspace()` accepts below 0x80), not the Unicode separators Python also strips.
- Text.ParseInt: accepts an optional sign followed by at most 4300 ASCII digits. It does not model Python's `int()` underscores or non-ASCII digits.
- Text.IntToString: does not raise `ValueError` above 4300 digits. It is applied only to values SQLite hands back, which `Store.SqlIntegerFits` keeps well below the limit.
- Inventory.BookInventoryApp.PasteFromClipboard: does not model `QLineEdit`'s `maxLength` (32767 UTF-16 code units by default), which truncates a longer clipboard text. The model has no UTF-16 lengths.
- Store.QueryMatches: the substring characterisation holds only for search text without `%` or `_`. With them `LIKE` treats the text as a pattern, which `Text.Like` models but the lemma does not characterise.
- Store.Query: always returns the matching rows. SQLite refuses a `LIKE` pattern longer than 50000 UTF-8 bytes ("LIKE or GLOB pattern too complex") once a row is compared, and stops comparing a string at an embedded NUL. `Text.Like` compares every character. The byte limit and the NUL rule are not modelled. So `Store.QueryMatches`, `Inventory.BookInventoryApp.LoadData`, `Inventory.BookInventoryApp.SearchBooks` and `Inventory.BookInventoryApp.ChangeSearchText` do not capture the case where the query raises: the view is not reloaded and `is_loading` stays set.
- Inventory.BookInventoryApp.LoadData: always reloads and clears the flag. For a search pattern over SQLite's 50000-byte `LIKE` limit the source raises instead and leaves `is_loading` set (see `Store.Query`).
- Inventory.BookInventoryApp.SearchBooks: always reloads. It does not model the query failing for a search text over the `LIKE` pattern limit (see `Store.Query`).
- Inventory.BookInventoryApp.ChangeSearchText: a new text always reloads. It does not model the query failing for a text over the `LIKE` pattern limit (see `Store.Query`).
- Storage order: the rows are kept in id order, which is insertion order for an `AUTOINCREMENT` table. No `ORDER BY` is applied.
- Years outside SQLite's 64-bit INTEGER make the `INSERT`/`UPDATE` raise `OverflowError` before anything is written. An `INSERT` after the largest rowid raises `sqlite3.OperationalError` (SQLITE_FULL). The model reports `SaveFailed`/`UpdateFailed` with nothing changed. What PyQt does with the exception escaping the slot is not modelled.
- Rows not written by this application (a `NULL` or text year in an existing database file) cannot be represented: a `Book`'s year is an integer. The application's own rows stay well formed (non-empty, stripped title and author), which the class methods preserve.
- Inventory.BookInventoryApp.DeleteBook and Inventory.BookInventoryApp.EditCell require that no reload is in progress. User events are not delivered while a slot runs on the single GUI thread.
- Qt's `itemChanged` is modelled as raised by every `setItem` and by a user edit that changes a cell's text. Other notifications, such as flag or alignment changes on items already in the table, are not modelled.
