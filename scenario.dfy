/**
 * A worked session against the model: two books are saved, the second is
 * found by its title and its year edited in place, the first is deleted,
 * and the remaining record is exported.
 */
module Scenario {
  import opened Wrappers
  import opened Text
  import opened Store
  import opened Validation
  import opened Inventory

  /** No character of s folds to c. */
  predicate NoneFoldsTo(s: string, c: char) {
    forall i :: 0 <= i < |s| ==> Fold(s[i]) != c
  }

  /** A text in which no character folds like the first character of t
      does not contain t. */
  lemma {:induction false} NotContainsFirst(s: string, t: string)
    requires t != [] && NoneFoldsTo(s, Fold(t[0]))
    ensures !ContainsFolded(s, t)
  {
    if s != [] {
      assert NoneFoldsTo(s[1..], Fold(t[0])) by {
        forall i | 0 <= i < |s| - 1 ensures Fold(s[1..][i]) != Fold(t[0]) {
          assert s[1..][i] == s[i + 1];
        }
      }
      NotContainsFirst(s[1..], t);
    }
  }

  lemma ValidateFirst()
    ensures Validate("Laskar Pelangi", "Andrea Hirata", "2005")
         == Success(Fields("Laskar Pelangi", "Andrea Hirata", 2005))
  {
    assert IntToString(2005) == "2005";
    ValidateDisplayed("Laskar Pelangi", "Andrea Hirata", 2005);
  }

  lemma ValidateSecond()
    ensures Validate("Bumi", "Tere Liye", "") == Success(Fields("Bumi", "Tere Liye", 0))
  {
    assert Strip("Bumi") == "Bumi" by {
      StripFramed([], "Bumi", []);
      assert [] + "Bumi" + [] == "Bumi";
    }
    assert Strip("Tere Liye") == "Tere Liye" by {
      StripFramed([], "Tere Liye", []);
      assert [] + "Tere Liye" + [] == "Tere Liye";
    }
  }

  /** A title in which no character folds like the first character of a
      wildcard-free search text is not LIKE '%text%'. */
  lemma NoFirstNoLike(s: string, t: string)
    requires t != [] && NoWildcards(t) && NoneFoldsTo(s, Fold(t[0]))
    ensures !Like(s, "%" + t + "%")
  {
    NotContainsFirst(s, t);
    LikeContains(s, t);
  }

  /** A wildcard-free text is LIKE '%text%'. */
  lemma SelfLike(t: string)
    requires NoWildcards(t)
    ensures Like(t, "%" + t + "%")
  {
    ContainsAt(t, t, 0);
    LikeContains(t, t);
  }

  /** Searching "Bumi" finds the second book and not the first. */
  lemma SearchBumi(rows: seq<Book>)
    requires rows == [LASKAR, BUMI]
    ensures Query(rows, "Bumi") == [rows[1]]
  {
    var p := "%" + "Bumi" + "%";
    assert NoneFoldsTo(rows[0].title, 'b') && Fold("Bumi"[0]) == 'b';
    NoFirstNoLike(rows[0].title, "Bumi");
    SelfLike("Bumi");
    assert rows[1..][1..] == [];
    assert Where(rows[1..], p) == [rows[1]];
  }

  const LASKAR := Book(1, "Laskar Pelangi", "Andrea Hirata", 2005)
  const BUMI := Book(2, "Bumi", "Tere Liye", 0)
  const BUMI_2014 := Book(2, "Bumi", "Tere Liye", 2014)

  /** The two saves: ids 1 and 2, in that order. */
  lemma SaveBoth()
    ensures Insert(Table([], 0), LASKAR.title, LASKAR.author, LASKAR.year) == Success(Table([LASKAR], 1))
    ensures Insert(Table([LASKAR], 1), BUMI.title, BUMI.author, BUMI.year) == Success(Table([LASKAR, BUMI], 2))
  {
    assert IsSqlInteger(2005) && IsSqlInteger(0);
    assert NextId(Table([], 0)) == 1;
    assert [] + [LASKAR] == [LASKAR];
    assert MaxId([LASKAR]) == 1 by { assert [LASKAR][1..] == []; }
    assert NextId(Table([LASKAR], 1)) == 2;
    assert [LASKAR] + [BUMI] == [LASKAR, BUMI];
  }

  /** The edit of the second book's year, then the delete of the first. */
  lemma EditThenDelete()
    ensures Update(Table([LASKAR, BUMI], 2), 2, "Bumi", "Tere Liye", 2014) == Success(Table([LASKAR, BUMI_2014], 2))
    ensures Delete(Table([LASKAR, BUMI_2014], 2), 1) == Table([BUMI_2014], 2)
  {
    assert IsSqlInteger(2014);
    var rows := [LASKAR, BUMI];
    assert rows[1..] == [BUMI] && rows[1..][1..] == [];
    assert UpdateRows(rows, 2, "Bumi", "Tere Liye", 2014) == [LASKAR, BUMI_2014];
    var rows' := [LASKAR, BUMI_2014];
    assert rows'[1..] == [BUMI_2014] && rows'[1..][1..] == [];
    assert DeleteRows(rows'[1..][1..], 1) == [];
    assert DeleteRows(rows'[1..], 1) == [BUMI_2014];
    assert DeleteRows(rows', 1) == [BUMI_2014];
  }

  /** The export of what remains: the header and one line. */
  lemma ExportRemaining()
    ensures CsvRows([BUMI_2014]) == [HEADER, ["2", "Bumi", "Tere Liye", "2014"]]
  {
    assert IntToString(2) == "2" && IntToString(2014) == "2014";
    assert CsvRecord(BUMI_2014) == ["2", "Bumi", "Tere Liye", "2014"];
  }

  /** The session: save ("Laskar Pelangi", "Andrea Hirata", "2005") and
      ("Bumi", "Tere Liye", ""); search "Bumi"; set the second book's year
      to 2014; delete the first; export. */
  lemma Session()
    ensures Validate("Laskar Pelangi", "Andrea Hirata", "2005") == Success(Fields(LASKAR.title, LASKAR.author, 2005))
    ensures Validate("Bumi", "Tere Liye", "") == Success(Fields(BUMI.title, BUMI.author, 0))
    ensures var t1 := Insert(Table([], 0), LASKAR.title, LASKAR.author, 2005);
      && t1 == Success(Table([LASKAR], 1))
      && var t2 := Insert(t1.value, BUMI.title, BUMI.author, 0);
      && t2 == Success(Table([LASKAR, BUMI], 2))
      && Query(t2.value.rows, "Bumi") == [BUMI]
      && var t3 := Update(t2.value, 2, "Bumi", "Tere Liye", 2014);
      && t3.Success?
      && var t4 := Delete(t3.value, 1);
      && t4 == Table([BUMI_2014], 2)
      && CsvRows(t4.rows) == [HEADER, ["2", "Bumi", "Tere Liye", "2014"]]
  {
    ValidateFirst();
    ValidateSecond();
    SaveBoth();
    SearchBumi([LASKAR, BUMI]);
    EditThenDelete();
    ExportRemaining();
  }
  /** save_book's effect for the first entry: id 1. */
  lemma SaveFirstEffect()
    ensures SaveEffect(Table([], 0), "Laskar Pelangi", "Andrea Hirata", "2005", Table([LASKAR], 1), Saved(1))
  {
    ValidateFirst();
    SaveBoth();
  }

  /** save_book's effect for the second entry, with a blank year: id 2. */
  lemma SaveSecondEffect()
    ensures SaveEffect(Table([LASKAR], 1), "Bumi", "Tere Liye", "", Table([LASKAR, BUMI], 2), Saved(2))
  {
    ValidateSecond();
    SaveBoth();
  }

  /** The user pastes "Laskar Pelangi" from the clipboard, types the
      author and the year, and presses "Simpan": the book gets id 1. */
  method SaveFirstThroughWindow(app: BookInventoryApp)
    requires app.Valid() && !app.isLoading && app.table == Table([], 0) && app.searchInput == []
    modifies app
    ensures app.Valid() && !app.isLoading && app.table == Table([LASKAR], 1) && app.searchInput == []
  {
    app.PasteFromClipboard("Laskar Pelangi");
    app.authorInput, app.yearInput := "Andrea Hirata", "2005";
    SaveFirstEffect();
    var saved := app.SaveBook();
    SaveEffectUnique(Table([], 0), "Laskar Pelangi", "Andrea Hirata", "2005", app.table, saved, Table([LASKAR], 1), Saved(1));
  }

  /** The user types "Bumi" and its author, leaves the year blank, and
      presses "Simpan": the book gets id 2 and year 0. */
  method SaveSecondThroughWindow(app: BookInventoryApp)
    requires app.Valid() && !app.isLoading && app.table == Table([LASKAR], 1) && app.searchInput == []
    modifies app
    ensures app.Valid() && !app.isLoading && app.table == Table([LASKAR, BUMI], 2) && app.searchInput == []
  {
    app.titleInput, app.authorInput, app.yearInput := "Bumi", "Tere Liye", "";
    SaveSecondEffect();
    var saved := app.SaveBook();
    SaveEffectUnique(Table([LASKAR], 1), "Bumi", "Tere Liye", "", app.table, saved, Table([LASKAR, BUMI], 2), Saved(2));
  }

  /** The user types "Bumi" into the search box; the one row shown is the
      second book. */
  method SearchThroughWindow(app: BookInventoryApp)
    requires app.Valid() && !app.isLoading && app.table == Table([LASKAR, BUMI], 2) && app.searchInput == []
    modifies app
    ensures app.Valid() && !app.isLoading && app.table == Table([LASKAR, BUMI], 2)
    ensures app.view == Project([BUMI]) && app.Shown(0) == BUMI
  {
    assert Strip("Bumi") == "Bumi" by {
      StripFramed([], "Bumi", []);
      assert [] + "Bumi" + [] == "Bumi";
    }
    SearchBumi(app.table.rows);
    app.ChangeSearchText("Bumi");
  }

  /** The user overwrites the year cell of that row with "2014"; the
      record is updated and every record is shown again. */
  method EditThroughWindow(app: BookInventoryApp)
    requires app.Valid() && !app.isLoading && app.table == Table([LASKAR, BUMI], 2)
    requires app.view == Project([BUMI]) && app.Shown(0) == BUMI
    modifies app
    ensures app.Valid() && !app.isLoading && app.table == Table([LASKAR, BUMI_2014], 2)
    ensures app.view == Project([LASKAR, BUMI_2014]) && app.lastQuery == []
  {
    assert IntToString(0) == "0" && IntToString(2014) == "2014";
    assert app.view[0][3] == Item("0", true);
    ghost var edited := app.view[0][3 := Item("2014", true)];
    assert edited[1].text == "Bumi" && edited[2].text == "Tere Liye" && edited[3].text == "2014";
    ValidateDisplayed("Bumi", "Tere Liye", 2014);
    EditThenDelete();
    var changed := app.EditCell(0, 3, "2014");
    assert changed == Edited(Updated(2));
  }

  /** The same session driven through the window: the inputs and the
      "Simpan" button, the search box, a cell of the table, the delete
      button with its confirmation, and the export, which writes the
      header and the one remaining record. */
  method SessionThroughWindow() returns (exported: ExportOutcome)
    ensures exported == Exported("books.csv", [HEADER, ["2", "Bumi", "Tere Liye", "2014"]])
  {
    var app := new BookInventoryApp(None);
    SaveFirstThroughWindow(app);
    SaveSecondThroughWindow(app);
    SearchThroughWindow(app);
    EditThroughWindow(app);
    assert app.Shown(0) == LASKAR;
    EditThenDelete();
    var deleted := app.DeleteBook(0, Yes);
    assert deleted == Deleted(1);
    ExportRemaining();
    exported := app.ExportToCsv("books.csv", true);
  }
}
