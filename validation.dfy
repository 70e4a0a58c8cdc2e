/**
 * The input checks that saving a new book and editing a table row share:
 * title and author are stripped and must be non-empty; the year is
 * stripped, blank means 0, and otherwise it must be an integer.
 */
module Validation {
  import opened Wrappers
  import opened Text

  datatype Fields = Fields(title: string, author: string, year: int)

  /** The two warnings: "Judul dan Pengarang wajib diisi!" and
      "Tahun harus berupa angka!". */
  datatype ValidationError = MissingTitleOrAuthor | YearNotInteger

  function Validate(title: string, author: string, year: string): Result<Fields, ValidationError> {
    var t, a, y := Strip(title), Strip(author), Strip(year);
    if t == [] || a == [] then Failure(MissingTitleOrAuthor)
    else if y == [] then Success(Fields(t, a, 0))
    else match ParseInt(y)
      case Some(n) => Success(Fields(t, a, n))
      case None => Failure(YearNotInteger)
  }

  /** The title/author check comes first and fires exactly when one of the
      two is blank or whitespace only. */
  lemma ValidateMissing(title: string, author: string, year: string)
    ensures Validate(title, author, year) == Failure(MissingTitleOrAuthor)
      <==> AllSpace(title) || AllSpace(author)
  {
    StripEmpty(title);
    StripEmpty(author);
  }

  /** With title and author present, a whitespace-only year is stored as 0,
      and any other year is accepted exactly when int() accepts its
      stripped text. */
  lemma ValidateYear(title: string, author: string, year: string)
    requires !AllSpace(title) && !AllSpace(author)
    ensures AllSpace(year) ==> Validate(title, author, year).Success? && Validate(title, author, year).value.year == 0
    ensures !AllSpace(year) ==>
      (Validate(title, author, year) == Failure(YearNotInteger) <==> ParseInt(Strip(year)).None?)
    ensures !AllSpace(year) && Validate(title, author, year).Success? ==>
      ParseInt(Strip(year)) == Some(Validate(title, author, year).value.year)
  {
    StripEmpty(title);
    StripEmpty(author);
    StripEmpty(year);
  }

  /** Accepted fields are the stripped inputs: non-empty, with no whitespace
      at either end. */
  lemma ValidateAccepted(title: string, author: string, year: string)
    requires Validate(title, author, year).Success?
    ensures var f := Validate(title, author, year).value;
      && f.title == Strip(title) && f.title != [] && Trimmed(f.title)
      && f.author == Strip(author) && f.author != [] && Trimmed(f.author)
  {
  }

  /** Extra whitespace around any of the inputs, each padded on its own,
      changes nothing. */
  lemma ValidatePadded(title: string, author: string, year: string,
                       titlePre: string, titlePost: string,
                       authorPre: string, authorPost: string,
                       yearPre: string, yearPost: string)
    requires AllSpace(titlePre) && AllSpace(titlePost)
    requires AllSpace(authorPre) && AllSpace(authorPost)
    requires AllSpace(yearPre) && AllSpace(yearPost)
    ensures Validate(titlePre + title + titlePost, authorPre + author + authorPost, yearPre + year + yearPost)
         == Validate(title, author, year)
  {
    StripPadded(title, titlePre, titlePost);
    StripPadded(author, authorPre, authorPost);
    StripPadded(year, yearPre, yearPost);
  }

  /** A year made of more digits than int() reads, leading zeros
      included, is rejected as not a number. */
  lemma ValidateLongYear(title: string, author: string, year: string)
    requires !AllSpace(title) && !AllSpace(author)
    requires AllDigits(year) && |year| > MAX_STR_DIGITS
    ensures Validate(title, author, year) == Failure(YearNotInteger)
  {
    StripEmpty(title);
    StripEmpty(author);
    assert Trimmed(year) by {
      assert IsDigit(year[0]) && IsDigit(year[|year| - 1]);
    }
    assert [] + year + [] == year;
    StripFramed([], year, []);
    ParseIntDigits(year);
  }

  /** Re-validating the texts a stored row is displayed with gives back the
      row's own values: an edit to one cell leaves the other fields as they
      were. */
  lemma ValidateDisplayed(title: string, author: string, year: int)
    requires title != [] && Trimmed(title) && author != [] && Trimmed(author)
    requires StrFits(year)
    ensures Validate(title, author, IntToString(year)) == Success(Fields(title, author, year))
  {
    assert [] + title + [] == title;
    assert [] + author + [] == author;
    StripFramed([], title, []);
    StripFramed([], author, []);
    StripIntToString(year);
    ParseIntToString(year);
    assert IntToString(year) != [] by {
      if year >= 0 { assert NatToString(year) != []; }
    }
  }
}
