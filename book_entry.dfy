/** The book-entry screen's form (`BookEntryScreen` in App.js): its state,
    the submit handler's validation, and the prepend-and-reset it does when
    the input is valid. */
module BookEntry {
  import opened JsString
  import opened JsNumber

  /** The genres the picker offers, in picker order. */
  const Genres: seq<string> := [
    "Fiction", "Non-fiction", "Mystery", "Fantasy",
    "Science Fiction", "Biography", "Romance", "Thriller"
  ]

  /** The picker keys its items by genre name, so no name is listed twice;
      "Fiction" is the first item and the one the form starts with. */
  lemma GenresDistinct()
    ensures Genres[0] == "Fiction"
    ensures forall i, j :: 0 <= i < j < |Genres| ==> Genres[i] != Genres[j]
  {
  }

  /** An accepted book as the list shows it. */
  datatype Book = Book(id: string, title: string, author: string, genre: string, pages: string)

  /** What the submit handler does: accept, or raise one of three alerts. */
  datatype Outcome = Ok | MissingTitle | MissingAuthor | InvalidPages

  /** The message of the alert an outcome raises (its title is "Validation"). */
  function AlertMessage(o: Outcome): (r: string)
    requires o != Ok
    ensures r != ""
  {
    match o
    case MissingTitle => "Please enter the book title."
    case MissingAuthor => "Please enter the author name."
    case InvalidPages => "Please enter a valid number of pages."
  }

  /** Each failure raises its own message. */
  lemma AlertMessagesDistinct(o: Outcome, o': Outcome)
    requires o != Ok && o' != Ok && o != o'
    ensures AlertMessage(o) != AlertMessage(o')
  {
  }

  /** `!s.trim()`: the text is empty once trimmed, which happens exactly
      when all of it is whitespace. */
  predicate Blank(s: string)
    ensures Blank(s) <==> AllWhitespace(s)
  {
    BlankIffAllWhitespace(s);
    Trim(s) == ""
  }

  /** The page-count test: not blank, `isNaN(pages)` false and
      `Number(pages) <= 0` false. */
  predicate PagesAccepted(pages: string, toNumber: string -> Num)
    ensures PagesAccepted(pages, toNumber) <==> !Blank(pages) && IsPositive(toNumber(pages))
  {
    !(Blank(pages) || toNumber(pages).NaN? || AtMostZero(toNumber(pages)))
  }

  /** The checks in the handler's order; the first that fails is reported. */
  function Validate(title: string, author: string, pages: string, toNumber: string -> Num): (r: Outcome)
    ensures r == MissingTitle <==> Blank(title)
    ensures r == MissingAuthor <==> !Blank(title) && Blank(author)
    ensures r == InvalidPages <==> !Blank(title) && !Blank(author) && !PagesAccepted(pages, toNumber)
    ensures r == Ok <==> !Blank(title) && !Blank(author) && PagesAccepted(pages, toNumber)
  {
    if Blank(title) then MissingTitle
    else if Blank(author) then MissingAuthor
    else if !PagesAccepted(pages, toNumber) then InvalidPages
    else Ok
  }

  /** The record a successful submit stores: trimmed texts and the selected genre. */
  function NewBook(freshId: string, title: string, author: string, genre: string, pages: string): (b: Book)
    ensures b.id == freshId && b.genre == genre
    ensures Trim(b.title) == b.title && Trim(b.author) == b.author && Trim(b.pages) == b.pages
    ensures b.title == "" <==> Blank(title)
    ensures b.author == "" <==> Blank(author)
  {
    TrimIdempotent(title);
    TrimIdempotent(author);
    TrimIdempotent(pages);
    Book(freshId, Trim(title), Trim(author), genre, Trim(pages))
  }

  /** What every stored book satisfies: trimmed, non-empty title and author,
      a genre from the list, and a trimmed page count that passes the check. */
  predicate WellFormed(b: Book, toNumber: string -> Num)
  {
    b.title != "" && Trim(b.title) == b.title &&
    b.author != "" && Trim(b.author) == b.author &&
    b.genre in Genres &&
    Trim(b.pages) == b.pages && PagesAccepted(b.pages, toNumber)
  }

  /** Validation accepts exactly the inputs whose record is well formed. */
  lemma ValidateIffWellFormed(freshId: string, title: string, author: string, genre: string, pages: string,
                              toNumber: string -> Num)
    requires genre in Genres && IsStringToNumber(toNumber)
    ensures Validate(title, author, pages, toNumber) == Ok
        <==> WellFormed(NewBook(freshId, title, author, genre, pages), toNumber)
  {
    TrimIdempotent(title);
    TrimIdempotent(author);
    TrimIdempotent(pages);
    assert toNumber(Trim(pages)) == toNumber(pages);
  }

  // ---------------------------------------------------------------------------
  // The form's state as a value, and the submit handler on it
  // ---------------------------------------------------------------------------

  /** The five `useState` cells of the screen. */
  datatype FormState = FormState(title: string, author: string, genre: string, pages: string, books: seq<Book>)

  /** The state the screen mounts with: no books yet, and the invariant
      holds whatever the conversion. */
  function Initial(): (r: FormState)
    ensures r.books == []
    ensures forall toNumber :: Inv(r, toNumber)
  {
    FormState("", "", Genres[0], "", [])
  }

  /** The screen's invariant: the picker shows a listed genre and every
      stored book is well formed. */
  predicate Inv(s: FormState, toNumber: string -> Num)
  {
    s.genre in Genres && forall b :: b in s.books ==> WellFormed(b, toNumber)
  }

  /** The state after pressing submit, and the outcome. */
  function AfterSubmit(s: FormState, freshId: string, toNumber: string -> Num): (r: (FormState, Outcome))
    ensures r.1 == Validate(s.title, s.author, s.pages, toNumber)
    ensures r.1 != Ok ==> r.0 == s
    ensures r.1 == Ok ==>
      && r.0.books == [NewBook(freshId, s.title, s.author, s.genre, s.pages)] + s.books
      && r.0.title == r.0.author == r.0.pages == ""
      && r.0.genre == Genres[0]
  {
    var outcome := Validate(s.title, s.author, s.pages, toNumber);
    if outcome != Ok then (s, outcome)
    else
      var b := NewBook(freshId, s.title, s.author, s.genre, s.pages);
      (FormState("", "", Genres[0], "", [b] + s.books), Ok)
  }

  /** One input event the screen handles. */
  datatype Event =
    | TitleChanged(text: string)
    | AuthorChanged(text: string)
    | GenrePicked(item: string)
    | PagesChanged(text: string)
    | SubmitPressed(freshId: string)

  /** The state after one event: the three inputs' `onChangeText`, the
      picker's `onValueChange` and the submit button's `onPress`. */
  function Step(s: FormState, e: Event, toNumber: string -> Num): (r: FormState)
    ensures !e.SubmitPressed? ==> r.books == s.books
    ensures r.books == s.books || (|r.books| == |s.books| + 1 && r.books[1..] == s.books)
  {
    match e
    case TitleChanged(text) => s.(title := text)
    case AuthorChanged(text) => s.(author := text)
    case GenrePicked(item) => s.(genre := item)
    case PagesChanged(text) => s.(pages := text)
    case SubmitPressed(freshId) => AfterSubmit(s, freshId, toNumber).0
  }

  /** Submitting keeps the screen's invariant. */
  lemma SubmitPreservesInv(s: FormState, freshId: string, toNumber: string -> Num)
    requires Inv(s, toNumber) && IsStringToNumber(toNumber)
    ensures Inv(AfterSubmit(s, freshId, toNumber).0, toNumber)
  {
    var r := AfterSubmit(s, freshId, toNumber);
    if r.1 == Ok {
      ValidateIffWellFormed(freshId, s.title, s.author, s.genre, s.pages, toNumber);
      forall b | b in r.0.books
        ensures WellFormed(b, toNumber)
      {
        if b != r.0.books[0] {
          assert b in r.0.books[1..];
        }
      }
    }
  }

  // ---------------------------------------------------------------------------
  // The component: state cells updated in place by the event handlers
  // ---------------------------------------------------------------------------

  class BookEntryForm {
    var title: string
    var author: string
    var genre: string
    var pages: string
    var books: seq<Book>
    /** The host's string-to-number conversion. */
    const toNumber: string -> Num

    function State(): FormState
      reads this
    {
      FormState(title, author, genre, pages, books)
    }

    ghost predicate Valid()
      reads this
    {
      IsStringToNumber(toNumber) && Inv(State(), toNumber)
    }

    /** Mounting the screen. */
    constructor (toNumber: string -> Num)
      requires IsStringToNumber(toNumber)
      ensures Valid() && State() == Initial() && this.toNumber == toNumber
    {
      title, author, genre, pages, books := "", "", Genres[0], "", [];
      this.toNumber := toNumber;
    }

    /** The title input's `onChangeText`. */
    method SetTitle(text: string)
      requires Valid()
      modifies this
      ensures Valid() && State() == old(State()).(title := text)
      ensures State() == Step(old(State()), TitleChanged(text), toNumber)
    {
      title := text;
    }

    /** The author input's `onChangeText`. */
    method SetAuthor(text: string)
      requires Valid()
      modifies this
      ensures Valid() && State() == old(State()).(author := text)
      ensures State() == Step(old(State()), AuthorChanged(text), toNumber)
    {
      author := text;
    }

    /** The picker's `onValueChange`; the picker only reports its own items. */
    method SelectGenre(item: string)
      requires Valid() && item in Genres
      modifies this
      ensures Valid() && State() == old(State()).(genre := item)
      ensures State() == Step(old(State()), GenrePicked(item), toNumber)
    {
      genre := item;
    }

    /** The page-count input's `onChangeText`. */
    method SetPages(text: string)
      requires Valid()
      modifies this
      ensures Valid() && State() == old(State()).(pages := text)
      ensures State() == Step(old(State()), PagesChanged(text), toNumber)
    {
      pages := text;
    }

    /** `handleSubmit`, with `freshId` standing for `Date.now().toString()`. */
    method Submit(freshId: string) returns (r: Outcome)
      requires Valid()
      modifies this
      ensures Valid()
      ensures (State(), r) == AfterSubmit(old(State()), freshId, toNumber)
      ensures State() == Step(old(State()), SubmitPressed(freshId), toNumber)
      ensures r != Ok ==> unchanged(this)
      ensures r == Ok ==> books == [NewBook(freshId, old(title), old(author), old(genre), old(pages))] + old(books)
    {
      ghost var before := State();
      if Blank(title) {
        assert AfterSubmit(before, freshId, toNumber) == (before, MissingTitle);
        return MissingTitle;
      }
      if Blank(author) {
        assert AfterSubmit(before, freshId, toNumber) == (before, MissingAuthor);
        return MissingAuthor;
      }
      if Blank(pages) || toNumber(pages).NaN? || AtMostZero(toNumber(pages)) {
        assert AfterSubmit(before, freshId, toNumber) == (before, InvalidPages);
        return InvalidPages;
      }
      var newBook := Book(freshId, Trim(title), Trim(author), genre, Trim(pages));
      ghost var after := AfterSubmit(before, freshId, toNumber);
      assert after.1 == Ok && after.0.books == [newBook] + books;
      SubmitPreservesInv(before, freshId, toNumber);
      books := [newBook] + books;
      title := "";
      author := "";
      genre := Genres[0];
      pages := "";
      assert State() == after.0;
      r := Ok;
    }
  }

  // ---------------------------------------------------------------------------
  // The page-count check with the decimal stand-in for the conversion
  // ---------------------------------------------------------------------------

  /** A run of digits with a non-zero digit is a valid page count. */
  lemma DecimalPagesAccepted(pages: string)
    requires IsDigits(pages) && exists k :: 0 <= k < |pages| && pages[k] != '0'
    ensures PagesAccepted(pages, DecimalToNumber)
  {
    TrimIdentity(pages);
    DigitsValuePositive(pages);
  }

  /** Zero, however many digits spell it, is refused. */
  lemma DecimalZeroRejected(pages: string)
    requires IsDigits(pages) && forall k :: 0 <= k < |pages| ==> pages[k] == '0'
    ensures !PagesAccepted(pages, DecimalToNumber)
  {
    TrimIdentity(pages);
    DigitsValuePositive(pages);
  }

  /** A minus sign followed by digits is refused. */
  lemma DecimalNegativeRejected(digits: string)
    requires IsDigits(digits)
    ensures !PagesAccepted("-" + digits, DecimalToNumber)
  {
    var s := "-" + digits;
    TrimIdentity(s);
    assert s[1..] == digits;
  }

  /** Text holding a character that no numeric literal contains is refused,
      as JavaScript converts it to NaN. */
  lemma DecimalNonNumericRejected(pages: string, k: nat)
    requires k < |pages| && !IsNumericLiteralChar(pages[k]) && !IsWhitespace(pages[k])
    ensures !PagesAccepted(pages, DecimalToNumber)
  {
    var t := Trim(pages);
    var i := TrimOffset(pages);
    TrimSpec(pages);
    assert i <= k < i + |t| by {
      if k < i { assert false; }
      if i + |t| <= k { assert false; }
    }
    assert t[k - i] == pages[k];
    if t[0] == '+' || t[0] == '-' {
      assert k - i > 0;
      assert t[1..][k - i - 1] == pages[k];
    }
  }
}
