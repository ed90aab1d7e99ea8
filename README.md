# Book-entry form, modelled in Dafny

The application is a two-screen React Native app. Its only logic is the
book-entry screen (`BookEntryScreen`): a form with a title, an author, a
genre picker over eight fixed genres and a page count, and a submit handler
(`handleSubmit`). The handler validates in a fixed order and stops at the
first failure: a blank title, then a blank author, then a page count that is
blank, not a number, or not greater than zero. Each failure raises an alert
and changes nothing. On success the handler builds a book from the trimmed
texts, the selected genre and a fresh id, puts it at the front of the list,
and clears the form (the genre goes back to "Fiction").

Files:

- `js_string.dfy` (module `JsString`): JavaScript's `trim`, with its exact
  whitespace set (WhiteSpace and LineTerminator, sections 12.2 and 12.3 of
  ECMA-262). `TrimmedAt` is an independent reference definition of trimming.
  `TrimSpec` proves that `Trim` meets it, and `TrimUnique` proves it has only one answer.
- `js_number.dfy` (module `JsNumber`): JavaScript numbers as the page-count
  check sees them (`Num`, and `AtMostZero` for `n <= 0`, which is false for
  NaN). It also states `IsStringToNumber`, which is what the form relies on
  about the string-to-number conversion. `DecimalToNumber` is one concrete
  conversion with that property.
- `book_entry.dfy` (module `BookEntry`):
  - the genre list and the `Book` record;
  - the outcomes and their alert texts (`AlertMessage`);
  - `Validate`, the handler's checks in order;
  - the form state as a value (`FormState`), and `AfterSubmit`, the handler
    on that value;
  - `Event` and `Step`, the screen's input events and the state each one
    leads to;
  - the class `BookEntryForm`, whose fields are the five state cells. Its
    methods are the input handlers and `Submit`. Each method's `ensures`
    states that its new state is the matching `Step` of the old one, so the
    session lemmas about `Step` apply to calls on the class. `Submit` is proved against
    `AfterSubmit` and keeps the invariant `Valid()`: the genre is a listed
    one and every stored book is well formed;
  - lemmas about the page-count check when `DecimalToNumber` is the
    conversion.
- `session.dfy` (module `Session`): a session is a sequence of input events
  applied from the moment the screen mounts. It proves that the invariant
  survives any such sequence. It also proves that N valid entries give N
  books, newest first.

The string-to-number conversion (`Number(pages)`, and the one inside
`isNaN(pages)`) is a parameter, `toNumber`. The form is proved correct for
every conversion that satisfies `IsStringToNumber`: blank text gives zero,
and surrounding whitespace is ignored. JavaScript's own conversion has both
properties.

## Model

| member | source | states |
|---|---|---|
| `JsString.Trim` | App.js:85-88 | `s.trim()` is no longer than `s` and has no whitespace at either end |
| `JsString.TrimSpec` | App.js:85-88 | what `trim` returns is a slice of the input with only whitespace outside it, and is empty or starts and ends with a non-whitespace character |
| `JsString.TrimUnique` | App.js:85-88 | any slice meeting that description is exactly what `trim` returns, so the reference definition and `Trim` agree |
| `JsString.TrimIdentity` | App.js:85-88 | a text without whitespace at either end is left unchanged by `trim` |
| `JsString.TrimIdempotent` | App.js:85-88 | trimming an already trimmed text changes nothing, so stored titles, authors and page counts are trimmed |
| `JsString.BlankIffAllWhitespace` | App.js:70-78 | `!s.trim()` holds exactly when every character of `s` is whitespace |
| `JsString.AllWhitespaceTrimsEmpty` | App.js:70-78 | every text made only of whitespace trims to the empty text |
| `JsNumber.AtMostZero` | App.js:78 | JavaScript's `n <= 0` holds exactly when `n` is not NaN and not strictly positive, so with NaN it is false and is not the negation of `n > 0` |
| `JsNumber.IsStringToNumber` | App.js:78 | what the page check assumes of `Number`, as ECMAScript's StringToNumber does: blank text converts to 0 and the whitespace `trim` removes is ignored; hence every all-whitespace text converts to 0 |
| `JsNumber.DecimalToNumber` | App.js:78 | the decimal stand-in for `Number`: it never gives an infinity, every number it gives is an integer, and all-whitespace text gives 0. JavaScript gives infinities and fractions that it does not |
| `JsNumber.DecimalToNumberDiffers` | App.js:78 | the stand-in gives NaN for "Infinity", "2.5", "1e3" and "0x1A", which JavaScript converts to numbers |
| `JsNumber.DigitsValuePositive` | App.js:78 | a decimal digit string has a value above zero exactly when one of its digits is not `0` |
| `JsNumber.DecimalToNumberIsStringToNumber` | App.js:78 | the decimal stand-in converts blank text to zero and ignores surrounding whitespace, as JavaScript's conversion does |
| `BookEntry.GenresDistinct` | App.js:18-27 | the picker's eight genres are pairwise different, as its item keys need, and "Fiction" comes first |
| `BookEntry.AlertMessage` | App.js:71-79 | each failure raises a non-empty message, the text of its `Alert.alert` call |
| `BookEntry.AlertMessagesDistinct` | App.js:71-79 | the three failures raise three different messages |
| `BookEntry.Blank` | App.js:70-78 | `!x.trim()` holds exactly when every character of `x` is whitespace |
| `BookEntry.PagesAccepted` | App.js:78 | the page test passes exactly when the text is not blank and converts to a number strictly above zero (positive finite or positive infinity); NaN fails it |
| `BookEntry.NewBook` | App.js:83-89 | the record carries the fresh id and the selected genre; its title, author and page count are trimmed, and the title (author) is empty exactly when the input was blank |
| `BookEntry.Validate` | App.js:69-81 | reports a missing title exactly when the title is blank; a missing author exactly when only the author is blank; invalid pages exactly when title and author are present and the page count fails the check; otherwise accepts |
| `BookEntry.ValidateIffWellFormed` | App.js:70-89 | validation accepts exactly when the record the handler would build has a non-empty trimmed title and author, a listed genre and a trimmed page count that passes the check |
| `BookEntry.Initial` | App.js:63-67 | the screen mounts with no books, and the invariant (listed genre, well-formed books) holds for every conversion |
| `BookEntry.AfterSubmit` | App.js:69-98 | on any failure the state is unchanged; on success the list is the new book followed by the old list, the three texts are empty and the genre is "Fiction" |
| `BookEntry.Step` | App.js:112-155 | typing or picking never touches the list; any event leaves the list as it was or puts exactly one book in front of it |
| `BookEntry.SubmitPreservesInv` | App.js:65-98 | submitting keeps the genre in the list and every stored book well formed |
| `BookEntry.BookEntryForm.constructor` | App.js:63-67 | the screen mounts with empty texts, genre "Fiction", no books, and the invariant holding |
| `BookEntry.BookEntryForm.SetTitle` | App.js:108-113 | only the title changes, to the typed text |
| `BookEntry.BookEntryForm.SetAuthor` | App.js:116-121 | only the author changes, to the typed text |
| `BookEntry.BookEntryForm.SelectGenre` | App.js:125-132 | only the genre changes, to the picked item, which is one of the listed genres |
| `BookEntry.BookEntryForm.SetPages` | App.js:137-143 | only the page count changes, to the typed text |
| `BookEntry.BookEntryForm.Submit` | App.js:69-98 | returns the first failing check with every field unchanged, or prepends exactly the new book and resets the form; the invariant is kept |
| `BookEntry.DecimalPagesAccepted` | App.js:78 | with the decimal stand-in `DecimalToNumber`, a run of digits with a non-zero digit is accepted as a page count |
| `BookEntry.DecimalZeroRejected` | App.js:78 | with the decimal stand-in `DecimalToNumber`, a run of zeros is refused |
| `BookEntry.DecimalNegativeRejected` | App.js:78 | with the decimal stand-in `DecimalToNumber`, a minus sign followed by digits is refused |
| `BookEntry.DecimalNonNumericRejected` | App.js:78 | with the decimal stand-in `DecimalToNumber`, a text holding a character that no JavaScript numeric literal contains (not a digit, sign, point, exponent or radix letter, hexadecimal digit or letter of "Infinity") is refused |
| `Session.RunPreservesInv` | App.js:63-141 | whatever sequence of typing, picking and submitting happens, the genre stays a listed one and every stored book stays well formed |
| `Session.SessionInv` | App.js:63-98 | from mounting on, every stored book is well formed and the genre is a listed one |
| `Session.EnterOne` | App.js:83-97 | filling in valid values and submitting gives exactly the new book in front of the old list, with the form cleared |
| `Session.EnterAll` | App.js:91 | entering valid books one after another puts them, newest first, in front of the books already there |
| `Session.NewestAt` | App.js:91 | position k of the newest-first list holds the book entered k places before the last |
| `Session.SessionNewestFirst` | App.js:67-91 | N valid submissions after mounting give exactly N books, the most recent at index 0 |

## Left out

- Rendering: the layout, the list renderer, the logo, the header bar and the stylesheet (App.js:8-16, 29-59, 100-174, 194-326). The hamburger icon (Hamburger.jsx) is also left out. None of these has state or logic.
- Navigation between the two screens (App.js:177-192). It is library wiring. Leaving the screen and coming back remounts it and discards the list; the model covers a single mount.
- The alerts themselves are not modelled. A failed submit returns an `Outcome`, and `AlertMessage` gives the text that outcome would show.
- The book id comes from `Date.now().toString()` in the source. Here it is a parameter. Two submits in the same millisecond get the same id, so the model does not claim ids are unique.
- The real JavaScript string-to-number conversion is a parameter of the model, `toNumber`. JavaScript also accepts fractions ("1.5"), exponents ("1e3"), hex, octal and binary literals ("0x1A") and "Infinity" as page counts. Every result about the form and the session holds for any conversion satisfying `IsStringToNumber`. The four `Decimal*` lemmas hold for the stand-in `DecimalToNumber` only, which covers only signed decimal integers.
- JsNumber.Num: keeps finite numbers as exact reals, so floating-point rounding is not modelled. For example, JavaScript turns "1e-400" into 0 and refuses it.
- React batches state updates and re-renders between events. The model applies each handler's updates at once, which gives the same state, since the handler reads no state after updating it.
- The code accepts any page-count text that converts to a positive number, such as "2.5", not only integers, and stores it trimmed. The model follows the code.
