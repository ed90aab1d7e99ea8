/** The book-entry screen over a whole session: a sequence of user events
    (typing, picking a genre, pressing submit) applied to the form's state
    from the moment it mounts. */
module Session {
  import opened JsNumber
  import opened BookEntry

  /** The picker only ever reports one of its own items. */
  predicate FromPicker(events: seq<Event>)
  {
    forall k :: 0 <= k < |events| && events[k].GenrePicked? ==> events[k].item in Genres
  }

  function Run(s: FormState, events: seq<Event>, toNumber: string -> Num): FormState
    decreases events
  {
    if events == [] then s else Run(Step(s, events[0], toNumber), events[1..], toNumber)
  }

  lemma {:induction false} RunAppend(s: FormState, a: seq<Event>, b: seq<Event>, toNumber: string -> Num)
    ensures Run(s, a + b, toNumber) == Run(Run(s, a, toNumber), b, toNumber)
    decreases a
  {
    if a != [] {
      assert (a + b)[0] == a[0] && (a + b)[1..] == a[1..] + b;
      RunAppend(Step(s, a[0], toNumber), a[1..], b, toNumber);
    } else {
      assert a + b == b;
    }
  }

  /** Whatever the user does, the picker shows a listed genre and every
      stored book stays well formed. */
  lemma {:induction false} RunPreservesInv(s: FormState, events: seq<Event>, toNumber: string -> Num)
    requires Inv(s, toNumber) && IsStringToNumber(toNumber) && FromPicker(events)
    ensures Inv(Run(s, events, toNumber), toNumber)
    decreases events
  {
    if events != [] {
      var e := events[0];
      if e.SubmitPressed? {
        SubmitPreservesInv(s, e.freshId, toNumber);
      }
      assert FromPicker(events[1..]) by {
        forall k | 0 <= k < |events[1..]| && events[1..][k].GenrePicked?
          ensures events[1..][k].item in Genres
        {
          assert events[1..][k] == events[k + 1];
        }
      }
      RunPreservesInv(Step(s, e, toNumber), events[1..], toNumber);
    }
  }

  /** From mounting on, the stored books are always well formed. */
  lemma SessionInv(events: seq<Event>, toNumber: string -> Num)
    requires IsStringToNumber(toNumber) && FromPicker(events)
    ensures Run(Initial(), events, toNumber).genre in Genres
    ensures forall b :: b in Run(Initial(), events, toNumber).books ==> WellFormed(b, toNumber)
  {
    RunPreservesInv(Initial(), events, toNumber);
  }

  /** One book as the user fills it in. */
  datatype Entry = Entry(title: string, author: string, genre: string, pages: string, freshId: string)

  /** Fill in every field of the form, then press submit. */
  function Typed(e: Entry): seq<Event>
  {
    [TitleChanged(e.title), AuthorChanged(e.author), GenrePicked(e.genre), PagesChanged(e.pages),
     SubmitPressed(e.freshId)]
  }

  function TypedAll(entries: seq<Entry>): seq<Event>
  {
    if entries == [] then [] else Typed(entries[0]) + TypedAll(entries[1..])
  }

  predicate ValidEntry(e: Entry, toNumber: string -> Num)
  {
    e.genre in Genres && Validate(e.title, e.author, e.pages, toNumber) == Ok
  }

  function BookOf(e: Entry): Book
  {
    NewBook(e.freshId, e.title, e.author, e.genre, e.pages)
  }

  /** The books of `entries`, last entered first. */
  function Newest(entries: seq<Entry>): (r: seq<Book>)
    ensures |r| == |entries|
  {
    if entries == [] then [] else Newest(entries[1..]) + [BookOf(entries[0])]
  }

  lemma {:induction false} NewestAt(entries: seq<Entry>, k: nat)
    requires k < |entries|
    ensures Newest(entries)[k] == BookOf(entries[|entries| - 1 - k])
    decreases entries
  {
    var rest := entries[1..];
    if k < |rest| {
      NewestAt(rest, k);
      assert rest[|rest| - 1 - k] == entries[|entries| - 1 - k];
    }
  }

  /** Filling in the four fields overwrites them, whatever they held. */
  lemma FillFields(s: FormState, e: Entry, toNumber: string -> Num)
    ensures Run(s, Typed(e)[..4], toNumber)
         == s.(title := e.title, author := e.author, genre := e.genre, pages := e.pages)
  {
    var ev := Typed(e)[..4];
    var s1 := s.(title := e.title);
    var s2 := s1.(author := e.author);
    var s3 := s2.(genre := e.genre);
    var s4 := s3.(pages := e.pages);
    assert Run(s3, ev[3..], toNumber) == s4 by { assert ev[3..][1..] == []; }
    assert Run(s2, ev[2..], toNumber) == s4 by { assert ev[2..][1..] == ev[3..]; }
    assert Run(s1, ev[1..], toNumber) == s4 by { assert ev[1..][1..] == ev[2..]; }
  }

  /** Entering one valid book prepends it and clears the form. */
  lemma EnterOne(s: FormState, e: Entry, toNumber: string -> Num)
    requires ValidEntry(e, toNumber)
    ensures Run(s, Typed(e), toNumber)
         == FormState("", "", Genres[0], "", [BookOf(e)] + s.books)
  {
    var ev := Typed(e);
    assert ev == ev[..4] + [SubmitPressed(e.freshId)];
    RunAppend(s, ev[..4], [SubmitPressed(e.freshId)], toNumber);
    FillFields(s, e, toNumber);
  }

  /** Entering valid books one after another, from any state, puts them in
      front of the books already there, newest first. */
  lemma {:induction false} EnterAll(s: FormState, entries: seq<Entry>, toNumber: string -> Num)
    requires forall k :: 0 <= k < |entries| ==> ValidEntry(entries[k], toNumber)
    ensures Run(s, TypedAll(entries), toNumber).books == Newest(entries) + s.books
    decreases entries
  {
    if entries != [] {
      var e, rest := entries[0], entries[1..];
      assert TypedAll(entries) == Typed(e) + TypedAll(rest);
      RunAppend(s, Typed(e), TypedAll(rest), toNumber);
      EnterOne(s, e, toNumber);
      var s' := Run(s, Typed(e), toNumber);
      assert forall k :: 0 <= k < |rest| ==> ValidEntry(rest[k], toNumber) by {
        forall k | 0 <= k < |rest| ensures ValidEntry(rest[k], toNumber) {
          assert rest[k] == entries[k + 1];
        }
      }
      EnterAll(s', rest, toNumber);
      assert (Newest(rest) + [BookOf(e)]) + s.books == Newest(rest) + ([BookOf(e)] + s.books);
    }
  }

  /** N valid submissions after mounting give N books, the latest at the
      front. */
  lemma SessionNewestFirst(entries: seq<Entry>, toNumber: string -> Num)
    requires forall k :: 0 <= k < |entries| ==> ValidEntry(entries[k], toNumber)
    ensures |Run(Initial(), TypedAll(entries), toNumber).books| == |entries|
    ensures forall k :: 0 <= k < |entries| ==>
      Run(Initial(), TypedAll(entries), toNumber).books[k] == BookOf(entries[|entries| - 1 - k])
  {
    EnterAll(Initial(), entries, toNumber);
    forall k | 0 <= k < |entries|
      ensures Run(Initial(), TypedAll(entries), toNumber).books[k] == BookOf(entries[|entries| - 1 - k])
    {
      NewestAt(entries, k);
    }
  }
}
