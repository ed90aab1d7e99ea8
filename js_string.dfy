/** JavaScript's `String.prototype.trim`, the only string operation the
    book-entry form relies on: it removes every leading and trailing
    WhiteSpace or LineTerminator code point (sections 12.2 and 12.3 of
    ECMA-262). */
module JsString {

  /** WhiteSpace (tab, vertical tab, form feed, space, no-break space, byte
      order mark and the other "Zs" space separators) and LineTerminator
      (line feed, carriage return, line and paragraph separators). */
  predicate IsWhitespace(c: char)
  {
    var k := c as int;
    k == 0x09 || k == 0x0A || k == 0x0B || k == 0x0C || k == 0x0D ||
    k == 0x20 || k == 0xA0 || k == 0x1680 || (0x2000 <= k <= 0x200A) ||
    k == 0x2028 || k == 0x2029 || k == 0x202F || k == 0x205F ||
    k == 0x3000 || k == 0xFEFF
  }

  predicate AllWhitespace(s: string)
  {
    forall k :: 0 <= k < |s| ==> IsWhitespace(s[k])
  }

  /** `s[i..j]` is what trimming leaves of `s`: only whitespace lies outside
      it, and when it is not empty it starts and ends with a non-whitespace
      character. This is the reference definition `Trim` is proved against. */
  predicate TrimmedAt(s: string, i: int, j: int)
  {
    0 <= i <= j <= |s| &&
    (forall k :: 0 <= k < i ==> IsWhitespace(s[k])) &&
    (forall k :: j <= k < |s| ==> IsWhitespace(s[k])) &&
    (i < j ==> !IsWhitespace(s[i]) && !IsWhitespace(s[j - 1]))
  }

  /** Drops leading whitespace. */
  function TrimStart(s: string): (r: string)
    ensures |r| <= |s|
  {
    if s != [] && IsWhitespace(s[0]) then TrimStart(s[1..]) else s
  }

  /** Drops trailing whitespace. */
  function TrimEnd(s: string): (r: string)
    ensures |r| <= |s|
  {
    if s != [] && IsWhitespace(s[|s| - 1]) then TrimEnd(s[..|s| - 1]) else s
  }

  /** `TrimStart` removes a prefix of whitespace and stops at the first
      non-whitespace character. */
  lemma {:induction false} TrimStartSpec(s: string)
    ensures TrimStart(s) == s[|s| - |TrimStart(s)|..]
    ensures forall k :: 0 <= k < |s| - |TrimStart(s)| ==> IsWhitespace(s[k])
    ensures TrimStart(s) == [] || !IsWhitespace(TrimStart(s)[0])
  {
    if s != [] && IsWhitespace(s[0]) {
      TrimStartSpec(s[1..]);
      assert s[1..][|s| - 1 - |TrimStart(s)|..] == s[|s| - |TrimStart(s)|..];
      forall k | 0 <= k < |s| - |TrimStart(s)|
        ensures IsWhitespace(s[k])
      {
        if k > 0 { assert s[k] == s[1..][k - 1]; }
      }
    }
  }

  /** `TrimEnd` removes a suffix of whitespace and stops at the last
      non-whitespace character. */
  lemma {:induction false} TrimEndSpec(s: string)
    ensures TrimEnd(s) == s[..|TrimEnd(s)|]
    ensures forall k :: |TrimEnd(s)| <= k < |s| ==> IsWhitespace(s[k])
    ensures TrimEnd(s) == [] || !IsWhitespace(TrimEnd(s)[|TrimEnd(s)| - 1])
  {
    if s != [] && IsWhitespace(s[|s| - 1]) {
      var p := s[..|s| - 1];
      TrimEndSpec(p);
      assert p[..|TrimEnd(s)|] == s[..|TrimEnd(s)|];
      forall k | |TrimEnd(s)| <= k < |s|
        ensures IsWhitespace(s[k])
      {
        if k < |s| - 1 { assert s[k] == p[k]; }
      }
    }
  }

  /** How many whitespace characters `s` starts with. */
  function TrimOffset(s: string): (n: nat)
  {
    |s| - |TrimStart(s)|
  }

  /** `s.trim()`. */
  function Trim(s: string): (r: string)
    ensures |r| <= |s|
    ensures r == [] || (!IsWhitespace(r[0]) && !IsWhitespace(r[|r| - 1]))
  {
    TrimStartSpec(s);
    TrimEndSpec(TrimStart(s));
    TrimEnd(TrimStart(s))
  }

  /** What `trim` leaves is the slice starting after the leading whitespace,
      and it meets the reference definition. */
  lemma TrimSpec(s: string)
    ensures TrimmedAt(s, TrimOffset(s), TrimOffset(s) + |Trim(s)|)
    ensures Trim(s) == s[TrimOffset(s)..TrimOffset(s) + |Trim(s)|]
  {
    var t := TrimStart(s);
    TrimStartSpec(s);
    TrimEndSpec(t);
    var r := Trim(s);
    var i := |s| - |t|;
    assert r == s[i..i + |r|];
    forall k | i + |r| <= k < |s|
      ensures IsWhitespace(s[k])
    {
      assert s[k] == t[k - i];
    }
  }

  /** Trimming has exactly one possible result: any slice that satisfies the
      reference definition is the one `Trim` returns. */
  lemma {:induction false} TrimUnique(s: string, i: int, j: int)
    requires TrimmedAt(s, i, j)
    ensures Trim(s) == s[i..j]
  {
    var t := Trim(s);
    TrimSpec(s);
    var i', j' := TrimOffset(s), TrimOffset(s) + |t|;
    if i < j {
      // The first and last non-whitespace characters fix both ends.
      if i < i' { assert false; }
      if i' < i { assert false; }
      if j < j' { assert false; }
      if j' < j { assert false; }
    } else if i' < j' {
      // s[i'] is not whitespace, yet every character lies outside s[i..i].
      assert false;
    }
  }

  /** A string with no whitespace at either end is left as it is. */
  lemma TrimIdentity(s: string)
    requires s == [] || (!IsWhitespace(s[0]) && !IsWhitespace(s[|s| - 1]))
    ensures Trim(s) == s
  {
    assert s[0..|s|] == s;
    TrimUnique(s, 0, |s|);
  }

  lemma TrimIdempotent(s: string)
    ensures Trim(Trim(s)) == Trim(s)
  {
    TrimSpec(s);
    TrimIdentity(Trim(s));
  }

  /** Every all-whitespace text trims to the empty text. */
  lemma AllWhitespaceTrimsEmpty()
    ensures forall s :: AllWhitespace(s) ==> Trim(s) == []
  {
    forall s | AllWhitespace(s)
      ensures Trim(s) == []
    {
      TrimUnique(s, 0, 0);
    }
  }

  /** A text is blank (`!s.trim()` holds) exactly when all of it is whitespace. */
  lemma BlankIffAllWhitespace(s: string)
    ensures Trim(s) == [] <==> AllWhitespace(s)
  {
    if AllWhitespace(s) {
      TrimUnique(s, 0, 0);
    } else {
      var k :| 0 <= k < |s| && !IsWhitespace(s[k]);
      var t := Trim(s);
      TrimSpec(s);
      if t == [] {
        // s[k] is not whitespace, yet it lies outside the empty slice.
        assert false;
      }
    }
  }
}
