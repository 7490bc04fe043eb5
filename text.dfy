/** The Python string primitives the bot relies on: `str.strip()` with no
    argument, `str.split(sep)` with a one-character separator, and the
    decimal-digit class used by `\d` and `int()`. */
module Text {

  /** Python's `str.isspace()`: exactly the characters `str.strip()` removes
      when it is called without an argument. */
  predicate IsSpace(c: char) {
    ('\t' <= c <= '\r')                  // TAB, LF, VT, FF, CR
    || ('\U{1C}' <= c <= '\U{1F}')       // the four ASCII information separators
    || c == ' '
    || c == '\U{85}' || c == '\U{A0}' || c == '\U{1680}'
    || ('\U{2000}' <= c <= '\U{200A}')
    || c == '\U{2028}' || c == '\U{2029}' || c == '\U{202F}' || c == '\U{205F}'
    || c == '\U{3000}'
  }

  /** A decimal digit, narrowed to ASCII `0`..`9`. */
  predicate IsDigit(c: char) {
    '0' <= c <= '9'
  }

  predicate AllSpace(s: string) {
    forall k :: 0 <= k < |s| ==> IsSpace(s[k])
  }

  predicate AllDigits(s: string) {
    forall k :: 0 <= k < |s| ==> IsDigit(s[k])
  }

  lemma AllSpaceConcat(a: string, b: string)
    requires AllSpace(a) && AllSpace(b)
    ensures AllSpace(a + b)
  {
    forall k | 0 <= k < |a + b| ensures IsSpace((a + b)[k]) {
      if k < |a| { assert (a + b)[k] == a[k]; } else { assert (a + b)[k] == b[k - |a|]; }
    }
  }

  /** Regrouping a concatenation, proved away from any other facts. */
  lemma ConcatAssoc(x: string, y: string, z: string)
    ensures x + y + z == x + (y + z)
  {
  }

  /** The three parts of a concatenation are its slices, proved away from any
      other facts. */
  lemma ConcatSlices(a: string, m: string, b: string)
    ensures (a + m + b)[..|a|] == a
    ensures (a + m + b)[|a|..|a| + |m|] == m
    ensures (a + m + b)[|a| + |m|..] == b
  {
  }

  /** A string is the concatenation of three consecutive slices of it. */
  lemma SlicesConcat(s: string, i: nat, j: nat)
    requires i <= j <= |s|
    ensures s[..i] + s[i..j] + s[j..] == s
  {
  }

  lemma DigitIsNotSpace(c: char)
    requires IsDigit(c)
    ensures !IsSpace(c)
  {
  }

  // ---------------------------------------------------------------- strip

  /** Number of whitespace characters at the front of `s`. */
  function LeadingSpaces(s: string): (n: nat)
    ensures n <= |s|
    ensures AllSpace(s[..n])
    ensures n < |s| ==> !IsSpace(s[n])
  {
    if s == [] || !IsSpace(s[0]) then 0
    else
      var n := LeadingSpaces(s[1..]);
      assert s[..n + 1] == [s[0]] + s[1..][..n];
      1 + n
  }

  /** Number of whitespace characters at the back of `s`. */
  function TrailingSpaces(s: string): (n: nat)
    ensures n <= |s|
    ensures AllSpace(s[|s| - n..])
    ensures n < |s| ==> !IsSpace(s[|s| - n - 1])
  {
    if s == [] || !IsSpace(s[|s| - 1]) then 0
    else
      var init := s[..|s| - 1];
      var n := TrailingSpaces(init);
      assert s[|s| - (n + 1)..] == init[|init| - n..] + [s[|s| - 1]];
      1 + n
  }

  /** Python's `s.strip()`: `s` without its leading and trailing whitespace. */
  function Strip(s: string): (r: string)
    ensures |r| <= |s|
    ensures r == [] || (!IsSpace(r[0]) && !IsSpace(r[|r| - 1]))
  {
    var i := LeadingSpaces(s);
    var t := s[i..];
    var j := TrailingSpaces(t);
    assert t != [] ==> j < |t| by {
      if t != [] {
        assert t[0] == s[i];
        TrailingSpacesBelow(t);
      }
    }
    t[..|t| - j]
  }

  /** A string that begins with a non-whitespace character is not all
      trailing whitespace. */
  lemma {:induction false} TrailingSpacesBelow(t: string)
    requires t != [] && !IsSpace(t[0])
    ensures TrailingSpaces(t) < |t|
  {
    if |t| > 1 && IsSpace(t[|t| - 1]) {
      var init := t[..|t| - 1];
      assert init[0] == t[0];
      TrailingSpacesBelow(init);
    }
  }

  /** Whitespace in front of a part that does not begin with whitespace is
      exactly what `LeadingSpaces` counts. */
  lemma {:induction false} LeadingSpacesOf(p: string, t: string)
    requires AllSpace(p)
    requires t == [] || !IsSpace(t[0])
    ensures LeadingSpaces(p + t) == |p|
  {
    if p != [] {
      assert (p + t)[0] == p[0];
      assert (p + t)[1..] == p[1..] + t;
      LeadingSpacesOf(p[1..], t);
    } else {
      assert p + t == t;
    }
  }

  /** Whitespace behind a part that does not end with whitespace is exactly
      what `TrailingSpaces` counts. */
  lemma {:induction false} TrailingSpacesOf(t: string, q: string)
    requires AllSpace(q)
    requires t == [] || !IsSpace(t[|t| - 1])
    ensures TrailingSpaces(t + q) == |q|
  {
    if q != [] {
      var s := t + q;
      assert s[|s| - 1] == q[|q| - 1];
      assert s[..|s| - 1] == t + q[..|q| - 1];
      TrailingSpacesOf(t, q[..|q| - 1]);
    } else {
      assert t + q == t;
    }
  }

  /** `Strip` is determined by its contract: whenever `s` is whitespace, then a
      middle part that neither begins nor ends with whitespace, then
      whitespace, `Strip` returns that middle part. */
  lemma StripUnique(p: string, m: string, q: string)
    requires AllSpace(p) && AllSpace(q)
    requires m == [] || (!IsSpace(m[0]) && !IsSpace(m[|m| - 1]))
    ensures Strip(p + m + q) == m
  {
    var s := p + m + q;
    if m == [] {
      var pq := p + q;
      assert s == pq + [];
      AllSpaceConcat(p, q);
      LeadingSpacesOf(pq, []);
      assert s[|s|..] == [];
    } else {
      assert s == p + (m + q);
      assert (m + q)[0] == m[0];
      LeadingSpacesOf(p, m + q);
      var t := s[|p|..];
      assert t == m + q;
      TrailingSpacesOf(m, q);
      assert t[..|t| - |q|] == m;
    }
  }

  /** `s` is the whitespace `Strip` removed in front, what it kept, and the
      whitespace it removed behind. */
  lemma StripParts(s: string) returns (a: string, b: string)
    ensures AllSpace(a) && AllSpace(b)
    ensures s == a + Strip(s) + b
  {
    var i := LeadingSpaces(s);
    assert s == s[..i] + s[i..];
    var t := s[i..];
    var j := TrailingSpaces(t);
    assert t == t[..|t| - j] + t[|t| - j..];
    a, b := s[..i], t[|t| - j..];
    var r := Strip(s);
    assert r == t[..|t| - j];
    ConcatAssoc(a, r, b);
  }

  /** Stripping twice strips nothing more. */
  lemma StripIdempotent(s: string)
    ensures Strip(Strip(s)) == Strip(s)
  {
    var r := Strip(s);
    StripUnique([], r, []);
    assert [] + r + [] == r;
  }

  // ---------------------------------------------------------------- split

  /** Inverse of `Split`: the pieces glued back together with `sep`. */
  function Join(pieces: seq<string>, sep: char): string
    requires |pieces| >= 1
  {
    if |pieces| == 1 then pieces[0]
    else pieces[0] + [sep] + Join(pieces[1..], sep)
  }

  /** Python's `s.split(sep)` for a one-character separator: always at least
      one piece, empty pieces kept (`"a::b"` gives `["a", "", "b"]`). */
  function Split(s: string, sep: char): (pieces: seq<string>)
    ensures |pieces| >= 1
    ensures forall k :: 0 <= k < |pieces| ==> sep !in pieces[k]
    ensures Join(pieces, sep) == s
  {
    if s == [] then [[]]
    else
      var rest := Split(s[1..], sep);
      if s[0] == sep then
        var pieces := [[]] + rest;
        assert pieces[1..] == rest;
        pieces
      else
        var pieces := [[s[0]] + rest[0]] + rest[1..];
        assert |rest| > 1 ==> pieces[1..] == rest[1..];
        assert s == [s[0]] + s[1..];
        pieces
  }

  /** Separating with `sep` a piece free of `sep` from the rest makes that
      piece the first one `Split` returns. */
  lemma {:induction false} SplitCons(p: string, rest: string, sep: char)
    requires sep !in p
    ensures Split(p + [sep] + rest, sep) == [p] + Split(rest, sep)
  {
    if p == [] {
      assert p + [sep] + rest == [sep] + rest;
    } else {
      assert (p + [sep] + rest)[1..] == p[1..] + [sep] + rest;
      SplitCons(p[1..], rest, sep);
      assert [p[0]] + p[1..] == p;
    }
  }

  /** `Split` undoes `Join` when no piece contains the separator. */
  lemma {:induction false} SplitJoin(pieces: seq<string>, sep: char)
    requires |pieces| >= 1
    requires forall k :: 0 <= k < |pieces| ==> sep !in pieces[k]
    ensures Split(Join(pieces, sep), sep) == pieces
  {
    if |pieces| == 1 {
      SplitNoSep(pieces[0], sep);
    } else {
      SplitJoin(pieces[1..], sep);
      SplitCons(pieces[0], Join(pieces[1..], sep), sep);
      assert [pieces[0]] + pieces[1..] == pieces;
    }
  }

  /** A string without the separator splits into itself alone. */
  lemma {:induction false} SplitNoSep(s: string, sep: char)
    requires sep !in s
    ensures Split(s, sep) == [s]
  {
    if s != [] {
      assert s == [s[0]] + s[1..];
      SplitNoSep(s[1..], sep);
    }
  }

  /** Number of occurrences of `c` in `s`. */
  function Count(s: string, c: char): nat {
    if s == [] then 0 else (if s[0] == c then 1 else 0) + Count(s[1..], c)
  }

  /** `Split` returns one piece more than there are separators. */
  lemma {:induction false} SplitLength(s: string, sep: char)
    ensures |Split(s, sep)| == Count(s, sep) + 1
  {
    if s != [] {
      SplitLength(s[1..], sep);
    }
  }
}
