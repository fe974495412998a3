/**
 * The few Java string operations the game relies on, with Java's own
 * semantics: String.trim, String.split(",") with its default limit,
 * Integer.parseInt and the decimal form of an int.
 */
module JavaText {
  import opened Optional

  // ---------------------------------------------------------------------
  // String.trim: drop every leading and trailing character up to U+0020.

  predicate IsBlank(ch: char) {
    ch <= ' '
  }

  function TrimStart(s: string): (r: string)
    ensures |r| <= |s| && r == s[|s| - |r|..]
    ensures forall i :: 0 <= i < |s| - |r| ==> IsBlank(s[i])
    ensures r == [] || !IsBlank(r[0])
  {
    if s != [] && IsBlank(s[0]) then TrimStart(s[1..]) else s
  }

  function TrimEnd(s: string): (r: string)
    ensures |r| <= |s| && r == s[..|r|]
    ensures forall i :: |r| <= i < |s| ==> IsBlank(s[i])
    ensures r == [] || !IsBlank(r[|r| - 1])
  {
    if s != [] && IsBlank(s[|s| - 1]) then TrimEnd(s[..|s| - 1]) else s
  }

  function Trim(s: string): (r: string)
    ensures |r| <= |s|
    ensures r == [] || (!IsBlank(r[0]) && !IsBlank(r[|r| - 1]))
  {
    TrimEnd(TrimStart(s))
  }

  /** A string with no blank at either end is its own trim. */
  lemma TrimUnchanged(s: string)
    requires s == [] || (!IsBlank(s[0]) && !IsBlank(s[|s| - 1]))
    ensures Trim(s) == s
  {
  }

  /** Blanks around a string with no blank at either end are trimmed away. */
  lemma TrimAround(before: string, s: string, after: string)
    requires forall i :: 0 <= i < |before| ==> IsBlank(before[i])
    requires forall i :: 0 <= i < |after| ==> IsBlank(after[i])
    requires s != [] && !IsBlank(s[0]) && !IsBlank(s[|s| - 1])
    ensures Trim(before + s + after) == s
  {
    TrimStartBlanks(before, s + after);
    assert before + s + after == before + (s + after);
    TrimEndBlanks(s, after);
  }

  lemma {:induction false} TrimStartBlanks(before: string, rest: string)
    requires forall i :: 0 <= i < |before| ==> IsBlank(before[i])
    requires rest != [] && !IsBlank(rest[0])
    ensures TrimStart(before + rest) == rest
  {
    var s := before + rest;
    if before != [] {
      assert IsBlank(s[0]) && s[1..] == before[1..] + rest;
      TrimStartBlanks(before[1..], rest);
    } else {
      assert s == rest;
    }
  }

  lemma {:induction false} TrimEndBlanks(s: string, after: string)
    requires forall i :: 0 <= i < |after| ==> IsBlank(after[i])
    requires s != [] && !IsBlank(s[|s| - 1])
    ensures TrimEnd(s + after) == s
  {
    if after != [] {
      var shorter := after[..|after| - 1];
      assert (s + after)[..|s + after| - 1] == s + shorter;
      TrimEndBlanks(s, shorter);
    } else {
      assert s + after == s;
    }
  }

  lemma TrimIdempotent(s: string)
    ensures Trim(Trim(s)) == Trim(s)
  {
    TrimUnchanged(Trim(s));
  }

  // ---------------------------------------------------------------------
  // String.split(",")

  /** The pieces joined back with commas between them. */
  function JoinCommas(pieces: seq<string>): string
    requires |pieces| >= 1
  {
    if |pieces| == 1 then pieces[0] else pieces[0] + [','] + JoinCommas(pieces[1..])
  }

  /** Every piece between commas, empty ones included. */
  function Pieces(s: string): (r: seq<string>)
    ensures |r| >= 1
    ensures forall i :: 0 <= i < |r| ==> ',' !in r[i]
    ensures JoinCommas(r) == s
  {
    if s == [] then [""]
    else
      var rest := Pieces(s[1..]);
      if s[0] == ',' then [""] + rest
      else
        assert JoinCommas([[s[0]] + rest[0]] + rest[1..]) == [s[0]] + JoinCommas(rest);
        [[s[0]] + rest[0]] + rest[1..]
  }

  /** Removes the trailing empty strings, as split does with limit 0. */
  function DropTrailingEmpty(pieces: seq<string>): (r: seq<string>)
    ensures |r| <= |pieces| && r == pieces[..|r|]
    ensures forall i :: |r| <= i < |pieces| ==> pieces[i] == ""
    ensures r == [] || r[|r| - 1] != ""
  {
    if pieces != [] && pieces[|pieces| - 1] == "" then DropTrailingEmpty(pieces[..|pieces| - 1])
    else pieces
  }

  /** Java's s.split(","): a string without a comma splits into itself
      (so "" gives [""]); otherwise the pieces, less the trailing empty
      ones (so "Bob,9500," gives two pieces and "Bob," one). */
  function Split(s: string): (r: seq<string>)
    ensures forall i :: 0 <= i < |r| ==> ',' !in r[i]
  {
    if ',' !in s then [s] else DropTrailingEmpty(Pieces(s))
  }

  lemma {:induction false} PiecesOfCommaFree(s: string)
    requires ',' !in s
    ensures Pieces(s) == [s]
  {
  }

  lemma {:induction false} PiecesAfter(a: string, t: string)
    requires ',' !in a
    ensures Pieces(a + [','] + t) == [a] + Pieces(t)
  {
    if a != [] {
      var s := a + [','] + t;
      assert s[0] == a[0] && s[1..] == a[1..] + [','] + t;
      PiecesAfter(a[1..], t);
      var rest := Pieces(s[1..]);
      assert rest[0] == a[1..] && rest[1..] == Pieces(t);
      assert [a[0]] + a[1..] == a;
    } else {
      assert (a + [','] + t)[1..] == t;
    }
  }

  /** A comma-free field after one more comma is one more piece. */
  lemma {:induction false} PiecesAppendField(s: string, field: string)
    requires ',' !in field
    ensures Pieces(s + [','] + field) == Pieces(s) + [field]
  {
    var t := s + [','] + field;
    if s == [] {
      assert t[1..] == field;
      PiecesOfCommaFree(field);
    } else {
      assert t[0] == s[0] && t[1..] == s[1..] + [','] + field;
      PiecesAppendField(s[1..], field);
    }
  }

  /** A string holding a comma has at least two pieces. */
  lemma {:induction false} PiecesOfComma(s: string)
    requires ',' in s
    ensures |Pieces(s)| >= 2
  {
    if s[0] != ',' {
      assert ',' in s[1..] by {
        var i :| 0 <= i < |s| && s[i] == ',';
        assert s[1..][i - 1] == ',';
      }
      PiecesOfComma(s[1..]);
    }
  }

  /** A comma-free, non-empty last field after a string that holds a comma:
      split keeps every piece, so there are at least three. */
  lemma SplitCommaThenField(s: string, field: string)
    requires ',' in s && ',' !in field && field != ""
    ensures |Split(s + [','] + field)| >= 3
  {
    PiecesAppendField(s, field);
    PiecesOfComma(s);
    assert (s + [','] + field)[|s|] == ',';
  }

  /** Two comma-free fields, the second non-empty, split back apart. */
  lemma SplitTwoFields(a: string, b: string)
    requires ',' !in a && ',' !in b && b != ""
    ensures Split(a + [','] + b) == [a, b]
  {
    PiecesAfter(a, b);
    PiecesOfCommaFree(b);
    assert (a + [','] + b)[|a|] == ',';
  }

  // ---------------------------------------------------------------------
  // Integer.parseInt and the decimal form of an int

  const IntMin: int := -0x8000_0000
  const IntMax: int := 0x7fff_ffff

  predicate IsDigit(ch: char) {
    '0' <= ch <= '9'
  }

  predicate AllDigits(s: string) {
    forall i :: 0 <= i < |s| ==> IsDigit(s[i])
  }

  function DigitValue(ch: char): nat
    requires IsDigit(ch)
  {
    ch as int - '0' as int
  }

  /** The value of a string of decimal digits, most significant first. */
  function DigitsValue(s: string): nat
    requires AllDigits(s)
  {
    if s == [] then 0
    else DigitsValue(s[..|s| - 1]) * 10 + DigitValue(s[|s| - 1])
  }

  /** Integer.parseInt(s): an optional '-' or '+', then at least one ASCII
      digit, and a value that fits in 32 bits; anything else is rejected. */
  function ParseInt(s: string): (r: Option<int>)
    ensures r.Some? ==> IntMin <= r.value <= IntMax
  {
    if s == [] then None
    else
      var signed := s[0] == '-' || s[0] == '+';
      var digits := if signed then s[1..] else s;
      if digits == [] || !AllDigits(digits) then None
      else
        var v: int := if s[0] == '-' then -(DigitsValue(digits) as int) else DigitsValue(digits);
        if IntMin <= v <= IntMax then Some(v) else None
  }

  function DigitChar(d: int): (ch: char)
    requires 0 <= d < 10
    ensures IsDigit(ch) && DigitValue(ch) == d
  {
    ('0' as int + d) as char
  }

  /** The decimal digits of a natural number, without leading zeros. */
  function NatDigits(x: nat): (r: string)
    ensures r != [] && AllDigits(r)
  {
    if x < 10 then [DigitChar(x)] else NatDigits(x / 10) + [DigitChar(x % 10)]
  }

  /** The decimal form of an int, as string concatenation writes it. */
  function IntToString(x: int): (r: string)
    ensures r != [] && ',' !in r
    ensures !IsBlank(r[0]) && !IsBlank(r[|r| - 1])
  {
    if x < 0 then "-" + NatDigits(-x) else NatDigits(x)
  }

  lemma {:induction false} NatDigitsValue(x: nat)
    ensures DigitsValue(NatDigits(x)) == x
  {
    if x >= 10 {
      NatDigitsValue(x / 10);
      var s := NatDigits(x);
      assert s[..|s| - 1] == NatDigits(x / 10);
    }
  }

  /** Parsing the decimal form of a 32-bit int gives the int back. */
  lemma ParseIntToString(x: int)
    requires IntMin <= x <= IntMax
    ensures ParseInt(IntToString(x)) == Some(x)
  {
    var s := IntToString(x);
    if x < 0 {
      var digits := NatDigits(-x);
      assert s[0] == '-' && s[1..] == digits;
      assert DigitsValue(digits) == -x by { NatDigitsValue(-x); }
    } else {
      assert s == NatDigits(x);
      assert IsDigit(s[0]);
      assert DigitsValue(s) == x by { NatDigitsValue(x); }
    }
  }
}
