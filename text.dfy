/**
 * The string operations the program takes from Python's `str`: `lower`, the
 * substring test `in`, `strip`, `split`, `endswith`, decimal formatting of
 * integers (f-strings) and the decimal subset of `int(...)`.
 */
module Text {
  import opened Wrappers

  // ---------------------------------------------------------------------------
  // Case mapping and substring search
  // ---------------------------------------------------------------------------

  /** ASCII lower-casing of one character. */
  function LowerChar(c: char): char {
    if 'A' <= c <= 'Z' then (c as int + 32) as char else c
  }

  /** `s.lower()` on ASCII letters; every other character is kept. */
  function Lower(s: string): (r: string)
    ensures |r| == |s|
    ensures forall i :: 0 <= i < |s| ==> r[i] == LowerChar(s[i])
  {
    seq(|s|, i requires 0 <= i < |s| => LowerChar(s[i]))
  }

  /** Python's `t in s` for strings: `t` occurs in `s` at some offset. */
  predicate Contains(s: string, t: string) {
    exists i :: 0 <= i <= |s| && t <= s[i..]
  }

  /** `s.endswith(suffix)`. */
  predicate EndsWith(s: string, suffix: string) {
    |suffix| <= |s| && s[|s| - |suffix|..] == suffix
  }

  // ---------------------------------------------------------------------------
  // Stripping whitespace
  // ---------------------------------------------------------------------------

  /** The ASCII characters `str.isspace` accepts: space, tab to carriage return, and
      the four information separators 0x1C to 0x1F. */
  predicate IsSpace(c: char) {
    c == ' ' || (9 <= c as int <= 13) || (28 <= c as int <= 31)
  }

  function StripLeft(s: string): (r: string)
    ensures |r| <= |s| && r == s[|s| - |r|..]
    ensures r == [] || !IsSpace(r[0])
    ensures forall i :: 0 <= i < |s| - |r| ==> IsSpace(s[i])
  {
    if s != [] && IsSpace(s[0]) then
      var r := StripLeft(s[1..]);
      assert s[1..][|s[1..]| - |r|..] == s[|s| - |r|..];
      r
    else s
  }

  function StripRight(s: string): (r: string)
    ensures |r| <= |s| && r == s[..|r|]
    ensures r == [] || !IsSpace(r[|r| - 1])
    ensures forall i :: |r| <= i < |s| ==> IsSpace(s[i])
  {
    if s != [] && IsSpace(s[|s| - 1]) then
      var r := StripRight(s[..|s| - 1]);
      assert s[..|s| - 1][..|r|] == s[..|r|];
      r
    else s
  }

  /** `s.strip()`: the middle of `s` with no leading or trailing whitespace. */
  function Strip(s: string): (r: string)
    ensures |r| <= |s|
    ensures r == [] || (!IsSpace(r[0]) && !IsSpace(r[|r| - 1]))
  {
    StripRight(StripLeft(s))
  }

  /** `strip` leaves exactly the strings with no whitespace at either end unchanged. */
  lemma {:induction false} StripUnchanged(s: string)
    ensures Strip(s) == s <==> (s == [] || (!IsSpace(s[0]) && !IsSpace(s[|s| - 1])))
  {
  }

  // ---------------------------------------------------------------------------
  // Splitting and joining on a separator
  // ---------------------------------------------------------------------------

  /** `s.split(sep)` for a one-character separator: always at least one piece, and an
      empty string splits into one empty piece. */
  function Split(s: string, sep: char): (r: seq<string>)
    ensures |r| >= 1
    ensures forall k :: 0 <= k < |r| ==> sep !in r[k]
  {
    if s == [] then [""]
    else
      var rest := Split(s[1..], sep);
      if s[0] == sep then [""] + rest
      else [[s[0]] + rest[0]] + rest[1..]
  }

  /** `sep.join(ts)`. */
  function Join(ts: seq<string>, sep: char): string {
    if ts == [] then ""
    else if |ts| == 1 then ts[0]
    else ts[0] + [sep] + Join(ts[1..], sep)
  }

  /** A piece with no separator followed by the separator splits off as one piece. */
  lemma {:induction false} SplitAfterPiece(t: string, rest: string, sep: char)
    requires sep !in t
    ensures Split(t + [sep] + rest, sep) == [t] + Split(rest, sep)
  {
    if t != [] {
      assert (t + [sep] + rest)[1..] == t[1..] + [sep] + rest;
      SplitAfterPiece(t[1..], rest, sep);
      assert [t[0]] + t[1..] == t;
    } else {
      assert (t + [sep] + rest)[1..] == rest;
    }
  }

  /** A string with no separator splits into itself. */
  lemma {:induction false} SplitWithoutSeparator(t: string, sep: char)
    requires sep !in t
    ensures Split(t, sep) == [t]
  {
    if t != [] {
      SplitWithoutSeparator(t[1..], sep);
      assert [t[0]] + t[1..] == t;
    }
  }

  /** A join of non-empty pieces starts with the first character of the first piece and
      ends with the last character of the last piece. */
  lemma {:induction false} JoinEnds(ts: seq<string>, sep: char)
    requires |ts| >= 1 && forall k :: 0 <= k < |ts| ==> ts[k] != []
    ensures Join(ts, sep) != []
    ensures Join(ts, sep)[0] == ts[0][0]
    ensures Join(ts, sep)[|Join(ts, sep)| - 1] == ts[|ts| - 1][|ts[|ts| - 1]| - 1]
  {
    if |ts| > 1 {
      JoinEnds(ts[1..], sep);
    }
  }

  /** Splitting undoes joining whenever no piece contains the separator. */
  lemma {:induction false} SplitJoin(ts: seq<string>, sep: char)
    requires |ts| >= 1
    requires forall k :: 0 <= k < |ts| ==> sep !in ts[k]
    ensures Split(Join(ts, sep), sep) == ts
  {
    if |ts| == 1 {
      SplitWithoutSeparator(ts[0], sep);
    } else {
      SplitAfterPiece(ts[0], Join(ts[1..], sep), sep);
      SplitJoin(ts[1..], sep);
      assert [ts[0]] + ts[1..] == ts;
    }
  }

  // ---------------------------------------------------------------------------
  // Decimal integers
  // ---------------------------------------------------------------------------

  predicate IsDigit(c: char) {
    '0' <= c <= '9'
  }

  predicate AllDigits(s: string) {
    forall i :: 0 <= i < |s| ==> IsDigit(s[i])
  }

  function DigitValue(c: char): nat
    requires IsDigit(c)
  {
    c as int - '0' as int
  }

  function DigitChar(d: nat): (c: char)
    requires d < 10
    ensures IsDigit(c) && DigitValue(c) == d
  {
    ('0' as int + d) as char
  }

  /** The value of a string of decimal digits, read most significant first. */
  function DigitsValue(s: string): nat
    requires AllDigits(s)
  {
    if s == [] then 0 else DigitsValue(s[..|s| - 1]) * 10 + DigitValue(s[|s| - 1])
  }

  /** The decimal digits of `n` with no leading zero, as an f-string prints them. */
  function NatToString(n: nat): (r: string)
    ensures r != [] && AllDigits(r)
    ensures DigitsValue(r) == n
  {
    if n < 10 then [DigitChar(n)]
    else
      var r := NatToString(n / 10) + [DigitChar(n % 10)];
      assert r[..|r| - 1] == NatToString(n / 10);
      r
  }

  /** `str(x)` for an integer: a minus sign before the digits of a negative value. */
  function IntToString(x: int): (r: string)
    ensures r != [] && IsDigit(r[|r| - 1])
    ensures forall i :: 0 <= i < |r| ==> r[i] == '-' || IsDigit(r[i])
  {
    if x < 0 then "-" + NatToString(-x) else NatToString(x)
  }

  /** `int(s)` restricted to an optional sign followed by one or more ASCII digits;
      anything else is the `ValueError` case, `None`. */
  function ParseInt(s: string): (r: Option<int>)
    ensures r.Some? <==> (AllDigits(s) && s != []) ||
                         (|s| >= 2 && (s[0] == '-' || s[0] == '+') && AllDigits(s[1..]))
  {
    if |s| >= 1 && (s[0] == '-' || s[0] == '+') then
      var ds := s[1..];
      if ds != [] && AllDigits(ds) then
        var v: int := DigitsValue(ds);
        Some(if s[0] == '-' then -v else v)
      else None
    else if s != [] && AllDigits(s) then Some(DigitsValue(s))
    else None
  }

  /** Parsing reads back every formatted integer. */
  lemma ParseIntToString(x: int)
    ensures ParseInt(IntToString(x)) == Some(x)
  {
    if x < 0 {
      assert IntToString(x)[1..] == NatToString(-x);
    } else {
      assert IntToString(x)[0] != '-' && IntToString(x)[0] != '+' by {
        assert IsDigit(NatToString(x)[0]);
      }
    }
  }
}
