/** String helpers with the semantics of the Python built-ins the program
    relies on: `str(n)` for a non-negative integer, `str.lower()`,
    `str.endswith(...)` and `str.split(',')`. Strings are sequences of
    characters. */
module Text {
  import opened Wrappers

  // ---------------------------------------------------------------------
  // Decimal rendering of a natural number, as `str(n)` / `f"{n}"` does.
  // ---------------------------------------------------------------------

  predicate IsDigit(c: char) {
    '0' <= c <= '9'
  }

  predicate AllDigits(s: string) {
    forall i :: 0 <= i < |s| ==> IsDigit(s[i])
  }

  function DigitChar(d: nat): (c: char)
    requires d < 10
    ensures IsDigit(c) && (c as int) - ('0' as int) == d
  {
    ('0' as int + d) as char
  }

  function DigitValue(c: char): (d: nat)
    requires IsDigit(c)
    ensures d < 10 && DigitChar(d) == c
  {
    (c as int) - ('0' as int)
  }

  /** The shortest decimal numeral of `n`: never empty, only digits, and no
      leading zero unless the numeral is "0" itself. */
  function NatToString(n: nat): (s: string)
    ensures 1 <= |s| && AllDigits(s)
    ensures |s| > 1 ==> s[0] != '0'
    ensures n < 10 <==> |s| == 1
  {
    if n < 10 then [DigitChar(n)]
    else NatToString(n / 10) + [DigitChar(n % 10)]
  }

  /** The value of a numeral read as base ten. */
  function ParseDecimal(s: string): nat
    requires AllDigits(s)
  {
    if s == [] then 0
    else 10 * ParseDecimal(s[..|s| - 1]) + DigitValue(s[|s| - 1])
  }

  /** Reading back a rendered numeral gives the number: `int(str(n)) == n`. */
  lemma {:induction false} ParseNatToString(n: nat)
    ensures ParseDecimal(NatToString(n)) == n
  {
    var s := NatToString(n);
    if n >= 10 {
      ParseNatToString(n / 10);
      assert s[..|s| - 1] == NatToString(n / 10);
    }
  }

  /** Distinct numbers are rendered as distinct numerals. */
  lemma NatToStringInjective(a: nat, b: nat)
    requires a != b
    ensures NatToString(a) != NatToString(b)
  {
    if NatToString(a) == NatToString(b) {
      ParseNatToString(a);
      ParseNatToString(b);
    }
  }

  /** `str(n)` for any integer: a minus sign in front of the numeral of a
      negative number. */
  function IntToString(n: int): string {
    if n < 0 then "-" + NatToString(-n) else NatToString(n)
  }

  /** `int(s)` on an optional sign followed by at least one decimal digit;
      anything else is rejected, as `int` raises `ValueError` for it. */
  function ParseInt(s: string): (r: Option<int>)
    ensures r.Some? <==> (s != [] && (s[0] == '-' || s[0] == '+' || IsDigit(s[0])) && AllDigits(s[1..])
                          && !(|s| == 1 && (s[0] == '-' || s[0] == '+')))
  {
    if s == [] then None
    else if s[0] == '-' || s[0] == '+' then
      if |s| > 1 && AllDigits(s[1..]) then
        var magnitude: int := ParseDecimal(s[1..]);
        Some(if s[0] == '-' then -magnitude else magnitude)
      else None
    else if AllDigits(s) then Some(ParseDecimal(s))
    else None
  }

  /** Reading back the rendering of any integer gives the integer:
      `int(str(n)) == n`. */
  lemma ParseIntToString(n: int)
    ensures ParseInt(IntToString(n)) == Some(n)
  {
    if n < 0 {
      var d := NatToString(-n);
      var s := "-" + d;
      ParseNatToString(-n);
      assert s[0] == '-' && s[1..] == d;
      assert ParseInt(s) == Some(-(ParseDecimal(d) as int));
    } else {
      var d := NatToString(n);
      ParseNatToString(n);
      assert d[0] != '-' && d[0] != '+';
      assert ParseInt(d) == Some(ParseDecimal(d));
    }
  }

  // ---------------------------------------------------------------------
  // `str.lower()` on the ASCII range.
  // ---------------------------------------------------------------------

  predicate IsUpper(c: char) {
    'A' <= c <= 'Z'
  }

  function LowerChar(c: char): (l: char)
    ensures !IsUpper(l)
    ensures IsUpper(c) ==> (l as int) == (c as int) + 32
    ensures !IsUpper(c) ==> l == c
  {
    if IsUpper(c) then ((c as int) + 32) as char else c
  }

  /** The string with every ASCII capital letter replaced by its small
      letter; every other character is kept. */
  function Lower(s: string): (r: string)
    ensures |r| == |s|
    ensures forall i :: 0 <= i < |s| ==> r[i] == LowerChar(s[i])
  {
    seq(|s|, i requires 0 <= i < |s| => LowerChar(s[i]))
  }

  // ---------------------------------------------------------------------
  // `str.endswith(suffix)` and `str.endswith(tuple_of_suffixes)`.
  // ---------------------------------------------------------------------

  predicate EndsWith(s: string, suffix: string) {
    |suffix| <= |s| && s[|s| - |suffix|..] == suffix
  }

  /** True iff `s` ends with at least one of `suffixes`; an empty tuple of
      suffixes matches nothing. */
  predicate EndsWithAny(s: string, suffixes: seq<string>) {
    exists k :: 0 <= k < |suffixes| && EndsWith(s, suffixes[k])
  }

  /** A suffix holding an upper-case letter never ends a lowered string. */
  lemma UpperSuffixNeverEndsLowered(s: string, suffix: string, i: nat)
    requires i < |suffix| && IsUpper(suffix[i])
    ensures !EndsWith(Lower(s), suffix)
  {
    var l := Lower(s);
    if |suffix| <= |l| {
      assert l[|l| - |suffix|..][i] == l[|l| - |suffix| + i];
      assert l[|l| - |suffix|..][i] != suffix[i];
    }
  }

  // ---------------------------------------------------------------------
  // `str.split(',')` and its inverse `','.join(...)`.
  // ---------------------------------------------------------------------

  /** The pieces of `s` between its commas, as `s.split(',')` gives them;
      there is always at least one. */
  function SplitCommas(s: string): (parts: seq<string>)
    ensures |parts| >= 1
  {
    if s == [] then [""]
    else if s[0] == ',' then [""] + SplitCommas(s[1..])
    else
      var rest := SplitCommas(s[1..]);
      [[s[0]] + rest[0]] + rest[1..]
  }

  /** No piece holds a comma, and there is one more piece than there are
      commas. */
  lemma {:induction false} SplitCommasSpec(s: string)
    ensures forall k :: 0 <= k < |SplitCommas(s)| ==> ',' !in SplitCommas(s)[k]
    ensures |SplitCommas(s)| == CountCommas(s) + 1
  {
    if s != [] {
      SplitCommasSpec(s[1..]);
      var rest := SplitCommas(s[1..]);
      if s[0] != ',' {
        var parts := SplitCommas(s);
        assert parts[0] == [s[0]] + rest[0];
        assert forall k :: 1 <= k < |parts| ==> parts[k] == rest[k];
      }
    }
  }

  function CountCommas(s: string): nat {
    if s == [] then 0 else (if s[0] == ',' then 1 else 0) + CountCommas(s[1..])
  }

  /** `','.join(parts)`. */
  function JoinCommas(parts: seq<string>): string
    requires |parts| >= 1
  {
    if |parts| == 1 then parts[0] else parts[0] + "," + JoinCommas(parts[1..])
  }

  /** Joining the pieces again gives back the original string. */
  lemma {:induction false} JoinSplitCommas(s: string)
    ensures JoinCommas(SplitCommas(s)) == s
  {
    if s != [] {
      JoinSplitCommas(s[1..]);
      var rest := SplitCommas(s[1..]);
      if s[0] == ',' {
        assert SplitCommas(s)[1..] == rest;
      } else {
        var parts := SplitCommas(s);
        if |rest| == 1 {
          assert parts == [[s[0]] + rest[0]];
        } else {
          assert parts[1..] == rest[1..];
          assert JoinCommas(rest) == rest[0] + "," + JoinCommas(rest[1..]);
        }
      }
    }
  }

  /** Splitting a comma-joined list of comma-free pieces gives the pieces
      back. */
  lemma {:induction false} SplitJoinCommas(parts: seq<string>)
    requires |parts| >= 1
    requires forall k :: 0 <= k < |parts| ==> ',' !in parts[k]
    ensures SplitCommas(JoinCommas(parts)) == parts
  {
    if |parts| == 1 {
      SplitNoComma(parts[0]);
    } else {
      SplitJoinCommas(parts[1..]);
      SplitPrefix(parts[0], JoinCommas(parts[1..]));
      assert parts == [parts[0]] + parts[1..];
    }
  }

  /** A string with no comma is a single piece. */
  lemma {:induction false} SplitNoComma(s: string)
    requires ',' !in s
    ensures SplitCommas(s) == [s]
  {
    if s != [] {
      SplitNoComma(s[1..]);
      assert [s[0]] + s[1..] == s;
    }
  }

  /** A comma-free head followed by a comma starts a new piece. */
  lemma {:induction false} SplitPrefix(head: string, tail: string)
    requires ',' !in head
    ensures SplitCommas(head + "," + tail) == [head] + SplitCommas(tail)
  {
    if head == [] {
      assert head + "," + tail == [','] + tail;
      assert ([','] + tail)[1..] == tail;
    } else {
      var s := head + "," + tail;
      assert s[0] == head[0];
      assert s[1..] == head[1..] + "," + tail;
      SplitPrefix(head[1..], tail);
      assert [head[0]] + head[1..] == head;
    }
  }
}
