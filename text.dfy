/**
 * The string operations of the JavaScript runtime that the library relies on:
 * decimal text of numbers (`String(n)`, `padStart`), `parseInt`, `split` on a
 * character class, `indexOf`/`includes` and `join`.
 * Strings are `seq<char>`, one `char` per Unicode scalar value; JavaScript counts
 * UTF-16 code units, and the two agree inside the Basic Multilingual Plane.
 */
module Text {
  import opened Wrappers

  predicate IsDigit(c: char) { '0' <= c <= '9' }

  predicate AllDigits(s: string) { forall i :: 0 <= i < |s| ==> IsDigit(s[i]) }

  function DigitChar(d: nat): (c: char)
    requires d < 10
    ensures IsDigit(c)
  {
    ('0' as int + d) as char
  }

  function DigitValue(c: char): (d: nat)
    requires IsDigit(c)
    ensures d < 10 && DigitChar(d) == c
  {
    c as int - '0' as int
  }

  /** `String(n)` for a non-negative integer: decimal digits, no leading zero. */
  function NatToText(n: nat): (s: string)
    ensures 1 <= |s| && AllDigits(s)
    ensures |s| == 1 <==> n < 10
    ensures |s| > 1 ==> s[0] != '0'
  {
    if n < 10 then [DigitChar(n)] else NatToText(n / 10) + [DigitChar(n % 10)]
  }

  /** `String(i)` for any integer: a minus sign before the digits of a negative number. */
  function IntToText(i: int): (s: string)
    ensures i >= 0 ==> s == NatToText(i)
    ensures i < 0 ==> s == "-" + NatToText(-i)
  {
    if i < 0 then "-" + NatToText(-i) else NatToText(i)
  }

  /** `String(n).padStart(2, '0')`. */
  function Pad2(n: nat): (s: string)
    ensures 2 <= |s| && AllDigits(s)
    ensures n < 10 ==> s == "0" + NatToText(n)
    ensures n >= 10 ==> s == NatToText(n)
  {
    var t := NatToText(n);
    if |t| < 2 then "0" + t else t
  }

  /**
   * The value of a run of decimal digits (the empty run is 0). It is only applied
   * to digit runs; any other character would count as 0.
   */
  function DigitsValue(s: string): nat
  {
    if s == [] then 0
    else DigitsValue(s[..|s| - 1]) * 10 + (if IsDigit(s[|s| - 1]) then DigitValue(s[|s| - 1]) else 0)
  }

  lemma {:induction false} DigitsValueOfNatToText(n: nat)
    ensures DigitsValue(NatToText(n)) == n
  {
    if n >= 10 {
      var t := NatToText(n);
      assert t[..|t| - 1] == NatToText(n / 10);
      DigitsValueOfNatToText(n / 10);
    }
  }

  lemma {:induction false} DigitsValueLeadingZero(s: string)
    requires AllDigits(s)
    ensures DigitsValue("0" + s) == DigitsValue(s)
  {
    if s != [] {
      var z := "0" + s;
      assert z[..|z| - 1] == "0" + s[..|s| - 1];
      DigitsValueLeadingZero(s[..|s| - 1]);
    }
  }

  lemma Pad2Value(n: nat)
    ensures DigitsValue(Pad2(n)) == n
  {
    DigitsValueOfNatToText(n);
    if n < 10 {
      DigitsValueLeadingZero(NatToText(n));
    }
  }

  /** WhiteSpace and LineTerminator code points, which `parseInt` skips at the front. */
  predicate IsJsWhiteSpace(c: char) {
    c == '\t' || c == '\n' || c == '\U{B}' || c == '\U{C}' || c == '\r' || c == ' '
    || c == '\U{A0}' || c == '\U{1680}' || ('\U{2000}' <= c <= '\U{200A}')
    || c == '\U{2028}' || c == '\U{2029}' || c == '\U{202F}' || c == '\U{205F}'
    || c == '\U{3000}' || c == '\U{FEFF}'
  }

  /** `trimStart`: white space is dropped from the front. */
  function TrimStart(s: string): (t: string)
    ensures |t| <= |s|
  {
    if s != [] && IsJsWhiteSpace(s[0]) then TrimStart(s[1..]) else s
  }

  /**
   * What `TrimStart` keeps is a suffix that does not start with white space, and
   * what it drops is white space only.
   */
  lemma {:induction false} TrimStartSkipsWhiteSpace(s: string)
    ensures TrimStart(s) == s[|s| - |TrimStart(s)|..]
    ensures TrimStart(s) == [] || !IsJsWhiteSpace(TrimStart(s)[0])
    ensures forall i :: 0 <= i < |s| - |TrimStart(s)| ==> IsJsWhiteSpace(s[i])
  {
    if s != [] && IsJsWhiteSpace(s[0]) {
      TrimStartSkipsWhiteSpace(s[1..]);
      assert s[1..][|s| - 1 - |TrimStart(s)|..] == s[|s| - |TrimStart(s)|..];
    }
  }

  /** Length of the prefix of `s` made of decimal digits. */
  function DigitRun(s: string): (k: nat)
    ensures k <= |s|
  {
    if s == [] || !IsDigit(s[0]) then 0 else 1 + DigitRun(s[1..])
  }

  /** `DigitRun` is the longest run of digits at the front. */
  lemma {:induction false} DigitRunIsLongest(s: string)
    ensures AllDigits(s[..DigitRun(s)])
    ensures DigitRun(s) < |s| ==> !IsDigit(s[DigitRun(s)])
  {
    if s != [] && IsDigit(s[0]) {
      DigitRunIsLongest(s[1..]);
      assert s[..DigitRun(s)] == [s[0]] + s[1..][..DigitRun(s[1..])];
    }
  }

  /**
   * `parseInt(s, 10)`: leading white space is skipped, one sign is read, then the
   * longest run of digits; `None` is `NaN` (no digit at that point).
   * Whatever follows the digits is ignored.
   */
  function ParseInt(s: string): Option<int>
  {
    var t := TrimStart(s);
    var negative := t != [] && t[0] == '-';
    var u := if t != [] && (t[0] == '-' || t[0] == '+') then t[1..] else t;
    var k := DigitRun(u);
    var magnitude: int := DigitsValue(u[..k]);
    if k == 0 then None
    else if negative then Some(-magnitude)
    else Some(magnitude)
  }

  lemma ParseIntOfDigits(digits: string, rest: string)
    requires digits != [] && AllDigits(digits)
    requires rest == [] || !IsDigit(rest[0])
    ensures ParseInt(digits + rest) == Some(DigitsValue(digits))
  {
    var s := digits + rest;
    TrimStartOfDigits(digits, rest);
    DigitRunOfDigits(digits, rest);
    assert s[..|digits|] == digits;
  }

  lemma TrimStartOfDigits(digits: string, rest: string)
    requires digits != [] && AllDigits(digits)
    ensures TrimStart(digits + rest) == digits + rest
  {
    assert (digits + rest)[0] == digits[0];
  }

  /** A non-empty run of digits, on its own, parses as its decimal value. */
  lemma ParseIntOfRun(s: string)
    requires s != [] && AllDigits(s)
    ensures ParseInt(s) == Some(DigitsValue(s))
  {
    ParseIntOfDigits(s, "");
    assert s + "" == s;
  }

  /** `parseInt(String(n))` is `n`. */
  lemma ParseIntOfNatToText(n: nat)
    ensures ParseInt(NatToText(n)) == Some(n)
  {
    ParseIntOfRun(NatToText(n));
    DigitsValueOfNatToText(n);
  }

  /** `parseInt` of a zero-padded two-digit field is its number. */
  lemma ParseIntOfPad2(n: nat)
    ensures ParseInt(Pad2(n)) == Some(n)
  {
    ParseIntOfRun(Pad2(n));
    Pad2Value(n);
  }

  lemma {:induction false} DigitRunOfDigits(digits: string, rest: string)
    requires AllDigits(digits)
    requires rest == [] || !IsDigit(rest[0])
    ensures DigitRun(digits + rest) == |digits|
  {
    if digits != [] {
      assert (digits + rest)[1..] == digits[1..] + rest;
      DigitRunOfDigits(digits[1..], rest);
    } else {
      assert digits + rest == rest;
    }
  }

  /** `s.split(/[…]/)` for a character class: every separator ends a part, empty parts are kept. */
  function Split(s: string, separators: set<char>): (parts: seq<string>)
    ensures |parts| >= 1
  {
    if s == [] then [""]
    else
      var rest := Split(s[1..], separators);
      if s[0] in separators then [""] + rest
      else [[s[0]] + rest[0]] + rest[1..]
  }

  predicate Free(s: string, separators: set<char>) {
    forall i :: 0 <= i < |s| ==> s[i] !in separators
  }

  /** No part of a split holds a separator. */
  lemma {:induction false} SplitPartsAreFree(s: string, separators: set<char>)
    ensures forall i :: 0 <= i < |Split(s, separators)| ==> Free(Split(s, separators)[i], separators)
  {
    if s != [] {
      SplitPartsAreFree(s[1..], separators);
      var rest := Split(s[1..], separators);
      if s[0] !in separators {
        assert Free(rest[0], separators);
        assert Free([s[0]] + rest[0], separators);
      }
    }
  }

  lemma {:induction false} SplitFree(a: string, separators: set<char>)
    requires Free(a, separators)
    ensures Split(a, separators) == [a]
  {
    if a != [] {
      SplitFree(a[1..], separators);
      assert [a[0]] + a[1..] == a;
    }
  }

  lemma {:induction false} SplitAtSeparator(a: string, c: char, b: string, separators: set<char>)
    requires Free(a, separators) && c in separators
    ensures Split(a + [c] + b, separators) == [a] + Split(b, separators)
  {
    var s := a + [c] + b;
    if a == [] {
      assert s[1..] == b;
    } else {
      assert s[1..] == a[1..] + [c] + b;
      SplitAtSeparator(a[1..], c, b, separators);
      assert [a[0]] + a[1..] == a;
    }
  }

  /** `needle` occurs in `s` starting at index `i`. */
  predicate OccursAt(s: string, needle: string, i: nat) {
    i + |needle| <= |s| && s[i..i + |needle|] == needle
  }

  predicate Contains(s: string, needle: string) {
    exists i: nat | i <= |s| :: OccursAt(s, needle, i)
  }

  /** `s.indexOf(needle, from)`, with `None` for -1: the first occurrence at or after `from`. */
  function IndexOf(s: string, needle: string, from: nat): (r: Option<nat>)
    ensures r.Some? ==> from <= r.value && OccursAt(s, needle, r.value)
    ensures r.Some? ==> forall j :: from <= j < r.value ==> !OccursAt(s, needle, j)
    ensures r.None? ==> forall j :: from <= j ==> !OccursAt(s, needle, j)
    decreases |s| - from
  {
    if from + |needle| > |s| then None
    else if OccursAt(s, needle, from) then Some(from)
    else IndexOf(s, needle, from + 1)
  }

  /** `i` is the first occurrence of `needle` in `s` at or after `from`. */
  predicate FirstAt(s: string, needle: string, from: nat, i: nat) {
    from <= i && OccursAt(s, needle, i) && forall j :: from <= j < i ==> !OccursAt(s, needle, j)
  }

  /** `indexOf` finds exactly the first occurrence at or after `from`. */
  lemma IndexOfIsFirst(s: string, needle: string, from: nat, i: nat)
    ensures IndexOf(s, needle, from) == Some(i) <==> FirstAt(s, needle, from, i)
  {
  }

  /** `s.includes(needle)`. */
  lemma IncludesIsContains(s: string, needle: string)
    ensures IndexOf(s, needle, 0).Some? <==> Contains(s, needle)
  {
    match IndexOf(s, needle, 0)
    case Some(i) => assert i <= |s| && OccursAt(s, needle, i);
    case None =>
  }

  lemma ContainsInMiddle(a: string, needle: string, b: string)
    ensures Contains(a + needle + b, needle)
  {
    var s := a + needle + b;
    assert s[|a|..|a| + |needle|] == needle;
    assert OccursAt(s, needle, |a|);
  }

  /** `lines.join(separator)`. */
  function Join(lines: seq<string>, separator: string): string
  {
    if lines == [] then ""
    else if |lines| == 1 then lines[0]
    else lines[0] + separator + Join(lines[1..], separator)
  }

  /** A join ends where its last line ends. */
  lemma {:induction false} JoinEndsWithLast(lines: seq<string>, separator: string)
    requires lines != [] && lines[|lines| - 1] != []
    ensures var j, last := Join(lines, separator), lines[|lines| - 1];
            j != [] && j[|j| - 1] == last[|last| - 1]
  {
    if |lines| > 1 {
      JoinEndsWithLast(lines[1..], separator);
    }
  }

  /** Splitting a join on its one-character separator gives the lines back. */
  lemma {:induction false} SplitJoin(lines: seq<string>, c: char)
    requires lines != []
    requires forall i :: 0 <= i < |lines| ==> Free(lines[i], {c})
    ensures Split(Join(lines, [c]), {c}) == lines
  {
    if |lines| == 1 {
      SplitFree(lines[0], {c});
    } else {
      SplitJoin(lines[1..], c);
      SplitAtSeparator(lines[0], c, Join(lines[1..], [c]), {c});
      assert lines[0] + [c] + Join(lines[1..], [c]) == Join(lines, [c]);
      assert [lines[0]] + lines[1..] == lines;
    }
  }
}
