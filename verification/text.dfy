/** The JavaScript string operations the dashboard relies on: `toLowerCase`/`toUpperCase`
    (ASCII letters only), `includes`, `split`/`join` on one separator character, `trim`,
    `parseInt` with radix 10 and without a radix, and the decimal rendering of an integer. */
module Text {
  import opened Js

  function LowerChar(c: char): char
  {
    if 'A' <= c <= 'Z' then (c as int + 32) as char else c
  }

  function UpperChar(c: char): char
  {
    if 'a' <= c <= 'z' then (c as int - 32) as char else c
  }

  /** `s.toLowerCase()`. */
  function Lower(s: string): (r: string)
    ensures |r| == |s|
    ensures forall i :: 0 <= i < |s| ==> r[i] == LowerChar(s[i])
  {
    if s == [] then [] else [LowerChar(s[0])] + Lower(s[1..])
  }

  /** `s.toUpperCase()`. */
  function Upper(s: string): (r: string)
    ensures |r| == |s|
    ensures forall i :: 0 <= i < |s| ==> r[i] == UpperChar(s[i])
  {
    if s == [] then [] else [UpperChar(s[0])] + Upper(s[1..])
  }

  lemma LowerIdempotent(s: string)
    ensures Lower(Lower(s)) == Lower(s)
  {
    assert forall i :: 0 <= i < |s| ==> LowerChar(LowerChar(s[i])) == LowerChar(s[i]);
  }

  predicate StartsWith(s: string, prefix: string)
  {
    |prefix| <= |s| && s[..|prefix|] == prefix
  }

  /** `s.includes(t)`. */
  predicate Includes(s: string, t: string)
    decreases |s|
  {
    StartsWith(s, t) || (s != [] && Includes(s[1..], t))
  }

  ghost predicate OccursAt(s: string, t: string, i: int)
  {
    0 <= i <= |s| - |t| && s[i..i + |t|] == t
  }

  /** `includes` holds exactly when `t` occurs in `s` at some offset. */
  lemma {:induction false} IncludesAt(s: string, t: string)
    ensures Includes(s, t) <==> exists i :: OccursAt(s, t, i)
    decreases |s|
  {
    if StartsWith(s, t) {
      assert OccursAt(s, t, 0);
    } else if s != [] {
      IncludesAt(s[1..], t);
      if Includes(s[1..], t) {
        var j :| OccursAt(s[1..], t, j);
        assert s[1..][j..j + |t|] == s[j + 1..j + 1 + |t|];
        assert OccursAt(s, t, j + 1);
      }
      if i :| OccursAt(s, t, i) {
        assert i > 0;
        assert s[1..][i - 1..i - 1 + |t|] == s[i..i + |t|];
        assert OccursAt(s[1..], t, i - 1);
      }
    }
  }

  /** Every string includes the empty string. */
  lemma IncludesEmpty(s: string)
    ensures Includes(s, "")
  {
  }

  // ---------------------------------------------------------------- split / join

  /** `s.split(sep)` for a one-character separator: never empty, `"".split(",")` is `[""]`. */
  function Split(s: string, sep: char): (parts: seq<string>)
    ensures |parts| >= 1
    decreases |s|
  {
    if s == [] then [""]
    else
      var rest := Split(s[1..], sep);
      if s[0] == sep then [""] + rest else [[s[0]] + rest[0]] + rest[1..]
  }

  /** `parts.join(sep)`. */
  function Join(parts: seq<string>, sep: char): string
  {
    if |parts| == 0 then ""
    else if |parts| == 1 then parts[0]
    else parts[0] + [sep] + Join(parts[1..], sep)
  }

  lemma {:induction false} JoinSplit(s: string, sep: char)
    ensures Join(Split(s, sep), sep) == s
    decreases |s|
  {
    if s != [] {
      JoinSplit(s[1..], sep);
      var rest := Split(s[1..], sep);
      if s[0] == sep {
        assert ([""] + rest)[1..] == rest;
        assert s == [sep] + s[1..];
      } else {
        var parts := [[s[0]] + rest[0]] + rest[1..];
        assert parts[1..] == rest[1..];
        assert s == [s[0]] + s[1..];
      }
    }
  }

  /** No piece of a split contains the separator. */
  lemma {:induction false} SplitPieces(s: string, sep: char)
    ensures forall k :: 0 <= k < |Split(s, sep)| ==> sep !in Split(s, sep)[k]
    decreases |s|
  {
    if s != [] {
      SplitPieces(s[1..], sep);
    }
  }

  /** A string splits into two or more pieces exactly when it contains the separator. */
  lemma {:induction false} SplitCount(s: string, sep: char)
    ensures sep in s <==> |Split(s, sep)| >= 2
    decreases |s|
  {
    if s != [] {
      SplitCount(s[1..], sep);
      assert s == [s[0]] + s[1..];
    }
  }

  lemma {:induction false} SplitNoSeparator(p: string, sep: char)
    requires sep !in p
    ensures Split(p, sep) == [p]
    decreases |p|
  {
    if p != [] {
      SplitNoSeparator(p[1..], sep);
      assert p == [p[0]] + p[1..];
    }
  }

  lemma {:induction false} SplitAfterPiece(p: string, sep: char, rest: string)
    requires sep !in p
    ensures Split(p + [sep] + rest, sep) == [p] + Split(rest, sep)
    decreases |p|
  {
    var s := p + [sep] + rest;
    if p == [] {
      assert s[1..] == rest;
    } else {
      assert s[1..] == p[1..] + [sep] + rest;
      SplitAfterPiece(p[1..], sep, rest);
      assert p == [p[0]] + p[1..];
    }
  }

  /** Splitting a join of separator-free pieces gives the pieces back. */
  lemma {:induction false} SplitJoin(parts: seq<string>, sep: char)
    requires |parts| >= 1
    requires forall k :: 0 <= k < |parts| ==> sep !in parts[k]
    ensures Split(Join(parts, sep), sep) == parts
    decreases |parts|
  {
    if |parts| == 1 {
      SplitNoSeparator(parts[0], sep);
    } else {
      SplitJoin(parts[1..], sep);
      SplitAfterPiece(parts[0], sep, Join(parts[1..], sep));
      assert parts == [parts[0]] + parts[1..];
    }
  }

  // ---------------------------------------------------------------- trim

  /** White space and line terminators as `trim` and `parseInt` skip them (the Unicode
      space separators other than U+00A0 are not modelled). */
  predicate IsSpace(c: char)
  {
    c == ' ' || c == '\t' || c == '\n' || c == '\r' || c == '\U{000B}' || c == '\U{000C}'
    || c == '\U{00A0}' || c == '\U{FEFF}' || c == '\U{2028}' || c == '\U{2029}'
  }

  function TrimStart(s: string): (r: string)
    ensures |r| <= |s|
    ensures r == [] || !IsSpace(r[0])
    decreases |s|
  {
    if s != [] && IsSpace(s[0]) then TrimStart(s[1..]) else s
  }

  function TrimEnd(s: string): (r: string)
    ensures |r| <= |s| && (r != [] ==> r[0] == s[0])
    ensures r == [] || !IsSpace(r[|r| - 1])
    decreases |s|
  {
    if s != [] && IsSpace(s[|s| - 1]) then TrimEnd(s[..|s| - 1]) else s
  }

  /** `s.trim()`. */
  function Trim(s: string): (r: string)
    ensures |r| <= |s|
    ensures r == [] || (!IsSpace(r[0]) && !IsSpace(r[|r| - 1]))
  {
    TrimEnd(TrimStart(s))
  }

  /** A string that neither starts nor ends with white space is its own trim. */
  lemma TrimPlain(s: string)
    requires s == [] || (!IsSpace(s[0]) && !IsSpace(s[|s| - 1]))
    ensures Trim(s) == s
  {
  }

  lemma TrimIdempotent(s: string)
    ensures Trim(Trim(s)) == Trim(s)
  {
    TrimPlain(Trim(s));
  }

  // ---------------------------------------------------------------- integers

  predicate IsDigit(c: char)
  {
    '0' <= c <= '9'
  }

  predicate AllDigits(s: string)
  {
    forall i :: 0 <= i < |s| ==> IsDigit(s[i])
  }

  function DigitChar(d: nat): char
    requires d < 10
  {
    ('0' as int + d) as char
  }

  /** Length of the run of decimal digits at the start of `s`. */
  function DigitRun(s: string): (n: nat)
    ensures n <= |s| && AllDigits(s[..n])
    decreases |s|
  {
    if s != [] && IsDigit(s[0]) then 1 + DigitRun(s[1..]) else 0
  }

  function DigitsValue(ds: string): nat
    requires AllDigits(ds)
    decreases |ds|
  {
    if ds == [] then 0 else DigitsValue(ds[..|ds| - 1]) * 10 + (ds[|ds| - 1] as int - '0' as int)
  }

  /** `parseInt(s, 10)`: leading white space, an optional sign, then the longest run of
      digits; `None` stands for `NaN` (no digit where one is needed). */
  function ParseInt(s: string): Option<int>
  {
    var t := TrimStart(s);
    var signed := t != [] && (t[0] == '-' || t[0] == '+');
    var body := if signed then t[1..] else t;
    var n := DigitRun(body);
    var magnitude: int := if n == 0 then 0 else DigitsValue(body[..n]);
    if n == 0 then None
    else if signed && t[0] == '-' then Some(0 - magnitude)
    else Some(magnitude)
  }

  /** Decimal rendering of a natural number (`String(n)`). */
  function NatToString(n: nat): (r: string)
    ensures |r| >= 1 && AllDigits(r)
  {
    if n < 10 then [DigitChar(n)] else NatToString(n / 10) + [DigitChar(n % 10)]
  }

  /** Decimal rendering of an integer, with a leading '-' when negative. */
  function IntToString(i: int): (r: string)
    ensures |r| >= 1 && (i >= 0 ==> AllDigits(r))
  {
    if i < 0 then "-" + NatToString(-i) else NatToString(i)
  }

  lemma {:induction false} NatToStringValue(n: nat)
    ensures DigitsValue(NatToString(n)) == n
  {
    if n >= 10 {
      NatToStringValue(n / 10);
      var r := NatToString(n);
      assert r[..|r| - 1] == NatToString(n / 10);
    }
  }

  lemma {:induction false} DigitRunAll(ds: string)
    requires AllDigits(ds)
    ensures DigitRun(ds) == |ds|
    decreases |ds|
  {
    if ds != [] {
      DigitRunAll(ds[1..]);
    }
  }

  lemma ParseIntDigits(ds: string)
    requires |ds| >= 1 && AllDigits(ds)
    ensures ParseInt(ds) == Some(DigitsValue(ds))
  {
    assert !IsSpace(ds[0]);
    assert TrimStart(ds) == ds;
    DigitRunAll(ds);
    assert ds[..|ds|] == ds;
  }

  lemma ParseIntNegativeDigits(ds: string)
    requires |ds| >= 1 && AllDigits(ds)
    ensures ParseInt("-" + ds) == Some(0 - DigitsValue(ds))
  {
    var t := "-" + ds;
    assert TrimStart(t) == t;
    assert t[1..] == ds;
    DigitRunAll(ds);
    assert ds[..|ds|] == ds;
  }

  /** `parseInt` reads back what `String` writes. */
  lemma ParseIntRoundTrip(i: int)
    ensures ParseInt(IntToString(i)) == Some(i)
  {
    var m: nat := if i < 0 then -i else i;
    NatToStringValue(m);
    if i < 0 {
      ParseIntNegativeDigits(NatToString(m));
    } else {
      ParseIntDigits(NatToString(m));
    }
  }

  /** A number written after a fixed prefix reads back after the prefix, and tells the
      whole strings apart. */
  lemma NumberAfterPrefix(prefix: string, a: nat, b: nat)
    ensures ParseInt((prefix + NatToString(a))[|prefix|..]) == Some(a)
    ensures prefix + NatToString(a) == prefix + NatToString(b) ==> a == b
  {
    assert (prefix + NatToString(a))[|prefix|..] == NatToString(a);
    ParseIntRoundTrip(a);
    if prefix + NatToString(a) == prefix + NatToString(b) {
      assert (prefix + NatToString(b))[|prefix|..] == NatToString(b);
      NatToStringInjective(a, b);
    }
  }

  lemma NatToStringInjective(a: nat, b: nat)
    requires NatToString(a) == NatToString(b)
    ensures a == b
  {
    ParseIntRoundTrip(a);
    ParseIntRoundTrip(b);
  }

  // ---------------------------------------------------------------- parseInt without a radix

  predicate IsHexDigit(c: char)
  {
    IsDigit(c) || 'a' <= c <= 'f' || 'A' <= c <= 'F'
  }

  predicate AllHex(s: string)
  {
    forall i :: 0 <= i < |s| ==> IsHexDigit(s[i])
  }

  function HexDigitValue(c: char): (d: nat)
    requires IsHexDigit(c)
    ensures d < 16
  {
    if IsDigit(c) then c as int - '0' as int
    else if 'a' <= c <= 'f' then c as int - 'a' as int + 10
    else c as int - 'A' as int + 10
  }

  /** Length of the run of hexadecimal digits at the start of `s`. */
  function HexRun(s: string): (n: nat)
    ensures n <= |s| && AllHex(s[..n])
    decreases |s|
  {
    if s != [] && IsHexDigit(s[0]) then 1 + HexRun(s[1..]) else 0
  }

  function HexValue(ds: string): nat
    requires AllHex(ds)
    decreases |ds|
  {
    if ds == [] then 0 else HexValue(ds[..|ds| - 1]) * 16 + HexDigitValue(ds[|ds| - 1])
  }

  /** What `parseInt` reads after the leading white space and an optional sign. */
  function Unsigned(s: string): string
  {
    var t := TrimStart(s);
    if t != [] && (t[0] == '-' || t[0] == '+') then t[1..] else t
  }

  predicate HexPrefixed(body: string)
  {
    |body| >= 2 && body[0] == '0' && (body[1] == 'x' || body[1] == 'X')
  }

  /** `parseInt(s)` with no radix: after the white space and the sign, a `0x` or `0X` prefix
      selects base 16 and is skipped, and otherwise the number is read in base 10 as by
      `ParseInt`; `None` stands for `NaN` (no digit after the prefix). */
  function ParseIntAutoRadix(s: string): Option<int>
  {
    var body := Unsigned(s);
    if !HexPrefixed(body) then ParseInt(s)
    else
      var t := TrimStart(s);
      var digits := body[2..];
      var n := HexRun(digits);
      if n == 0 then None
      else if t[0] == '-' then Some(0 - HexValue(digits[..n]))
      else Some(HexValue(digits[..n]))
  }

  /** Without a `0x` prefix the two readings agree; with one, base 10 stops after the `0`
      and reads zero, while no radix reads the hexadecimal digits. */
  lemma AutoRadixAgreesWithDecimal(s: string)
    ensures !HexPrefixed(Unsigned(s)) ==> ParseIntAutoRadix(s) == ParseInt(s)
    ensures HexPrefixed(Unsigned(s)) ==> ParseInt(s) == Some(0)
  {
    var body := Unsigned(s);
    if HexPrefixed(body) {
      assert DigitRun(body[1..]) == 0;
      assert DigitRun(body) == 1;
      var d := body[..1];
      assert d[..0] == [];
      assert DigitsValue(d) == 0;
    }
  }

  lemma {:induction false} HexRunAll(ds: string)
    requires AllHex(ds)
    ensures HexRun(ds) == |ds|
    decreases |ds|
  {
    if ds != [] {
      HexRunAll(ds[1..]);
    }
  }

  /** A prefixed body made only of hexadecimal digits is read whole. */
  lemma AutoRadixWholeHex(s: string)
    requires HexPrefixed(Unsigned(s)) && |Unsigned(s)| >= 3 && AllHex(Unsigned(s)[2..])
    ensures ParseIntAutoRadix(s) ==
              if TrimStart(s)[0] == '-' then Some(0 - HexValue(Unsigned(s)[2..])) else Some(HexValue(Unsigned(s)[2..]))
  {
    var ds := Unsigned(s)[2..];
    HexRunAll(ds);
    assert ds[..|ds|] == ds;
  }

  /** `0x` or `0X` followed by hexadecimal digits reads as their value. */
  lemma ParseIntAutoRadixHex(s: string)
    requires HexPrefixed(s) && |s| >= 3 && AllHex(s[2..])
    ensures ParseIntAutoRadix(s) == Some(HexValue(s[2..]))
  {
    assert TrimStart(s) == s;
    assert Unsigned(s) == s;
    AutoRadixWholeHex(s);
  }

  /** After a `-` the hexadecimal value is negated. */
  lemma ParseIntAutoRadixNegativeHex(s: string)
    requires HexPrefixed(s) && |s| >= 3 && AllHex(s[2..])
    ensures ParseIntAutoRadix("-" + s) == Some(0 - HexValue(s[2..]))
  {
    var n := "-" + s;
    assert n[0] == '-' && n[1..] == s;
    assert TrimStart(n) == n;
    assert Unsigned(n) == s;
    AutoRadixWholeHex(n);
  }

  /** Decimal text never carries the `0x` prefix, so `parseInt` without a radix also reads
      back what `String` writes. */
  lemma ParseIntAutoRadixRoundTrip(i: int)
    ensures ParseIntAutoRadix(IntToString(i)) == Some(i)
  {
    var m: nat := if i < 0 then -i else i;
    var ds := NatToString(m);
    assert TrimStart(IntToString(i)) == IntToString(i);
    assert Unsigned(IntToString(i)) == ds;
    assert |ds| >= 2 ==> IsDigit(ds[1]);
    AutoRadixAgreesWithDecimal(IntToString(i));
    ParseIntRoundTrip(i);
  }
}
