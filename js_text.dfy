/**
 * The JavaScript built-ins the photo-filename convention leans on, restricted to the way
 * server.js uses them: `String.prototype.split` with a one-character separator, the global
 * `parseInt` called without a radix, and the decimal rendering of a non-negative integer
 * inside a template string.
 */
module JsText {
  import opened Wrappers

  // ---------------------------------------------------------------------------------------
  // String.prototype.split(sep) for a one-character separator
  // ---------------------------------------------------------------------------------------

  /** Regrouping a concatenation of three strings. */
  lemma RegroupThree(a: string, b: string, c: string)
    ensures a + b + c == a + (b + c)
  {
  }

  /** Regrouping a concatenation of four strings. */
  lemma RegroupFour(a: string, b: string, c: string, e: string)
    ensures a + b + c + e == a + (b + (c + e))
  {
  }


  /** Glues pieces back together with `sep` between neighbours (`Array.prototype.join`). */
  function Join(parts: seq<string>, sep: char): string
    requires |parts| >= 1
  {
    if |parts| == 1 then parts[0] else parts[0] + [sep] + Join(parts[1..], sep)
  }

  /**
   * The pieces of `s` between occurrences of `sep`, in order. There is always at least one
   * piece: `"".split("_")` is `[""]`.
   */
  function Split(s: string, sep: char): (parts: seq<string>)
    ensures |parts| >= 1
    decreases |s|
  {
    if s == [] then [""]
    else
      var rest := Split(s[1..], sep);
      if s[0] == sep then [""] + rest
      else [[s[0]] + rest[0]] + rest[1..]
  }

  /** Joining after an empty first piece puts the separator in front. */
  lemma JoinAfterEmpty(parts: seq<string>, sep: char)
    requires |parts| >= 1
    ensures Join([""] + parts, sep) == [sep] + Join(parts, sep)
  {
    var q := [""] + parts;
    assert q[0] == "" && q[1..] == parts;
  }

  /** Joining after extending the first piece by `c` puts `c` in front. */
  lemma JoinExtendFirst(c: char, parts: seq<string>, sep: char)
    requires |parts| >= 1
    ensures Join([[c] + parts[0]] + parts[1..], sep) == [c] + Join(parts, sep)
  {
    var q := [[c] + parts[0]] + parts[1..];
    assert q[0] == [c] + parts[0];
    if |parts| >= 2 {
      assert q[1..] == parts[1..];
      var tail := Join(parts[1..], sep);
      RegroupFour([c], parts[0], [sep], tail);
      RegroupThree(parts[0], [sep], tail);
    }
  }

  /** Joining the pieces with the separator gives back the string that was split. */
  lemma {:induction false} JoinSplit(s: string, sep: char)
    ensures Join(Split(s, sep), sep) == s
  {
    if s != [] {
      var rest := Split(s[1..], sep);
      JoinSplit(s[1..], sep);
      if s[0] == sep {
        JoinAfterEmpty(rest, sep);
      } else {
        JoinExtendFirst(s[0], rest, sep);
      }
      assert s == [s[0]] + s[1..];
    }
  }

  /** No piece contains the separator. */
  lemma {:induction false} SplitPiecesLackSeparator(s: string, sep: char)
    ensures forall i :: 0 <= i < |Split(s, sep)| ==> sep !in Split(s, sep)[i]
  {
    if s != [] {
      var rest := Split(s[1..], sep);
      SplitPiecesLackSeparator(s[1..], sep);
      if s[0] != sep {
        var parts := Split(s, sep);
        forall i | 0 <= i < |parts| ensures sep !in parts[i] {
          if i == 0 {
            assert sep !in rest[0];
          } else {
            assert parts[i] == rest[i];
          }
        }
      }
    }
  }

  /** There is a second piece exactly when the separator occurs. */
  lemma {:induction false} SplitHasSecondPiece(s: string, sep: char)
    ensures sep in s <==> |Split(s, sep)| >= 2
  {
    if s != [] {
      SplitHasSecondPiece(s[1..], sep);
      assert s == [s[0]] + s[1..];
    }
  }

  /** A piece free of the separator splits into itself alone. */
  lemma {:induction false} SplitWithoutSeparator(p: string, sep: char)
    requires sep !in p
    ensures Split(p, sep) == [p]
  {
    if p != [] {
      SplitWithoutSeparator(p[1..], sep);
      assert [p[0]] + p[1..] == p;
    }
  }

  /** Splitting `p + [sep] + t` for a separator-free `p` yields `p` and then the pieces of `t`. */
  lemma {:induction false} SplitAfterPiece(p: string, t: string, sep: char)
    requires sep !in p
    ensures Split(p + [sep] + t, sep) == [p] + Split(t, sep)
  {
    if p == [] {
      assert ([sep] + t)[1..] == t;
    } else {
      assert (p + [sep] + t)[1..] == p[1..] + [sep] + t;
      SplitAfterPiece(p[1..], t, sep);
      assert [p[0]] + p[1..] == p;
    }
  }

  /** The first piece of `q + rest` for a separator-free `q` is `q` followed by the first piece of `rest`. */
  lemma {:induction false} FirstPieceAfter(q: string, rest: string, sep: char)
    requires sep !in q
    ensures Split(q + rest, sep)[0] == q + Split(rest, sep)[0]
  {
    if q != [] {
      var s := q + rest;
      assert s[0] == q[0] && s[0] != sep;
      assert s[1..] == q[1..] + rest;
      FirstPieceAfter(q[1..], rest, sep);
      assert Split(s, sep)[0] == [s[0]] + Split(s[1..], sep)[0];
      assert [q[0]] + q[1..] == q;
    } else {
      assert q + rest == rest;
    }
  }

  /** Split inverts Join on pieces that do not contain the separator. */
  lemma {:induction false} SplitJoin(parts: seq<string>, sep: char)
    requires |parts| >= 1
    requires forall i :: 0 <= i < |parts| ==> sep !in parts[i]
    ensures Split(Join(parts, sep), sep) == parts
  {
    if |parts| == 1 {
      SplitWithoutSeparator(parts[0], sep);
    } else {
      SplitJoin(parts[1..], sep);
      SplitAfterPiece(parts[0], Join(parts[1..], sep), sep);
      assert [parts[0]] + parts[1..] == parts;
    }
  }

  // ---------------------------------------------------------------------------------------
  // Digits
  // ---------------------------------------------------------------------------------------

  predicate IsDecimalDigit(c: char) {
    '0' <= c <= '9'
  }

  /** The value of `c` as a digit in radices up to 36; 36 for a character that is no digit. */
  function DigitValue(c: char): (v: nat)
    ensures v <= 36
    ensures v < 10 <==> IsDecimalDigit(c)
  {
    if '0' <= c <= '9' then c as nat - '0' as nat
    else if 'a' <= c <= 'z' then c as nat - 'a' as nat + 10
    else if 'A' <= c <= 'Z' then c as nat - 'A' as nat + 10
    else 36
  }

  predicate IsRadixDigit(c: char, radix: nat) {
    DigitValue(c) < radix
  }

  function DigitChar(d: nat): (c: char)
    requires d < 10
    ensures IsDecimalDigit(c) && DigitValue(c) == d
  {
    "0123456789"[d]
  }

  // ---------------------------------------------------------------------------------------
  // Number-to-string for the integers a clock can produce
  // ---------------------------------------------------------------------------------------

  /**
   * How a template string renders a non-negative integer: decimal digits, and a leading
   * `0` only for zero itself.
   */
  function Decimal(n: nat): (r: string)
    ensures |r| >= 1
    ensures forall i :: 0 <= i < |r| ==> IsDecimalDigit(r[i])
    ensures r[0] == '0' <==> n == 0
    ensures n == 0 ==> r == "0"
  {
    if n < 10 then [DigitChar(n)] else Decimal(n / 10) + [DigitChar(n % 10)]
  }

  // ---------------------------------------------------------------------------------------
  // parseInt(string) with no radix argument
  // ---------------------------------------------------------------------------------------

  /** The characters `parseInt` skips before the number: white space and line terminators. */
  predicate IsStrWhiteSpace(c: char) {
    || c == '\t' || c == '\U{000B}' || c == '\U{000C}' || c == ' ' || c == '\U{00A0}'
    || c == '\U{FEFF}' || c == '\U{1680}' || ('\U{2000}' <= c <= '\U{200A}')
    || c == '\U{202F}' || c == '\U{205F}' || c == '\U{3000}'
    || c == '\n' || c == '\r' || c == '\U{2028}' || c == '\U{2029}'
  }

  /** `s` without its leading white space. */
  function TrimStart(s: string): string {
    if s != [] && IsStrWhiteSpace(s[0]) then TrimStart(s[1..]) else s
  }

  /** The longest prefix of `s` made of digits of the given radix. */
  function DigitRun(s: string, radix: nat): string {
    if s != [] && IsRadixDigit(s[0], radix) then [s[0]] + DigitRun(s[1..], radix) else []
  }

  /** Trimming removes white space only, and exactly up to the first other character. */
  lemma {:induction false} TrimStartRemovesWhiteSpace(s: string)
    ensures var r := TrimStart(s);
      && |r| <= |s| && r == s[|s| - |r|..]
      && (forall i :: 0 <= i < |s| - |r| ==> IsStrWhiteSpace(s[i]))
      && (r != [] ==> !IsStrWhiteSpace(r[0]))
  {
    if s != [] && IsStrWhiteSpace(s[0]) {
      var t := s[1..];
      TrimStartRemovesWhiteSpace(t);
      var r := TrimStart(t);
      assert TrimStart(s) == r;
      assert r == s[|s| - |r|..] by {
        assert t[|t| - |r|..] == s[|s| - |r|..];
      }
      forall i | 0 <= i < |s| - |r| ensures IsStrWhiteSpace(s[i]) {
        if i > 0 {
          assert s[i] == t[i - 1];
        }
      }
    }
  }

  /** The run is the longest digit prefix: a prefix, all digits, and stopped by a non-digit or the end. */
  lemma {:induction false} DigitRunIsLongest(s: string, radix: nat)
    ensures var r := DigitRun(s, radix);
      && |r| <= |s| && r == s[..|r|]
      && (forall i :: 0 <= i < |r| ==> IsRadixDigit(r[i], radix))
      && (|r| < |s| ==> !IsRadixDigit(s[|r|], radix))
  {
    if s != [] && IsRadixDigit(s[0], radix) {
      DigitRunIsLongest(s[1..], radix);
      var r := DigitRun(s, radix);
      assert r == [s[0]] + DigitRun(s[1..], radix);
      assert s == [s[0]] + s[1..];
    }
  }

  /** The number a run of digits denotes in the given radix, most significant digit first. */
  function RunValue(digits: string, radix: nat): nat
  {
    if digits == [] then 0
    else RunValue(digits[..|digits| - 1], radix) * radix + DigitValue(digits[|digits| - 1])
  }

  /** A run of digits in the given radix read as a number; NaN, here `None`, for no digit. */
  function ParseRun(u: string, radix: nat): Option<nat> {
    var digits := DigitRun(u, radix);
    if digits == [] then None else Some(RunValue(digits, radix))
  }

  /** The unsigned part: a `0x` or `0X` prefix selects radix 16, and radix 10 is the default. */
  function ParseUnsigned(u: string): Option<nat> {
    var hex := |u| >= 2 && u[0] == '0' && (u[1] == 'x' || u[1] == 'X');
    if hex then ParseRun(u[2..], 16) else ParseRun(u, 10)
  }

  /** One optional sign before the unsigned part; `-` negates it. */
  function ParseSigned(t: string): Option<int> {
    var negative := t != [] && t[0] == '-';
    var unsigned := if t != [] && (t[0] == '-' || t[0] == '+') then t[1..] else t;
    match ParseUnsigned(unsigned)
    case None => None
    case Some(m) => Some(if negative then -(m as int) else m)
  }

  /**
   * `parseInt(s)` with no radix: skip leading white space, then read an optionally signed
   * number. No digit at all is NaN, here `None`. The value is the exact integer.
   */
  function ParseInt(s: string): Option<int> {
    ParseSigned(TrimStart(s))
  }

  /** The digits of `Decimal(n)` denote `n`. */
  lemma {:induction false} DecimalValue(n: nat)
    ensures RunValue(Decimal(n), 10) == n
  {
    var r := Decimal(n);
    if n >= 10 {
      DecimalValue(n / 10);
      assert r[..|r| - 1] == Decimal(n / 10);
    }
  }

  /** A string made only of digits is its own longest digit run. */
  lemma {:induction false} DigitRunOfDigits(s: string, radix: nat)
    requires forall i :: 0 <= i < |s| ==> IsRadixDigit(s[i], radix)
    ensures DigitRun(s, radix) == s
  {
    if s != [] {
      DigitRunOfDigits(s[1..], radix);
    }
  }

  /** `parseInt` reads a string of decimal digits, leading zeros included, as its value. */
  lemma ParseIntOfNumeral(d: string)
    requires |d| >= 1 && forall i :: 0 <= i < |d| ==> IsDecimalDigit(d[i])
    ensures ParseInt(d) == Some(RunValue(d, 10))
  {
    ParseIntReadsDecimal("", "", d, []);
    assert "" + "" + d + [] == d;
  }

  /** Round trip: `parseInt` of the rendering of a non-negative integer gives it back. */
  lemma ParseIntOfDecimal(n: nat)
    ensures ParseInt(Decimal(n)) == Some(n)
  {
    ParseIntOfNumeral(Decimal(n));
    DecimalValue(n);
  }

  /** Leading white space has no effect on trimming the rest. */
  lemma {:induction false} TrimStartSkips(ws: string, x: string)
    requires forall i :: 0 <= i < |ws| ==> IsStrWhiteSpace(ws[i])
    ensures TrimStart(ws + x) == TrimStart(x)
  {
    if ws == [] {
      assert ws + x == x;
    } else {
      TrimStartSkips(ws[1..], x);
      assert (ws + x)[0] == ws[0];
      assert (ws + x)[1..] == ws[1..] + x;
    }
  }

  /** The digit run of digits followed by a non-digit is exactly those digits. */
  lemma {:induction false} DigitRunStops(d: string, tail: string, radix: nat)
    requires forall i :: 0 <= i < |d| ==> IsRadixDigit(d[i], radix)
    requires tail == [] || !IsRadixDigit(tail[0], radix)
    ensures DigitRun(d + tail, radix) == d
  {
    if d == [] {
      assert d + tail == tail;
    } else {
      DigitRunStops(d[1..], tail, radix);
      assert (d + tail)[0] == d[0];
      assert (d + tail)[1..] == d[1..] + tail;
    }
  }

  /** The number `parseInt` reads after white space and an optional sign. */
  function Signed(sign: string, m: nat): int {
    if sign == "-" then -(m as int) else m
  }

  /** After white space, `parseInt` reads what starts at the first other character. */
  lemma ParseIntAfterWhiteSpace(ws: string, t: string)
    requires forall i :: 0 <= i < |ws| ==> IsStrWhiteSpace(ws[i])
    requires t != [] && !IsStrWhiteSpace(t[0])
    ensures ParseInt(ws + t) == ParseSigned(t)
  {
    TrimStartSkips(ws, t);
  }

  /** A `-` sign negates the unsigned number after it, and a `+` sign keeps it. */
  lemma ParseSignedWithSign(sign: string, u: string)
    requires sign == "" || sign == "-" || sign == "+"
    requires sign == "" ==> u != [] && u[0] != '-' && u[0] != '+'
    ensures ParseSigned(sign + u)
      == match ParseUnsigned(u) case None => None case Some(m) => Some(Signed(sign, m))
  {
    if sign != "" {
      assert (sign + u)[0] == sign[0];
      assert (sign + u)[1..] == u;
    } else {
      assert sign + u == u;
    }
  }

  /**
   * After white space and one optional sign, `parseInt` reads the unsigned part. Without a
   * sign, the unsigned part must start with a character that is neither white space nor a
   * sign, since those would still be skipped or taken as the sign.
   */
  lemma ParseIntSignedPart(ws: string, sign: string, u: string)
    requires forall i :: 0 <= i < |ws| ==> IsStrWhiteSpace(ws[i])
    requires sign == "" || sign == "-" || sign == "+"
    requires sign == "" ==> u != [] && !IsStrWhiteSpace(u[0]) && u[0] != '-' && u[0] != '+'
    ensures ParseInt(ws + sign + u)
      == match ParseUnsigned(u) case None => None case Some(m) => Some(Signed(sign, m))
  {
    ParseSignedWithSign(sign, u);
    var t := sign + u;
    assert t[0] == if sign == "" then u[0] else sign[0];
    ParseIntAfterWhiteSpace(ws, t);
    RegroupThree(ws, sign, u);
  }

  /** Digits of a radix followed by a non-digit are read as those digits; none is NaN. */
  lemma ParseRunStops(d: string, tail: string, radix: nat)
    requires forall i :: 0 <= i < |d| ==> IsRadixDigit(d[i], radix)
    requires tail == [] || !IsRadixDigit(tail[0], radix)
    ensures ParseRun(d + tail, radix) == if d == [] then None else Some(RunValue(d, radix))
  {
    DigitRunStops(d, tail, radix);
  }

  /** Without a `0x` or `0X` prefix the unsigned part is read in radix 10. */
  lemma ParseUnsignedNoPrefix(u: string)
    requires u != [] && IsDecimalDigit(u[0])
    requires |u| >= 2 && u[0] == '0' ==> u[1] != 'x' && u[1] != 'X'
    ensures ParseUnsigned(u) == ParseRun(u, 10)
  {
  }

  /** A `0x` or `0X` prefix makes the rest be read in radix 16. */
  lemma ParseUnsignedHexPrefix(x: char, rest: string)
    requires x == 'x' || x == 'X'
    ensures ParseUnsigned(['0', x] + rest) == ParseRun(rest, 16)
  {
    var u := ['0', x] + rest;
    assert u[0] == '0' && u[1] == x;
    assert u[2..] == rest;
  }

  /** Decimal digits followed by no digit and no `x` right after a lone `0`. */
  lemma ParseUnsignedDecimal(d: string, tail: string)
    requires |d| >= 1 && forall i :: 0 <= i < |d| ==> IsDecimalDigit(d[i])
    requires tail == [] || !IsDecimalDigit(tail[0])
    requires d == "0" && tail != [] ==> tail[0] != 'x' && tail[0] != 'X'
    ensures ParseUnsigned(d + tail) == Some(RunValue(d, 10))
  {
    var u := d + tail;
    assert u[0] == d[0];
    if |u| >= 2 && u[0] == '0' {
      if |d| >= 2 {
        assert u[1] == d[1];
      } else {
        assert u[1] == tail[0];
        assert d == [d[0]];
      }
    }
    ParseUnsignedNoPrefix(u);
    ParseRunStops(d, tail, 10);
  }

  /**
   * `parseInt` skips leading white space, takes one optional sign, reads the longest run
   * of decimal digits and ignores whatever follows them.
   */
  lemma ParseIntReadsDecimal(ws: string, sign: string, d: string, tail: string)
    requires forall i :: 0 <= i < |ws| ==> IsStrWhiteSpace(ws[i])
    requires sign == "" || sign == "-" || sign == "+"
    requires |d| >= 1 && forall i :: 0 <= i < |d| ==> IsDecimalDigit(d[i])
    requires tail == [] || !IsDecimalDigit(tail[0])
    requires d == "0" && tail != [] ==> tail[0] != 'x' && tail[0] != 'X'
    ensures ParseInt(ws + sign + d + tail) == Some(Signed(sign, RunValue(d, 10)))
  {
    ParseUnsignedDecimal(d, tail);
    assert (d + tail)[0] == d[0];
    ParseIntSignedPart(ws, sign, d + tail);
    RegroupFour(ws, sign, d, tail);
    RegroupThree(ws, sign, d + tail);
  }

  /**
   * After an optional sign, `0x` or `0X` switches to radix 16; with no hex digit after the
   * prefix the result is NaN.
   */
  lemma ParseIntReadsHex(ws: string, sign: string, x: char, h: string, tail: string)
    requires forall i :: 0 <= i < |ws| ==> IsStrWhiteSpace(ws[i])
    requires sign == "" || sign == "-" || sign == "+"
    requires x == 'x' || x == 'X'
    requires forall i :: 0 <= i < |h| ==> IsRadixDigit(h[i], 16)
    requires tail == [] || !IsRadixDigit(tail[0], 16)
    ensures ParseInt(ws + sign + ['0', x] + h + tail)
      == if h == [] then None else Some(Signed(sign, RunValue(h, 16)))
  {
    var u := ['0', x] + (h + tail);
    ParseUnsignedHexPrefix(x, h + tail);
    ParseRunStops(h, tail, 16);
    assert u[0] == '0';
    ParseIntSignedPart(ws, sign, u);
    RegroupFour(ws + sign, ['0', x], h, tail);
  }

  /**
   * `parseInt` yields NaN when the character after the white space and the optional sign is
   * not a decimal digit, or there is none. With the two lemmas above this covers every input.
   */
  lemma ParseIntWithoutDigits(ws: string, sign: string, u: string)
    requires forall i :: 0 <= i < |ws| ==> IsStrWhiteSpace(ws[i])
    requires sign == "" || sign == "-" || sign == "+"
    requires u == [] || !IsDecimalDigit(u[0])
    requires sign == "" && u != [] ==> !IsStrWhiteSpace(u[0]) && u[0] != '-' && u[0] != '+'
    ensures ParseInt(ws + sign + u) == None
  {
    if sign == "" && u == [] {
      assert ws + sign + u == ws + [];
      TrimStartSkips(ws, []);
    } else {
      ParseIntSignedPart(ws, sign, u);
      assert DigitRun(u, 10) == [];
      assert ParseUnsigned(u) == None;
    }
  }
}
