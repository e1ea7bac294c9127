/**
  The integer branch of the "absolute value" column action
  (`AbstractAbsolute.executeOnLong`): parse a cell with `Long.parseLong`,
  take `Math.abs` on 64-bit two's-complement longs, print with `Long.toString`,
  and answer `null` on a `NumberFormatException`.
 */
module Absolute {
  import opened Wrappers

  // ---------------------------------------------------------------------------
  // 64-bit longs
  // ---------------------------------------------------------------------------

  const MinLong: int := -0x8000_0000_0000_0000
  const MaxLong: int := 0x7FFF_FFFF_FFFF_FFFF

  /** `Long.toString(Long.MIN_VALUE)` */
  const MinLongText: string := "-9223372036854775808"

  predicate InLongRange(v: int) {
    MinLong <= v <= MaxLong
  }

  /** Reduce a mathematical integer to the long with the same low 64 bits. */
  function WrapLong(x: int): (r: int)
    ensures InLongRange(r)
    ensures InLongRange(x) ==> r == x
    ensures (x - r) % 0x1_0000_0000_0000_0000 == 0
  {
    (x - MinLong) % 0x1_0000_0000_0000_0000 + MinLong
  }

  /** `Math.abs(long)`: `a < 0 ? -a : a`, where the negation wraps around. */
  function AbsLong(v: int): (r: int)
    requires InLongRange(v)
    ensures InLongRange(r)
    ensures v != MinLong ==> r == if v < 0 then -v else v
    ensures v == MinLong ==> r == MinLong
  {
    if v < 0 then WrapLong(-v) else v
  }

  // ---------------------------------------------------------------------------
  // Decimal digits
  // ---------------------------------------------------------------------------

  predicate IsDigit(c: char) {
    '0' <= c <= '9'
  }

  predicate AllDigits(s: string) {
    forall i :: 0 <= i < |s| ==> IsDigit(s[i])
  }

  function DigitValue(c: char): (d: nat)
    requires IsDigit(c)
    ensures d < 10
  {
    (c as int) - ('0' as int)
  }

  function DigitChar(d: nat): (c: char)
    requires d < 10
    ensures IsDigit(c) && DigitValue(c) == d
  {
    (('0' as int) + d) as char
  }

  /** The number `acc` followed by the decimal digits `s`. */
  function Fold(acc: nat, s: string): nat
    requires AllDigits(s)
    decreases |s|
  {
    if s == [] then acc else Fold(acc * 10 + DigitValue(s[0]), s[1..])
  }

  /** The value of a string of decimal digits (leading zeros allowed). */
  function DigitsValue(s: string): nat
    requires AllDigits(s)
  {
    Fold(0, s)
  }

  // ---------------------------------------------------------------------------
  // Long.parseLong
  // ---------------------------------------------------------------------------

  /** The strings whose shape `Long.parseLong` accepts: an optional single
      leading sign followed by at least one digit. */
  predicate IsLongSyntax(s: string) {
    |s| > 0 &&
    if s[0] == '-' || s[0] == '+' then |s| > 1 && AllDigits(s[1..]) else AllDigits(s)
  }

  /** The mathematical value such a string denotes, before any range check. */
  function SyntaxValue(s: string): int
    requires IsLongSyntax(s)
  {
    if s[0] == '-' then 0 - DigitsValue(s[1..])
    else if s[0] == '+' then DigitsValue(s[1..])
    else DigitsValue(s)
  }

  /** The digit loop of `Long.parseLong`: accumulate left to right and give up
      as soon as a character is not a digit or the magnitude passes `limit`. */
  function ScanDigits(s: string, acc: nat, limit: nat): (r: Option<nat>)
    ensures r.Some? && acc <= limit ==> r.value <= limit
    decreases |s|
  {
    if s == [] then Some(acc)
    else if !IsDigit(s[0]) then None
    else
      var next := acc * 10 + DigitValue(s[0]);
      if next > limit then None else ScanDigits(s[1..], next, limit)
  }

  /** `Long.parseLong(s)` with radix 10; `None` on input `null` and wherever
      it throws `NumberFormatException`. */
  function ParseLong(s: Option<string>): (r: Option<int>)
    ensures r.Some? ==> InLongRange(r.value)
  {
    if s.None? || |s.value| == 0 then None
    else
      var t := s.value;
      if t[0] == '-' then
        if |t| == 1 then None
        else match ScanDigits(t[1..], 0, -MinLong)
          case None => None
          case Some(m) => Some(0 - m)
      else if t[0] == '+' then
        if |t| == 1 then None
        else match ScanDigits(t[1..], 0, MaxLong)
          case None => None
          case Some(m) => Some(m)
      else match ScanDigits(t, 0, MaxLong)
        case None => None
        case Some(m) => Some(m)
  }

  // ---------------------------------------------------------------------------
  // Long.toString
  // ---------------------------------------------------------------------------

  /** Decimal digits of `n`, no sign, no leading zero. */
  function NatToDigits(n: nat): (r: string)
    ensures IsCanonicalNat(r)
    ensures r[0] == '0' <==> n == 0
  {
    if n < 10 then [DigitChar(n)] else NatToDigits(n / 10) + [DigitChar(n % 10)]
  }

  /** `Long.toString(v)` */
  function LongToString(v: int): (r: string)
    ensures |r| > 0 && (r[0] == '-' <==> v < 0)
    ensures IsCanonicalNat(if v < 0 then r[1..] else r)
  {
    if v < 0 then "-" + NatToDigits(-v) else NatToDigits(v)
  }

  /** A canonical unsigned decimal: digits only, and "0" is the only numeral
      that starts with '0'. */
  predicate IsCanonicalNat(s: string) {
    |s| > 0 && AllDigits(s) && (s[0] == '0' ==> |s| == 1)
  }

  // ---------------------------------------------------------------------------
  // The action
  // ---------------------------------------------------------------------------

  /** `executeOnLong`: the absolute value of a long cell, or `None` (`null`). */
  function ExecuteOnLong(value: Option<string>): (r: Option<string>)
    ensures r.Some? <==> ParseLong(value).Some?
    ensures r.Some? ==> ParseLong(r) == Some(AbsLong(ParseLong(value).value))
  {
    match ParseLong(value)
    case None => None
    case Some(v) =>
      LongToStringRoundTrip(AbsLong(v));
      Some(LongToString(AbsLong(v)))
  }

  // ---------------------------------------------------------------------------
  // Lemmas
  // ---------------------------------------------------------------------------

  /** Appending one digit multiplies the value by ten and adds the digit. */
  lemma {:induction false} FoldSnoc(acc: nat, s: string, c: char)
    requires AllDigits(s) && IsDigit(c)
    ensures AllDigits(s + [c])
    ensures Fold(acc, s + [c]) == Fold(acc, s) * 10 + DigitValue(c)
    decreases |s|
  {
    if s == [] {
      assert s + [c] == [c];
    } else {
      assert (s + [c])[1..] == s[1..] + [c];
      FoldSnoc(acc * 10 + DigitValue(s[0]), s[1..], c);
    }
  }

  /** More digits never make the accumulated value smaller. */
  lemma {:induction false} FoldMonotone(acc: nat, s: string)
    requires AllDigits(s)
    ensures Fold(acc, s) >= acc
    decreases |s|
  {
    if s != [] {
      FoldMonotone(acc * 10 + DigitValue(s[0]), s[1..]);
    }
  }

  /** The digit loop, with its early overflow exits, computes exactly the
      declarative value, and fails exactly on a non-digit or an overflow. */
  lemma {:induction false} ScanDigitsCorrect(s: string, acc: nat, limit: nat)
    requires acc <= limit
    ensures ScanDigits(s, acc, limit) ==
      if AllDigits(s) && Fold(acc, s) <= limit then Some(Fold(acc, s)) else None
    decreases |s|
  {
    if s != [] && IsDigit(s[0]) {
      var next := acc * 10 + DigitValue(s[0]);
      if next > limit {
        if AllDigits(s) {
          FoldMonotone(next, s[1..]);
        }
      } else {
        ScanDigitsCorrect(s[1..], next, limit);
      }
    }
  }

  /** `Long.parseLong` accepts exactly the well-formed strings whose value is
      a long, and then yields that value. */
  lemma ParseLongCorrect(s: Option<string>)
    ensures ParseLong(s).Some? <==>
      s.Some? && IsLongSyntax(s.value) && InLongRange(SyntaxValue(s.value))
    ensures ParseLong(s).Some? ==> ParseLong(s).value == SyntaxValue(s.value)
  {
    if s.Some? && |s.value| > 0 {
      var t := s.value;
      if t[0] == '-' || t[0] == '+' {
        if |t| > 1 {
          ScanDigitsCorrect(t[1..], 0, -MinLong);
          ScanDigitsCorrect(t[1..], 0, MaxLong);
        }
      } else {
        ScanDigitsCorrect(t, 0, MaxLong);
      }
    }
  }

  /** `NatToDigits` prints a canonical numeral that denotes `n`. */
  lemma {:induction false} NatToDigitsCorrect(n: nat)
    ensures IsCanonicalNat(NatToDigits(n))
    ensures DigitsValue(NatToDigits(n)) == n
    decreases n
  {
    if n < 10 {
      var c := DigitChar(n);
      assert [c][1..] == [];
      assert Fold(0, [c]) == Fold(DigitValue(c), []);
    } else {
      var p := NatToDigits(n / 10);
      NatToDigitsCorrect(n / 10);
      FoldSnoc(0, p, DigitChar(n % 10));
      assert NatToDigits(n)[0] == p[0];
    }
  }

  /** `Long.parseLong(Long.toString(v)) == v` for every long `v`. */
  lemma LongToStringRoundTrip(v: int)
    requires InLongRange(v)
    ensures ParseLong(Some(LongToString(v))) == Some(v)
  {
    var s := LongToString(v);
    if v < 0 {
      NatToDigitsCorrect(-v);
      assert s[1..] == NatToDigits(-v);
    } else {
      NatToDigitsCorrect(v);
    }
    ParseLongCorrect(Some(s));
  }

  /** `executeOnLong` returns `null` exactly when `Long.parseLong` rejects the
      input: `null`, the empty string, anything but one optional sign and one
      or more digits, or a value outside the long range. */
  lemma ExecuteOnLongNullIff(value: Option<string>)
    ensures ExecuteOnLong(value).None? <==>
      value.None? || !IsLongSyntax(value.value) || !InLongRange(SyntaxValue(value.value))
  {
    ParseLongCorrect(value);
  }

  /** For every accepted value other than `Long.MIN_VALUE` the result is the
      canonical numeral of its magnitude. */
  lemma CanonicalMagnitude(s: string)
    requires IsLongSyntax(s) && InLongRange(SyntaxValue(s)) && SyntaxValue(s) != MinLong
    ensures ExecuteOnLong(Some(s)).Some?
    ensures IsCanonicalNat(ExecuteOnLong(Some(s)).value)
    ensures DigitsValue(ExecuteOnLong(Some(s)).value) ==
      if SyntaxValue(s) < 0 then -SyntaxValue(s) else SyntaxValue(s)
  {
    ParseLongCorrect(Some(s));
    var v := SyntaxValue(s);
    NatToDigitsCorrect(if v < 0 then -v else v);
  }

  /** "n", "+n" and "-n" give the same result whenever n is a long; when n is
      too large for a long, "n" and "+n" are both rejected. */
  lemma SignInsensitive(d: string)
    requires |d| > 0 && AllDigits(d)
    ensures DigitsValue(d) <= MaxLong ==>
      ExecuteOnLong(Some(d)) == ExecuteOnLong(Some("+" + d)) == ExecuteOnLong(Some("-" + d))
    ensures DigitsValue(d) > MaxLong ==>
      ExecuteOnLong(Some(d)) == ExecuteOnLong(Some("+" + d)) == None
  {
    assert ("+" + d)[1..] == d;
    assert ("-" + d)[1..] == d;
    ParseLongCorrect(Some(d));
    ParseLongCorrect(Some("+" + d));
    ParseLongCorrect(Some("-" + d));
  }

  /** `Math.abs(Long.MIN_VALUE)` is still negative, so "-9223372036854775808"
      comes back unchanged. */
  lemma MinLongCorner()
    ensures ExecuteOnLong(Some(MinLongText)) == Some(MinLongText)
  {
    var t := MinLongText[1..];
    assert MinLongText == "-" + t;
    TwoPow63Digits();
    ParseLongCorrect(Some(MinLongText));
    MinLongToString();
  }

  /** `Long.toString(Long.MIN_VALUE)` is "-9223372036854775808". */
  lemma MinLongToString()
    ensures LongToString(MinLong) == MinLongText
  {
    var t := MinLongText[1..];
    assert MinLongText == "-" + t;
    TwoPow63Digits();
    CanonicalUnique(t);
  }

  /** 2^63 itself, unsigned or with '+', is one past `Long.MAX_VALUE` and is
      rejected, although its negation is accepted. */
  lemma Pow63Rejected()
    ensures ExecuteOnLong(Some(MinLongText[1..])) == None
    ensures ExecuteOnLong(Some("+" + MinLongText[1..])) == None
  {
    var t := MinLongText[1..];
    TwoPow63Digits();
    SignInsensitive(t);
  }

  /** Every canonical numeral is the one `NatToDigits` prints for its value. */
  lemma {:induction false} CanonicalUnique(s: string)
    requires IsCanonicalNat(s)
    ensures NatToDigits(DigitsValue(s)) == s
    decreases |s|
  {
    var init, c := s[..|s| - 1], s[|s| - 1];
    assert s == init + [c];
    FoldSnoc(0, init, c);
    if |s| == 1 {
      assert init == [];
    } else {
      assert init[0] == s[0];
      CanonicalUnique(init);
      FoldMonotone(DigitValue(init[0]), init[1..]);
      var n := DigitsValue(s);
      assert n / 10 == DigitsValue(init) && n % 10 == DigitValue(c);
    }
  }

  /** Concatenating digit strings composes their folds. */
  lemma {:induction false} FoldAppend(acc: nat, s: string, t: string)
    requires AllDigits(s) && AllDigits(t)
    ensures AllDigits(s + t) && Fold(acc, s + t) == Fold(Fold(acc, s), t)
    decreases |s|
  {
    if s == [] {
      assert s + t == t;
    } else {
      assert (s + t)[1..] == s[1..] + t;
      FoldAppend(acc * 10 + DigitValue(s[0]), s[1..], t);
    }
  }

  /** The five blocks of the digits of 2^63, each folded onto the value of
      the blocks before it. */
  lemma Pow63Chunks()
    ensures Fold(0, "9223") == 9223
    ensures Fold(9223, "3720") == 92233720
    ensures Fold(92233720, "3685") == 922337203685
    ensures Fold(922337203685, "4775") == 9223372036854775
    ensures Fold(9223372036854775, "808") == 9223372036854775808
  {
  }

  /** The digits of 2^63 denote 2^63, computed four digits at a time. */
  lemma TwoPow63Digits()
    ensures IsCanonicalNat(MinLongText[1..]) && DigitsValue(MinLongText[1..]) == -MinLong
  {
    Pow63Chunks();
    var s := MinLongText[1..];
    var a, b, c, d, e := "9223", "3720", "3685", "4775", "808";
    assert s == a + b + c + d + e;
    FoldAppend(0, a, b);
    FoldAppend(0, a + b, c);
    FoldAppend(0, a + b + c, d);
    FoldAppend(0, a + b + c + d, e);
  }

  /** A result is never empty, and it starts with '-' only for
      `Long.MIN_VALUE`, where it is "-9223372036854775808". */
  lemma NegativeResultOnlyForMinLong(value: Option<string>)
    requires ExecuteOnLong(value).Some?
    ensures |ExecuteOnLong(value).value| > 0
    ensures ExecuteOnLong(value).value[0] == '-' <==> ParseLong(value) == Some(MinLong)
    ensures ExecuteOnLong(value).value[0] == '-' ==> ExecuteOnLong(value).value == MinLongText
  {
    var v := ParseLong(value).value;
    var a := AbsLong(v);
    if a < 0 {
      MinLongToString();
    } else {
      NatToDigitsCorrect(a);
    }
  }

  /** Taking the absolute value of a result changes nothing. */
  lemma Idempotent(value: Option<string>)
    requires ExecuteOnLong(value).Some?
    ensures ExecuteOnLong(ExecuteOnLong(value)) == ExecuteOnLong(value)
  {
    var a := AbsLong(ParseLong(value).value);
    assert ParseLong(ExecuteOnLong(value)) == Some(a);
    assert AbsLong(a) == a;
  }

  /** Accepted inputs: leading zeros and signs are dropped. */
  lemma Examples()
    ensures ExecuteOnLong(Some("+007")) == Some("7")
    ensures ExecuteOnLong(Some("-7")) == Some("7")
    ensures ExecuteOnLong(Some("-0")) == Some("0")
  {
    assert "+007"[1..] == "007";
    assert "-7"[1..] == "7";
    assert "-0"[1..] == "0";
    ParseLongCorrect(Some("+007"));
    ParseLongCorrect(Some("-7"));
    ParseLongCorrect(Some("-0"));
    assert DigitsValue("007") == 7;
  }

  /** Rejected inputs: the empty string, a lone sign, a letter and `null`. */
  lemma RejectedExamples()
    ensures ExecuteOnLong(Some("")) == None
    ensures ExecuteOnLong(Some("-")) == None
    ensures ExecuteOnLong(Some("1a")) == None
    ensures ExecuteOnLong(None) == None
  {
    assert "1a"[1..] == "a";
  }
}
