/** Every number of section 6 of RFC 8259 that fits the copy of `parse_number` is read as the real
    number it denotes, here by the weights of its digits. */
module Decimals {
  import opened Bytes
  import opened Numbers

  type digit = d: int | 0 <= d < 10

  datatype Sign = NoSign | PlusSign | MinusSign

  datatype Power = NoPower | Power(capital: bool, sign: Sign, digits: seq<digit>)

  /** A numeral without the rule against leading zeros, which the code does not enforce. An empty
      fraction has no dot. */
  datatype Figure = Figure(negative: bool, whole: seq<digit>, fraction: seq<digit>, power: Power)

  predicate WellFormed(n: Figure) { n.whole != [] && (n.power.Power? ==> n.power.digits != []) }

  function Chars(ds: seq<digit>): (t: seq<byte>)
    ensures |t| == |ds| && forall i :: 0 <= i < |ds| ==> t[i] == ZERO + ds[i] && IsDigit(t[i])
  {
    seq(|ds|, i requires 0 <= i < |ds| => ZERO + ds[i])
  }

  function SignText(s: Sign): seq<byte> {
    match s
    case NoSign => []
    case PlusSign => [PLUS]
    case MinusSign => [MINUS]
  }

  function PowerText(p: Power): seq<byte> {
    match p
    case NoPower => []
    case Power(capital, sign, digits) => [if capital then 69 else 101] + (SignText(sign) + Chars(digits))
  }

  function FractionText(ds: seq<digit>): seq<byte> { if ds == [] then [] else [DOT] + Chars(ds) }

  function Text(n: Figure): seq<byte> {
    (if n.negative then [MINUS] else []) + (Chars(n.whole) + (FractionText(n.fraction) + PowerText(n.power)))
  }

  // ---------- the number denoted ----------

  /** The first digit weighs the most. */
  function Whole(ds: seq<digit>): nat { if ds == [] then 0 else ds[0] * TenTo(|ds| - 1) + Whole(ds[1..]) }

  /** Tenths, hundredths and so on. */
  function Fraction(ds: seq<digit>): real { if ds == [] then 0.0 else (ds[0] as real + Fraction(ds[1..])) / 10.0 }

  /** The point moved by `e` places. */
  function Moved(x: real, e: int): real
    decreases if e < 0 then -e else e
  {
    if e == 0 then x else if e > 0 then Moved(10.0 * x, e - 1) else Moved(x / 10.0, e + 1)
  }

  function PowerValue(p: Power): int {
    match p
    case NoPower => 0
    case Power(_, sign, digits) => if sign == MinusSign then 0 - Whole(digits) else Whole(digits)
  }

  function Value(n: Figure): real {
    var x := Moved(Whole(n.whole) as real + Fraction(n.fraction), PowerValue(n.power));
    if n.negative then -x else x
  }

  // ---------- the same number as `strtod` finds it ----------

  lemma {:induction false} WholeAppend(ds: seq<digit>, d: digit)
    ensures Whole(ds + [d]) == 10 * Whole(ds) + d
  {
    hide TenTo;
    if ds == [] {
      assert [d][1..] == [] && ds + [d] == [d];
      Weight(d, 0);
    } else {
      assert (ds + [d])[0] == ds[0] && (ds + [d])[1..] == ds[1..] + [d];
      WholeAppend(ds[1..], d);
      Weight(ds[0], |ds|);
    }
  }

  lemma Weight(d: digit, k: nat)
    ensures k == 0 ==> d * TenTo(k) == d
    ensures k > 0 ==> d * TenTo(k) == 10 * (d * TenTo(k - 1))
  {
  }

  lemma {:induction false} CharsValue(ds: seq<digit>)
    ensures DigitsValue(Chars(ds)) == Whole(ds)
    decreases |ds|
  {
    if ds != [] {
      var n := |ds| - 1;
      assert Chars(ds)[..n] == Chars(ds[..n]) && ds == ds[..n] + [ds[n]];
      CharsValue(ds[..n]);
      WholeAppend(ds[..n], ds[n]);
    }
  }

  lemma Pow10Step(e: int)
    ensures Pow10(e) == 10.0 * Pow10(e - 1)
  {
  }

  lemma {:induction false} MovedIs(x: real, e: int)
    ensures Moved(x, e) == x * Pow10(e)
    decreases if e < 0 then -e else e
  {
    if e > 0 {
      MovedIs(10.0 * x, e - 1);
    } else if e < 0 {
      MovedIs(x / 10.0, e + 1);
    }
  }

  lemma {:induction false} Pow10Minus(e: int, k: nat)
    ensures Pow10(e - k) == Pow10(0 - k) * Pow10(e)
    decreases k
  {
    if k > 0 {
      Pow10Minus(e, k - 1);
      Pow10Step(e - k + 1);
      Pow10Step(1 - k);
    }
  }

  lemma {:induction false} FractionAppend(ds: seq<digit>, d: digit)
    ensures Fraction(ds + [d]) == Fraction(ds) + d as real * Pow10(0 - |ds| - 1)
  {
    if ds == [] {
      assert [d][1..] == [] && ds + [d] == [d];
      Pow10Step(0);
    } else {
      assert (ds + [d])[1..] == ds[1..] + [d];
      FractionAppend(ds[1..], d);
      Pow10Step(0 - |ds|);
    }
  }

  /** The digits in front of and behind the dot taken together, and scaled back. */
  lemma {:induction false} BothParts(whole: seq<digit>, fraction: seq<digit>)
    ensures Whole(whole) as real + Fraction(fraction) == Whole(whole + fraction) as real * Pow10(0 - |fraction|)
    decreases |fraction|
  {
    hide Whole, Fraction, Pow10;
    if fraction == [] {
      assert whole + fraction == whole;
      NoFraction();
    } else {
      var n := |fraction| - 1;
      var before, d := fraction[..n], fraction[n];
      assert fraction == before + [d] && whole + fraction == (whole + before) + [d];
      BothParts(whole, before);
      FractionAppend(before, d);
      WholeAppend(whole + before, d);
      Pow10Step(0 - n);
      Collect(Whole(whole + before) as real, d as real, Pow10(0 - n - 1));
    }
  }

  lemma NoFraction()
    ensures Fraction([]) == 0.0 && Pow10(0) == 1.0
  {
  }

  lemma Collect(x: real, d: real, p: real)
    ensures (10.0 * x + d) * p == x * (10.0 * p) + d * p
  {
  }

  lemma Magnitude(n: Figure)
    ensures Moved(Whole(n.whole) as real + Fraction(n.fraction), PowerValue(n.power))
         == Whole(n.whole + n.fraction) as real * Pow10(PowerValue(n.power) - |n.fraction|)
  {
    hide Moved, Whole, Fraction, Pow10, PowerValue;
    var e, k, x := PowerValue(n.power), |n.fraction|, Whole(n.whole + n.fraction) as real;
    BothParts(n.whole, n.fraction);
    MovedIs(Whole(n.whole) as real + Fraction(n.fraction), e);
    Pow10Minus(e, k);
    Reassociate(x, Pow10(0 - k), Pow10(e));
  }

  lemma Reassociate(x: real, y: real, z: real)
    ensures (x * y) * z == x * (y * z)
  {
  }

  // ---------- reading the text ----------

  /** Digits up to something that is none. */
  lemma DigitsAt(t: seq<byte>, i: nat, ds: seq<digit>)
    requires At(t, i, Chars(ds)) && (i + |ds| == |t| || !IsDigit(t[i + |ds|]))
    ensures i + |ds| <= |t| && DigitRun(t, i) == |ds| && t[i..i + |ds|] == Chars(ds)
  {
    forall k | i <= k < i + |ds| ensures IsDigit(t[k]) {
      AtIndex(t, i, Chars(ds), k - i);
    }
    DigitRunStops(t, i, |ds|);
  }

  lemma {:induction false} DigitRunStops(t: seq<byte>, i: nat, n: nat)
    requires i + n <= |t| && (forall k :: i <= k < i + n ==> IsDigit(t[k])) && (i + n == |t| || !IsDigit(t[i + n]))
    ensures DigitRun(t, i) == n
    decreases n
  {
    if n > 0 {
      DigitRunStops(t, i + 1, n - 1);
    }
  }

  lemma PowerParts(t: seq<byte>, i: nat, p: Power)
    requires p.Power? && At(t, i, PowerText(p)) && i + |PowerText(p)| == |t| && p.digits != []
    ensures var start := i + 1 + |SignText(p.sign)|;
            && i + 1 < |t| && (t[i] == 101 || t[i] == 69) && (IsSign(t, i + 1) <==> p.sign != NoSign)
            && (t[i + 1] == MINUS <==> p.sign == MinusSign)
            && At(t, start, Chars(p.digits)) && start + |p.digits| == |t|
  {
    hide At, Chars;
    var letter, sign, digits := [if p.capital then 69 else 101], SignText(p.sign), Chars(p.digits);
    AtAppend(t, i, letter, sign + digits);
    AtIndex(t, i, letter, 0);
    AtAppend(t, i + 1, sign, digits);
    CharsDigits(p.digits);
    if p.sign != NoSign {
      AtIndex(t, i + 1, sign, 0);
    } else {
      AtIndex(t, i + 1, digits, 0);
    }
  }

  lemma CharsDigits(ds: seq<digit>)
    ensures |Chars(ds)| == |ds| && forall i :: 0 <= i < |ds| ==> IsDigit(Chars(ds)[i])
  {
  }

  lemma ExponentIs(t: seq<byte>, i: nat, start: nat, digits: seq<byte>)
    requires i + 1 < |t| && (t[i] == 101 || t[i] == 69) && start == (if IsSign(t, i + 1) then i + 2 else i + 1)
    requires digits != [] && start <= |t| && DigitRun(t, start) == |digits| && t[start..start + |digits|] == digits
    requires forall k :: 0 <= k < |digits| ==> IsDigit(digits[k])
    ensures var v: int := DigitsValue(digits); Exponent(t, i) == (start + |digits|, if t[i + 1] == MINUS then -v else v)
  {
    hide DigitRun, DigitsValue;
  }

  lemma NoExponent(t: seq<byte>)
    ensures Exponent(t, |t|) == (|t|, 0) && PowerValue(NoPower) == 0 && PowerText(NoPower) == []
  {
  }

  lemma PowerReads(t: seq<byte>, i: nat, p: Power)
    requires At(t, i, PowerText(p)) && i + |PowerText(p)| == |t| && (p.Power? ==> p.digits != [])
    ensures Exponent(t, i) == (|t|, PowerValue(p))
    ensures i < |t| ==> !IsDigit(t[i]) && t[i] != DOT && t[i] != MINUS
  {
    hide At, Whole, DigitsValue, DigitRun, Chars, Exponent, PowerText, SignText;
    if p.Power? {
      var start := i + 1 + |SignText(p.sign)|;
      PowerParts(t, i, p);
      SignLength(p.sign);
      DigitsAt(t, start, p.digits);
      CharsValue(p.digits);
      CharsDigits(p.digits);
      ExponentIs(t, i, start, Chars(p.digits));
    } else {
      NoExponent(t);
    }
  }

  lemma SignLength(s: Sign)
    ensures |SignText(s)| == if s == NoSign then 0 else 1
  {
  }

  /** Where the parts of a numeral stand. */
  lemma Parts(n: Figure)
    requires WellFormed(n)
    ensures var t, start := Text(n), if n.negative then 1 else 0;
            var dot := start + |n.whole|;
            var end := dot + |FractionText(n.fraction)|;
            && (n.negative <==> t[0] == MINUS) && (IsSign(t, 0) <==> n.negative)
            && At(t, start, Chars(n.whole)) && At(t, dot, FractionText(n.fraction)) && At(t, end, PowerText(n.power))
            && end + |PowerText(n.power)| == |t| && start < |t|
  {
    hide At;
    var t := Text(n);
    var sign, rest := if n.negative then [MINUS] else [], FractionText(n.fraction) + PowerText(n.power);
    AtWhole(t);
    AtAppend(t, 0, sign, Chars(n.whole) + rest);
    AtAppend(t, |sign|, Chars(n.whole), rest);
    AtAppend(t, |sign| + |n.whole|, FractionText(n.fraction), PowerText(n.power));
    if n.negative {
      AtIndex(t, 0, sign, 0);
    }
    AtIndex(t, |sign|, Chars(n.whole), 0);
  }

  lemma FractionReads(t: seq<byte>, dot: nat, ds: seq<digit>, p: Power)
    requires At(t, dot, FractionText(ds)) && At(t, dot + |FractionText(ds)|, PowerText(p))
    requires dot + |FractionText(ds)| + |PowerText(p)| == |t| && (p.Power? ==> p.digits != [])
    ensures (dot < |t| && t[dot] == DOT) <==> ds != []
    ensures dot < |t| ==> !IsDigit(t[dot])
    ensures ds != [] ==> DigitRun(t, dot + 1) == |ds| && dot + 1 + |ds| <= |t| && t[dot + 1..dot + 1 + |ds|] == Chars(ds)
  {
    hide At, PowerText, Chars, DigitRun, Exponent, PowerValue, FractionText;
    FractionIs(ds);
    PowerReads(t, dot + |FractionText(ds)|, p);
    if ds != [] {
      AtAppend(t, dot, [DOT], Chars(ds));
      AtIndex(t, dot, [DOT], 0);
      DigitsAt(t, dot + 1, ds);
    }
  }

  lemma FractionIs(ds: seq<digit>)
    ensures if ds == [] then FractionText(ds) == [] else FractionText(ds) == [DOT] + Chars(ds) && |Chars(ds)| == |ds|
  {
  }

  lemma BothChars(whole: seq<digit>, fraction: seq<digit>)
    ensures Chars(whole) + Chars(fraction) == Chars(whole + fraction)
    ensures fraction == [] ==> Chars(whole) + [] == Chars(whole + fraction)
  {
    assert fraction == [] ==> whole + fraction == whole;
  }

  /** What `strtod` makes of a numeral whose parts are known. */
  lemma StrtodIs(t: seq<byte>, start: nat, whole: nat, fraction: nat, end: nat, e: int, digits: seq<byte>)
    requires t != [] && start == (if IsSign(t, 0) then 1 else 0) && DigitRun(t, start) == whole > 0
    requires var dot := start + whole;
             && (fraction > 0 <==> dot < |t| && t[dot] == DOT) && (fraction > 0 ==> DigitRun(t, dot + 1) == fraction)
             && end == (if fraction > 0 then dot + 1 + fraction else dot) <= |t|
             && digits == t[start..dot] + (if fraction > 0 then t[dot + 1..end] else [])
    requires (forall k :: 0 <= k < |digits| ==> IsDigit(digits[k])) && Exponent(t, end) == (|t|, e)
    ensures var x := DigitsValue(digits) as real * Pow10(e - fraction); Strtod(t) == Numeral(|t|, if t[0] == MINUS then -x else x)
  {
    hide DigitsValue, Pow10, DigitRun, Exponent;
  }

  lemma StrtodOf(n: Figure)
    requires WellFormed(n)
    ensures |Text(n)| > 0 && Strtod(Text(n)) == Numeral(|Text(n)|, Value(n))
  {
    hide At, Text, PowerText, DigitsValue, Pow10, Moved, Whole, Fraction, DigitRun, Exponent, PowerValue, Chars, FractionText, Strtod;
    var t, start := Text(n), if n.negative then 1 else 0;
    var dot := start + |n.whole|;
    var end := dot + |FractionText(n.fraction)|;
    Parts(n);
    FractionIs(n.fraction);
    FractionReads(t, dot, n.fraction, n.power);
    DigitsAt(t, start, n.whole);
    PowerReads(t, end, n.power);
    BothChars(n.whole, n.fraction);
    CharsDigits(n.whole + n.fraction);
    CharsValue(n.whole + n.fraction);
    Magnitude(n);
    StrtodIs(t, start, |n.whole|, |n.fraction|, end, PowerValue(n.power), Chars(n.whole + n.fraction));
  }

  predicate NumberBytes(t: seq<byte>) { forall i :: 0 <= i < |t| ==> IsNumberByte(t[i]) }

  lemma BothNumberBytes(s: seq<byte>, t: seq<byte>)
    requires NumberBytes(s) && NumberBytes(t)
    ensures NumberBytes(s + t)
  {
  }

  lemma PartsAreNumberBytes(ds: seq<digit>, p: Power)
    ensures NumberBytes(Chars(ds)) && NumberBytes(FractionText(ds)) && NumberBytes(PowerText(p))
  {
    if p.Power? {
      BothNumberBytes(SignText(p.sign), Chars(p.digits));
    }
  }

  lemma FigureBytes(n: Figure)
    ensures NumberBytes(Text(n))
  {
    hide NumberBytes, Chars, FractionText, PowerText;
    PartsAreNumberBytes(n.whole, n.power);
    PartsAreNumberBytes(n.fraction, n.power);
    BothNumberBytes(FractionText(n.fraction), PowerText(n.power));
    BothNumberBytes(Chars(n.whole), FractionText(n.fraction) + PowerText(n.power));
    assert NumberBytes(if n.negative then [MINUS] else []) by { Minus(); }
    BothNumberBytes(if n.negative then [MINUS] else [], Chars(n.whole) + (FractionText(n.fraction) + PowerText(n.power)));
  }

  lemma Minus()
    ensures NumberBytes([MINUS]) && NumberBytes([])
  {
  }

  /** Every numeral of at most 63 bytes is read as its value, wherever it stands, when the next byte
      cannot continue it. */
  lemma FigureReads(c: seq<byte>, o: nat, n: Figure)
    requires WellFormed(n) && |Text(n)| <= 63 && At(c, o, Text(n))
    requires o + |Text(n)| < |c| ==> !IsDigit(c[o + |Text(n)|]) && c[o + |Text(n)|] !in {DOT, PLUS, MINUS, 101, 69}
    ensures ReadNumber(c, o) == NumberRead(Value(n), o + |Text(n)|)
  {
    hide At, Text, Strtod, Value, ReadNumber;
    StrtodOf(n);
    FigureBytes(n);
    TextReads(c, o, Text(n), Value(n));
  }

  /** More than 63 digits are cut: the number is what the first 63 say, and reading stops there. */
  lemma LongFigureCut(c: seq<byte>, o: nat, ds: seq<digit>)
    requires |ds| > 63 && At(c, o, Chars(ds))
    ensures ReadNumber(c, o) == NumberRead(Whole(ds[..63]) as real, o + 63)
  {
    hide At, Strtod, Whole, Text, Chars, NumberRun;
    var first := Chars(ds[..63]);
    CharsSplit(ds, 63);
    AtAppend(c, o, first, Chars(ds[63..]));
    AtIs(c, o, first);
    forall i | o <= i < o + 63 ensures i < |c| && IsNumberByte(c[i]) {
      AtIndex(c, o, first, i - o);
    }
    NumberRunIs(c, o, NUMBER_CHARS, 63);
    WholeText(ds[..63]);
    StrtodOf(Figure(false, ds[..63], [], NoPower));
  }

  lemma CharsSplit(ds: seq<digit>, k: nat)
    requires k <= |ds|
    ensures Chars(ds) == Chars(ds[..k]) + Chars(ds[k..]) && |Chars(ds[..k])| == k
    ensures forall i :: 0 <= i < k ==> IsDigit(Chars(ds[..k])[i])
  {
  }

  lemma WholeText(ds: seq<digit>)
    ensures Text(Figure(false, ds, [], NoPower)) == Chars(ds)
    ensures Value(Figure(false, ds, [], NoPower)) == Whole(ds) as real
  {
    assert [] + (Chars(ds) + ([] + [])) == Chars(ds);
  }
}
