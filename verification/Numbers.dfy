/** JSON numbers: the `%d` text of an int32, and the bounded copy plus `strtod` that reads it.
    `strtod` is exact here: its result is the real number the decimal text denotes. */
module Numbers {
  import opened Bytes

  // ---------- writing ----------

  function Digits(n: nat): (s: seq<byte>)
    ensures |s| >= 1 && forall i :: 0 <= i < |s| ==> IsDigit(s[i])
  {
    if n < 10 then [ZERO + n] else Digits(n / 10) + [ZERO + n % 10]
  }

  /** `sprintf("%d", n)` */
  function Decimal(n: int): (s: seq<byte>)
    ensures |s| >= 1 && (IsDigit(s[0]) || s[0] == MINUS)
  {
    if n < 0 then [MINUS] + Digits(-n) else Digits(n)
  }

  // ---------- reading ----------

  predicate IsNumberByte(b: byte) {
    IsDigit(b) || b == PLUS || b == MINUS || b == 101 || b == 69 || b == DOT
  }

  /** How many bytes the copying loop of `parse_number` takes from `o`, at most `max`. */
  function NumberRun(c: seq<byte>, o: nat, max: nat): (n: nat)
    ensures n <= max && (n > 0 ==> o + n <= |c|)
    ensures forall i :: o <= i < o + n ==> IsNumberByte(c[i])
    decreases max
  {
    if max == 0 || o >= |c| || !IsNumberByte(c[o]) then 0 else 1 + NumberRun(c, o + 1, max - 1)
  }

  lemma {:induction false} NumberRunIs(c: seq<byte>, o: nat, max: nat, n: nat)
    requires n <= max && o + n <= |c|
    requires forall i :: o <= i < o + n ==> IsNumberByte(c[i])
    requires n == max || o + n == |c| || !IsNumberByte(c[o + n])
    ensures NumberRun(c, o, max) == n
    decreases n
  {
    if n > 0 {
      NumberRunIs(c, o + 1, max - 1, n - 1);
    }
  }

  function DigitRun(t: seq<byte>, i: nat): (n: nat)
    requires i <= |t|
    ensures i + n <= |t|
    ensures forall k :: i <= k < i + n ==> IsDigit(t[k])
    decreases |t| - i
  {
    if i < |t| && IsDigit(t[i]) then 1 + DigitRun(t, i + 1) else 0
  }

  function DigitsFrom(t: seq<byte>, i: nat): (s: seq<byte>)
    requires i <= |t|
    ensures forall k :: 0 <= k < |s| ==> IsDigit(s[k])
  {
    t[i..i + DigitRun(t, i)]
  }

  function DigitsValue(t: seq<byte>): nat
    requires forall k :: 0 <= k < |t| ==> IsDigit(t[k])
  {
    if t == [] then 0
    else
      var last: int := t[|t| - 1];
      assert IsDigit(t[|t| - 1]);
      10 * DigitsValue(t[..|t| - 1]) + last - ZERO
  }

  function Pow10(e: int): real
    decreases if e < 0 then -e else e
  {
    if e == 0 then 1.0 else if e > 0 then 10.0 * Pow10(e - 1) else Pow10(e + 1) / 10.0
  }

  predicate IsSign(t: seq<byte>, i: nat) { i < |t| && (t[i] == PLUS || t[i] == MINUS) }

  /** `strtod`: the longest numeric prefix and its value; length 0 when there is none. */
  datatype Numeral = Numeral(length: nat, value: real)

  function Exponent(t: seq<byte>, i: nat): (r: (nat, int))
    requires i <= |t|
    ensures r.0 == i || i + 2 <= r.0 <= |t|
  {
    if i < |t| && (t[i] == 101 || t[i] == 69) then
      var start := if IsSign(t, i + 1) then i + 2 else i + 1;
      var n := DigitRun(t, start);
      if n == 0 then (i, 0)
      else
        var e: int := DigitsValue(t[start..start + n]);
        (start + n, if t[i + 1] == MINUS then -e else e)
    else (i, 0)
  }

  function Strtod(t: seq<byte>): (r: Numeral)
    ensures r.length <= |t|
  {
    var start := if IsSign(t, 0) then 1 else 0;
    var whole := DigitRun(t, start);
    var dot := start + whole;
    var hasDot := dot < |t| && t[dot] == DOT;
    var fraction := if hasDot then DigitRun(t, dot + 1) else 0;
    if whole + fraction == 0 then Numeral(0, 0.0)
    else
      var end := if hasDot then dot + 1 + fraction else dot;
      var digits := DigitsFrom(t, start) + (if hasDot then DigitsFrom(t, dot + 1) else []);
      var exponent := Exponent(t, end);
      var magnitude := DigitsValue(digits) as real * Pow10(exponent.1 - fraction);
      Numeral(exponent.0, if t[0] == MINUS then -magnitude else magnitude)
  }

  datatype NumberRead = NumberRead(d: real, end: nat) | NoNumber

  /** The size of the copy in `parse_number`, without its terminator. */
  const NUMBER_CHARS := 63

  /** `parse_number` at `o`. */
  function ReadNumber(c: seq<byte>, o: nat): (r: NumberRead)
    requires o <= |c|
    ensures r.NumberRead? ==> o < r.end <= |c| && r.end <= o + NUMBER_CHARS
    ensures r.NumberRead? ==> forall i :: o <= i < r.end ==> IsNumberByte(c[i])
  {
    var n := Strtod(c[o..o + NumberRun(c, o, NUMBER_CHARS)]);
    if n.length == 0 then NoNumber else NumberRead(n.value, o + n.length)
  }

  predicate Ends(c: seq<byte>, e: nat) { e >= |c| || !IsNumberByte(c[e]) }

  /** A text that `strtod` takes whole is read from any place where nothing continues it. */
  lemma TextReads(c: seq<byte>, o: nat, t: seq<byte>, d: real)
    requires 0 < |t| <= NUMBER_CHARS && Strtod(t) == Numeral(|t|, d)
    requires forall i :: 0 <= i < |t| ==> IsNumberByte(t[i])
    requires At(c, o, t) && Ends(c, o + |t|)
    ensures ReadNumber(c, o) == NumberRead(d, o + |t|)
  {
    hide Strtod;
    forall i | o <= i < o + |t| ensures IsNumberByte(c[i]) {
      AtIndex(c, o, t, i - o);
    }
    NumberRunIs(c, o, NUMBER_CHARS, |t|);
  }

  /** Conversely a number that nothing continues is the whole text copied. */
  lemma ReadsText(c: seq<byte>, o: nat, d: real, e: nat)
    requires o <= |c| && ReadNumber(c, o) == NumberRead(d, e) && Ends(c, e)
    ensures 0 < |c[o..e]| <= NUMBER_CHARS && Strtod(c[o..e]) == Numeral(|c[o..e]|, d)
    ensures forall i :: 0 <= i < |c[o..e]| ==> IsNumberByte(c[o..e][i])
  {
    hide Strtod;
    NumberRunIs(c, o, NUMBER_CHARS, e - o);
    assert o + NumberRun(c, o, NUMBER_CHARS) == e;
  }

  // ---------- the two fit ----------

  lemma {:induction false} DigitsDenote(n: nat)
    ensures DigitsValue(Digits(n)) == n
  {
    if n < 10 {
      var s := Digits(n);
      assert s[..0] == [];
      assert DigitsValue(s) == 10 * DigitsValue(s[..0]) + (s[0] - ZERO);
    } else {
      DigitsDenote(n / 10);
      assert Digits(n)[..|Digits(n)| - 1] == Digits(n / 10);
    }
  }

  function TenTo(k: nat): nat { if k == 0 then 1 else 10 * TenTo(k - 1) }

  lemma {:induction false} DigitsShort(n: nat, k: nat)
    requires k >= 1 && n < TenTo(k)
    ensures |Digits(n)| <= k
  {
    if n >= 10 {
      DigitsShort(n / 10, k - 1);
    }
  }

  lemma DecimalShort(n: int)
    requires INT_MIN <= n <= INT_MAX
    ensures |Decimal(n)| <= 11
  {
    assert TenTo(3) == 1000 && TenTo(6) == 1000 * TenTo(3);
    assert TenTo(9) == 1000 * TenTo(6) && TenTo(10) == 10 * TenTo(9);
    DigitsShort(if n < 0 then -n else n, 10);
  }

  /** No leading zeros. */
  lemma {:induction false} DigitsLead(n: nat)
    ensures Digits(n)[0] == ZERO ==> n == 0 && Digits(n) == [ZERO]
  {
    if n >= 10 {
      DigitsLead(n / 10);
    }
  }

  lemma DecimalLead(n: int)
    ensures (Decimal(n)[0] == MINUS <==> n < 0) && (Decimal(n)[0] == ZERO ==> Decimal(n) == [ZERO])
    ensures n < 0 ==> IsDigit(Decimal(n)[1]) && Decimal(n)[1] != ZERO
  {
    DigitsLead(if n < 0 then -n else n);
  }

  lemma {:induction false} DigitRunIs(t: seq<byte>, i: nat)
    requires i <= |t| && forall k :: i <= k < |t| ==> IsDigit(t[k])
    ensures DigitRun(t, i) == |t| - i
    decreases |t| - i
  {
    if i < |t| {
      DigitRunIs(t, i + 1);
    }
  }

  lemma StrtodOfDecimal(n: int)
    ensures Strtod(Decimal(n)) == Numeral(|Decimal(n)|, n as real)
  {
    var t := Decimal(n);
    var start := if n < 0 then 1 else 0;
    assert IsSign(t, 0) <==> n < 0;
    DigitRunIs(t, start);
    assert t[start..] == Digits(if n < 0 then -n else n);
    assert t[start..start + (|t| - start)] + [] == t[start..];
    DigitsDenote(if n < 0 then -n else n);
  }

  /** Every int32, wherever its decimal text stands, is read back when the next byte cannot
      continue a number. */
  lemma DecimalReads(c: seq<byte>, o: nat, n: int)
    requires INT_MIN <= n <= INT_MAX && At(c, o, Decimal(n))
    requires Ends(c, o + |Decimal(n)|)
    ensures ReadNumber(c, o) == NumberRead(n as real, o + |Decimal(n)|)
  {
    var t := Decimal(n);
    DecimalShort(n);
    StrtodOfDecimal(n);
    TextReads(c, o, t, n as real);
  }
}
