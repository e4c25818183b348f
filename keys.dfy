// Rule and input keys of the Ackermann build command. The command formats
// every key with "ack(%d,%d)" into a 32-byte buffer; the model keeps the
// key structured and gives its text by KeyName.

module AckKeys {

  /** The key "ack(m,n)": the build-system name of the value Ack(m, n). */
  datatype Key = Key(m: int, n: int)

  predicate IsDigit(c: char) {
    '0' <= c <= '9'
  }

  function DigitChar(d: nat): (c: char)
    requires d < 10
  {
    ('0' as int + d) as char
  }

  /** The decimal digits of x, most significant first, without leading zeros. */
  function NatDecimal(x: nat): (s: string)
    ensures 1 <= |s| && (|s| == 1 <==> x < 10)
    ensures forall i :: 0 <= i < |s| ==> IsDigit(s[i])
    decreases x
  {
    if x < 10 then [DigitChar(x)] else NatDecimal(x / 10) + [DigitChar(x % 10)]
  }

  /** The text "%d" gives for x: a minus sign before the digits of a negative number. */
  function Decimal(x: int): (s: string)
    ensures 1 <= |s|
    ensures s[0] == '-' <==> x < 0
    ensures forall i :: 0 <= i < |s| ==> s[i] == '-' || IsDigit(s[i])
  {
    if x < 0 then "-" + NatDecimal(-x) else NatDecimal(x)
  }

  /** The text sprintf(buf, "ack(%d,%d)", k.m, k.n) writes. */
  function KeyName(k: Key): (name: string) {
    "ack(" + Decimal(k.m) + "," + Decimal(k.n) + ")"
  }

  lemma {:induction false} NatDecimalInjective(x: nat, y: nat)
    requires NatDecimal(x) == NatDecimal(y)
    ensures x == y
    decreases x
  {
    var sx, sy := NatDecimal(x), NatDecimal(y);
    if x >= 10 && y >= 10 {
      assert sx[..|sx| - 1] == NatDecimal(x / 10);
      assert sy[..|sy| - 1] == NatDecimal(y / 10);
      NatDecimalInjective(x / 10, y / 10);
      assert sx[|sx| - 1] == DigitChar(x % 10);
      assert sy[|sy| - 1] == DigitChar(y % 10);
    } else if x < 10 && y < 10 {
      assert sx[0] == DigitChar(x) && sy[0] == DigitChar(y);
    }
  }

  lemma DecimalInjective(x: int, y: int)
    requires Decimal(x) == Decimal(y)
    ensures x == y
  {
    if x < 0 && y < 0 {
      assert Decimal(x)[1..] == NatDecimal(-x);
      assert Decimal(y)[1..] == NatDecimal(-y);
      NatDecimalInjective(-x, -y);
    } else if x >= 0 && y >= 0 {
      NatDecimalInjective(x, y);
    }
  }

  /** The index of the first comma in s, or |s| when there is none. */
  function FirstComma(s: string): (i: nat)
    ensures i <= |s|
  {
    if s == [] || s[0] == ',' then 0 else 1 + FirstComma(s[1..])
  }

  lemma {:induction false} FirstCommaAfter(p: string, q: string)
    requires forall i :: 0 <= i < |p| ==> p[i] != ','
    ensures FirstComma(p + [','] + q) == |p|
  {
    if p != [] {
      assert (p + [','] + q)[1..] == p[1..] + [','] + q;
      FirstCommaAfter(p[1..], q);
    }
  }

  /** The part of KeyName(k) between "ack(" and ")". */
  lemma KeyNameArguments(k: Key)
    ensures |KeyName(k)| == |Decimal(k.m)| + |Decimal(k.n)| + 6
    ensures KeyName(k)[4..|KeyName(k)| - 1] == Decimal(k.m) + [','] + Decimal(k.n)
  {
  }

  /** Distinct keys have distinct names, so no two rules of the build
      command are registered under the same name. */
  lemma KeyNameInjective(a: Key, b: Key)
    ensures KeyName(a) == KeyName(b) <==> a == b
  {
    if KeyName(a) == KeyName(b) {
      var s := KeyName(a);
      KeyNameArguments(a);
      KeyNameArguments(b);
      var mid := s[4..|s| - 1];
      FirstCommaAfter(Decimal(a.m), Decimal(a.n));
      FirstCommaAfter(Decimal(b.m), Decimal(b.n));
      var k := |Decimal(a.m)|;
      assert k == |Decimal(b.m)|;
      assert mid[..k] == Decimal(a.m) && mid[..k] == Decimal(b.m);
      assert mid[k + 1..] == Decimal(a.n) && mid[k + 1..] == Decimal(b.n);
      DecimalInjective(a.m, b.m);
      DecimalInjective(a.n, b.n);
    }
  }

  function Pow10(k: nat): (r: nat)
    ensures r >= 1
  {
    if k == 0 then 1 else 10 * Pow10(k - 1)
  }

  lemma {:induction false} NatDecimalLength(x: nat, k: nat)
    requires x < Pow10(k + 1)
    ensures |NatDecimal(x)| <= k + 1
    decreases k
  {
    if x >= 10 {
      assert k >= 1;
      assert x / 10 < Pow10(k);
      NatDecimalLength(x / 10, k - 1);
    }
  }

  /** The largest value of a 32-bit int. */
  const IntMax: int := 0x7fff_ffff

  predicate IsInt32(x: int) {
    -IntMax - 1 <= x <= IntMax
  }

  /** For 32-bit arguments the name has at most 28 characters, so with its
      terminating NUL it fits the 32-byte buffers the command formats into. */
  lemma KeyNameFitsBuffer(k: Key)
    requires IsInt32(k.m) && IsInt32(k.n)
    ensures |KeyName(k)| <= 28
  {
    assert Pow10(10) == 10_000_000_000;
    NatDecimalLength(if k.m < 0 then -k.m else k.m, 9);
    NatDecimalLength(if k.n < 0 then -k.n else k.n, 9);
  }
}
