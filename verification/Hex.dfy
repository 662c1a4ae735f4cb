/** Hexadecimal numbers on the serial console: printhex and gethex. */
module Hex {
  import opened Arith
  import opened Bytes

  /** `num` shifted right by `k` hexadecimal digits. */
  function ShiftedRight(num: nat, k: nat): nat {
    if k == 0 then num else ShiftedRight(num, k - 1) / 16
  }

  function DigitChar(v: nat): byte
    requires v < 16
  {
    if v < 10 then v + 0x30 else v + 0x41 - 10
  }

  /** The last `d` hexadecimal digits of a number, most significant first. */
  function Digits(num: nat, d: nat): (s: seq<byte>)
    ensures |s| == d
    decreases d
  {
    if d == 0 then [] else Digits(num / 16, d - 1) + [DigitChar(num % 16)]
  }

  /** printhex: each digit by a shift of its own. More than 8 digits would shift a 32-bit number by its
      own width. */
  method PrintHex(num: nat, digits: nat) returns (out: seq<byte>)
    requires num < 0x1_0000_0000 && digits <= 8
    ensures out == Digits(num, digits)
  {
    out := [];
    var i := 0;
    while i < digits
      invariant 0 <= i <= digits
      invariant out == Digits(ShiftedRight(num, digits - i), i)
    {
      var buf := ShiftedRight(num, digits - i - 1) % 16;
      if buf < 10 { buf := buf + 0x30; } else { buf := buf + 0x41 - 10; }
      out := out + [buf];
      i := i + 1;
    }
  }

  /** lowercase. */
  function Lower(c: byte): byte {
    if 0x41 <= c <= 0x5A then c + 0x20 else c
  }

  predicate IsDigit(c: byte) {
    0x30 <= c <= 0x39 || 0x41 <= c <= 0x46 || 0x61 <= c <= 0x66
  }

  /** The value of a digit of either case. */
  function DigitValue(c: byte): (v: nat)
    requires IsDigit(c)
    ensures v < 16
  {
    if c <= 0x39 then c - 0x30 else if c <= 0x46 then c - 0x41 + 10 else c - 0x61 + 10
  }

  predicate AllDigits(s: seq<byte>) {
    forall i :: 0 <= i < |s| ==> IsDigit(s[i])
  }

  /** The number that a string of digits denotes. */
  function Value(s: seq<byte>): nat
    requires AllDigits(s)
    decreases |s|
  {
    if |s| == 0 then 0 else 16 * Value(s[..|s| - 1]) + DigitValue(s[|s| - 1])
  }

  function Power16(d: nat): (p: nat)
    ensures p > 0
  {
    if d == 0 then 1 else 16 * Power16(d - 1)
  }

  /** gethex: fails at the first character that is no digit; the number is kept in 32 bits. */
  method GetHex(input: seq<byte>, digits: nat) returns (code: int, num: nat)
    requires digits <= |input|
    ensures code == if AllDigits(input[..digits]) then 0 else -1
    ensures code == 0 ==> num == Value(input[..digits]) % 0x1_0000_0000
  {
    num := 0;
    for i := 0 to digits
      invariant AllDigits(input[..i]) && num == Value(input[..i]) % 0x1_0000_0000
    {
      var buf: int := Lower(input[i]);
      if buf < 0x30 || buf > 0x66 || (buf > 0x39 && buf < 0x61) {
        assert input[i] == input[..digits][i] && !IsDigit(input[i]);
        return -1, num;
      }
      if buf > 0x39 { buf := buf - (0x61 - 10); } else { buf := buf - 0x30; }
      assert input[..i + 1] == input[..i] + [input[i]];
      assert input[..i + 1][..i] == input[..i];
      Wrapped(Value(input[..i]), buf);
      num := (num * 16 % 0x1_0000_0000 + buf) % 0x1_0000_0000;
    }
    return 0, num;
  }

  lemma Wrapped(v: nat, b: nat)
    ensures (v % 0x1_0000_0000 * 16 % 0x1_0000_0000 + b) % 0x1_0000_0000 == (16 * v + b) % 0x1_0000_0000
  {
    var q, r := v / 0x1_0000_0000, v % 0x1_0000_0000;
    assert 16 * v + b == 0x1_0000_0000 * (16 * q) + (16 * r + b);
    var q2, r2 := r * 16 / 0x1_0000_0000, r * 16 % 0x1_0000_0000;
    assert 16 * r + b == 0x1_0000_0000 * q2 + (r2 + b);
    ModPlus(16 * q, 16 * r + b);
    ModPlus(q2, r2 + b);
  }

  lemma ModPlus(k: nat, x: nat)
    ensures (0x1_0000_0000 * k + x) % 0x1_0000_0000 == x % 0x1_0000_0000
  {
  }

  lemma DigitRoundTrip(v: nat)
    requires v < 16
    ensures IsDigit(DigitChar(v)) && DigitValue(DigitChar(v)) == v
  {
  }

  lemma {:induction false} LowDigits(num: nat, p: nat)
    requires p > 0
    ensures Rem(num, 16 * p) == 16 * Rem(num / 16, p) + num % 16
    decreases num
  {
    var a, b := num / 16, num % 16;
    assert num == 16 * a + b;
    if num >= 16 * p {
      LowDigits(num - 16 * p, p);
      assert num - 16 * p == 16 * (a - p) + b;
      assert (num - 16 * p) / 16 == a - p && (num - 16 * p) % 16 == b;
    }
  }

  lemma {:induction false} PrintedRem(num: nat, d: nat)
    ensures AllDigits(Digits(num, d)) && Value(Digits(num, d)) == Rem(num, Power16(d))
    decreases d
  {
    if d > 0 {
      PrintedRem(num / 16, d - 1);
      DigitRoundTrip(num % 16);
      LowDigits(num, Power16(d - 1));
      assert Digits(num, d)[..d - 1] == Digits(num / 16, d - 1);
      hide DigitValue, DigitChar, Rem;
    }
  }

  /** What printhex prints, gethex reads back as the number's low digits. */
  lemma PrintedReadsBack(num: nat, d: nat)
    requires num < 0x1_0000_0000
    ensures AllDigits(Digits(num, d))
    ensures Value(Digits(num, d)) % 0x1_0000_0000 == num % Power16(d)
  {
    hide Digits, Value, Power16, Rem, Quot;
    PrintedRem(num, d);
    RemSmaller(num, Power16(d));
    QuotRemAreDivMod(num, Power16(d));
  }

  lemma {:induction false} RemSmaller(n: nat, d: nat)
    requires d > 0
    ensures Rem(n, d) <= n
    decreases n
  {
    if n >= d { RemSmaller(n - d, d); }
  }

  /** The digits that are printed, capitals from ten on. */
  lemma DigitsAre(v: nat)
    requires v < 16
    ensures DigitChar(v) == Text("0123456789ABCDEF")[v]
  {
  }

  /** A digit is read the same in either case, and its value is its place among the digits. */
  lemma DigitsReadAre(c: byte)
    ensures IsDigit(c) <==> c in Text("0123456789ABCDEF") || c in Text("0123456789abcdef")
    ensures IsDigit(c) ==> IsDigit(Lower(c)) && DigitValue(Lower(c)) == DigitValue(c)
    ensures IsDigit(c) ==> Text("0123456789abcdef")[DigitValue(c)] == Lower(c)
  {
    var up, low := Text("0123456789ABCDEF"), Text("0123456789abcdef");
    if IsDigit(c) {
      var v := DigitValue(c);
      assert low[v] == Lower(c) && (c <= 0x46 ==> up[v] == c);
    }
    assert forall i :: 0 <= i < 16 ==> IsDigit(up[i]) && IsDigit(low[i]);
  }
}
