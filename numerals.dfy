/** Binary, hexadecimal and decimal numerals as strings: the value a binary
    string denotes (Python's `int(s, 2)`), the zero-padded upper-case hex
    rendering `"0x{0:07X}"` used for the multi-bit fields of a code word, and
    the decimal rendering `str(n)` used for TE-counter annotations. */
module Numerals {

  // ----- powers -----

  function Pow2(k: nat): (p: nat)
    ensures p >= 1
  {
    if k == 0 then 1 else 2 * Pow2(k - 1)
  }

  function Pow16(k: nat): (p: nat)
    ensures p >= 1
  {
    if k == 0 then 1 else 16 * Pow16(k - 1)
  }

  lemma {:induction false} Pow2Add(a: nat, b: nat)
    ensures Pow2(a + b) == Pow2(a) * Pow2(b)
  {
    if b > 0 {
      Pow2Add(a, b - 1);
      assert Pow2(a + b) == 2 * Pow2(a + b - 1);
    }
  }

  lemma {:induction false} Pow16IsPow2(k: nat)
    ensures Pow16(k) == Pow2(4 * k)
  {
    if k > 0 {
      Pow16IsPow2(k - 1);
      Pow2Add(4 * (k - 1), 4);
      assert Pow2(4) == 16;
    }
  }

  // ----- binary strings, most significant digit first -----

  predicate IsBit(c: char) {
    c == '0' || c == '1'
  }

  predicate IsBinary(s: string) {
    forall i :: 0 <= i < |s| ==> IsBit(s[i])
  }

  function BitValue(c: char): nat {
    if c == '1' then 1 else 0
  }

  /** The number a binary string denotes, read most significant digit first,
      as `int(s, 2)` reads it: zero exactly when every digit is '0'. */
  function BinValue(s: string): (v: nat)
    requires IsBinary(s)
    ensures v == 0 <==> forall i :: 0 <= i < |s| ==> s[i] == '0'
  {
    if s == [] then 0
    else
      var high, low := BinValue(s[..|s| - 1]), BitValue(s[|s| - 1]);
      assert forall i :: 0 <= i < |s| - 1 ==> s[..|s| - 1][i] == s[i];
      2 * high + low
  }

  /** Prepending a digit adds its weight at the new top position. */
  lemma {:induction false} BinValuePrepend(c: char, s: string)
    requires IsBit(c) && IsBinary(s)
    ensures IsBinary([c] + s)
    ensures BinValue([c] + s) == BitValue(c) * Pow2(|s|) + BinValue(s)
  {
    var t := [c] + s;
    if s == [] {
      assert t[..0] == [];
    } else {
      assert t[..|t| - 1] == [c] + s[..|s| - 1];
      assert t[|t| - 1] == s[|s| - 1];
      BinValuePrepend(c, s[..|s| - 1]);
      calc {
        BinValue(t);
        2 * BinValue([c] + s[..|s| - 1]) + BitValue(s[|s| - 1]);
        2 * (BitValue(c) * Pow2(|s| - 1) + BinValue(s[..|s| - 1])) + BitValue(s[|s| - 1]);
        BitValue(c) * (2 * Pow2(|s| - 1)) + BinValue(s);
      }
    }
  }

  /** A binary string of k digits denotes a number below 2^k. */
  lemma {:induction false} BinValueBound(s: string)
    requires IsBinary(s)
    ensures BinValue(s) < Pow2(|s|)
  {
    if s != [] {
      BinValueBound(s[..|s| - 1]);
    }
  }

  // ----- bit sequences received least significant bit first -----

  /** The value of a bit sequence whose first element is the least
      significant bit: the sum of bits[i] * 2^i. */
  function LsbValue(bits: seq<char>): nat
  {
    if bits == [] then 0
    else LsbValue(bits[..|bits| - 1]) + BitValue(bits[|bits| - 1]) * Pow2(|bits| - 1)
  }

  /** The sequence in the opposite order; `Reverse(bits + [c]) == [c] + Reverse(bits)`,
      which is what prepending each received bit builds. */
  function Reverse(bits: seq<char>): (r: seq<char>)
    ensures |r| == |bits|
  {
    if bits == [] then [] else [bits[|bits| - 1]] + Reverse(bits[..|bits| - 1])
  }

  lemma {:induction false} ReverseBinary(bits: seq<char>)
    requires IsBinary(bits)
    ensures IsBinary(Reverse(bits))
  {
    if bits != [] {
      ReverseBinary(bits[..|bits| - 1]);
      var r := Reverse(bits);
      forall i | 0 <= i < |r| ensures IsBit(r[i]) {
        if i > 0 {
          assert r[i] == Reverse(bits[..|bits| - 1])[i - 1];
        }
      }
    }
  }

  /** Prepending every received bit in turn onto `acc` yields a binary string
      whose value puts the received bits, first bit lowest, above `acc`. */
  lemma {:induction false} AccumulatedValue(bits: seq<char>, acc: string)
    requires IsBinary(bits) && IsBinary(acc)
    ensures IsBinary(Reverse(bits) + acc)
    ensures BinValue(Reverse(bits) + acc) == LsbValue(bits) * Pow2(|acc|) + BinValue(acc)
  {
    if bits == [] {
      assert Reverse(bits) + acc == acc;
    } else {
      var p := bits[..|bits| - 1];
      var c := bits[|bits| - 1];
      assert IsBinary(p);
      AccumulatedValue(p, acc);
      assert Reverse(bits) + acc == [c] + (Reverse(p) + acc);
      BinValuePrepend(c, Reverse(p) + acc);
      Pow2Add(|p|, |acc|);
      ScaledSum(BitValue(c), Pow2(|p|), Pow2(|acc|), LsbValue(p));
    }
  }

  lemma ScaledSum(b: nat, p: nat, a: nat, l: nat)
    ensures b * (p * a) + l * a == (l + b * p) * a
  {
  }

  // ----- upper-case hexadecimal -----

  predicate IsHexDigit(c: char) {
    '0' <= c <= '9' || 'A' <= c <= 'F'
  }

  predicate IsUpperHex(s: string) {
    forall i :: 0 <= i < |s| ==> IsHexDigit(s[i])
  }

  function HexDigitValue(c: char): nat
    requires IsHexDigit(c)
  {
    if c <= '9' then c as int - '0' as int else c as int - 'A' as int + 10
  }

  function HexDigit(d: nat): (c: char)
    requires d < 16
    ensures IsHexDigit(c) && HexDigitValue(c) == d
  {
    if d < 10 then ('0' as int + d) as char else ('A' as int + d - 10) as char
  }

  /** The number an upper-case hex string denotes, most significant digit first. */
  function HexValue(s: string): nat
    requires IsUpperHex(s)
  {
    if s == [] then 0 else 16 * HexValue(s[..|s| - 1]) + HexDigitValue(s[|s| - 1])
  }

  /** Python's `format(v, "X")`: the shortest upper-case hex rendering of v. */
  function ToHex(v: nat): (r: string)
    ensures |r| >= 1 && IsUpperHex(r)
    ensures HexValue(r) == v
    ensures |r| > 1 ==> r[0] != '0'
  {
    if v < 16 then [HexDigit(v)]
    else
      var high := ToHex(v / 16);
      var r := high + [HexDigit(v % 16)];
      assert r[..|r| - 1] == high;
      r
  }

  /** A value below 16^k needs at most k hex digits. */
  lemma {:induction false} ToHexLength(v: nat, k: nat)
    requires k >= 1 && v < Pow16(k)
    ensures |ToHex(v)| <= k
  {
    if v >= 16 {
      assert Pow16(k) == 16 * Pow16(k - 1);
      assert v / 16 < Pow16(k - 1);
      ToHexLength(v / 16, k - 1);
    }
  }

  function Zeros(k: nat): (z: string)
    ensures |z| == k && forall i :: 0 <= i < k ==> z[i] == '0'
  {
    seq(k, _ => '0')
  }

  lemma {:induction false} HexValueZeroPrepend(s: string)
    requires IsUpperHex(s)
    ensures IsUpperHex(['0'] + s) && HexValue(['0'] + s) == HexValue(s)
  {
    var t := ['0'] + s;
    if s == [] {
      assert t[..0] == [];
    } else {
      assert t[..|t| - 1] == ['0'] + s[..|s| - 1];
      HexValueZeroPrepend(s[..|s| - 1]);
    }
  }

  /** Leading zeros do not change the value of a hex string. */
  lemma {:induction false} HexValueLeadingZeros(k: nat, s: string)
    requires IsUpperHex(s)
    ensures IsUpperHex(Zeros(k) + s) && HexValue(Zeros(k) + s) == HexValue(s)
  {
    if k > 0 {
      HexValueLeadingZeros(k - 1, s);
      assert Zeros(k) == ['0'] + Zeros(k - 1);
      assert Zeros(k) + s == ['0'] + (Zeros(k - 1) + s);
      HexValueZeroPrepend(Zeros(k - 1) + s);
    } else {
      assert Zeros(k) + s == s;
    }
  }

  /** `"{0:0{w}X}"`: the hex digits, left-padded with zeros to at least w. */
  function PadLeft(s: string, w: nat): (r: string)
    ensures |r| == if |s| >= w then |s| else w
    ensures r[|r| - |s|..] == s
    ensures forall i :: 0 <= i < |r| - |s| ==> r[i] == '0'
  {
    if |s| >= w then s else Zeros(w - |s|) + s
  }

  /** Python's `"0x{0:07X}".format(int(bits, 2))`. `int("", 2)` raises, so the
      string must not be empty. The result is "0x" and upper-case hex digits
      denoting exactly the value of `bits`, either exactly seven of them or,
      when more are needed, as many as needed with no leading zero: nothing
      is truncated and the rendering is the canonical one. */
  function Bin2Hex(bits: string): (r: string)
    requires IsBinary(bits) && |bits| > 0
    ensures |r| >= 9 && r[..2] == "0x"
    ensures IsUpperHex(r[2..]) && HexValue(r[2..]) == BinValue(bits)
    ensures |r| == 9 || r[2] != '0'
  {
    var digits := ToHex(BinValue(bits));
    HexValueLeadingZeros(if |digits| >= 7 then 0 else 7 - |digits|, digits);
    var r := "0x" + PadLeft(digits, 7);
    assert r[2..] == PadLeft(digits, 7);
    r
  }

  lemma PowerMonotone(a: nat, b: nat)
    requires a <= b
    ensures Pow2(a) <= Pow2(b)
  {
    Pow2Add(a, b - a);
    var low, rest := Pow2(a), Pow2(b - a);
    assert low <= low * rest;
  }

  /** A binary field of at most 4k bits takes at most k hex digits. */
  lemma HexDigitsBound(bits: string, k: nat)
    requires IsBinary(bits) && |bits| > 0 && k >= 1 && |bits| <= 4 * k
    ensures |ToHex(BinValue(bits))| <= k
  {
    BinValueBound(bits);
    PowerMonotone(|bits|, 4 * k);
    Pow16IsPow2(k);
    ToHexLength(BinValue(bits), k);
  }

  /** A field of at most 28 bits (the serial number) always takes exactly
      seven hex digits; one of at most 32 bits (the encrypted portion) at
      most eight. */
  lemma FieldWidths(bits: string)
    requires IsBinary(bits) && |bits| > 0
    ensures |bits| <= 28 ==> |Bin2Hex(bits)| == 9
    ensures |bits| <= 32 ==> |Bin2Hex(bits)| <= 10
  {
    if |bits| <= 32 {
      HexDigitsBound(bits, 8);
    }
    if |bits| <= 28 {
      HexDigitsBound(bits, 7);
    }
  }

  /** The rendering of a field whose bits were received least significant
      first and prepended one by one onto `acc`. */
  lemma ReceivedFieldRendering(bits: seq<char>, acc: string)
    requires IsBinary(bits) && IsBinary(acc) && |bits| > 0
    ensures IsBinary(Reverse(bits) + acc)
    ensures var h := Bin2Hex(Reverse(bits) + acc);
      && |h| >= 9 && IsUpperHex(h[2..])
      && HexValue(h[2..]) == LsbValue(bits) * Pow2(|acc|) + BinValue(acc)
      && (|bits| + |acc| <= 28 ==> |h| == 9)
      && (|bits| + |acc| <= 32 ==> |h| <= 10)
  {
    AccumulatedValue(bits, acc);
    FieldWidths(Reverse(bits) + acc);
  }

  /** Reading the reversed bits most significant first is reading the bits
      least significant first. */
  lemma ReverseValue(bits: seq<char>)
    requires IsBinary(bits)
    ensures IsBinary(Reverse(bits)) && BinValue(Reverse(bits)) == LsbValue(bits)
  {
    AccumulatedValue(bits, "");
    assert Reverse(bits) + "" == Reverse(bits);
  }

  lemma {:induction false} ZerosValue(k: nat)
    ensures IsBinary(Zeros(k)) && BinValue(Zeros(k)) == 0
  {
    if k > 0 {
      ZerosValue(k - 1);
      assert Zeros(k)[..k - 1] == Zeros(k - 1);
    }
  }

  lemma SmallHexTexts()
    ensures PadLeft(ToHex(0), 7) == "0000000" && PadLeft(ToHex(1), 7) == "0000001"
  {
    assert ToHex(0) == "0" && ToHex(1) == "1";
    assert Zeros(6) == "000000";
  }

  /** An all-zero field of any width renders as seven zeros, and a field of
      value one as six zeros and a one. */
  lemma ZeroAndOneFields(k: nat)
    requires k > 0
    ensures Bin2Hex(Zeros(k)) == "0x0000000"
    ensures Bin2Hex(Zeros(k) + "1") == "0x0000001"
  {
    ZerosValue(k);
    var one := Zeros(k) + "1";
    assert one[..|one| - 1] == Zeros(k);
    assert IsBinary(one) && BinValue(one) == 1;
    SmallHexTexts();
    hide ToHex, PadLeft, Zeros, BinValue, HexValue, IsUpperHex, IsBinary;
  }

  /** A field received onto an empty accumulation: its bits read least
      significant first. */
  lemma FreshFieldRendering(bits: seq<char>)
    requires IsBinary(bits) && |bits| > 0
    ensures IsBinary(Reverse(bits))
    ensures var h := Bin2Hex(Reverse(bits));
      && |h| >= 9 && IsUpperHex(h[2..]) && HexValue(h[2..]) == LsbValue(bits)
      && (|bits| <= 28 ==> |h| == 9) && (|bits| <= 32 ==> |h| <= 10)
  {
    ReverseValue(bits);
    FieldWidths(Reverse(bits));
  }

  /** Reversed bits on top of a single '0' are worth twice the bits. */
  lemma StaleZeroValue(bits: seq<char>)
    requires IsBinary(bits)
    ensures IsBinary(Reverse(bits) + "0") && BinValue(Reverse(bits) + "0") == 2 * LsbValue(bits)
  {
    AccumulatedValue(bits, "0");
    assert "0"[..0] == [];
    assert BinValue("0") == 0 && Pow2(1) == 2;
  }

  /** A field received onto a single stale '0': twice its bits' value. */
  lemma StaleZeroRendering(bits: seq<char>)
    requires IsBinary(bits) && |bits| > 0
    ensures IsBinary(Reverse(bits) + "0")
    ensures var h := Bin2Hex(Reverse(bits) + "0");
      |h| >= 9 && IsUpperHex(h[2..]) && HexValue(h[2..]) == 2 * LsbValue(bits)
  {
    StaleZeroValue(bits);
  }

  // ----- decimal, for str(n) -----

  predicate IsDecimal(s: string) {
    forall i :: 0 <= i < |s| ==> '0' <= s[i] <= '9'
  }

  function DecimalValue(s: string): nat
    requires IsDecimal(s)
  {
    if s == [] then 0 else 10 * DecimalValue(s[..|s| - 1]) + (s[|s| - 1] as int - '0' as int)
  }

  /** Python's `str(v)` for a natural number: the shortest decimal rendering. */
  function Decimal(v: nat): (r: string)
    ensures |r| >= 1 && IsDecimal(r)
    ensures DecimalValue(r) == v
    ensures |r| > 1 ==> r[0] != '0'
  {
    if v < 10 then [('0' as int + v) as char]
    else
      var high := Decimal(v / 10);
      var r := high + [('0' as int + v % 10) as char];
      assert r[..|r| - 1] == high;
      r
  }
}
