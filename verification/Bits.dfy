/** Powers of two, and the bit operations of unbounded integers, bit by bit. */
module Bits {
  function Pow2(n: nat): (p: nat)
    ensures p >= 1
  {
    if n == 0 then 1 else 2 * Pow2(n - 1)
  }

  lemma {:induction false} Pow2Grows(m: nat, n: nat)
    requires m <= n
    ensures Pow2(m) <= Pow2(n)
  {
    if m < n {
      Pow2Grows(m, n - 1);
    }
  }

  function ShiftLeft(x: int, n: nat): (r: int)
    ensures x >= 0 ==> r >= x
  {
    if n == 0 then x else 2 * ShiftLeft(x, n - 1)
  }

  lemma {:induction false} ShiftIsProduct(x: int, n: nat)
    ensures ShiftLeft(x, n) == x * Pow2(n)
  {
    if n > 0 {
      ShiftIsProduct(x, n - 1);
      assert x * (2 * Pow2(n - 1)) == 2 * (x * Pow2(n - 1));
    }
  }

  lemma {:induction false} ShiftOne(n: nat)
    ensures ShiftLeft(1, n) == Pow2(n)
  {
    if n > 0 {
      ShiftOne(n - 1);
    }
  }

  lemma {:induction false} ShiftSum(x: int, y: int, n: nat)
    ensures ShiftLeft(x + y, n) == ShiftLeft(x, n) + ShiftLeft(y, n)
  {
    if n > 0 {
      ShiftSum(x, y, n - 1);
    }
  }

  lemma {:induction false} ShiftTwice(x: int, m: nat, n: nat)
    ensures ShiftLeft(ShiftLeft(x, m), n) == ShiftLeft(x, m + n)
  {
    if n > 0 {
      ShiftTwice(x, m, n - 1);
      assert ShiftLeft(x, m + n) == 2 * ShiftLeft(x, m + (n - 1));
    }
  }

  lemma {:induction false} ShiftGrows(x: int, y: int, n: nat)
    requires x <= y
    ensures ShiftLeft(x, n) <= ShiftLeft(y, n)
    ensures x < y ==> ShiftLeft(x, n) + Pow2(n) <= ShiftLeft(y, n)
  {
    if n > 0 {
      ShiftGrows(x, y, n - 1);
    }
  }

  /** Bitwise or of natural numbers. */
  function BitOr(x: nat, y: nat): (r: nat) {
    if x == 0 then y
    else if y == 0 then x
    else 2 * BitOr(x / 2, y / 2) + (if x % 2 == 1 || y % 2 == 1 then 1 else 0)
  }

  /** Bitwise and of an integer in two's complement of unbounded width with a natural number. */
  function BitAnd(x: int, y: nat): (r: nat)
    decreases y
  {
    if y == 0 then 0 else 2 * BitAnd(x / 2, y / 2) + (if x % 2 == 1 && y % 2 == 1 then 1 else 0)
  }

  /** Numbers without a common bit: or is sum. */
  lemma {:induction false} OrIsSum(x: nat, y: nat, n: nat)
    requires x < Pow2(n)
    ensures BitOr(x, ShiftLeft(y, n)) == x + ShiftLeft(y, n)
  {
    if n > 0 && x > 0 && y > 0 {
      var z := ShiftLeft(y, n - 1);
      OrIsSum(x / 2, y, n - 1);
      assert BitOr(x, 2 * z) == 2 * BitOr(x / 2, z) + x % 2;
    } else if y == 0 {
      ShiftIsProduct(0, n);
    }
  }

  lemma ModSplit(x: int, k: nat)
    requires k > 0
    ensures x % (2 * k) == 2 * ((x / 2) % k) + x % 2
  {
    var q, r := (x / 2) / k, (x / 2) % k;
    assert x / 2 == q * k + r;
    assert x == q * (2 * k) + (2 * r + x % 2);
    DivModUnique(x, 2 * k, q, 2 * r + x % 2);
  }

  lemma MulMonotone(a: int, b: int, d: int)
    requires a <= b && d >= 0
    ensures a * d <= b * d
  {
  }

  lemma DivModUnique(x: int, d: nat, q: int, r: int)
    requires d > 0 && x == q * d + r && 0 <= r < d
    ensures x / d == q && x % d == r
  {
    var q', r' := x / d, x % d;
    assert x == q' * d + r';
    assert (q' + 1) * d == q' * d + d && (q + 1) * d == q * d + d;
    if q >= q' + 1 {
      MulMonotone(q' + 1, q, d);
    } else if q + 1 <= q' {
      MulMonotone(q + 1, q', d);
    }
  }

  /** Masking the low bits is the remainder, for negative numbers too. */
  lemma {:induction false} MaskIsRemainder(x: int, n: nat)
    ensures BitAnd(x, Pow2(n) - 1) == x % Pow2(n)
    decreases n
  {
    if n > 0 {
      var p := Pow2(n - 1);
      MaskIsRemainder(x / 2, n - 1);
      ModSplit(x, p);
      MaskOneMore(x, p - 1, (x / 2) % p, x % (2 * p));
    }
  }

  lemma MaskOneMore(x: int, m: nat, q: int, r: int)
    requires BitAnd(x / 2, m) == q && r == 2 * q + x % 2
    ensures BitAnd(x, 2 * m + 1) == r
  {
    OddMask(x, m);
  }

  lemma OddMask(x: int, m: nat)
    ensures BitAnd(x, 2 * m + 1) == 2 * BitAnd(x / 2, m) + x % 2
  {
    assert (2 * m + 1) / 2 == m && (2 * m + 1) % 2 == 1;
  }

  // ---- packing fields ----------------------------------------------------------------------------

  datatype Field = Field(member: int, width: nat)

  function TotalWidth(fs: seq<Field>): (n: nat) {
    if fs == [] then 0 else fs[0].width + TotalWidth(fs[1..])
  }

  /** The fields' low bits side by side, the first field lowest. */
  function Packed(fs: seq<Field>): (v: nat) {
    if fs == [] then 0
    else fs[0].member % Pow2(fs[0].width) + ShiftLeft(Packed(fs[1..]), fs[0].width)
  }

  /** Reads the fields of the given widths back, lowest first. */
  function Unpacked(v: nat, widths: seq<nat>): (r: seq<nat>)
    decreases |widths|
  {
    if widths == [] then []
    else
      QuotientIsNat(v, Pow2(widths[0]));
      [v % Pow2(widths[0])] + Unpacked(v / Pow2(widths[0]), widths[1..])
  }

  /** The quotient, rounded up. */
  function CeilDiv(a: nat, b: nat): (q: nat)
    requires b > 0
  {
    QuotientIsNat(a + b - 1, b);
    (a + b - 1) / b
  }

  lemma CeilDivBounds(a: nat, b: nat)
    requires b > 0
    ensures a <= CeilDiv(a, b) * b < a + b
  {
    var n := a + b - 1;
    assert n == (n / b) * b + n % b;
  }

  function Sum(s: seq<nat>): (n: nat) {
    if s == [] then 0 else Sum(s[..|s| - 1]) + s[|s| - 1]
  }

  lemma NonNegativeProduct(a: real, b: real)
    requires a >= 0.0 && b >= 0.0
    ensures a * b >= 0.0
  {
  }

  lemma QuotientIsNat(v: nat, d: nat)
    requires d > 0
    ensures v / d >= 0
  {
  }

  function Widths(fs: seq<Field>): (r: seq<nat>)
    ensures |r| == |fs| && forall i :: 0 <= i < |r| ==> r[i] == fs[i].width
  {
    seq(|fs|, i requires 0 <= i < |fs| => fs[i].width)
  }

  /** What is left of a field in its width. */
  function LowBits(fs: seq<Field>): (r: seq<nat>)
    ensures |r| == |fs| && forall i :: 0 <= i < |r| ==> r[i] == fs[i].member % Pow2(fs[i].width)
  {
    seq(|fs|, i requires 0 <= i < |fs| => fs[i].member % Pow2(fs[i].width))
  }

  /** Round trip. */
  lemma {:induction false} UnpackedPacked(fs: seq<Field>)
    ensures Unpacked(Packed(fs), Widths(fs)) == LowBits(fs)
  {
    if fs != [] {
      UnpackedPacked(fs[1..]);
      var d := Pow2(fs[0].width);
      ShiftIsProduct(Packed(fs[1..]), fs[0].width);
      DivModUnique(Packed(fs), d, Packed(fs[1..]), fs[0].member % d);
      assert Widths(fs)[1..] == Widths(fs[1..]);
      assert LowBits(fs) == [fs[0].member % d] + LowBits(fs[1..]);
    }
  }

  /** A number below 2^m with a number below 2^n on top of it is below 2^(m + n). */
  lemma StackedFits(r: nat, m: nat, v: nat, n: nat)
    requires r < Pow2(m) && v < Pow2(n)
    ensures r + ShiftLeft(v, m) < Pow2(m + n)
  {
    ShiftGrows(v, Pow2(n), m);
    ShiftOne(n);
    ShiftTwice(1, n, m);
    ShiftOne(n + m);
  }

  lemma {:induction false} PackedFits(fs: seq<Field>)
    ensures Packed(fs) < Pow2(TotalWidth(fs))
  {
    if fs != [] {
      PackedFits(fs[1..]);
      StackedFits(fs[0].member % Pow2(fs[0].width), fs[0].width, Packed(fs[1..]), TotalWidth(fs[1..]));
    }
  }

  /** Equal remainders pack to equal values. */
  lemma {:induction false} PackedOfLowBits(fs: seq<Field>, gs: seq<Field>)
    requires Widths(fs) == Widths(gs) && LowBits(fs) == LowBits(gs)
    ensures Packed(fs) == Packed(gs)
  {
    assert |fs| == |gs|;
    if fs != [] {
      assert Widths(fs)[0] == Widths(gs)[0] && LowBits(fs)[0] == LowBits(gs)[0];
      assert Widths(fs[1..]) == Widths(fs)[1..] && Widths(gs[1..]) == Widths(gs)[1..];
      assert LowBits(fs[1..]) == LowBits(fs)[1..] && LowBits(gs[1..]) == LowBits(gs)[1..];
      PackedOfLowBits(fs[1..], gs[1..]);
    }
  }

  /** One more field goes on top. */
  lemma {:induction false} PackedSnoc(fs: seq<Field>, f: Field)
    ensures TotalWidth(fs + [f]) == TotalWidth(fs) + f.width
    ensures Packed(fs + [f]) == Packed(fs) + ShiftLeft(f.member % Pow2(f.width), TotalWidth(fs))
  {
    if fs == [] {
      assert fs + [f] == [f];
      ShiftIsProduct(0, f.width);
    } else {
      PackedSnoc(fs[1..], f);
      assert (fs + [f])[1..] == fs[1..] + [f];
      var x, t, w := f.member % Pow2(f.width), TotalWidth(fs[1..]), fs[0].width;
      ShiftSum(Packed(fs[1..]), ShiftLeft(x, t), w);
      ShiftTwice(x, t, w);
    }
  }

  lemma OrAndAdvance(fs: seq<Field>, f: Field)
    ensures BitOr(Packed(fs), ShiftLeft(BitAnd(f.member, ShiftLeft(1, f.width) - 1), TotalWidth(fs)))
         == Packed(fs + [f])
    ensures TotalWidth(fs + [f]) == TotalWidth(fs) + f.width
  {
    ShiftOne(f.width);
    MaskIsRemainder(f.member, f.width);
    PackedFits(fs);
    OrIsSum(Packed(fs), f.member % Pow2(f.width), TotalWidth(fs));
    PackedSnoc(fs, f);
  }

  /** `or_and_advance` for every field: mask, shift to the offset, or in. */
  method Pack(fs: seq<Field>) returns (val: nat, offset: nat)
    ensures val == Packed(fs) && offset == TotalWidth(fs)
  {
    val, offset := 0, 0;
    for i := 0 to |fs|
      invariant val == Packed(fs[..i]) && offset == TotalWidth(fs[..i])
    {
      var bitMask := ShiftLeft(1, fs[i].width) - 1;
      OrAndAdvance(fs[..i], fs[i]);
      assert fs[..i + 1] == fs[..i] + [fs[i]];
      val := BitOr(val, ShiftLeft(BitAnd(fs[i].member, bitMask), offset));
      offset := offset + fs[i].width;
    }
    assert fs[..|fs|] == fs;
  }
}
