/** vllm/vllm/scalar_type.py: `ScalarType`, its integer ids and its floating-point limits. */
module ScalarTypes {
  import opened Common
  import opened Bits

  datatype NanRepr = None_ | Ieee754 | ExtdRangeMaxMin {
    function Value(): nat {
      match this
      case None_ => 0
      case Ieee754 => 1
      case ExtdRangeMaxMin => 2
    }
  }

  datatype ScalarType = ScalarType(exponent: nat, mantissa: nat, signed: bool, bias: int,
                                   finiteValuesOnly: bool, nanRepr: NanRepr)

  // ---- ids ---------------------------------------------------------------------------------------

  function FromBool(b: bool): nat {
    if b then 1 else 0
  }

  function Fields(t: ScalarType): (fs: seq<Field>)
    ensures Widths(fs) == [8, 8, 1, 32, 1, 8]
  {
    [Field(t.exponent, 8), Field(t.mantissa, 8), Field(FromBool(t.signed), 1), Field(t.bias, 32),
     Field(FromBool(t.finiteValuesOnly), 1), Field(t.nanRepr.Value(), 8)]
  }

  /** `id`, without the registration. */
  method ComputeId(t: ScalarType) returns (val: nat)
    ensures val == IdOf(t)
  {
    var offset;
    val, offset := Pack(Fields(t));
    WidthOfFields(t);
    assert offset <= 64;
  }

  function IdOf(t: ScalarType): (v: nat) {
    Packed(Fields(t))
  }

  lemma WidthOfFields(t: ScalarType)
    ensures TotalWidth(Fields(t)) == 58
  {
    var fs := Fields(t);
    assert fs[1..][1..] == fs[2..] && fs[2..][1..] == fs[3..] && fs[3..][1..] == fs[4..] && fs[4..][1..] == fs[5..];
    assert fs[5..][1..] == [];
    assert TotalWidth(fs[5..]) == 8;
    assert TotalWidth(fs[4..]) == 9;
    assert TotalWidth(fs[3..]) == 41;
    assert TotalWidth(fs[2..]) == 42;
    assert TotalWidth(fs[1..]) == 50;
  }

  /** The values that the id has room for; the bias in two's complement. */
  predicate InRange(t: ScalarType) {
    t.exponent < Pow2(8) && t.mantissa < Pow2(8) && 0 <= t.bias + Pow2(31) && t.bias < Pow2(31)
  }

  /** Equal where the id can tell: the bias only modulo 2^32, the widths only modulo 2^8. */
  predicate SameLowBits(t: ScalarType, u: ScalarType) {
    && t.exponent % Pow2(8) == u.exponent % Pow2(8) && t.mantissa % Pow2(8) == u.mantissa % Pow2(8)
    && t.signed == u.signed && t.bias % Pow2(32) == u.bias % Pow2(32)
    && t.finiteValuesOnly == u.finiteValuesOnly && t.nanRepr == u.nanRepr
  }

  lemma SmallFields(t: ScalarType)
    ensures FromBool(t.signed) % Pow2(1) == FromBool(t.signed)
    ensures FromBool(t.finiteValuesOnly) % Pow2(1) == FromBool(t.finiteValuesOnly)
    ensures t.nanRepr.Value() % Pow2(8) == t.nanRepr.Value()
  {
    assert Pow2(1) == 2 && Pow2(2) == 4;
    Pow2Grows(2, 8);
    SmallMod(FromBool(t.signed), Pow2(1));
    SmallMod(FromBool(t.finiteValuesOnly), Pow2(1));
    SmallMod(t.nanRepr.Value(), Pow2(8));
  }

  lemma FieldBits(t: ScalarType)
    ensures LowBits(Fields(t)) == [t.exponent % Pow2(8), t.mantissa % Pow2(8), FromBool(t.signed),
                                   t.bias % Pow2(32), FromBool(t.finiteValuesOnly), t.nanRepr.Value()]
  {
    SmallFields(t);
  }

  /** Where the fields lie: the exponent in the lowest 8 bits, then the mantissa in 8, the sign in one,
      the bias in 32, whether there are only finite values in one, and the NaNs in 8. */
  lemma IdLayout(t: ScalarType)
    requires InRange(t)
    ensures var bias := if t.bias >= 0 then t.bias else t.bias + 0x1_0000_0000;
            IdOf(t) == t.exponent + 0x100 * t.mantissa + (if t.signed then 0x1_0000 else 0) + 0x2_0000 * bias
                       + (if t.finiteValuesOnly then 0x2_0000_0000_0000 else 0)
                       + 0x4_0000_0000_0000 * (match t.nanRepr case None_ => 0 case Ieee754 => 1
                                                               case ExtdRangeMaxMin => 2)
  {
    var ls := LowBits(Fields(t));
    FieldsInRange(t);
    PackedSix(Fields(t));
    SideBySide(ls);
  }

  lemma FieldsInRange(t: ScalarType)
    requires InRange(t)
    ensures LowBits(Fields(t)) == [t.exponent, t.mantissa, FromBool(t.signed),
                                   if t.bias >= 0 then t.bias else t.bias + 0x1_0000_0000,
                                   FromBool(t.finiteValuesOnly), t.nanRepr.Value()]
  {
    FieldBits(t);
    SmallMod(t.exponent as int, Pow2(8));
    SmallMod(t.mantissa as int, Pow2(8));
    var p := Pow2(31);
    Powers();
    BiasDecodes(t.bias, p);
  }

  function Stack(ls: seq<nat>, ws: seq<nat>): (v: int)
    requires |ls| == |ws| == 6
  {
    ls[0] + ShiftLeft(ls[1] + ShiftLeft(ls[2] + ShiftLeft(ls[3] + ShiftLeft(ls[4] + ShiftLeft(ls[5], ws[4]),
      ws[3]), ws[2]), ws[1]), ws[0])
  }

  lemma PackedSix(fs: seq<Field>)
    requires |fs| == 6
    ensures Packed(fs) == Stack(LowBits(fs), Widths(fs))
  {
    var ps := seq(7, i requires 0 <= i < 7 => Packed(fs[i..]));
    assert fs[6..] == [] && fs[0..] == fs;
    forall i | 0 <= i < 6
      ensures OnTop(ps, LowBits(fs), Widths(fs), i)
    {
      FirstField(fs, i);
    }
    StackOf(ps, LowBits(fs), Widths(fs));
  }

  ghost predicate OnTop(ps: seq<nat>, ls: seq<nat>, ws: seq<nat>, i: nat)
    requires i < |ls| == |ws| && |ps| == |ls| + 1
  {
    ps[i] == ls[i] + ShiftLeft(ps[i + 1], ws[i])
  }

  lemma StackOf(ps: seq<nat>, ls: seq<nat>, ws: seq<nat>)
    requires |ls| == |ws| == 6 && |ps| == 7 && ps[6] == 0
    requires forall i {:trigger OnTop(ps, ls, ws, i)} :: 0 <= i < 6 ==> OnTop(ps, ls, ws, i)
    ensures ps[0] == Stack(ls, ws)
  {
    ShiftIsProduct(0, ws[5]);
    assert OnTop(ps, ls, ws, 5) && OnTop(ps, ls, ws, 4) && OnTop(ps, ls, ws, 3);
    assert OnTop(ps, ls, ws, 2) && OnTop(ps, ls, ws, 1) && OnTop(ps, ls, ws, 0);
  }

  lemma FirstField(fs: seq<Field>, i: nat)
    requires i < |fs|
    ensures Packed(fs[i..]) == LowBits(fs)[i] + ShiftLeft(Packed(fs[i + 1..]), Widths(fs)[i])
  {
    assert fs[i..][1..] == fs[i + 1..];
  }

  lemma SideBySide(ls: seq<nat>)
    requires |ls| == 6
    ensures Stack(ls, [8, 8, 1, 32, 1, 8])
         == ls[0] + 0x100 * ls[1] + 0x1_0000 * ls[2] + 0x2_0000 * ls[3] + 0x2_0000_0000_0000 * ls[4]
            + 0x4_0000_0000_0000 * ls[5]
  {
    var e := ls[4] + 2 * ls[5];
    var d := ls[3] + 0x1_0000_0000 * e;
    var c := ls[2] + 2 * d;
    var b := ls[1] + 0x100 * c;
    ShiftByFour(ls[5], 0);
    ShiftByFour(d, 0);
    ShiftByWord(e);
    ShiftByByte(c);
    ShiftByByte(b);
  }

  lemma ShiftByByte(x: int)
    ensures ShiftLeft(x, 8) == 0x100 * x
  {
    ShiftByFour(x, 0);
    ShiftByFour(x, 4);
  }

  lemma ShiftByWord(x: int)
    ensures ShiftLeft(x, 32) == 0x1_0000_0000 * x
  {
    ShiftByByte(x);
    ShiftByFour(x, 8);
    ShiftByFour(x, 12);
    ShiftByFour(x, 16);
    ShiftByFour(x, 20);
    ShiftByFour(x, 24);
    ShiftByFour(x, 28);
  }

  lemma ShiftByFour(x: int, n: nat)
    ensures ShiftLeft(x, n + 4) == 16 * ShiftLeft(x, n)
    ensures ShiftLeft(x, n + 1) == 2 * ShiftLeft(x, n)
  {
    assert ShiftLeft(x, n + 3) == 2 * ShiftLeft(x, n + 2);
  }

  lemma Powers()
    ensures Pow2(1) == 2 && Pow2(8) == 0x100 && Pow2(31) == 0x8000_0000 && Pow2(32) == 0x1_0000_0000
  {
    assert Pow2(4) == 16;
    assert Pow2(8) == 0x100;
    assert Pow2(12) == 0x1000;
    assert Pow2(16) == 0x1_0000;
    assert Pow2(20) == 0x10_0000;
    assert Pow2(24) == 0x100_0000;
    assert Pow2(28) == 0x1000_0000;
  }

  /** Two types share an id exactly when their fields have the same low bits; ids take 58 bits. */
  lemma IdsCollide(t: ScalarType, u: ScalarType)
    ensures IdOf(t) < Pow2(58)
    ensures IdOf(t) == IdOf(u) <==> SameLowBits(t, u)
  {
    WidthOfFields(t);
    PackedFits(Fields(t));
    LowBitsTell(t, u);
    UnpackedPacked(Fields(t));
    UnpackedPacked(Fields(u));
    if SameLowBits(t, u) {
      PackedOfLowBits(Fields(t), Fields(u));
    }
  }

  lemma LowBitsTell(t: ScalarType, u: ScalarType)
    ensures LowBits(Fields(t)) == LowBits(Fields(u)) <==> SameLowBits(t, u)
  {
    FieldBits(t);
    FieldBits(u);
    var l, m := LowBits(Fields(t)), LowBits(Fields(u));
    if l == m {
      assert l[0] == m[0] && l[1] == m[1] && l[2] == m[2] && l[3] == m[3] && l[4] == m[4] && l[5] == m[5];
    }
  }

  lemma SameLowBitsInRange(t: ScalarType, u: ScalarType)
    requires InRange(t) && InRange(u) && SameLowBits(t, u)
    ensures t == u
  {
    var p := Pow2(31);
    assert Pow2(32) == 2 * p;
    BiasUnique(t.bias, u.bias, p);
    SmallMod(t.exponent as int, Pow2(8));
    SmallMod(u.exponent as int, Pow2(8));
    SmallMod(t.mantissa as int, Pow2(8));
    SmallMod(u.mantissa as int, Pow2(8));
  }

  lemma SmallMod(x: int, d: nat)
    requires 0 <= x < d
    ensures x % d == x
  {
  }

  lemma BiasUnique(a: int, b: int, p: nat)
    requires p > 0 && 0 <= a + p < 2 * p && 0 <= b + p < 2 * p && a % (2 * p) == b % (2 * p)
    ensures a == b
  {
    BiasDecodes(a, p);
    BiasDecodes(b, p);
  }

  /** Two's complement: the upper half of the remainders stands for the negative numbers. */
  lemma BiasDecodes(a: int, p: nat)
    requires p > 0 && 0 <= a + p < 2 * p
    ensures a == if a % (2 * p) < p then a % (2 * p) else a % (2 * p) - 2 * p
  {
    if a >= 0 {
      DivModUnique(a, 2 * p, 0, a);
    } else {
      DivModUnique(a, 2 * p, -1, a + 2 * p);
    }
  }

  /** Reads an id back into a type; the upper half of the bias' range stands for negative numbers. */
  function Decode(id: nat): (t: Option<ScalarType>) {
    FromFields(Unpacked(id, [8, 8, 1, 32, 1, 8]))
  }

  function FromFields(fs: seq<nat>): (t: Option<ScalarType>) {
    if |fs| != 6 || fs[5] > 2 then None
    else Some(ScalarType(fs[0], fs[1], fs[2] == 1, if fs[3] < Pow2(31) then fs[3] else fs[3] - Pow2(32), fs[4] == 1,
                         if fs[5] == 0 then None_ else if fs[5] == 1 then Ieee754 else ExtdRangeMaxMin))
  }

  /** Round trip: unpacking an id returns every field. */
  lemma DecodeId(t: ScalarType)
    requires InRange(t)
    ensures Decode(IdOf(t)) == Some(t)
  {
    UnpackedPacked(Fields(t));
    FieldBits(t);
    SmallMod(t.exponent as int, Pow2(8));
    SmallMod(t.mantissa as int, Pow2(8));
    var p := Pow2(31);
    assert Pow2(32) == 2 * p;
    BiasDecodes(t.bias, p);
    FromFieldsOf(t, t.bias % Pow2(32));
  }

  lemma FromFieldsOf(t: ScalarType, b: nat)
    requires t.bias == if b < Pow2(31) then b else b - Pow2(32)
    ensures FromFields([t.exponent, t.mantissa, FromBool(t.signed), b,
                        FromBool(t.finiteValuesOnly), t.nanRepr.Value()]) == Some(t)
  {
  }

  // ---- the registry ------------------------------------------------------------------------------

  /** The id map, and the registrations that made it what it is. */
  class Registry {
    var idMap: map<nat, ScalarType>
    ghost var history: seq<ScalarType>

    ghost predicate Valid()
      reads this
    {
      idMap == Registered(history)
    }

    constructor ()
      ensures Valid() && history == []
    {
      idMap, history := map[], [];
    }

    /** First use of a type's `id`. */
    method Id(t: ScalarType) returns (val: nat)
      requires Valid()
      modifies this
      ensures Valid() && history == old(history) + [t] && val == IdOf(t)
    {
      val := ComputeId(t);
      idMap, history := idMap[val := t], history + [t];
    }

    /** A missing id is a ValueError. */
    method FromId(id: nat) returns (t: Option<ScalarType>)
      requires Valid()
      ensures t.None? <==> forall u :: u in history ==> IdOf(u) != id
      ensures t.Some? ==> t.value in history && IdOf(t.value) == id
      ensures AllInRange(history) ==>
                forall u :: InRange(u) && IdOf(u) == id ==> (t == Some(u) <==> u in history)
    {
      RegisteredFinds(history, id);
      forall u | AllInRange(history) && InRange(u) && IdOf(u) == id
        ensures id in idMap && idMap[id] == u <==> u in history
      {
        FromIdOfId(history, u);
      }
      t := if id in idMap then Some(idMap[id]) else None;
    }
  }

  /** The id map after registering `ts` in order. */
  function Registered(ts: seq<ScalarType>): (m: map<nat, ScalarType>) {
    if ts == [] then map[] else Registered(ts[..|ts| - 1])[IdOf(ts[|ts| - 1]) := ts[|ts| - 1]]
  }

  predicate AllInRange(ts: seq<ScalarType>) {
    forall u :: u in ts ==> InRange(u)
  }

  /** What is found under an id was registered and has that id, in range or not. */
  lemma {:induction false} RegisteredFinds(ts: seq<ScalarType>, id: nat)
    ensures id in Registered(ts) <==> exists u :: u in ts && IdOf(u) == id
    ensures id in Registered(ts) ==> Registered(ts)[id] in ts && IdOf(Registered(ts)[id]) == id
  {
    if ts != [] {
      var n := |ts| - 1;
      assert ts == ts[..n] + [ts[n]];
      RegisteredFinds(ts[..n], id);
    }
  }

  /** After any registrations of types in range, the id of each of them finds it again, and no other
      type in range is found under an id. */
  lemma {:induction false} FromIdOfId(ts: seq<ScalarType>, t: ScalarType)
    requires InRange(t) && AllInRange(ts)
    ensures t in ts <==> IdOf(t) in Registered(ts)
    ensures t in ts ==> Registered(ts)[IdOf(t)] == t
  {
    if ts != [] {
      var n := |ts| - 1;
      assert ts == ts[..n] + [ts[n]];
      FromIdOfId(ts[..n], t);
      SameIdInRange(t, ts[n]);
    }
  }

  lemma SameIdInRange(t: ScalarType, u: ScalarType)
    requires InRange(t) && InRange(u)
    ensures IdOf(t) == IdOf(u) <==> t == u
  {
    IdsCollide(t, u);
    if IdOf(t) == IdOf(u) {
      SameLowBitsInRange(t, u);
    }
  }

  // ---- floating-point limits ---------------------------------------------------------------------

  /** x * 2^k. */
  function Scaled(x: int, k: int): (r: real)
    decreases if k < 0 then -k else k
  {
    if k == 0 then x as real else if k > 0 then 2.0 * Scaled(x, k - 1) else Scaled(x, k + 1) / 2.0
  }

  lemma {:induction false} ScaledTwice(x: int, k: int)
    ensures Scaled(2 * x, k) == Scaled(x, k + 1)
    decreases if k < 0 then -k else k
  {
    if k > 0 {
      ScaledTwice(x, k - 1);
    } else if k < 0 {
      ScaledTwice(x, k + 1);
    }
  }

  lemma {:induction false} ScaledShift(x: int, n: nat, k: int)
    ensures Scaled(ShiftLeft(x, n), k) == Scaled(x, k + n)
  {
    if n > 0 {
      ScaledTwice(ShiftLeft(x, n - 1), k);
      ScaledShift(x, n - 1, k + 1);
    }
  }

  lemma {:induction false} ScaledGrows(x: int, y: int, k: int)
    requires x <= y
    ensures Scaled(x, k) <= Scaled(y, k)
    ensures x < y ==> Scaled(x, k) < Scaled(y, k)
    decreases if k < 0 then -k else k
  {
    if k > 0 {
      ScaledGrows(x, y, k - 1);
    } else if k < 0 {
      ScaledGrows(x, y, k + 1);
    }
  }

  /** Exponent bias of a binary format with `e` exponent bits (IEEE 754-2019 section 3.3). */
  function Bias(e: nat): nat
    requires e >= 1
  {
    Pow2(e - 1) - 1
  }

  /** A code's magnitude in units of the smallest subnormal. */
  function Units(m: nat, E: nat, M: nat): (v: nat) {
    if E == 0 then M else ShiftLeft(Pow2(m) + M, E - 1)
  }

  /** The value of a finite code with `e` exponent and `m` mantissa bits (IEEE 754-2019 section 3.4). */
  function FloatValue(e: nat, m: nat, E: nat, M: nat): (v: real)
    requires e >= 1
  {
    Scaled(Units(m, E, M), 1 - Bias(e) - m)
  }

  /** The codes that stand for numbers, for each NaN convention. Outside IEEE 754 every code that is not
      a NaN counts as a number, whatever `finiteValuesOnly` says: the limits do not depend on it, and the
      program does not say which codes would be infinite. */
  predicate IsFinite(t: ScalarType, E: nat, M: nat) {
    && E < Pow2(t.exponent) && M < Pow2(t.mantissa)
    && match t.nanRepr
       case None_ => true
       case Ieee754 => E < Pow2(t.exponent) - 1
       case ExtdRangeMaxMin => !(E == Pow2(t.exponent) - 1 && M == Pow2(t.mantissa) - 1)
  }

  ghost predicate IsLargestFinite(t: ScalarType, v: real)
    requires t.exponent >= 1
  {
    && (exists E, M :: IsFinite(t, E, M) && FloatValue(t.exponent, t.mantissa, E, M) == v)
    && (forall E, M :: IsFinite(t, E, M) ==> FloatValue(t.exponent, t.mantissa, E, M) <= v)
  }

  /** Floating-point types as the constructors make them, with at least one mantissa bit. */
  predicate IsFloat(t: ScalarType) {
    t.exponent >= 1 && t.mantissa >= 1
  }

  function MaxMantissa(t: ScalarType): (r: nat)
    requires IsFloat(t)
  {
    if t.nanRepr.ExtdRangeMaxMin? then Pow2(t.mantissa) - 2 else Pow2(t.mantissa) - 1
  }

  function MaxExponent(t: ScalarType): (r: nat)
    requires IsFloat(t)
  {
    if t.nanRepr.Ieee754? then Pow2(t.exponent) - 2 else Pow2(t.exponent) - 1
  }

  /** The same exponent with the bias of a format with `x` exponent bits. */
  function MaxExponentIn(t: ScalarType, x: nat): (r: int)
    requires IsFloat(t) && x >= 1
  {
    MaxExponent(t) - Bias(t.exponent) + Bias(x)
  }

  /** The asserts of `_floating_point_max_int`, for a format with `w` fraction and `x` exponent bits. */
  predicate FitsIn(t: ScalarType, w: nat, x: nat) {
    t.mantissa <= w && t.exponent <= x && (t.nanRepr.Ieee754? || t.exponent < x)
  }

  function MaxBits(t: ScalarType, w: nat, x: nat): (bits: nat)
    requires IsFloat(t) && x >= 2 && FitsIn(t, w, x)
  {
    MaxExponentFits(t, x);
    BitOr(ShiftLeft(MaxMantissa(t), w - t.mantissa), ShiftLeft(MaxExponentIn(t, x), w))
  }

  /** The largest exponent is that of a normal number in the wider format. */
  lemma MaxExponentFits(t: ScalarType, x: nat)
    requires IsFloat(t) && x >= 2 && t.exponent <= x && (t.nanRepr.Ieee754? || t.exponent < x)
    ensures 1 <= MaxExponentIn(t, x) < Pow2(x) - 1
  {
    var p, q := Pow2(t.exponent - 1), Pow2(x - 1);
    assert Pow2(t.exponent) == 2 * p && Pow2(x) == 2 * q;
    Pow2Grows(t.exponent - 1, x - 1);
    Pow2Grows(1, x - 1);
    if t.exponent < x {
      Pow2Grows(t.exponent, x - 1);
    }
  }

  /** The bits of a number in a format with `w` fraction and `x` exponent bits. */
  method WideMaxInt(t: ScalarType, w: nat, x: nat) returns (bits: Option<nat>)
    requires IsFloat(t) && x >= 2
    ensures bits.None? <==> !FitsIn(t, w, x)
    ensures bits.Some? ==> bits.value == MaxBits(t, w, x)
  {
    if !(t.mantissa <= w && t.exponent <= x) {
      return None;
    }
    ShiftOne(t.mantissa);
    ShiftOne(t.exponent);
    ShiftOne(t.exponent - 1);
    ShiftOne(x - 1);
    var maxMantissa := ShiftLeft(1, t.mantissa) - 1;
    if t.nanRepr == ExtdRangeMaxMin {
      maxMantissa := maxMantissa - 1;
    }
    var maxExponent := ShiftLeft(1, t.exponent) - 2;
    if t.nanRepr == ExtdRangeMaxMin || t.nanRepr == None_ {
      if !(t.exponent < x) {
        return None;
      }
      maxExponent := maxExponent + 1;
    }
    var exponentBias := ShiftLeft(1, t.exponent - 1) - 1;
    var exponentBiasWide := ShiftLeft(1, x - 1) - 1;
    var maxExponentWide := maxExponent - exponentBias + exponentBiasWide;
    MaxExponentFits(t, x);
    bits := Some(BitOr(ShiftLeft(maxMantissa, w - t.mantissa), ShiftLeft(maxExponentWide, w)));
  }

  /** `_floating_point_max_int`: the bits of a double, which has 52 fraction and 11 exponent bits. */
  method FloatingPointMaxInt(t: ScalarType) returns (bits: Option<nat>)
    requires IsFloat(t)
    ensures bits.None? <==> !FitsIn(t, 52, 11)
    ensures bits.Some? <==> IsNumber(52, 11, MaxValue(t)) && t.mantissa <= 52
    ensures bits.Some? ==> bits.value == MaxBits(t, 52, 11) && IsCode(bits.value, 52, 11, MaxValue(t))
  {
    NumberIffFits(t, 52, 11);
    bits := WideMaxInt(t, 52, 11);
    if bits.Some? {
      MaxBitsDecode(t, 52, 11);
    }
  }

  // ---- reading the bits back ---------------------------------------------------------------------

  /** `bits` stand for `v` in the binary interchange format with `x` exponent bits and `w` fraction
      bits, and `v` is neither infinite nor a NaN (IEEE 754-2019 section 3.4). */
  ghost predicate IsCode(bits: nat, w: nat, x: nat, v: real)
    requires x >= 1
  {
    var F, E := bits % Pow2(w), (bits / Pow2(w)) % Pow2(x);
    && E < Pow2(x) - 1
    && v == if bits / Pow2(w + x) == 0 then FloatValue(x, w, E, F) else -FloatValue(x, w, E, F)
  }

  /** Two fields of widths `m` and `n` are put together without overlap, so they can be read back; a bit
      on top of them leaves them alone. */
  lemma Stacked(F: nat, E: nat, m: nat, n: nat)
    requires F < Pow2(m) && E < Pow2(n)
    ensures BitOr(F, ShiftLeft(E, m)) == F + ShiftLeft(E, m) < Pow2(m + n)
    ensures var bits := F + ShiftLeft(E, m);
            bits % Pow2(m) == F && (bits / Pow2(m)) % Pow2(n) == E && bits / Pow2(m + n) == 0
  {
    OrIsSum(F, E, m);
    ShiftIsProduct(E, m);
    StackedFits(F, m, E, n);
    ReadParts(F + ShiftLeft(E, m), F, E, Pow2(m), Pow2(n), Pow2(m + n));
  }

  lemma ReadParts(bits: nat, F: nat, E: nat, p: nat, q: nat, r: nat)
    requires bits == F + E * p && F < p && E < q && bits < r
    ensures bits % p == F && (bits / p) % q == E && bits / r == 0
  {
    DivModUnique(bits, p, E, F);
    SmallMod(E, q);
    DivModUnique(bits, r, 0, bits);
  }

  lemma StackedUnderSign(F: nat, E: nat, m: nat, n: nat)
    requires F < Pow2(m) && E < Pow2(n)
    ensures var bits := F + ShiftLeft(E, m); var r := Pow2(m + n);
            && BitOr(bits, ShiftLeft(1, m + n)) == bits + r
            && (bits + r) % Pow2(m) == F && ((bits + r) / Pow2(m)) % Pow2(n) == E && (bits + r) / r == 1
  {
    var bits := F + ShiftLeft(E, m);
    Stacked(F, E, m, n);
    OrIsSum(bits, 1, m + n);
    ShiftOne(m + n);
    ShiftOne(n);
    ShiftTwice(1, n, m);
    ShiftIsProduct(E, m);
    ShiftIsProduct(Pow2(n), m);
    ReadSignedParts(bits, F, E, Pow2(m), Pow2(n), Pow2(m + n));
  }

  lemma ReadSignedParts(bits: nat, F: nat, E: nat, p: nat, q: nat, r: nat)
    requires bits == F + E * p && F < p && E < q && bits < r && r == q * p
    ensures (bits + r) % p == F && ((bits + r) / p) % q == E && (bits + r) / r == 1
  {
    assert E * p + q * p == (E + q) * p;
    DivModUnique(bits + r, p, E + q, F);
    DivModUnique(E + q, q, 1, E);
    DivModUnique(bits + r, r, 1, bits);
  }

  // ---- the largest code --------------------------------------------------------------------------

  lemma {:induction false} ShiftFurther(x: nat, m: nat, n: nat)
    requires m <= n
    ensures ShiftLeft(x, m) <= ShiftLeft(x, n)
  {
    if m < n {
      ShiftFurther(x, m, n - 1);
    }
  }

  /** Codes are ordered like the numbers they stand for. */
  lemma UnitsGrow(m: nat, E: nat, M: nat, E': nat, M': nat)
    requires M < Pow2(m) && (E < E' || (E == E' && M <= M'))
    ensures Units(m, E, M) <= Units(m, E', M')
  {
    var p := Pow2(m);
    if E == E' {
      if E > 0 {
        ShiftGrows(p + M, p + M', E - 1);
      }
    } else {
      if E > 0 {
        ShiftGrows(p + M, 2 * p, E - 1);
        ShiftTwice(p, 1, E - 1);
      }
      assert Units(m, E, M) <= ShiftLeft(p, E);
      ShiftFurther(p, E, E' - 1);
      ShiftGrows(p, p + M', E' - 1);
    }
  }

  lemma MaxIsFinite(t: ScalarType)
    requires IsFloat(t)
    ensures IsFinite(t, MaxExponent(t), MaxMantissa(t))
    ensures forall E: nat, M: nat :: IsFinite(t, E, M) ==>
              E < MaxExponent(t) || (E == MaxExponent(t) && M <= MaxMantissa(t))
  {
    assert Pow2(t.mantissa) >= 2 && Pow2(t.exponent) >= 2;
  }

  /** The largest exponent with the largest mantissa is a finite code, and none is larger. */
  lemma LargestCode(t: ScalarType)
    requires IsFloat(t)
    ensures IsLargestFinite(t, FloatValue(t.exponent, t.mantissa, MaxExponent(t), MaxMantissa(t)))
  {
    MaxIsFinite(t);
    var e, m, E0, M0 := t.exponent, t.mantissa, MaxExponent(t), MaxMantissa(t);
    forall E, M | IsFinite(t, E, M)
      ensures FloatValue(e, m, E, M) <= FloatValue(e, m, E0, M0)
    {
      UnitsGrow(m, E, M, E0, M0);
      ScaledGrows(Units(m, E, M), Units(m, E0, M0), 1 - Bias(e) - m);
    }
  }

  lemma LargestIsUnique(t: ScalarType, v: real, v': real)
    requires t.exponent >= 1 && IsLargestFinite(t, v) && IsLargestFinite(t, v')
    ensures v == v'
  {
  }

  /** The value of a normal code. */
  lemma NormalValue(e: nat, m: nat, E: nat, M: nat)
    requires e >= 1 && E >= 1
    ensures FloatValue(e, m, E, M) == Scaled(Pow2(m) + M, E - Bias(e) - m)
  {
    ScaledShift(Pow2(m) + M, E - 1, 1 - Bias(e) - m);
  }

  /** Widening the mantissa to `n` more bits keeps a normal number, up to the exponent's bias. */
  lemma WidenedValue(m: nat, n: nat, e: nat, E: nat, M: nat)
    requires e >= 1 && E >= 1 && M < Pow2(m)
    ensures ShiftLeft(M, n) < Pow2(m + n)
    ensures FloatValue(e, m + n, E, ShiftLeft(M, n)) == Scaled(Pow2(m) + M, E - Bias(e) - m)
  {
    var F := ShiftLeft(M, n);
    NormalValue(e, m + n, E, F);
    ShiftOne(m);
    ShiftTwice(1, m, n);
    ShiftOne(m + n);
    ShiftSum(Pow2(m), M, n);
    ShiftGrows(M, Pow2(m), n);
    ScaledShift(Pow2(m) + M, n, E - Bias(e) - (m + n));
  }

  /** The value that the bits stand for. */
  function MaxValue(t: ScalarType): real
    requires IsFloat(t)
  {
    Scaled(Pow2(t.mantissa) + MaxMantissa(t), MaxExponent(t) - Bias(t.exponent) - t.mantissa)
  }

  /** Fraction and exponent, put together, decode to their value; with a bit on top, to its negative. */
  lemma StackedDecode(F: nat, E: nat, w: nat, x: nat, v: real)
    requires F < Pow2(w) && x >= 1 && E < Pow2(x) - 1 && v == FloatValue(x, w, E, F)
    ensures IsCode(BitOr(F, ShiftLeft(E, w)), w, x, v)
    ensures IsCode(BitOr(BitOr(F, ShiftLeft(E, w)), ShiftLeft(1, w + x)), w, x, -v)
  {
    Stacked(F, E, w, x);
    StackedUnderSign(F, E, w, x);
  }

  lemma WideBitsDecode(M: nat, E: nat, m: nat, w: nat, x: nat)
    requires m <= w && M < Pow2(m) && x >= 1 && 1 <= E < Pow2(x) - 1
    ensures var v, bits := Scaled(Pow2(m) + M, E - Bias(x) - m), BitOr(ShiftLeft(M, w - m), ShiftLeft(E, w));
            IsCode(bits, w, x, v) && IsCode(BitOr(bits, ShiftLeft(1, w + x)), w, x, -v)
  {
    WidenedValue(m, w - m, x, E, M);
    StackedDecode(ShiftLeft(M, w - m), E, w, x, FloatValue(x, w, E, ShiftLeft(M, w - m)));
  }

  /** What the bits decode to, with the sign bit clear and set. */
  lemma MaxBitsDecode(t: ScalarType, w: nat, x: nat)
    requires IsFloat(t) && x >= 2 && FitsIn(t, w, x)
    ensures IsCode(MaxBits(t, w, x), w, x, MaxValue(t))
    ensures IsCode(BitOr(MaxBits(t, w, x), ShiftLeft(1, w + x)), w, x, -MaxValue(t))
  {
    MaxExponentFits(t, x);
    WideBitsDecode(MaxMantissa(t), MaxExponentIn(t, x), t.mantissa, w, x);
  }

  /** The value is the largest finite value of the type, exactly, unless the type has a single exponent
      bit and keeps the IEEE encoding of infinities and NaNs. Then its finite codes are all subnormal,
      and the value is too large. */
  lemma MaxIsLargest(t: ScalarType)
    requires IsFloat(t)
    ensures IsLargestFinite(t, MaxValue(t)) <==> t.exponent >= 2 || !t.nanRepr.Ieee754?
  {
    LargestCode(t);
    var m, E, M := t.mantissa, MaxExponent(t), MaxMantissa(t);
    var w := FloatValue(t.exponent, m, E, M);
    if t.exponent >= 2 || !t.nanRepr.Ieee754? {
      Pow2Grows(1, t.exponent);
      assert t.exponent >= 2 ==> Pow2(t.exponent) == 2 * Pow2(t.exponent - 1) && Pow2(t.exponent - 1) >= 2;
      NormalValue(t.exponent, m, E, M);
    } else {
      assert E == 0;
      var k: int := m;
      ScaledTwice(M, -k);
      ScaledGrows(2 * M, Pow2(m) + M, -k);
      if IsLargestFinite(t, MaxValue(t)) {
        LargestIsUnique(t, MaxValue(t), w);
      }
    }
  }

  /** `_floating_point_max` and `_raw_min`: the double with these bits, without and with the sign bit,
      is the largest finite value of the type and its negative. */
  lemma DoubleLimits(t: ScalarType)
    requires IsFloat(t) && FitsIn(t, 52, 11) && (t.exponent >= 2 || !t.nanRepr.Ieee754?)
    ensures exists v :: && IsLargestFinite(t, v) && IsCode(MaxBits(t, 52, 11), 52, 11, v)
                        && IsCode(BitOr(MaxBits(t, 52, 11), ShiftLeft(1, 63)), 52, 11, -v)
  {
    MaxIsLargest(t);
    MaxBitsDecode(t, 52, 11);
  }

  // ---- when the value is a number of the wider format ---------------------------------------------

  lemma {:induction false} ScaledSign(x: int, k: int)
    ensures x >= 0 ==> Scaled(x, k) >= 0.0
    ensures x > 0 ==> Scaled(x, k) > 0.0
    decreases if k < 0 then -k else k
  {
    if k > 0 {
      ScaledSign(x, k - 1);
    } else if k < 0 {
      ScaledSign(x, k + 1);
    }
  }

  lemma ScaledEqual(x: int, y: int, k: int)
    requires Scaled(x, k) == Scaled(y, k)
    ensures x == y
  {
    if x < y {
      ScaledGrows(x, y, k);
    } else if y < x {
      ScaledGrows(y, x, k);
    }
  }

  lemma Pow2Order(m: nat, n: nat)
    requires Pow2(m) < Pow2(n)
    ensures m < n
  {
    if n <= m {
      Pow2Grows(n, m);
    }
  }

  lemma ShiftedPow(m: nat, n: nat)
    ensures ShiftLeft(Pow2(m), n) == Pow2(m + n)
  {
    ShiftOne(m);
    ShiftTwice(1, m, n);
    ShiftOne(m + n);
  }

  /** A number s * 2^k with a significand of `m + 1` bits is one of `w + 1` bits, u * 2^j, only if it is
      small enough and an odd significand is short enough; a significand that is even, but no multiple
      of four, may have one bit more. */
  lemma OneInTheOther(s: nat, k: int, m: nat, u: nat, j: int, w: nat, q: int)
    requires Pow2(m) <= s && u < Pow2(w + 1) && Scaled(s, k) == Scaled(u, j)
    ensures m + k <= w + j
    ensures s == 4 * q - 1 ==> m <= w
    ensures s == 4 * q - 2 ==> m <= w + 1
  {
    if k >= j {
      var n: nat := k - j;
      ScaledShift(s, n, j);
      ScaledEqual(ShiftLeft(s, n), u, j);
      ShiftGrows(Pow2(m), s, n);
      ShiftedPow(m, n);
      Pow2Order(m + n, w + 1);
    } else {
      var n: nat := j - k;
      ScaledShift(u, n, k);
      ScaledEqual(s, ShiftLeft(u, n), k);
      ShiftGrows(u, Pow2(w + 1), n);
      ShiftedPow(w + 1, n);
      Pow2Order(m, w + 1 + n);
      assert n >= 2 ==> s == 4 * ShiftLeft(u, n - 2);
    }
  }

  lemma MaxExponentBound(t: ScalarType, x: nat)
    requires IsFloat(t) && x >= 1
    ensures MaxExponent(t) - Bias(t.exponent) <= Bias(x) <==> t.exponent <= x && (t.nanRepr.Ieee754? || t.exponent < x)
  {
    var p, q := Pow2(t.exponent - 1), Pow2(x - 1);
    assert Pow2(t.exponent) == 2 * p;
    if t.exponent > x {
      Pow2Grows(x - 1, t.exponent - 2);
    } else {
      Pow2Grows(t.exponent - 1, x - 1);
      if t.exponent < x {
        Pow2Grows(t.exponent, x - 1);
      }
    }
  }

  /** What a finite number of the wider format looks like. */
  lemma CodeShape(bits: nat, w: nat, x: nat, v: real)
    requires x >= 2 && IsCode(bits, w, x, v) && v > 0.0
    ensures exists u: nat, j: int :: u < Pow2(w + 1) && j + w <= Bias(x) && v == Scaled(u, j)
  {
    var F, E := bits % Pow2(w), (bits / Pow2(w)) % Pow2(x);
    assert E < Pow2(x) - 1 && F < Pow2(w) && Pow2(x) == 2 * Pow2(x - 1) && Pow2(w + 1) == 2 * Pow2(w);
    ScaledSign(Units(w, E, F), 1 - Bias(x) - w);
    assert v == FloatValue(x, w, E, F);
    if E > 0 {
      NormalValue(x, w, E, F);
      var u, j := Pow2(w) + F, E - Bias(x) - w;
      assert u < Pow2(w + 1) && j + w <= Bias(x) && v == Scaled(u, j);
    } else {
      var u, j := F, 1 - Bias(x) - w;
      Pow2Grows(1, x - 1);
      assert u < Pow2(w + 1) && j + w <= Bias(x) && v == Scaled(u, j);
    }
  }

  ghost predicate IsNumber(w: nat, x: nat, v: real)
    requires x >= 1
  {
    exists bits :: IsCode(bits, w, x, v)
  }

  lemma LastBitClear(t: ScalarType, w: nat, x: nat)
    requires IsFloat(t) && x >= 2 && t.nanRepr.ExtdRangeMaxMin? && t.mantissa == w + 1 && t.exponent < x
    ensures IsNumber(w, x, MaxValue(t))
  {
    var M: nat := Pow2(w) - 1;
    MaxExponentFits(t, x);
    WideBitsDecode(M, MaxExponentIn(t, x), w, w, x);
    assert Pow2(t.mantissa) + MaxMantissa(t) == 2 * (Pow2(w) + M);
    ScaledTwice(Pow2(w) + M, MaxExponent(t) - Bias(t.exponent) - t.mantissa);
  }

  /** The asserts hold exactly if the value is a number of the wider format, except that they also
      refuse a mantissa that is one bit too long although its last bit is clear in the value. */
  lemma NumberIffFits(t: ScalarType, w: nat, x: nat)
    requires IsFloat(t) && x >= 2
    ensures FitsIn(t, w, x) <==> IsNumber(w, x, MaxValue(t)) && t.mantissa <= w
    ensures t.mantissa > w ==>
              (IsNumber(w, x, MaxValue(t)) <==>
               t.nanRepr.ExtdRangeMaxMin? && t.mantissa == w + 1 && t.exponent < x)
  {
    if t.nanRepr.ExtdRangeMaxMin? && t.mantissa == w + 1 && t.exponent < x {
      LastBitClear(t, w, x);
    }
    if FitsIn(t, w, x) {
      MaxBitsDecode(t, w, x);
    }
    if IsNumber(w, x, MaxValue(t)) {
      NumberFits(t, w, x);
    }
  }

  lemma NumberFits(t: ScalarType, w: nat, x: nat)
    requires IsFloat(t) && x >= 2 && IsNumber(w, x, MaxValue(t))
    ensures t.exponent <= x && (t.nanRepr.Ieee754? || t.exponent < x)
    ensures t.mantissa <= if t.nanRepr.ExtdRangeMaxMin? then w + 1 else w
  {
    var bits :| IsCode(bits, w, x, MaxValue(t));
    var s, k := Pow2(t.mantissa) + MaxMantissa(t), MaxExponent(t) - Bias(t.exponent) - t.mantissa;
    ScaledSign(s, k);
    CodeShape(bits, w, x, MaxValue(t));
    var u: nat, j: int :| u < Pow2(w + 1) && j + w <= Bias(x) && MaxValue(t) == Scaled(u, j);
    assert Pow2(t.mantissa) == 2 * Pow2(t.mantissa - 1);
    OneInTheOther(s, k, t.mantissa, u, j, w, Pow2(t.mantissa - 1));
    MaxExponentBound(t, x);
  }

  // ---- limits of any type ------------------------------------------------------------------------

  /** A limit before and after the bias is taken off: an integer, or a double with these bits, less an
      integer. */
  datatype Limit = Whole(value: int) | Double(bits: nat, less: int)

  function SizeBits(t: ScalarType): (n: nat) {
    t.exponent + t.mantissa + FromBool(t.signed)
  }

  /** What code `c` of an integer type stands for: two's complement if the type is signed. */
  function Stored(t: ScalarType, c: nat): (v: int) {
    if t.signed && c >= Pow2(t.mantissa) then c - 2 * Pow2(t.mantissa) else c
  }

  /** No code of the integer type stands for more, less the bias. */
  ghost predicate IsGreatest(t: ScalarType, v: int) {
    && (forall c: nat :: c < Pow2(SizeBits(t)) ==> Stored(t, c) - t.bias <= v)
    && (exists c: nat :: c < Pow2(SizeBits(t)) && Stored(t, c) - t.bias == v)
  }

  ghost predicate IsLeast(t: ScalarType, v: int) {
    && (forall c: nat :: c < Pow2(SizeBits(t)) ==> v <= Stored(t, c) - t.bias)
    && (exists c: nat :: c < Pow2(SizeBits(t)) && Stored(t, c) - t.bias == v)
  }

  lemma IntegerLimits(t: ScalarType)
    requires t.exponent == 0
    ensures IsGreatest(t, Pow2(t.mantissa) - 1 - t.bias)
    ensures IsLeast(t, (if t.signed then -(Pow2(t.mantissa) as int) else 0) - t.bias)
  {
    var m := t.mantissa;
    assert SizeBits(t) == if t.signed then m + 1 else m;
    assert Pow2(m + 1) == 2 * Pow2(m);
    assert Stored(t, Pow2(m) - 1) == Pow2(m) - 1;
    var least: nat := if t.signed then Pow2(m) else 0;
    assert Stored(t, least) == if t.signed then -(Pow2(m) as int) else 0;
  }

  /** `max`, of an integer or a floating-point type. */
  method MaxLimit(t: ScalarType) returns (r: Option<Limit>)
    requires t.exponent == 0 || IsFloat(t)
    ensures t.exponent == 0 ==> (r.None? <==> SizeBits(t) > 64 || (SizeBits(t) == 64 && !t.signed))
    ensures t.exponent == 0 && r.Some? ==> r.value.Whole? && IsGreatest(t, r.value.value)
    ensures t.exponent > 0 ==> (r.None? <==> !FitsIn(t, 52, 11))
    ensures t.exponent > 0 && r.Some? ==> r.value == Double(MaxBits(t, 52, 11), t.bias)
  {
    if t.exponent != 0 {
      var bits := FloatingPointMaxInt(t);
      return if bits == None then None else Some(Double(bits.value, t.bias));
    }
    if !(SizeBits(t) < 64 || (SizeBits(t) == 64 && t.signed)) {
      return None;
    }
    ShiftOne(t.mantissa);
    IntegerLimits(t);
    r := Some(Whole(ShiftLeft(1, t.mantissa) - 1 - t.bias));
  }

  /** `min`: a floating-point type has to be signed. */
  method MinLimit(t: ScalarType) returns (r: Option<Limit>)
    requires t.exponent == 0 || IsFloat(t)
    ensures t.exponent == 0 ==> (r.None? <==> t.signed && SizeBits(t) > 64)
    ensures t.exponent == 0 && r.Some? ==> r.value.Whole? && IsLeast(t, r.value.value)
    ensures t.exponent > 0 ==> (r.None? <==> !t.signed || !FitsIn(t, 52, 11))
    ensures t.exponent > 0 && r.Some? ==> r.value == Double(BitOr(MaxBits(t, 52, 11), ShiftLeft(1, 63)), t.bias)
  {
    if t.exponent != 0 {
      if !t.signed {
        return None;
      }
      var bits := FloatingPointMaxInt(t);
      return if bits == None then None else Some(Double(BitOr(bits.value, ShiftLeft(1, 63)), t.bias));
    }
    if t.signed && SizeBits(t) > 64 {
      return None;
    }
    IntegerLimits(t);
    if t.signed {
      ShiftOne(SizeBits(t) - 1);
      r := Some(Whole(-ShiftLeft(1, SizeBits(t) - 1) - t.bias));
    } else {
      r := Some(Whole(0 - t.bias));
    }
  }
}
