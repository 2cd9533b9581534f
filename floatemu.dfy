/**
 * Integer-only processing of IEEE-754 binary32 samples: volume scaling by half powers of two,
 * clipping to the unit range, and conversion to and from 16-bit PCM. A float is handled only as its
 * 32-bit pattern (1 sign bit, 8 exponent bits with bias 127, 23 mantissa bits).
 * A `short` stored in memory is its two bytes, low byte first.
 */
module FloatEmu {
  import opened Common

  // Bit layout (FloatEmu.cpp:6-11) and the pattern of 1.0f.
  const ExpShift: nat := 23
  const ExpBias: nat := 127
  const SignMask: nat := 0x8000_0000
  const ImplicitBit: nat := 0x80_0000
  const FloatOne: nat := 0x3F80_0000

  /** A `signed char`, the type of the volume step. */
  type SChar = x: int | -0x80 <= x < 0x80

  function Sign(w: Word): (s: nat)
    ensures s < 2
  {
    w / SignMask
  }

  /** `(w & ~signMask) >> expShift` */
  function Exponent(w: Word): (e: nat)
    ensures e < 256
  {
    w % SignMask / ImplicitBit
  }

  /** `w & mantMask` */
  function Mantissa(w: Word): (m: nat)
    ensures m < ImplicitBit
  {
    w % ImplicitBit
  }

  /** `w & ~signMask`: the pattern without its sign, which orders non-NaN magnitudes. */
  function Magnitude(w: Word): (m: nat)
    ensures m < SignMask
  {
    w % SignMask
  }

  function Compose(s: nat, e: nat, m: nat): Word
    requires s < 2 && e < 256 && m < ImplicitBit
  {
    s * SignMask + e * ImplicitBit + m
  }

  lemma FieldsOfCompose(s: nat, e: nat, m: nat)
    requires s < 2 && e < 256 && m < ImplicitBit
    ensures Sign(Compose(s, e, m)) == s && Exponent(Compose(s, e, m)) == e
    ensures Mantissa(Compose(s, e, m)) == m && Magnitude(Compose(s, e, m)) == e * ImplicitBit + m
  {
    var w := Compose(s, e, m);
    DivUnique(w, SignMask, s, e * ImplicitBit + m);
    DivUnique(e * ImplicitBit + m, ImplicitBit, e, m);
    DivUnique(w, ImplicitBit, s * 256 + e, m);
  }

  lemma ComposeOfFields(w: Word)
    ensures Compose(Sign(w), Exponent(w), Mantissa(w)) == w
    ensures Magnitude(w) == Exponent(w) * ImplicitBit + Mantissa(w)
  {
    var r := w % SignMask;
    DivUnique(w, ImplicitBit, (w / SignMask) * 256 + r / ImplicitBit, r % ImplicitBit);
  }

  // ---------------------------------------------------------------- Scale

  /** `kHalf = -k >> 1`; the shift of a negative value is arithmetic, i.e. it rounds toward minus infinity. */
  function HalfSteps(k: int): int
  {
    (-k) / 2
  }

  /** `kOdd = k & 1` */
  predicate OddStep(k: int)
  {
    k % 2 == 1
  }

  /** The significand (mantissa with its implicit bit) times 181/256, rounded: about the significand over √2. */
  function TimesInvSqrt2(m: nat): (x: nat)
    requires m < ImplicitBit
    ensures ImplicitBit / 2 < x < 2 * ImplicitBit
    ensures -128 < 256 * x - 181 * (m + ImplicitBit) <= 128
    ensures (m + ImplicitBit) * 181 + 128 < 0x1_0000_0000
  {
    ((m + ImplicitBit) * 181 + 128) / 256
  }

  /** The total change of the exponent field: `-kHalf`, and one more down when the odd step loses bit 23. */
  function ExpAdjust(w: Word, k: int): int
  {
    -HalfSteps(k) - (if OddStep(k) && TimesInvSqrt2(Mantissa(w)) < ImplicitBit then 1 else 0)
  }

  /**
   * The routine has no guard against the exponent leaving the range of normal numbers
   * (`exp << expShift` with `exp` outside 1..255 corrupts the sign bit or is undefined);
   * only words for which the adjusted exponent stays in range are in its domain.
   */
  predicate ScaleDefined(w: Word, k: int)
  {
    Exponent(w) == 0 || 0 < Exponent(w) + ExpAdjust(w, k) < 256
  }

  /** The new mantissa of the odd step: after renormalising the significand into [2^23, 2^24), without bit 23. */
  function OddMantissa(m: nat): (r: nat)
    requires m < ImplicitBit
    ensures r < ImplicitBit
  {
    var x := TimesInvSqrt2(m);
    (if x < ImplicitBit then 2 * x else x) - ImplicitBit
  }

  /** One element of `Scale`: the word times 2^(k/2). */
  function ScaleWord(w: Word, k: int): (r: Word)
    requires ScaleDefined(w, k)
    ensures Sign(r) == Sign(w)
    ensures Exponent(w) == 0 ==> r == w
    ensures Exponent(w) != 0 ==> Exponent(r) == Exponent(w) + ExpAdjust(w, k)
    ensures Exponent(w) != 0 ==> Mantissa(r) == if OddStep(k) then OddMantissa(Mantissa(w)) else Mantissa(w)
  {
    if Exponent(w) == 0 then w
    else
      var m := if OddStep(k) then OddMantissa(Mantissa(w)) else Mantissa(w);
      FieldsOfCompose(Sign(w), Exponent(w) + ExpAdjust(w, k), m);
      Compose(Sign(w), Exponent(w) + ExpAdjust(w, k), m)
  }

  /** With k = 0 the word is unchanged. */
  lemma ScaleByZero(w: Word)
    ensures ScaleDefined(w, 0) && ScaleWord(w, 0) == w
  {
    ComposeOfFields(w);
    var r := ScaleWord(w, 0);
    if Exponent(w) != 0 {
      ComposeOfFields(r);
    }
  }

  /** An even step k is exact: the mantissa is kept and the exponent moves by exactly k/2. */
  lemma ScaleEvenIsExact(w: Word, k: int)
    requires ScaleDefined(w, k) && k % 2 == 0 && Exponent(w) != 0
    ensures Mantissa(ScaleWord(w, k)) == Mantissa(w)
    ensures 2 * (Exponent(ScaleWord(w, k)) - Exponent(w)) == k
  {
  }

  /**
   * An odd step multiplies the significand by 181/256 ≈ 1/√2 (within half a unit of the last place),
   * moves the exponent by (k+1)/2, and takes one more step down when the product lost its leading bit,
   * doubling the significand; so the value is multiplied by about 2^(k/2).
   */
  lemma ScaleOddRounds(w: Word, k: int)
    requires ScaleDefined(w, k) && OddStep(k) && Exponent(w) != 0
    ensures var y, y', d := Mantissa(w) + ImplicitBit, Mantissa(ScaleWord(w, k)) + ImplicitBit,
                            Exponent(w) - Exponent(ScaleWord(w, k));
      || (2 * d == -k - 1 && -128 < 256 * y' - 181 * y <= 128)
      || (2 * d == -k + 1 && -128 < 128 * y' - 181 * y <= 128)
  {
    var x := TimesInvSqrt2(Mantissa(w));
    assert OddMantissa(Mantissa(w)) + ImplicitBit == if x < ImplicitBit then 2 * x else x;
  }

  /** One more negative half step gives a strictly smaller magnitude (for a word with a nonzero exponent). */
  lemma ScaleMonotone(w: Word, k: int)
    requires ScaleDefined(w, k) && ScaleDefined(w, k - 1) && Exponent(w) != 0
    ensures Magnitude(ScaleWord(w, k - 1)) < Magnitude(ScaleWord(w, k))
  {
    var hi, lo := ScaleWord(w, k), ScaleWord(w, k - 1);
    ComposeOfFields(hi);
    ComposeOfFields(lo);
    var m := Mantissa(w);
    var y := m + ImplicitBit;
    var x := TimesInvSqrt2(m);
    if OddStep(k) {
      // k - 1 is even: one exponent step below the odd result before its renormalisation
      assert HalfSteps(k - 1) == HalfSteps(k) + 1;
      if x < ImplicitBit {
        assert Exponent(lo) == Exponent(hi);
        assert Mantissa(lo) == m < Mantissa(hi) == 2 * x - ImplicitBit;
      } else {
        assert Exponent(lo) < Exponent(hi);
      }
    } else {
      // k - 1 is odd, with the same half-step count
      assert HalfSteps(k - 1) == HalfSteps(k);
      if x < ImplicitBit {
        assert Exponent(lo) < Exponent(hi);
      } else {
        assert Exponent(lo) == Exponent(hi);
        assert Mantissa(lo) == x - ImplicitBit < m == Mantissa(hi);
      }
    }
  }

  /** The body of the loop of `Scale`, on one word, given `kHalf` and `kOdd` computed from k. */
  method ScaleOne(w: Word, kHalf: int, kOdd: bool, ghost k: int) returns (r: Word)
    requires kHalf == HalfSteps(k) && kOdd == OddStep(k) && ScaleDefined(w, k)
    ensures r == ScaleWord(w, k)
  {
    ghost var s, e0, m0 := Sign(w), Exponent(w), Mantissa(w);
    ComposeOfFields(w);
    var x: int := w;
    var exp := x % SignMask / ImplicitBit;
    if exp != 0 {
      var expAdd := -kHalf;
      if kOdd {
        var mant := x % ImplicitBit + ImplicitBit;
        mant := (mant * 181 + 128) / 256;
        if mant < ImplicitBit {        // !(mant & implicitBit): mant < 2^24 here
          mant := mant * 2;
          expAdd := expAdd - 1;
        }
        mant := mant % ImplicitBit;    // mant &= mantMask
        assert mant == OddMantissa(m0);
        x := x - x % ImplicitBit + mant;
        assert x == Compose(s, e0, mant);
        FieldsOfCompose(s, e0, mant);
      }
      assert expAdd == ExpAdjust(w, k);
      if expAdd != 0 {
        exp := exp + expAdd;
        x := x - x % SignMask / ImplicitBit * ImplicitBit + exp * ImplicitBit;
      }
    }
    r := x;
  }

  /** `Scale(ioData, inCount, k)` with the pointer `ioData` at `a[start]`: every one of the `count` words is scaled in place. */
  method Scale(a: array<Word>, start: nat, count: nat, k: SChar)
    requires start + count <= a.Length
    requires forall i :: start <= i < start + count ==> ScaleDefined(a[i], k)
    modifies a
    ensures forall i :: start <= i < start + count ==> a[i] == ScaleWord(old(a[i]), k)
    ensures forall i :: 0 <= i < a.Length && !(start <= i < start + count) ==> a[i] == old(a[i])
  {
    var kHalf: int, kOdd := (-(k as int)) / 2, k % 2 == 1;
    var p := start;
    while p < start + count
      invariant start <= p <= start + count
      invariant forall i :: start <= i < p ==> a[i] == ScaleWord(old(a[i]), k)
      invariant forall i :: 0 <= i < a.Length && !(start <= i < p) ==> a[i] == old(a[i])
    {
      a[p] := ScaleOne(a[p], kHalf, kOdd, k);
      p := p + 1;
    }
  }

  // ---------------------------------------------------------------- Clip

  /** One element of `Clip`: a magnitude pattern above that of 1.0 (also infinity and NaN) becomes ±1.0. */
  function ClipWord(w: Word): (r: Word)
    ensures Magnitude(r) <= FloatOne && Sign(r) == Sign(w)
    ensures Magnitude(w) <= FloatOne ==> r == w
    ensures Magnitude(w) > FloatOne ==> r == Compose(Sign(w), ExpBias, 0)
  {
    if Magnitude(w) > FloatOne then
      FieldsOfCompose(Sign(w), ExpBias, 0);
      Sign(w) * SignMask + FloatOne
    else w
  }

  lemma ClipIdempotent(w: Word)
    ensures ClipWord(ClipWord(w)) == ClipWord(w)
  {
  }

  /** `Clip(ioData, inCount)` with `ioData` at `a[start]`. */
  method Clip(a: array<Word>, start: nat, count: nat)
    requires start + count <= a.Length
    modifies a
    ensures forall i :: start <= i < start + count ==> a[i] == ClipWord(old(a[i]))
    ensures forall i :: 0 <= i < a.Length && !(start <= i < start + count) ==> a[i] == old(a[i])
  {
    var p := start;
    while p < start + count
      invariant start <= p <= start + count
      invariant forall i :: start <= i < p ==> a[i] == ClipWord(old(a[i]))
      invariant forall i :: 0 <= i < a.Length && !(start <= i < p) ==> a[i] == old(a[i])
    {
      if a[p] % SignMask > FloatOne {
        a[p] := a[p] / SignMask * SignMask + FloatOne;
      }
      p := p + 1;
    }
  }

  // ---------------------------------------------------------------- 16-bit PCM in memory

  function Int16Bytes(v: Int16): (b: seq<Byte>)
    ensures |b| == 2
  {
    var u := if v < 0 then v + 0x1_0000 else v;
    [u % 256, u / 256]
  }

  /** The `short` whose two bytes, low first, are `lo` and `hi`. */
  function LoadInt16(lo: Byte, hi: Byte): Int16
  {
    var u := lo + 256 * hi;
    if u >= 0x8000 then u - 0x1_0000 else u
  }

  lemma LoadStoreInt16(v: Int16)
    ensures LoadInt16(Int16Bytes(v)[0], Int16Bytes(v)[1]) == v
  {
  }

  // ---------------------------------------------------------------- FloatToInt16Copy

  /**
   * One element of `FloatToInt16Copy`. The shift `mant >>= expBias - exp` is by 32 or more for
   * exp <= 95, which C leaves undefined; this is the intended result, where such a shift gives 0.
   */
  function FloatToInt16Word(w: Word): (r: Int16)
    ensures Exponent(w) == 0 ==> r == 0
    ensures Exponent(w) >= ExpBias ==> r == if Sign(w) == 1 then -0x8000 else 0x7fff
    ensures Sign(w) == 0 ==> r >= 0
    ensures Sign(w) == 1 ==> r <= 0
  {
    var e := Exponent(w);
    if e == 0 then 0
    else
      var mant := if e >= ExpBias then ImplicitBit else Shr(Mantissa(w) + ImplicitBit, ExpBias - e);
      var r := (mant / 128 + 1) / 2;
      if Sign(w) == 1 then -Min(r, 0x8000) else Min(r, 0x7fff)
  }

  /** Shifting right by p = 2^n, then by 7, adding one and shifting by 1 rounds y / 2^(n+8) half up. */
  lemma RoundShift(y: nat, p: nat)
    requires p > 0
    ensures (y / p / 128 + 1) / 2 == (y + 128 * p) / (256 * p)
  {
    var q := p * 128;
    DivDiv(y, p, 128);
    DivUnique(y + q, q, y / q + 1, y % q);
    DivDiv(y + q, q, 2);
  }

  /** `RoundShift` with the shifts written as `Shr`. */
  lemma ShrRounds(y: nat, n: nat)
    ensures (Shr(y, n) / 128 + 1) / 2 == Shr(y + Pow2(n + 7), n + 8)
  {
    ShrIsDiv(y, n);
    ShrIsDiv(y + Pow2(n + 7), n + 8);
    Pow2Add(n, 7);
    Pow2Add(n, 8);
    Pow2Table();
    RoundShift(y, Pow2(n));
  }

  /**
   * Below saturation the result is |x| * 32768 rounded half up, with the sign applied afterwards:
   * for the significand y and x = y * 2^(e - 150), that is floor((y + P/2) / P) with P = 2^(n + 8)
   * and n = 127 - e the shift of the significand (`Shr` is that floor division by a power of two).
   */
  lemma FloatToInt16Rounds(w: Word)
    requires 0 < Exponent(w) < ExpBias
    ensures var y, n := Mantissa(w) + ImplicitBit, ExpBias - Exponent(w);
      var t := Shr(y + Pow2(n + 7), n + 8);
      FloatToInt16Word(w) == if Sign(w) == 1 then -Min(t, 0x8000) else Min(t, 0x7fff)
  {
    var r := (Shr(Mantissa(w) + ImplicitBit, ExpBias - Exponent(w)) / 128 + 1) / 2;
    assert FloatToInt16Word(w) == if Sign(w) == 1 then -Min(r, 0x8000) else Min(r, 0x7fff);
    ShrRounds(Mantissa(w) + ImplicitBit, ExpBias - Exponent(w));
  }

  /** Inputs below 2^-16 in magnitude map to 0. */
  lemma FloatToInt16Tiny(w: Word)
    requires Exponent(w) <= 110
    ensures FloatToInt16Word(w) == 0
  {
    var e := Exponent(w);
    if e != 0 {
      var y := Mantissa(w) + ImplicitBit;
      var m := Shr(y, ExpBias - e);
      assert m < 128 by {
        var p := Pow2(ExpBias - e);
        ShrIsDiv(y, ExpBias - e);
        Pow2Monotone(17, ExpBias - e);
        Pow2Table();
        MulMonotone(128, 0x2_0000, p);
        DivBelow(y, p, 128);
      }
      assert FloatToInt16Word(w) == if Sign(w) == 1 then -Min((m / 128 + 1) / 2, 0x8000) else Min((m / 128 + 1) / 2, 0x7fff);
    }
  }

  /**
   * `FloatToInt16Word` as the processors the driver runs on execute it: a 32-bit shift uses only
   * the low five bits of its count, so for exp <= 95 the shift is by (127 - exp) mod 32.
   */
  function FloatToInt16WordAsWritten(w: Word): (r: Int16)
    ensures Exponent(w) > 95 ==> r == FloatToInt16Word(w)
  {
    var e := Exponent(w);
    if e == 0 then 0
    else
      var mant := if e >= ExpBias then ImplicitBit else Shr(Mantissa(w) + ImplicitBit, (ExpBias - e) % 32);
      var r := (mant / 128 + 1) / 2;
      if Sign(w) == 1 then -Min(r, 0x8000) else Min(r, 0x7fff)
  }

  /** 2^-32 (pattern 0x2F800000) comes out as full scale 32767 instead of 0. */
  lemma FloatToInt16ShiftWraps()
    ensures FloatToInt16WordAsWritten(0x2F80_0000) == 0x7fff
    ensures FloatToInt16Word(0x2F80_0000) == 0
  {
    var w := 0x2F80_0000;
    FieldsOfCompose(0, 95, 0);
    assert w == Compose(0, 95, 0);
    FloatToInt16Tiny(w);
  }

  /** `(w >> expShift) & 0xff` is the exponent field. */
  lemma ExponentByShift(w: Word)
    ensures w / ImplicitBit % 256 == Exponent(w)
  {
    ComposeOfFields(w);
    DivUnique(w, ImplicitBit, Sign(w) * 256 + Exponent(w), Mantissa(w));
    DivUnique(Sign(w) * 256 + Exponent(w), 256, Sign(w), Exponent(w));
  }

  /** The body of the loop of `FloatToInt16Copy`: one float pattern to a `short`. */
  method FloatToInt16(w: Word) returns (v: Int16)
    ensures v == FloatToInt16Word(w)
  {
    var exp := w / ImplicitBit % 256;
    ExponentByShift(w);
    if exp != 0 {
      var mant := 0;
      if exp >= ExpBias {
        mant := ImplicitBit;
      } else {
        mant := w % ImplicitBit + ImplicitBit;
        mant := Shr(mant, ExpBias - exp);
      }
      mant := mant / 128;
      mant := mant + 1;                  // round to nearest integer
      mant := mant / 2;
      if w / SignMask == 1 {
        v := -Min(mant, 0x8000);
      } else {
        v := Min(mant, 0x7fff);
      }
    } else {
      v := 0;
    }
  }

  /** `FloatToInt16Copy(outData, inData, count)`: `outData` at byte `out[outStart]`, `inData` at `inp[inStart]`. */
  method FloatToInt16Copy(out: array<Byte>, outStart: nat, inp: array<Word>, inStart: nat, count: nat)
    requires outStart + 2 * count <= out.Length && inStart + count <= inp.Length
    modifies out
    ensures forall k :: 0 <= k < count ==>
      out[outStart + 2 * k] == Int16Bytes(FloatToInt16Word(inp[inStart + k]))[0] &&
      out[outStart + 2 * k + 1] == Int16Bytes(FloatToInt16Word(inp[inStart + k]))[1]
    ensures forall j :: 0 <= j < out.Length && !(outStart <= j < outStart + 2 * count) ==> out[j] == old(out[j])
  {
    // the pointers are p = inData + k and q = outData + k
    ghost var src := inp[..];
    var k := 0;
    while k < count
      invariant inp[..] == src
      invariant 0 <= k <= count
      invariant forall i :: 0 <= i < k ==>
        out[outStart + 2 * i] == Int16Bytes(FloatToInt16Word(inp[inStart + i]))[0] &&
        out[outStart + 2 * i + 1] == Int16Bytes(FloatToInt16Word(inp[inStart + i]))[1]
      invariant forall j :: 0 <= j < out.Length && !(outStart <= j < outStart + 2 * k) ==> out[j] == old(out[j])
    {
      var v := FloatToInt16(inp[inStart + k]);
      var b := Int16Bytes(v);
      out[outStart + 2 * k], out[outStart + 2 * k + 1] := b[0], b[1];
      k := k + 1;
    }
  }

  // ---------------------------------------------------------------- Int16ToFloatCopy

  /** The inner loop of `Int16ToFloatCopy`: shift left until the implicit bit is set, counting the exponent down. */
  function Normalize(i: nat, e: int): (r: (nat, int))
    requires 0 < i < 2 * ImplicitBit
    ensures ImplicitBit <= r.0 < 2 * ImplicitBit && r.1 <= e
    decreases 2 * ImplicitBit - i
  {
    if i >= ImplicitBit then (i, e) else Normalize(2 * i, e - 1)
  }

  /** Normalising multiplies by 2 once per exponent step. */
  lemma {:induction false} NormalizeValue(i: nat, e: int)
    requires 0 < i < 2 * ImplicitBit
    ensures Normalize(i, e).0 == i * Pow2(e - Normalize(i, e).1)
    decreases 2 * ImplicitBit - i
  {
    if i < ImplicitBit {
      NormalizeValue(2 * i, e - 1);
      var r := Normalize(2 * i, e - 1);
      Pow2Add(1, e - 1 - r.1);
      MulAssoc(i, 2, Pow2(e - 1 - r.1));
    }
  }

  /** Starting from at least 2^8, the shift count is at most 15. */
  lemma {:induction false} NormalizeShifts(i: nat, e: int, n: nat)
    requires 0 < i < 2 * ImplicitBit && i * Pow2(n) >= ImplicitBit
    ensures e - Normalize(i, e).1 <= n
    decreases n
  {
    if i < ImplicitBit {
      if n > 0 {
        assert i * Pow2(n) == 2 * i * Pow2(n - 1);
        NormalizeShifts(2 * i, e - 1, n - 1);
      }
    }
  }

  /** Normalising |v| * 2^8 for a 16-bit magnitude takes at most 15 shifts. */
  lemma NormalizeInt16Range(a: nat)
    requires 1 <= a <= 0x8000
    ensures 112 <= Normalize(a * 256, ExpBias).1
  {
    Pow2Table();
    assert (a * 256) * Pow2(15) == a * ImplicitBit;
    NormalizeShifts(a * 256, ExpBias, 15);
  }

  /** The normalised significand is |v| * 2^(135 - exponent). */
  lemma NormalizeInt16Value(a: nat)
    requires 1 <= a <= 0x8000
    ensures var r := Normalize(a * 256, ExpBias); r.0 == a * Pow2(135 - r.1)
  {
    NormalizeValue(a * 256, ExpBias);
    var r := Normalize(a * 256, ExpBias);
    var p := Pow2(ExpBias - r.1);
    Pow2Add(8, ExpBias - r.1);
    Pow2Table();
    assert Pow2(135 - r.1) == 256 * p;
    assert r.0 == (a * 256) * p;
    MulAssoc(a, 256, p);
  }

  /** One element of `Int16ToFloatCopy`. */
  function Int16ToFloatWord(v: Int16): Word
  {
    if v == 0 then 0
    else
      var a := if v < 0 then -(v as int) else v as int;
      var r := Normalize(a * 256, ExpBias);
      NormalizeInt16Range(a);
      Compose(if v < 0 then 1 else 0, r.1, r.0 - ImplicitBit)
  }

  /**
   * The conversion is exact: a nonzero v gives sign, an exponent in [112, 127] and a mantissa with
   * significand == |v| * 2^(135 - exponent), i.e. the float |v| / 32768; zero gives the all-zero word.
   */
  lemma Int16ToFloatExact(v: Int16)
    ensures v == 0 ==> Int16ToFloatWord(v) == 0
    ensures v != 0 ==>
      var w := Int16ToFloatWord(v);
      && Sign(w) == (if v < 0 then 1 else 0)
      && 112 <= Exponent(w) <= 127
      && Mantissa(w) + ImplicitBit == (if v < 0 then -(v as int) else v as int) * Pow2(135 - Exponent(w))
  {
    if v != 0 {
      var a := if v < 0 then -(v as int) else v as int;
      var r := Normalize(a * 256, ExpBias);
      NormalizeInt16Range(a);
      NormalizeInt16Value(a);
      FieldsOfCompose(if v < 0 then 1 else 0, r.1, r.0 - ImplicitBit);
    }
  }

  /** Rounding a * 2^(n+8) to a multiple of 2^(n+8) recovers a. */
  lemma RoundedMultiple(a: nat, n: nat)
    ensures Shr(a * Pow2(n + 8) + Pow2(n + 7), n + 8) == a
  {
    var p := Pow2(n + 7);
    ShrIsDiv(a * Pow2(n + 8) + p, n + 8);
    assert Pow2(n + 8) == 2 * p;
    DivUnique(a * (2 * p) + p, 2 * p, a, p);
  }

  lemma SignificandFactorBound(a: nat, n: nat)
    requires n >= 1 && a * Pow2(n + 8) < 2 * ImplicitBit
    ensures a < 0x8000
  {
    Pow2Monotone(9, n + 8);
    MulMonotone(a, 512, Pow2(n + 8));
    Pow2Table();
  }

  /** A float whose significand is a * 2^(135 - e) below saturation converts back to exactly ±a. */
  lemma FloatToInt16OfMultiple(w: Word, a: nat)
    requires 0 < Exponent(w) < ExpBias && Mantissa(w) + ImplicitBit == a * Pow2(ExpBias - Exponent(w) + 8)
    ensures a < 0x8000 && FloatToInt16Word(w) == if Sign(w) == 1 then -(a as int) else a
  {
    var n := ExpBias - Exponent(w);
    FloatToInt16Rounds(w);
    RoundedMultiple(a, n);
    SignificandFactorBound(a, n);
  }

  /** Every 16-bit value survives the conversion to float and back, including -32768 and 32767. */
  lemma Int16RoundTrip(v: Int16)
    ensures FloatToInt16Word(Int16ToFloatWord(v)) == v
  {
    if v != 0 {
      Int16ToFloatExact(v);
      var w := Int16ToFloatWord(v);
      var a := if v < 0 then -(v as int) else v as int;
      if Exponent(w) < ExpBias {
        FloatToInt16OfMultiple(w, a);
      } else {
        Pow2Table();
      }
    }
  }

  /** The body of the loop of `Int16ToFloatCopy`: one `short` to its float pattern. */
  method Int16ToFloat(v: Int16) returns (w: Word)
    ensures w == Int16ToFloatWord(v)
  {
    var sign := if v < 0 then SignMask else 0;
    var i: int := if sign != 0 then -(v as int) else v as int;
    if i != 0 {
      var exp := ExpBias;
      i := i * 256;
      ghost var i0 := i;
      while i < ImplicitBit
        invariant 0 < i < 2 * ImplicitBit && exp <= ExpBias
        invariant Normalize(i, exp) == Normalize(i0, ExpBias)
        decreases ImplicitBit - i
      {
        i := i * 2;
        exp := exp - 1;
      }
      assert (i, exp) == Normalize(i0, ExpBias);
      NormalizeInt16Range(i0 / 256);
      i := i - ImplicitBit;               // i &= ~implicitBit
      i := i + exp * ImplicitBit;         // i |= exp << expShift
      i := i + sign;                      // i |= sign
    }
    w := i;
  }

  /** The first `k` words from `outStart` are the floats of the first `k` shorts from byte `inStart`. */
  ghost predicate Widened(o: seq<Word>, outStart: nat, b: seq<Byte>, inStart: nat, k: nat)
    requires outStart + k <= |o| && inStart + 2 * k <= |b|
  {
    forall i :: 0 <= i < k ==> o[outStart + i] == Int16ToFloatWord(LoadInt16(b[inStart + 2 * i], b[inStart + 2 * i + 1]))
  }

  lemma WidenedStep(o: seq<Word>, outStart: nat, b: seq<Byte>, inStart: nat, k: nat, w: Word)
    requires outStart + k < |o| && inStart + 2 * k + 2 <= |b|
    requires Widened(o, outStart, b, inStart, k)
    requires w == Int16ToFloatWord(LoadInt16(b[inStart + 2 * k], b[inStart + 2 * k + 1]))
    ensures Widened(o[outStart + k := w], outStart, b, inStart, k + 1)
  {
  }

  /** `Int16ToFloatCopy(outData, inData, count)`: `outData` at `out[outStart]`, `inData` at byte `inp[inStart]`. */
  method Int16ToFloatCopy(out: array<Word>, outStart: nat, inp: array<Byte>, inStart: nat, count: nat)
    requires outStart + count <= out.Length && inStart + 2 * count <= inp.Length
    modifies out
    ensures forall k :: 0 <= k < count ==>
      out[outStart + k] == Int16ToFloatWord(LoadInt16(inp[inStart + 2 * k], inp[inStart + 2 * k + 1]))
    ensures forall j :: 0 <= j < out.Length && !(outStart <= j < outStart + count) ==> out[j] == old(out[j])
  {
    // the pointers are p = inData + k and q = outData + k
    ghost var src := inp[..];
    var k := 0;
    while k < count
      invariant inp[..] == src
      invariant 0 <= k <= count
      invariant Widened(out[..], outStart, src, inStart, k)
      invariant forall j :: 0 <= j < out.Length && !(outStart <= j < outStart + k) ==> out[j] == old(out[j])
    {
      var w := Int16ToFloat(LoadInt16(inp[inStart + 2 * k], inp[inStart + 2 * k + 1]));
      ghost var before := out[..];
      out[outStart + k] := w;
      WidenedStep(before, outStart, src, inStart, k, w);
      assert out[..] == before[outStart + k := w];
      k := k + 1;
    }
  }

  // ---------------------------------------------------------------- round trip through memory

  /** A sample that went out as 16-bit PCM comes back as the same sample. */
  lemma Int16MemoryRoundTrip(v: Int16)
    ensures var b := Int16Bytes(v);
      FloatToInt16Word(Int16ToFloatWord(LoadInt16(b[0], b[1]))) == v
  {
    LoadStoreInt16(v);
    Int16RoundTrip(v);
  }
}
