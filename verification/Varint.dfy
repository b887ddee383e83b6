/**
Base-128 varints: the reader used by every field of the ChainMeta parser, and the
printer and size function of the generated code.

A `Byte` and a `U64` are mathematical integers in range, so shifts and masks of
the source are written as multiplications and remainders by powers of two.
 */
module Varint {
  import opened Basics
  import opened Arithmetic

  const TWO64 := 0x1_0000_0000_0000_0000
  const TWO63 := 0x8000_0000_0000_0000

  /** Errors the parser can return. */
  datatype ParseError =
    | IntOverflow
    | UnexpectedEOF
    | InvalidLength
    | EndGroup
    | IllegalTag
    | WrongWireType
    | IllegalWireType

  /** A value together with the index after its last byte, or an error. */
  datatype Read<+T> = Got(value: T, next: nat) | Failed(error: ParseError)

  function Pow2(n: nat): (r: nat)
    ensures r >= 1
  {
    if n == 0 then 1 else 2 * Pow2(n - 1)
  }

  // ---------- Reading ----------

  /** The unreduced value of the varint at `i`, when `k` of its bytes were already read. */
  function Scan(d: seq<Byte>, i: nat, k: nat): (r: Read<nat>)
    requires i <= |d| && k <= 10
    ensures r.Got? ==> i < r.next <= |d|
    decreases 10 - k
  {
    if k == 10 then Failed(IntOverflow)
    else if i == |d| then Failed(UnexpectedEOF)
    else if d[i] < 128 then Got(d[i], i + 1)
    else
      match Scan(d, i + 1, k + 1)
      case Got(v, j) => Got(d[i] - 128 + 128 * v, j)
      case Failed(e) => Failed(e)
  }

  /** The bits gathered from `i` on before the reader stops, whether or not it succeeds. */
  function Gathered(d: seq<Byte>, i: nat, k: nat): nat
    requires i <= |d| && k <= 10
    decreases 10 - k
  {
    if k == 10 || i == |d| then 0
    else if d[i] < 128 then d[i]
    else d[i] - 128 + 128 * Gathered(d, i + 1, k + 1)
  }

  /** A read that fails has gathered the low bits of up to ten bytes, least significant first. */
  lemma {:induction false} GatheredMeans(d: seq<Byte>, i: nat, k: nat)
    requires i <= |d| && k <= 10 && Scan(d, i, k).Failed?
    ensures Gathered(d, i, k) == LittleEndian(d[i..if i + 10 - k <= |d| then i + 10 - k else |d|])
    decreases 10 - k
  {
    var end := if i + 10 - k <= |d| then i + 10 - k else |d|;
    if k == 10 || i == |d| {
      assert d[i..end] == [];
    } else {
      GatheredMeans(d, i + 1, k + 1);
      assert d[i..end] == [d[i]] + d[i + 1..end];
      LittleEndianOf(d[i], d[i + 1..end]);
    }
  }

  /** The varint at `i`, reduced to 64 bits as the source's shifts do. */
  function ReadVarint(d: seq<Byte>, i: nat): (r: Read<U64>)
    requires i <= |d|
    ensures r.Got? ==> i < r.next <= |d|
  {
    match Scan(d, i, 0)
    case Got(v, j) => Got(v % TWO64, j)
    case Failed(e) => Failed(e)
  }

  lemma Pow2Add(a: nat, b: nat)
    ensures Pow2(a + b) == Pow2(a) * Pow2(b)
  {
    if a != 0 {
      Pow2Add(a - 1, b);
      assert 2 * (Pow2(a - 1) * Pow2(b)) == (2 * Pow2(a - 1)) * Pow2(b);
    }
  }

  lemma Pow2SevenMore(n: nat)
    ensures Pow2(n + 7) == 128 * Pow2(n)
  {
    Pow2Add(7, n);
    assert Pow2(7) == 128;
  }

  /** Bitwise disjunction. */
  function Or(a: nat, b: nat): nat
  {
    if a == 0 && b == 0 then 0
    else (if a % 2 == 1 || b % 2 == 1 then 1 else 0) + 2 * Or(a / 2, b / 2)
  }

  lemma {:induction false} OrZero(b: nat)
    ensures Or(0, b) == b
  {
    if b != 0 {
      OrZero(b / 2);
    }
  }

  /** The disjunction of bits below `n` and bits from `n` on is their sum. */
  lemma {:induction false} OrIsSum(v: nat, x: nat, n: nat)
    requires v < Pow2(n)
    ensures Or(v, x * Pow2(n)) == v + x * Pow2(n)
    decreases n
  {
    if n == 0 {
      OrZero(x);
    } else {
      var high := x * Pow2(n - 1);
      assert x * Pow2(n) == 2 * high;
      hide Pow2;
      OrIsSum(v / 2, x, n - 1);
      assert (2 * high) / 2 == high && (2 * high) % 2 == 0;
    }
  }

  /** A shift within 64 bits keeps a multiple of the weight, which leaves the low part free. */
  lemma ShiftLeavesLowBitsFree(x: nat, p: nat, q: nat) returns (m: nat)
    requires p >= 1 && p * q == TWO64
    ensures (x * p) % TWO64 == m * p <= TWO64 - p
  {
    m := x % q;
    var t := x / q;
    assert x * p == t * TWO64 + m * p by {
      assert x == t * q + m;
      assert (t * q + m) * p == t * (p * q) + m * p;
    }
    assert 0 <= m * p <= (q - 1) * p == TWO64 - p;
  }

  /** One step `v |= uint64(b & 0x7f) << shift`. */
  function OrShifted(v: U64, b: Byte, shift: nat): (r: U64)
    requires shift <= 63 && v < Pow2(shift)
    ensures r == (v + (b % 128) * Pow2(shift)) % TWO64
    ensures r < Pow2(shift + 7)
  {
    OrShiftedIsSum(v, b, shift);
    Or(v, ((b % 128) * Pow2(shift)) % TWO64)
  }

  /** The accumulated bits lie below `shift` and the shifted ones above it: no carry, and no wrap. */
  lemma OrShiftedIsSum(v: U64, b: Byte, shift: nat)
    requires shift <= 63 && v < Pow2(shift)
    ensures var r := Or(v, ((b % 128) * Pow2(shift)) % TWO64);
            r < TWO64 && r == (v + (b % 128) * Pow2(shift)) % TWO64 && r < Pow2(shift + 7)
  {
    hide Pow2, Or;
    var p := Pow2(shift);
    assert p * Pow2(64 - shift) == TWO64 by { Pow2Add(shift, 64 - shift); Pow2Of64(); }
    var x := b % 128;
    var m := ShiftLeavesLowBitsFree(x, p, Pow2(64 - shift));
    OrIsSum(v, m, shift);
    SumWithoutWrap(v, x * p, m * p, p);
    MulMono(x, 127, p);
    Pow2SevenMore(shift);
  }

  lemma SumWithoutWrap(v: nat, y: nat, z: nat, p: nat)
    requires v < p && y % TWO64 == z <= TWO64 - p
    ensures z <= y && v + z < TWO64 && v + z == (v + y) % TWO64
  {
  }

  lemma Pow2Of64()
    ensures Pow2(64) == TWO64
  {
    assert Pow2(8) == 256;
    hide Pow2;
    Pow2Doubled(8, 256);
    Pow2Doubled(16, 0x1_0000);
    Pow2Doubled(32, 0x1_0000_0000);
  }

  lemma Pow2Doubled(n: nat, p: nat)
    requires Pow2(n) == p
    ensures Pow2(2 * n) == p * p
  {
    Pow2Add(n, n);
  }

  lemma Pow2Zero()
    ensures Pow2(0) == 1
  {
  }

  /** The shift loop that opens every case of the parser. */
  method ReadVarintLoop(d: seq<Byte>, start: nat) returns (r: Read<U64>, v: U64)
    requires start <= |d|
    ensures r == ReadVarint(d, start)
    ensures v == Gathered(d, start, 0) % TWO64 && (r.Got? ==> r.value == v)
  {
    hide ReadSoFar, Pow2, ReadVarint, OrShifted, Gathered;
    var iNdEx := start;
    v := 0;
    var shift := 0;
    ghost var raw: nat := 0;
    ReadSoFarInit(d, start);
    while true
      invariant start <= iNdEx <= |d|
      invariant shift == 7 * (iNdEx - start) && shift <= 70
      invariant ReadSoFar(d, start, iNdEx, v, raw)
      decreases |d| - iNdEx
    {
      if shift >= 64 {
        ReadSoFarEnd(d, start, iNdEx, v, raw);
        return Failed(IntOverflow), v;
      }
      if iNdEx >= |d| {
        ReadSoFarEnd(d, start, iNdEx, v, raw);
        return Failed(UnexpectedEOF), v;
      }
      ghost var raw' := ReadSoFarStep(d, start, iNdEx, v, raw);
      var b := d[iNdEx];
      iNdEx := iNdEx + 1;
      v := OrShifted(v, b, shift);
      raw := raw';
      if b < 128 {
        return Got(v, iNdEx), v;
      }
      shift := shift + 7;
    }
  }

  /**
  `v` is `raw` in 64 bits, all below the next shift, and reading on from `i` with
  that weight completes the varint.
   */
  ghost predicate ReadSoFar(d: seq<Byte>, start: nat, i: nat, v: U64, raw: nat)
    requires start <= i <= |d| && i - start <= 10
  {
    var p := Pow2(7 * (i - start));
    && v == raw % TWO64 && v < p
    && Scan(d, start, 0) == Resume(raw, p, Scan(d, i, i - start))
    && Gathered(d, start, 0) == raw + p * Gathered(d, i, i - start)
  }

  lemma ReadSoFarInit(d: seq<Byte>, start: nat)
    requires start <= |d|
    ensures ReadSoFar(d, start, start, 0, 0)
  {
    Pow2Zero();
  }

  lemma ReadSoFarEnd(d: seq<Byte>, start: nat, i: nat, v: U64, raw: nat)
    requires start <= i <= |d| && i - start <= 10 && (i - start == 10 || i == |d|)
    requires ReadSoFar(d, start, i, v, raw)
    ensures ReadVarint(d, start) == Failed(if i - start == 10 then IntOverflow else UnexpectedEOF)
    ensures v == Gathered(d, start, 0) % TWO64
  {
    hide Pow2;
  }

  lemma ReadSoFarStep(d: seq<Byte>, start: nat, i: nat, v: U64, raw: nat) returns (raw': nat)
    requires start <= i < |d| && i - start < 10
    requires ReadSoFar(d, start, i, v, raw)
    ensures v < Pow2(7 * (i - start))
    ensures d[i] < 128 ==> ReadVarint(d, start) == Got(OrShifted(v, d[i], 7 * (i - start)), i + 1)
    ensures d[i] < 128 ==> OrShifted(v, d[i], 7 * (i - start)) == Gathered(d, start, 0) % TWO64
    ensures d[i] >= 128 ==> ReadSoFar(d, start, i + 1, OrShifted(v, d[i], 7 * (i - start)), raw')
  {
    hide Pow2, OrShifted, Scan, Gathered;
    var shift := 7 * (i - start);
    var p := Pow2(shift);
    raw' := raw + (d[i] % 128) * p;
    assert OrShifted(v, d[i], shift) == raw' % TWO64 by { AddModulo(raw, (d[i] % 128) * p); }
    ResumeStep(d, i, i - start, raw, p);
    GatherStep(d, i, i - start, raw, p);
    if d[i] < 128 {
      assert Scan(d, start, 0) == Got(raw', i + 1);
    } else {
      ReadSoFarMore(d, start, i, OrShifted(v, d[i], shift), raw');
    }
  }

  lemma ReadSoFarMore(d: seq<Byte>, start: nat, i: nat, w: U64, raw': nat)
    requires start <= i < |d| && i - start < 10
    requires w == raw' % TWO64 && w < Pow2(7 * (i - start) + 7)
    requires Scan(d, start, 0) == Resume(raw', 128 * Pow2(7 * (i - start)), Scan(d, i + 1, i + 1 - start))
    requires Gathered(d, start, 0) == raw' + 128 * Pow2(7 * (i - start)) * Gathered(d, i + 1, i + 1 - start)
    ensures ReadSoFar(d, start, i + 1, w, raw')
  {
    hide Pow2, Scan, Resume, Gathered;
    var shift := 7 * (i - start);
    Pow2SevenMore(shift);
    assert shift + 7 == 7 * (i + 1 - start);
  }

  /** What the whole scan yields when `raw` was read below weight `p` and `rest` remains. */
  ghost function Resume(raw: nat, p: nat, rest: Read<nat>): Read<nat>
  {
    match rest
    case Got(v, j) => Got(raw + p * v, j)
    case Failed(e) => Failed(e)
  }

  lemma ResumeStep(d: seq<Byte>, i: nat, k: nat, raw: nat, p: nat)
    requires i < |d| && k < 10
    ensures d[i] < 128 ==>
              Resume(raw, p, Scan(d, i, k)) == Got(raw + (d[i] % 128) * p, i + 1)
    ensures d[i] >= 128 ==>
              Resume(raw, p, Scan(d, i, k)) == Resume(raw + (d[i] % 128) * p, 128 * p, Scan(d, i + 1, k + 1))
  {
    ScanStep(d, i, k);
    hide Scan;
    if d[i] >= 128 && Scan(d, i + 1, k + 1).Got? {
      WeightedSum(p, d[i] % 128, Scan(d, i + 1, k + 1).value);
    }
  }

  lemma GatherStep(d: seq<Byte>, i: nat, k: nat, raw: nat, p: nat)
    requires i < |d| && k < 10
    ensures d[i] < 128 ==> raw + p * Gathered(d, i, k) == raw + (d[i] % 128) * p
    ensures d[i] >= 128 ==>
              raw + p * Gathered(d, i, k) == raw + (d[i] % 128) * p + 128 * p * Gathered(d, i + 1, k + 1)
  {
    var rest := if d[i] < 128 then 0 else Gathered(d, i + 1, k + 1);
    assert Gathered(d, i, k) == d[i] % 128 + 128 * rest;
    hide Gathered;
    WeightedSum(p, d[i] % 128, rest);
  }

  lemma ScanStep(d: seq<Byte>, i: nat, k: nat)
    requires i < |d| && k < 10
    ensures d[i] < 128 ==> Scan(d, i, k) == Got(d[i] % 128, i + 1)
    ensures d[i] >= 128 ==> Scan(d, i, k) == Resume(d[i] % 128, 128, Scan(d, i + 1, k + 1))
  {
  }

  lemma WeightedSum(p: nat, low: nat, v: nat)
    ensures p * (low + 128 * v) == low * p + (128 * p) * v
  {
  }

  lemma AddModulo(a: nat, b: nat)
    ensures (a % TWO64 + b) % TWO64 == (a + b) % TWO64
  {
  }

  // ---------- Locality ----------

  /** `s` is the part of `d` that starts at `lo`. */
  ghost predicate Inside(s: seq<Byte>, d: seq<Byte>, lo: nat)
  {
    lo + |s| <= |d| && s == d[lo..lo + |s|]
  }

  lemma SubWindow(s: seq<Byte>, d: seq<Byte>, lo: nat, i: nat, j: nat)
    requires Inside(s, d, lo) && i <= j <= |s|
    ensures s[i..j] == d[lo + i..lo + j]
    ensures Inside(s[i..], d[lo + i..], 0)
  {
    forall k | 0 <= k < |s|
      ensures s[k] == d[lo + k]
    {
    }
  }

  /** A varint read inside a window is read the same in the whole buffer. */
  lemma {:induction false} ScanWindow(s: seq<Byte>, d: seq<Byte>, lo: nat, i: nat, k: nat)
    requires Inside(s, d, lo) && i <= |s| && k <= 10
    requires Scan(s, i, k).Got?
    ensures Scan(d, lo + i, k) == Got(Scan(s, i, k).value, lo + Scan(s, i, k).next)
    decreases 10 - k
  {
    assert s[i] == d[lo + i];
    if s[i] >= 128 {
      ScanWindow(s, d, lo, i + 1, k + 1);
    }
  }

  /** Reading depends only on the bytes read: cutting the buffer after them changes nothing. */
  lemma {:induction false} ScanCut(s: seq<Byte>, d: seq<Byte>, lo: nat, i: nat, k: nat)
    requires Inside(s, d, lo) && i <= |s| && k <= 10
    requires Scan(d, lo + i, k).Got? && Scan(d, lo + i, k).next <= lo + |s|
    ensures Scan(s, i, k) == Got(Scan(d, lo + i, k).value, Scan(d, lo + i, k).next - lo)
    decreases 10 - k
  {
    assert s[i] == d[lo + i];
    if s[i] >= 128 {
      ScanCut(s, d, lo, i + 1, k + 1);
    }
  }

  /** Every byte of a varint but its last has the high bit set. */
  lemma {:induction false} ScanShape(d: seq<Byte>, i: nat, k: nat)
    requires i <= |d| && k <= 10 && Scan(d, i, k).Got?
    ensures d[Scan(d, i, k).next - 1] < 128
    ensures forall j :: i <= j < Scan(d, i, k).next - 1 ==> d[j] >= 128
    decreases 10 - k
  {
    if d[i] >= 128 {
      ScanShape(d, i + 1, k + 1);
    }
  }

  /** Seven bits per byte, least significant first. */
  function LittleEndian(s: seq<Byte>): nat
  {
    if s == [] then 0 else s[0] % 128 + 128 * LittleEndian(s[1..])
  }

  /** All bytes but the last carry the continuation bit. */
  predicate Continued(s: seq<Byte>)
  {
    s != [] && s[|s| - 1] < 128 && forall k :: 0 <= k < |s| - 1 ==> s[k] >= 128
  }

  lemma LittleEndianOf(b: Byte, rest: seq<Byte>)
    ensures LittleEndian([b] + rest) == b % 128 + 128 * LittleEndian(rest)
    ensures LittleEndian([b]) == b % 128
  {
    assert ([b] + rest)[1..] == rest;
    assert LittleEndian([]) == 0;
  }

  lemma {:induction false} ScanValue(d: seq<Byte>, i: nat, k: nat)
    requires i <= |d| && k <= 10 && Scan(d, i, k).Got?
    ensures Scan(d, i, k).next <= i + 10 - k
    ensures Scan(d, i, k).value == LittleEndian(d[i..Scan(d, i, k).next])
    decreases 10 - k
  {
    hide LittleEndian;
    var next := Scan(d, i, k).next;
    if d[i] >= 128 {
      ScanValue(d, i + 1, k + 1);
    }
    assert d[i..next] == [d[i]] + d[i + 1..next];
    LittleEndianOf(d[i], d[i + 1..next]);
    if d[i] < 128 {
      assert d[i..next] == [d[i]];
    }
  }

  lemma {:induction false} ScanFails(d: seq<Byte>, i: nat, k: nat)
    requires i <= |d| && k <= 10 && Scan(d, i, k).Failed?
    ensures Scan(d, i, k).error == if i + 10 - k <= |d| then IntOverflow else UnexpectedEOF
    ensures forall j :: i <= j < i + 10 - k && j < |d| ==> d[j] >= 128
    decreases 10 - k
  {
    if k < 10 && i < |d| {
      ScanFails(d, i + 1, k + 1);
    }
  }

  /**
  A varint is read exactly when one of the next ten bytes has no continuation bit; its value is the
  little-endian value of the bytes up to there in 64 bits. Otherwise ten bytes are an overflow and
  fewer an unexpected end.
   */
  lemma VarintMeans(d: seq<Byte>, i: nat)
    requires i <= |d|
    ensures var r := ReadVarint(d, i);
            r.Got? ==>
              r.next <= i + 10 && Continued(d[i..r.next]) && r.value == LittleEndian(d[i..r.next]) % 0x1_0000_0000_0000_0000
    ensures var r := ReadVarint(d, i);
            r.Failed? ==>
              && r.error == (if i + 10 <= |d| then IntOverflow else UnexpectedEOF)
              && forall j :: i <= j < i + 10 && j < |d| ==> d[j] >= 128
  {
    hide LittleEndian;
    if Scan(d, i, 0).Got? {
      ScanValue(d, i, 0);
      ScanShape(d, i, 0);
    } else {
      ScanFails(d, i, 0);
    }
  }

  lemma VarintWindow(s: seq<Byte>, d: seq<Byte>, lo: nat, i: nat)
    requires Inside(s, d, lo) && i <= |s|
    requires ReadVarint(s, i).Got?
    ensures ReadVarint(d, lo + i) == Got(ReadVarint(s, i).value, lo + ReadVarint(s, i).next)
  {
    ScanWindow(s, d, lo, i, 0);
  }

  lemma VarintCut(s: seq<Byte>, d: seq<Byte>, lo: nat, i: nat)
    requires Inside(s, d, lo) && i <= |s|
    requires ReadVarint(d, lo + i).Got? && ReadVarint(d, lo + i).next <= lo + |s|
    ensures ReadVarint(s, i) == Got(ReadVarint(d, lo + i).value, ReadVarint(d, lo + i).next - lo)
  {
    ScanCut(s, d, lo, i, 0);
  }

  // ---------- Writing ----------

  /** The minimal varint of `v`. */
  function EncodeVarint(v: nat): (s: seq<Byte>)
    ensures |s| >= 1
  {
    if v < 128 then [v] else [v % 128 + 128] + EncodeVarint(v / 128)
  }

  /** The printed bytes are little-endian with continuation bits, and the last is zero only for zero. */
  lemma EncodedMeans(v: nat)
    ensures LittleEndian(EncodeVarint(v)) == v && Continued(EncodeVarint(v))
    ensures EncodeVarint(v)[|EncodeVarint(v)| - 1] == 0 ==> v == 0
  {
    EncodedValue(v);
    EncodedShape(v);
  }

  lemma {:induction false} EncodedValue(v: nat)
    ensures LittleEndian(EncodeVarint(v)) == v
    decreases v
  {
    hide LittleEndian;
    if v < 128 {
      LittleEndianOf(v, []);
    } else {
      EncodedValue(v / 128);
      LittleEndianOf(v % 128 + 128, EncodeVarint(v / 128));
    }
  }

  lemma {:induction false} EncodedShape(v: nat)
    ensures Continued(EncodeVarint(v))
    ensures EncodeVarint(v)[|EncodeVarint(v)| - 1] == 0 ==> v == 0
    decreases v
  {
    if v >= 128 {
      EncodedShape(v / 128);
    }
  }

  /** Number of significant bits: `bits.Len64`. */
  function BitLen(x: nat): nat
  {
    if x == 0 then 0 else 1 + BitLen(x / 2)
  }

  /** The predicted length `(bits.Len64(x|1) + 6) / 7`. */
  function Sov(x: nat): nat
  {
    (BitLen(if x % 2 == 0 then x + 1 else x) + 6) / 7
  }

  lemma BitLenHalf(x: nat)
    requires x >= 1
    ensures BitLen(x) == 1 + BitLen(x / 2)
  {
  }

  lemma BitLenSevenMore(x: nat)
    requires x >= 128
    ensures BitLen(x) == 7 + BitLen(x / 128)
  {
    hide BitLen;
    BitLenHalf(x);
    BitLenHalf(x / 2);
    BitLenHalf(x / 4);
    BitLenHalf(x / 8);
    BitLenHalf(x / 16);
    BitLenHalf(x / 32);
    BitLenHalf(x / 64);
  }

  lemma BitLenOrOne(x: nat)
    requires x >= 1
    ensures BitLen(if x % 2 == 0 then x + 1 else x) == BitLen(x)
  {
    assert (x + 1) / 2 == x / 2 || x % 2 != 0;
  }

  /** The predicted length is the number of bytes the varint loop writes. */
  lemma {:induction false} SovIsLength(v: nat)
    ensures |EncodeVarint(v)| == Sov(v)
  {
    if v < 128 {
      assert Pow2(7) == 128;
      BitLenBound(v, 7);
      if v > 0 { BitLenOrOne(v); }
    } else {
      SovIsLength(v / 128);
      BitLenSevenMore(v);
      BitLenOrOne(v);
      BitLenOrOne(v / 128);
    }
  }

  lemma BitLenBound(v: nat, n: nat)
    requires v < Pow2(n)
    ensures BitLen(v) <= n
  {
    if v != 0 {
      BitLenBound(v / 2, n - 1);
    }
  }

  /** A varint of at most ten bytes reads back, whatever follows it. */
  lemma {:induction false} ScanEncoded(v: nat, tail: seq<Byte>, k: nat)
    requires k + |EncodeVarint(v)| <= 10
    ensures Scan(EncodeVarint(v) + tail, 0, k) == Got(v, |EncodeVarint(v)|)
    decreases v
  {
    var s := EncodeVarint(v) + tail;
    if v >= 128 {
      var rest := EncodeVarint(v / 128) + tail;
      ScanEncoded(v / 128, tail, k + 1);
      assert s[1..1 + |rest|] == rest;
      ScanWindow(rest, s, 1, 0, k + 1);
    }
  }

  lemma VarintLength(v: U64)
    ensures |EncodeVarint(v)| <= 10
  {
    SovIsLength(v);
    Pow2Of64();
    BitLenBound(v, 64);
    if v > 0 { BitLenOrOne(v); }
  }

  /** Every 64-bit value survives printing and reading, whatever follows. */
  lemma VarintRoundTrip(v: U64, tail: seq<Byte>)
    ensures ReadVarint(EncodeVarint(v) + tail, 0) == Got(v, |EncodeVarint(v)|)
  {
    hide Scan, EncodeVarint;
    VarintLength(v);
    ScanEncoded(v, tail, 0);
  }

  /** The printer's loop, writing forward from the slot reserved below `offset`. */
  method EncodeVarintAt(dAtA: array<Byte>, offset: nat, v: U64) returns (base: nat)
    requires Sov(v) <= offset <= dAtA.Length
    modifies dAtA
    ensures base == offset - Sov(v)
    ensures dAtA[base..] == EncodeVarint(v) + old(dAtA[offset..])
    ensures dAtA[..base] == old(dAtA[..base])
  {
    hide EncodeVarint, Sov;
    SovIsLength(v);
    base := offset - Sov(v);
    var end := PutVarint(dAtA, base, v);
    assert dAtA[base..] == dAtA[base..end] + dAtA[end..];
  }

  /** Writes the varint of `v` at `j` and returns the index after it. */
  method PutVarint(dAtA: array<Byte>, j: nat, v: U64) returns (next: nat)
    requires j + |EncodeVarint(v)| <= dAtA.Length
    modifies dAtA
    ensures next == j + |EncodeVarint(v)|
    ensures dAtA[j..next] == EncodeVarint(v)
    ensures dAtA[..j] == old(dAtA[..j])
    ensures dAtA[next..] == old(dAtA[next..])
  {
    var num: nat := v;
    next := j;
    ghost var end := j + |EncodeVarint(v)|;
    while num >= 128
      invariant j <= next && next + |EncodeVarint(num)| == end
      invariant dAtA[j..next] + EncodeVarint(num) == EncodeVarint(v)
      invariant dAtA[..j] == old(dAtA[..j])
      invariant dAtA[end..] == old(dAtA[end..])
    {
      MoveByte(dAtA[j..next], num);
      ghost var written := dAtA[j..next];
      dAtA[next] := num % 128 + 128;
      assert dAtA[j..next + 1] == written + [num % 128 + 128];
      num := num / 128;
      next := next + 1;
    }
    ghost var written := dAtA[j..next];
    dAtA[next] := num;
    assert dAtA[j..next + 1] == written + [num];
    next := next + 1;
  }

  lemma MoveByte(written: seq<Byte>, num: nat)
    requires num >= 128
    ensures written + EncodeVarint(num) == written + [num % 128 + 128] + EncodeVarint(num / 128)
    ensures |EncodeVarint(num)| == 1 + |EncodeVarint(num / 128)|
  {
  }
}
