/**
The message object with its `size`, `marshal` and `unmarshal` closures, each proved
against the record-stream definitions.
 */
module ChainMetaMessage {
  import opened Basics
  import opened Varint
  import opened ChainMetaWire
  import opened ChainMetaCodec

  // ---------- The parser's inner loops ----------

  /** The length prefix of a string or packed field, with the int64 overflow checks. */
  method ReadLength(dAtA: Bytes, i: nat) returns (r: Read<nat>)
    requires i <= |dAtA| < TWO63
    ensures r == ReadBounds(dAtA, i)
  {
    var l, _ := ReadVarintLoop(dAtA, i);
    if l.Failed? {
      return Failed(l.error);
    }
    var intStringLen := AsInt64(l.value);
    if intStringLen < 0 {
      return Failed(InvalidLength);
    }
    var postIndex := l.next + intStringLen;
    if postIndex >= TWO63 {
      return Failed(InvalidLength);
    }
    if postIndex > |dAtA| {
      return Failed(UnexpectedEOF);
    }
    return Got(l.next, postIndex);
  }

  /** Elements already read, followed by the outcome for the rest. */
  ghost function Follow(done: seq<U64>, rest: Read<seq<U64>>): Read<seq<U64>>
  {
    match rest
    case Got(vs, j) => Got(done + vs, j)
    case Failed(e) => Failed(e)
  }

  /** `done` has been read of the chunk, and the loop stands at `i`. */
  ghost predicate PackedRead(d: Bytes, start: nat, i: nat, end: nat, done: seq<U64>)
  {
    && start <= |d| && i <= |d| && end <= |d|
    && ReadPacked(d, start, end) == Follow(done, ReadPacked(d, i, end))
    && PackedSoFar(d, start, end) == done + PackedSoFar(d, i, end)
  }

  lemma PackedReadInit(d: Bytes, start: nat, end: nat)
    requires start <= |d| && end <= |d|
    ensures PackedRead(d, start, start, end, [])
  {
    hide ReadPacked, PackedSoFar;
    var all := ReadPacked(d, start, end);
    assert all.Got? ==> [] + all.value == all.value;
  }

  lemma PackedUnfold(d: Bytes, i: nat, end: nat)
    requires i < end <= |d| && ReadVarint(d, i).Got?
    ensures var Got(v, j) := ReadVarint(d, i);
            && ReadPacked(d, i, end) == Follow([v], ReadPacked(d, j, end))
            && PackedSoFar(d, i, end) == [v] + PackedSoFar(d, j, end)
  {
    hide ReadVarint;
  }

  lemma PackedReadStep(d: Bytes, start: nat, i: nat, end: nat, done: seq<U64>)
    requires PackedRead(d, start, i, end, done) && i < end && ReadVarint(d, i).Got?
    ensures PackedRead(d, start, ReadVarint(d, i).next, end, done + [ReadVarint(d, i).value])
  {
    hide ReadPacked, PackedSoFar, ReadVarint;
    PackedUnfold(d, i, end);
    var Got(v, j) := ReadVarint(d, i);
    var rest := ReadPacked(d, j, end);
    if rest.Got? {
      Regroup(done, [v], rest.value);
    }
    Regroup(done, [v], PackedSoFar(d, j, end));
  }

  lemma PackedReadEnd(d: Bytes, start: nat, i: nat, end: nat, done: seq<U64>)
    requires PackedRead(d, start, i, end, done) && (i >= end || ReadVarint(d, i).Failed?)
    ensures ReadPacked(d, start, end) == if i >= end then Got(done, i) else Failed(ReadVarint(d, i).error)
    ensures PackedSoFar(d, start, end) == done
  {
    assert done + [] == done;
  }

  /** The packed loop, which appends element by element up to the end of the chunk or the first error. */
  method ReadPackedLoop(dAtA: Bytes, start: nat, postIndex: nat, list: seq<U64>)
    returns (r: Read<seq<U64>>, out: seq<U64>)
    requires start <= |dAtA| && postIndex <= |dAtA|
    ensures r == ReadPacked(dAtA, start, postIndex)
    ensures out == list + if r.Got? then r.value else PackedSoFar(dAtA, start, postIndex)
  {
    hide ReadVarint, ReadPacked, PackedSoFar, PackedRead;
    out := list;
    var iNdEx := start;
    var done: seq<U64> := [];
    PackedReadInit(dAtA, start, postIndex);
    while iNdEx < postIndex
      invariant iNdEx <= |dAtA|
      invariant out == list + done
      invariant PackedRead(dAtA, start, iNdEx, postIndex, done)
      decreases |dAtA| - iNdEx
    {
      var v, _ := ReadVarintLoop(dAtA, iNdEx);
      if v.Failed? {
        PackedReadEnd(dAtA, start, iNdEx, postIndex, done);
        return Failed(v.error), out;
      }
      PackedReadStep(dAtA, start, iNdEx, postIndex, done);
      assert list + (done + [v.value]) == list + done + [v.value];
      out := out + [v.value];
      done := done + [v.value];
      iNdEx := v.next;
    }
    PackedReadEnd(dAtA, start, iNdEx, postIndex, done);
    return Got(done, iNdEx), out;
  }

  /** A repeated integer field: a single varint, or a packed run. */
  method ReadIntsLoop(dAtA: Bytes, i: nat, wireType: nat, list: seq<U64>) returns (r: Read<seq<U64>>, out: seq<U64>)
    requires i <= |dAtA| < TWO63
    ensures r == ReadInts(dAtA, i, wireType)
    ensures out == list + if r.Got? then r.value else IntsSoFar(dAtA, i, wireType)
  {
    hide ReadVarint, ReadBounds, ReadPacked, PackedSoFar;
    assert list == list + [];
    if wireType == 0 {
      var v, _ := ReadVarintLoop(dAtA, i);
      if v.Failed? {
        return Failed(v.error), list;
      }
      return Got([v.value], v.next), list + [v.value];
    } else if wireType == 2 {
      var bounds := ReadLength(dAtA, i);
      if bounds.Failed? {
        return Failed(bounds.error), list;
      }
      r, out := ReadPackedLoop(dAtA, bounds.value, bounds.next, list);
    } else {
      return Failed(WrongWireType), list;
    }
  }

  /** The skipper: walks tags and payloads until the outermost group is closed. */
  method Skip(dAtA: Bytes) returns (r: Skipped)
    ensures r == SkipFrom(dAtA, 0, 0)
  {
    hide ReadVarint;
    var iNdEx: nat, depth: nat := 0, 0;
    while iNdEx < |dAtA|
      invariant iNdEx < |dAtA| ==> SkipFrom(dAtA, iNdEx, depth) == SkipFrom(dAtA, 0, 0)
      invariant iNdEx >= |dAtA| ==> SkipFrom(dAtA, 0, 0) == Stuck(UnexpectedEOF)
      decreases |dAtA| - iNdEx
    {
      var tag, _ := ReadVarintLoop(dAtA, iNdEx);
      if tag.Failed? {
        return Stuck(tag.error);
      }
      var wireType := tag.value % 8;
      iNdEx := tag.next;
      match wireType {
        case 0 =>
          var v, _ := ReadVarintLoop(dAtA, iNdEx);
          if v.Failed? {
            return Stuck(v.error);
          }
          iNdEx := v.next;
        case 1 =>
          iNdEx := iNdEx + 8;
        case 2 =>
          var v, _ := ReadVarintLoop(dAtA, iNdEx);
          if v.Failed? {
            return Stuck(v.error);
          }
          var length := AsInt64(v.value);
          if length < 0 {
            return Stuck(InvalidLength);
          }
          iNdEx := v.next + length;
        case 3 =>
          depth := depth + 1;
        case 4 =>
          if depth == 0 {
            return Stuck(EndGroup);
          }
          depth := depth - 1;
        case 5 =>
          iNdEx := iNdEx + 4;
        case _ =>
          return Stuck(IllegalWireType);
      }
      if iNdEx >= TWO63 {
        return Stuck(InvalidLength);
      }
      if depth == 0 {
        return Past(iNdEx);
      }
    }
    return Stuck(UnexpectedEOF);
  }

  // ---------- The printer's pieces ----------

  /** Copies `t` into the buffer at `i`. */
  method CopyAt(dAtA: array<Byte>, i: nat, t: Bytes)
    requires i + |t| <= dAtA.Length
    modifies dAtA
    ensures dAtA[i..] == t + old(dAtA[i + |t|..])
    ensures dAtA[..i] == old(dAtA[..i])
  {
    for k := 0 to |t|
      invariant dAtA[i..i + k] == t[..k]
      invariant dAtA[..i] == old(dAtA[..i])
      invariant dAtA[i + |t|..] == old(dAtA[i + |t|..])
    {
      dAtA[i + k] := t[k];
      assert dAtA[i..i + k + 1] == dAtA[i..i + k] + [t[k]];
      assert t[..k + 1] == t[..k] + [t[k]];
    }
    assert dAtA[i..] == dAtA[i..i + |t|] + dAtA[i + |t|..];
  }

  lemma {:induction false} EncodeIntsConcat(xs: seq<U64>, ys: seq<U64>)
    ensures EncodeInts(xs + ys) == EncodeInts(xs) + EncodeInts(ys)
  {
    if xs == [] {
      assert xs + ys == ys;
    } else {
      assert (xs + ys)[1..] == xs[1..] + ys;
      EncodeIntsConcat(xs[1..], ys);
    }
  }

  lemma EncodeIntsSnoc(vs: seq<U64>, k: nat)
    requires k < |vs|
    ensures EncodeInts(vs[..k + 1]) == EncodeInts(vs[..k]) + EncodeVarint(vs[k])
    ensures |EncodeInts(vs[..k + 1])| <= |EncodeInts(vs)|
  {
    assert vs[..k + 1] == vs[..k] + [vs[k]];
    EncodeIntsConcat(vs[..k], [vs[k]]);
    assert EncodeInts([vs[k]]) == EncodeVarint(vs[k]) + [] == EncodeVarint(vs[k]);
    assert vs == vs[..k + 1] + vs[k + 1..];
    EncodeIntsConcat(vs[..k + 1], vs[k + 1..]);
  }

  /** The packed size loop, shared by `size` and `marshal`. */
  method PackedSize(vs: seq<U64>) returns (n: nat)
    ensures n == |EncodeInts(vs)|
  {
    hide EncodeInts, EncodeVarint, Sov;
    n := 0;
    assert vs[..0] == [];
    EncodeIntsEmpty();
    for k := 0 to |vs|
      invariant n == |EncodeInts(vs[..k])|
    {
      EncodeIntsSnoc(vs, k);
      SovIsLength(vs[k]);
      n := n + Sov(vs[k]);
    }
    assert vs[..|vs|] == vs;
  }

  lemma EncodeIntsEmpty()
    ensures EncodeInts([]) == []
  {
  }

  /** The inline varint loops of a packed field, written forward from `i`. */
  method PutInts(dAtA: array<Byte>, i: nat, vs: seq<U64>)
    requires i + |EncodeInts(vs)| <= dAtA.Length
    modifies dAtA
    ensures dAtA[i..] == EncodeInts(vs) + old(dAtA[i + |EncodeInts(vs)|..])
    ensures dAtA[..i] == old(dAtA[..i])
  {
    hide EncodeInts, EncodeVarint;
    var j := i;
    ghost var end := i + |EncodeInts(vs)|;
    assert vs[..0] == [];
    EncodeIntsEmpty();
    for k := 0 to |vs|
      invariant j == i + |EncodeInts(vs[..k])| <= end
      invariant dAtA[i..j] == EncodeInts(vs[..k])
      invariant dAtA[..i] == old(dAtA[..i])
      invariant dAtA[end..] == old(dAtA[end..])
    {
      EncodeIntsSnoc(vs, k);
      ghost var was := dAtA[..];
      var next := PutVarint(dAtA, j, vs[k]);
      PutKeeps(was, dAtA[..], i, j, next, end);
      j := next;
    }
    assert vs[..|vs|] == vs;
    assert dAtA[i..] == dAtA[i..end] + dAtA[end..];
  }

  /** Bytes outside a write `[j, next)` that lies inside `[i, end)` are kept. */
  lemma PutKeeps(a: Bytes, b: Bytes, i: nat, j: nat, next: nat, end: nat)
    requires |a| == |b| && i <= j <= next <= end <= |a|
    requires a[..j] == b[..j] && a[next..] == b[next..]
    ensures b[..i] == a[..i] && b[end..] == a[end..]
    ensures b[i..next] == a[i..j] + b[j..next]
  {
    assert b[..i] == b[..j][..i];
    assert b[end..] == b[next..][end - next..];
    assert b[i..j] == b[..j][i..];
    assert a[i..j] == a[..j][i..];
  }

  // ---------- The print, field by field ----------

  function PackedField(tag: Byte, vs: seq<U64>): Bytes
  {
    if vs == [] then [] else EncodeText(tag, EncodeInts(vs))
  }

  function ScalarField(tag: Byte, v: U64): Bytes
  {
    if v == 0 then [] else [tag] + EncodeVarint(v)
  }

  function SignersField(ts: seq<Bytes>): Bytes
  {
    if ts == [] then [] else EncodeText(0x12, ts[0]) + SignersField(ts[1..])
  }

  lemma {:induction false} EncodeAllConcat(xs: seq<Record>, ys: seq<Record>)
    ensures EncodeAll(xs + ys) == EncodeAll(xs) + EncodeAll(ys)
  {
    if xs == [] {
      assert xs + ys == ys;
    } else {
      assert (xs + ys)[1..] == xs[1..] + ys;
      EncodeAllConcat(xs[1..], ys);
    }
  }

  lemma EncodeAllOne(r: Record)
    ensures EncodeAll([r]) == EncodeRecord(r)
  {
    assert EncodeAll([r]) == EncodeRecord(r) + [];
  }

  lemma {:induction false} EncodeSigners(ts: seq<Bytes>)
    ensures EncodeAll(SignerRecords(ts)) == SignersField(ts)
  {
    if ts != [] {
      EncodeSigners(ts[1..]);
      assert SignerRecords(ts)[1..] == SignerRecords(ts[1..]);
    }
  }

  lemma EncodeList(f: ListField, vs: seq<U64>)
    ensures EncodeAll(ListRecords(f, vs)) == PackedField(PackedTag(f), vs)
  {
    if vs != [] {
      EncodeAllOne(IntsRecord(f, true, vs));
    }
  }

  /** The print is the fields in order, default values left out, then the unknown bytes. */
  lemma EncodeByField(m: Meta)
    ensures Encode(m)
            == (if m.chainId == [] then [] else EncodeText(0x0a, m.chainId))
             + SignersField(m.signers)
             + PackedField(0x1a, m.prices)
             + PackedField(0x22, m.chainHeights)
             + PackedField(0x2a, m.storedAts)
             + ScalarField(0x30, m.medianIndex)
             + ScalarField(0x38, m.appliedHeight)
             + m.unknown
  {
    hide EncodeAll, SignerRecords, ListRecords, PackedField, SignersField, EncodeVarint, EncodeText;
    var r1 := if m.chainId != [] then [ChainIdRecord(m.chainId)] else [];
    var r2 := SignerRecords(m.signers);
    var r3 := ListRecords(Prices, m.prices);
    var r4 := ListRecords(ChainHeights, m.chainHeights);
    var r5 := ListRecords(StoredAts, m.storedAts);
    var r6 := if m.medianIndex != 0 then [MedianRecord(m.medianIndex)] else [];
    var r7 := if m.appliedHeight != 0 then [HeightRecord(m.appliedHeight)] else [];
    EncodeAllConcat(r1 + r2 + r3 + r4 + r5 + r6, r7);
    EncodeAllConcat(r1 + r2 + r3 + r4 + r5, r6);
    EncodeAllConcat(r1 + r2 + r3 + r4, r5);
    EncodeAllConcat(r1 + r2 + r3, r4);
    EncodeAllConcat(r1 + r2, r3);
    EncodeAllConcat(r1, r2);
    EncodeAllEmpty();
    EncodeAllOne(ChainIdRecord(m.chainId));
    EncodeSigners(m.signers);
    EncodeList(Prices, m.prices);
    EncodeList(ChainHeights, m.chainHeights);
    EncodeList(StoredAts, m.storedAts);
    EncodeAllOne(MedianRecord(m.medianIndex));
    EncodeAllOne(HeightRecord(m.appliedHeight));
  }

  lemma EncodeAllEmpty()
    ensures EncodeAll([]) == []
  {
  }

  lemma {:induction false} SignersConcat(xs: seq<Bytes>, ys: seq<Bytes>)
    ensures SignersField(xs + ys) == SignersField(xs) + SignersField(ys)
  {
    if xs == [] {
      assert xs + ys == ys;
    } else {
      assert (xs + ys)[1..] == xs[1..] + ys;
      SignersConcat(xs[1..], ys);
    }
  }

  lemma SignersSnoc(ts: seq<Bytes>, k: nat)
    requires k < |ts|
    ensures SignersField(ts[..k + 1]) == SignersField(ts[..k]) + EncodeText(0x12, ts[k])
    ensures SignersField(ts[k..]) == EncodeText(0x12, ts[k]) + SignersField(ts[k + 1..])
  {
    assert ts[..k + 1] == ts[..k] + [ts[k]];
    SignersConcat(ts[..k], [ts[k]]);
    assert SignersField([ts[k]]) == EncodeText(0x12, ts[k]) + [];
    assert ts[k..][1..] == ts[k + 1..];
  }

  // ---------- Writing one field below `hi` ----------

  /** Everything from `i` up is `piece` followed by what was at `hi`; the rest is as before. */
  twostate predicate Prepended(dAtA: array<Byte>, i: nat, hi: nat, piece: Bytes)
    reads dAtA
  {
    && i <= hi <= dAtA.Length
    && dAtA[i..] == piece + old(dAtA[hi..])
    && dAtA[..i] == old(dAtA[..i])
  }

  /** Length (or value) and tag in front of `hi`. */
  method PutHeader(dAtA: array<Byte>, hi: nat, tag: Byte, v: U64) returns (i: nat)
    requires 1 + |EncodeVarint(v)| <= hi <= dAtA.Length
    modifies dAtA
    ensures Prepended(dAtA, i, hi, [tag] + EncodeVarint(v))
  {
    hide EncodeVarint, Sov;
    SovIsLength(v);
    var base := EncodeVarintAt(dAtA, hi, v);
    ghost var was := dAtA[..];
    i := base - 1;
    dAtA[i] := tag;
    assert dAtA[i..] == [tag] + dAtA[base..];
    assert dAtA[base..] == was[base..];
    assert dAtA[..i] == was[..base][..i] == old(dAtA[..base])[..i];
  }

  /** A string: its bytes, then its length, then its tag, each in front of the last. */
  method PutText(dAtA: array<Byte>, hi: nat, tag: Byte, t: Bytes) returns (i: nat)
    requires |EncodeText(tag, t)| <= hi <= dAtA.Length && |t| < TWO64
    modifies dAtA
    ensures Prepended(dAtA, i, hi, EncodeText(tag, t))
  {
    hide EncodeVarint, Sov;
    var mid := hi - |t|;
    CopyAt(dAtA, mid, t);
    ghost var was := dAtA[..];
    i := PutHeader(dAtA, mid, tag, |t|);
    PrependTwice(old(dAtA[..]), was, dAtA[..], i, mid, hi, [tag] + EncodeVarint(|t|), t);
  }

  lemma PrependTwice(a: Bytes, b: Bytes, c: Bytes, i: nat, mid: nat, hi: nat, p: Bytes, q: Bytes)
    requires |a| == |b| == |c| && i <= mid <= hi <= |a|
    requires b[mid..] == q + a[hi..] && b[..mid] == a[..mid]
    requires c[i..] == p + b[mid..] && c[..i] == b[..i]
    ensures c[i..] == p + q + a[hi..] && c[..i] == a[..i]
  {
    assert a[..mid][..i] == a[..i] && b[..mid][..i] == b[..i];
  }

  method PutPacked(dAtA: array<Byte>, hi: nat, tag: Byte, vs: seq<U64>) returns (i: nat)
    requires |PackedField(tag, vs)| <= hi <= dAtA.Length < TWO63
    modifies dAtA
    ensures Prepended(dAtA, i, hi, PackedField(tag, vs))
  {
    if |vs| == 0 {
      return hi;
    }
    PackedPieces(tag, vs);
    hide EncodeVarint, EncodeInts, Sov, PackedField, EncodeText;
    i := PutChunk(dAtA, hi, tag, vs);
  }

  /** The values forward into their gap, then their size and the tag in front. */
  method PutChunk(dAtA: array<Byte>, hi: nat, tag: Byte, vs: seq<U64>) returns (i: nat)
    requires 1 + |EncodeVarint(|EncodeInts(vs)|)| + |EncodeInts(vs)| <= hi <= dAtA.Length < TWO63
    modifies dAtA
    ensures Prepended(dAtA, i, hi, [tag] + EncodeVarint(|EncodeInts(vs)|) + EncodeInts(vs))
  {
    hide EncodeVarint, EncodeInts, Sov;
    var pksize := PackedSize(vs);
    var mid := hi - pksize;
    PutInts(dAtA, mid, vs);
    ghost var was := dAtA[..];
    assert was[mid..] == EncodeInts(vs) + old(dAtA[hi..]) && was[..mid] == old(dAtA[..mid]);
    ghost var head := [tag] + EncodeVarint(pksize);
    i := PutHeader(dAtA, mid, tag, pksize);
    assert dAtA[i..] == head + was[mid..] && dAtA[..i] == was[..i];
    PrependTwice(old(dAtA[..]), was, dAtA[..], i, mid, hi, head, EncodeInts(vs));
  }

  lemma PackedPieces(tag: Byte, vs: seq<U64>)
    requires vs != []
    ensures PackedField(tag, vs) == [tag] + EncodeVarint(|EncodeInts(vs)|) + EncodeInts(vs)
    ensures |PackedField(tag, vs)| == 1 + |EncodeVarint(|EncodeInts(vs)|)| + |EncodeInts(vs)|
  {
    hide EncodeVarint, EncodeInts;
  }

  method PutScalar(dAtA: array<Byte>, hi: nat, tag: Byte, v: U64) returns (i: nat)
    requires |ScalarField(tag, v)| <= hi <= dAtA.Length
    modifies dAtA
    ensures Prepended(dAtA, i, hi, ScalarField(tag, v))
  {
    hide EncodeVarint;
    i := hi;
    if v != 0 {
      i := PutHeader(dAtA, hi, tag, v);
    }
  }

  /** The signers, last one first. */
  method PutSigners(dAtA: array<Byte>, hi: nat, ts: seq<Bytes>) returns (i: nat)
    requires |SignersField(ts)| <= hi <= dAtA.Length < TWO63
    modifies dAtA
    ensures Prepended(dAtA, i, hi, SignersField(ts))
  {
    hide EncodeText, SignersField;
    i := hi;
    var iNdEx := |ts|;
    assert ts[..|ts|] == ts && ts[|ts|..] == [];
    SignersEmpty();
    while iNdEx > 0
      invariant 0 <= iNdEx <= |ts|
      invariant |SignersField(ts[..iNdEx])| <= i
      invariant Prepended(dAtA, i, hi, SignersField(ts[iNdEx..]))
    {
      iNdEx := iNdEx - 1;
      SignersSnoc(ts, iNdEx);
      TextLength(0x12, ts[iNdEx]);
      ghost var was := dAtA[..];
      ghost var mid := i;
      i := PutText(dAtA, i, 0x12, ts[iNdEx]);
      PrependTwice(old(dAtA[..]), was, dAtA[..], i, mid, hi, EncodeText(0x12, ts[iNdEx]), SignersField(ts[iNdEx + 1..]));
    }
    assert ts[0..] == ts;
  }

  lemma SignersEmpty()
    ensures SignersField([]) == []
  {
  }

  lemma TextLength(tag: Byte, t: Bytes)
    ensures |t| < |EncodeText(tag, t)|
  {
  }

  // ---------- The message object ----------

  class ChainMeta {
    var chainId: Bytes
    var signers: seq<Bytes>
    var prices: seq<U64>
    var chainHeights: seq<U64>
    var storedAts: seq<U64>
    var medianIndex: U64
    var appliedHeight: U64
    var unknownFields: Bytes

    /** The empty message. */
    constructor ()
      ensures Value() == EmptyMeta
    {
      chainId, signers, prices, chainHeights, storedAts := [], [], [], [], [];
      medianIndex, appliedHeight, unknownFields := 0, 0, [];
    }

    function Value(): Meta
      reads this
    {
      Meta(chainId, signers, prices, chainHeights, storedAts, medianIndex, appliedHeight, unknownFields)
    }

    /** The computed size is the number of bytes printed. */
    method Size() returns (n: nat)
      ensures n == |Encode(Value())|
    {
      hide Encode, EncodeVarint, EncodeInts, Sov, SignersField;
      EncodeByField(Value());
      n := 0;
      var l := |chainId|;
      if l > 0 {
        SovIsLength(l);
        n := n + 1 + l + Sov(l);
      }
      ghost var base := n;
      assert signers[..0] == [] && signers[..|signers|] == signers;
      SignersEmpty();
      for k := 0 to |signers|
        invariant n == base + |SignersField(signers[..k])|
      {
        SignersSnoc(signers, k);
        l := |signers[k]|;
        SovIsLength(l);
        n := n + 1 + l + Sov(l);
      }
      n := AddPackedSize(n, 0x1a, prices);
      n := AddPackedSize(n, 0x22, chainHeights);
      n := AddPackedSize(n, 0x2a, storedAts);
      if medianIndex != 0 {
        SovIsLength(medianIndex);
        n := n + 1 + Sov(medianIndex);
      }
      if appliedHeight != 0 {
        SovIsLength(appliedHeight);
        n := n + 1 + Sov(appliedHeight);
      }
      n := n + |unknownFields|;
    }

    static method AddPackedSize(n: nat, ghost tag: Byte, vs: seq<U64>) returns (n': nat)
      ensures n' == n + |PackedField(tag, vs)|
    {
      hide EncodeVarint, EncodeInts, Sov;
      n' := n;
      if |vs| > 0 {
        var l := PackedSize(vs);
        SovIsLength(l);
        n' := n' + 1 + Sov(l) + l;
      }
    }

    /** The buffer is filled backwards from its end; the cursor stops at exactly 0. */
    method Marshal(buf: Bytes) returns (out: Bytes)
      requires |Encode(Value())| < TWO63
      ensures out == buf + Encode(Value())
    {
      hide Encode, EncodeText, SignersField, PackedField, ScalarField;
      var size := Size();
      var dAtA := new Byte[size];
      ghost var front := (if chainId == [] then [] else EncodeText(0x0a, chainId)) + SignersField(signers);
      ghost var lists := PackedField(0x1a, prices) + PackedField(0x22, chainHeights) + PackedField(0x2a, storedAts);
      ghost var scalars := ScalarField(0x30, medianIndex) + ScalarField(0x38, appliedHeight);
      assert Encode(Value()) == front + (lists + (scalars + unknownFields)) by { EncodeByField(Value()); }
      var i := dAtA.Length;
      i := i - |unknownFields|;
      CopyAt(dAtA, i, unknownFields);
      assert dAtA[i..] == unknownFields;
      i := PutScalars(dAtA, i);
      i := PutLists(dAtA, i);
      i := PutFront(dAtA, i);
      assert dAtA[i..] == Encode(Value());
      assert i == 0;
      assert dAtA[..] == dAtA[i..];
      out := buf + dAtA[..];
    }

    /** Applied height, then median index in front of it. */
    method PutScalars(dAtA: array<Byte>, hi: nat) returns (i: nat)
      requires |ScalarField(0x30, medianIndex) + ScalarField(0x38, appliedHeight)| <= hi <= dAtA.Length
      modifies dAtA
      ensures Prepended(dAtA, i, hi, ScalarField(0x30, medianIndex) + ScalarField(0x38, appliedHeight))
    {
      hide ScalarField;
      var mid := PutScalar(dAtA, hi, 0x38, appliedHeight);
      ghost var was := dAtA[..];
      i := PutScalar(dAtA, mid, 0x30, medianIndex);
      PrependTwice(old(dAtA[..]), was, dAtA[..], i, mid, hi, ScalarField(0x30, medianIndex), ScalarField(0x38, appliedHeight));
    }

    /** The three packed lists, last field first. */
    method PutLists(dAtA: array<Byte>, hi: nat) returns (i: nat)
      requires dAtA.Length < TWO63
      requires |PackedField(0x1a, prices) + PackedField(0x22, chainHeights) + PackedField(0x2a, storedAts)| <= hi <= dAtA.Length
      modifies dAtA
      ensures Prepended(dAtA, i, hi, PackedField(0x1a, prices) + PackedField(0x22, chainHeights) + PackedField(0x2a, storedAts))
    {
      hide PackedField;
      ghost var p, h, s := PackedField(0x1a, prices), PackedField(0x22, chainHeights), PackedField(0x2a, storedAts);
      var m := PutPacked(dAtA, hi, 0x2a, storedAts);
      ghost var b := dAtA[..];
      var n := PutPacked(dAtA, m, 0x22, chainHeights);
      ghost var c := dAtA[..];
      PrependTwice(old(dAtA[..]), b, c, n, m, hi, h, s);
      i := PutPacked(dAtA, n, 0x1a, prices);
      PrependTwice(old(dAtA[..]), c, dAtA[..], i, n, hi, p, h + s);
      assert p + (h + s) == p + h + s;
    }

    /** The signers, then the chain id in front of them. */
    method PutFront(dAtA: array<Byte>, hi: nat) returns (i: nat)
      requires dAtA.Length < TWO63
      requires |(if chainId == [] then [] else EncodeText(0x0a, chainId)) + SignersField(signers)| <= hi <= dAtA.Length
      modifies dAtA
      ensures Prepended(dAtA, i, hi, (if chainId == [] then [] else EncodeText(0x0a, chainId)) + SignersField(signers))
    {
      hide EncodeText, SignersField;
      i := PutSigners(dAtA, hi, signers);
      if |chainId| > 0 {
        TextLength(0x0a, chainId);
        ghost var was := dAtA[..];
        var mid := i;
        i := PutText(dAtA, i, 0x0a, chainId);
        PrependTwice(old(dAtA[..]), was, dAtA[..], i, mid, hi, EncodeText(0x0a, chainId), SignersField(signers));
      } else {
        assert [] + SignersField(signers) == SignersField(signers);
      }
    }

    /**
    Parses `dAtA` into this message. On success the message is what the records of the
    whole buffer make of the old one; otherwise the error is the first one met.
     */
    method Unmarshal(dAtA: Bytes, discardUnknown: bool) returns (r: Outcome<()>)
      requires |dAtA| < TWO63
      modifies this
      ensures r.Parsed? <==> Parse(dAtA, old(Value()), discardUnknown).Parsed?
      ensures r.Parsed? ==> Value() == Parse(dAtA, old(Value()), discardUnknown).value
      ensures r.Rejected? ==> Parse(dAtA, old(Value()), discardUnknown) == Rejected(r.error)
      ensures Value() == Left(dAtA, 0, old(Value()), discardUnknown)
    {
      hide ReadVarint, ReadText, ReadInts, ReadUnknown, ReadRecord, SkipFrom, Abandoned;
      var l := |dAtA|;
      var iNdEx := 0;
      ghost var whole := Parse(dAtA, Value(), discardUnknown);
      while iNdEx < l
        invariant 0 <= iNdEx <= l
        invariant whole == ParseFrom(dAtA, iNdEx, Value(), discardUnknown)
        invariant Left(dAtA, 0, old(Value()), discardUnknown) == Left(dAtA, iNdEx, Value(), discardUnknown)
        decreases l - iNdEx
      {
        var next := UnmarshalRecord(dAtA, iNdEx, discardUnknown);
        if next.Failed? {
          return Rejected(next.error);
        }
        iNdEx := next.next;
      }
      return Parsed(());
    }

    /** One turn of the outer loop. */
    method UnmarshalRecord(dAtA: Bytes, preIndex: nat, discardUnknown: bool) returns (r: Read<()>)
      requires preIndex < |dAtA| < TWO63
      modifies this
      ensures r.Got? <==> ReadRecord(dAtA, preIndex).Got?
      ensures r.Got? ==> r.next == ReadRecord(dAtA, preIndex).next
      ensures r.Got? ==> Value() == Apply(old(Value()), ReadRecord(dAtA, preIndex).value, discardUnknown)
      ensures r.Failed? ==> ReadRecord(dAtA, preIndex) == Failed(r.error)
      ensures r.Failed? ==> Value() == Abandoned(old(Value()), dAtA, preIndex)
    {
      hide ReadVarint, ReadBounds, ReadInts, SkipFrom, Gathered, IntsSoFar;
      var tag, _ := ReadVarintLoop(dAtA, preIndex);
      if tag.Failed? {
        return Failed(tag.error);
      }
      var wire := tag.value;
      var iNdEx := tag.next;
      var fieldNum := FieldNumber(wire);
      var wireType := wire % 8;
      if wireType == 4 {
        return Failed(EndGroup);
      }
      if fieldNum <= 0 {
        return Failed(IllegalTag);
      }
      if fieldNum == 1 || fieldNum == 2 {
        if wireType != 2 {
          return Failed(WrongWireType);
        }
        var bounds := ReadLength(dAtA, iNdEx);
        if bounds.Failed? {
          return Failed(bounds.error);
        }
        var text := dAtA[bounds.value..bounds.next];
        if fieldNum == 1 {
          chainId := text;
        } else {
          signers := signers + [text];
        }
        return Got((), bounds.next);
      } else if fieldNum == 3 {
        var list, out := ReadIntsLoop(dAtA, iNdEx, wireType, prices);
        prices := out;
        if list.Failed? {
          return Failed(list.error);
        }
        return Got((), list.next);
      } else if fieldNum == 4 {
        var list, out := ReadIntsLoop(dAtA, iNdEx, wireType, chainHeights);
        chainHeights := out;
        if list.Failed? {
          return Failed(list.error);
        }
        return Got((), list.next);
      } else if fieldNum == 5 {
        var list, out := ReadIntsLoop(dAtA, iNdEx, wireType, storedAts);
        storedAts := out;
        if list.Failed? {
          return Failed(list.error);
        }
        return Got((), list.next);
      } else if fieldNum == 6 || fieldNum == 7 {
        if wireType != 0 {
          return Failed(WrongWireType);
        }
        var v, bits := ReadVarintLoop(dAtA, iNdEx);
        if fieldNum == 6 {
          medianIndex := bits;
        } else {
          appliedHeight := bits;
        }
        if v.Failed? {
          return Failed(v.error);
        }
        return Got((), v.next);
      } else {
        iNdEx := preIndex;
        var skippy := Skip(dAtA[iNdEx..]);
        if skippy.Stuck? {
          return Failed(skippy.error);
        }
        if iNdEx + skippy.next >= TWO63 {
          return Failed(InvalidLength);
        }
        if iNdEx + skippy.next > |dAtA| {
          return Failed(UnexpectedEOF);
        }
        if !discardUnknown {
          unknownFields := unknownFields + dAtA[iNdEx..iNdEx + skippy.next];
        }
        return Got((), iNdEx + skippy.next);
      }
    }
  }

  ghost function ParseFrom(d: Bytes, i: nat, m: Meta, discardUnknown: bool): Outcome<Meta>
    requires i <= |d|
  {
    match RecordsFrom(d, i)
    case Rejected(e) => Rejected(e)
    case Parsed(rs) => Parsed(Fold(m, rs, discardUnknown))
  }
}
