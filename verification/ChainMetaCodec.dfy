/**
Laws of the ChainMeta wire format: concatenation is merge, every record stream and
every message survives printing and parsing, and the packed and unpacked encodings
of a list agree.
 */
module ChainMetaCodec {
  import opened Basics
  import opened Varint
  import opened ChainMetaWire

  // ---------- Concatenation ----------

  function Prepend(xs: seq<Record>, rest: Outcome<seq<Record>>): Outcome<seq<Record>>
  {
    match rest
    case Rejected(e) => Rejected(e)
    case Parsed(ys) => Parsed(xs + ys)
  }

  lemma {:induction false} RecordsOfPrefix(a: Bytes, b: Bytes, i: nat)
    requires i <= |a| && |a| + |b| < TWO63
    requires RecordsFrom(a, i).Parsed?
    ensures RecordsFrom(a + b, i) == Prepend(RecordsFrom(a, i).value, RecordsFrom(a + b, |a|))
    decreases |a| - i
  {
    hide ReadRecord;
    var rest := RecordsFrom(a + b, |a|);
    if i == |a| {
      assert rest.Parsed? ==> [] + rest.value == rest.value;
    } else {
      assert Inside(a, a + b, 0);
      RecordWindow(a, a + b, 0, i);
      var Got(r, j) := ReadRecord(a, i);
      RecordsOfPrefix(a, b, j);
      var xs := RecordsFrom(a, j).value;
      assert rest.Parsed? ==> [r] + (xs + rest.value) == ([r] + xs) + rest.value;
    }
  }

  /** Past `a`, the buffer `a + b` parses exactly when `b` does, and to the same records. */
  lemma {:induction false} RecordsOfSuffix(a: Bytes, b: Bytes, i: nat)
    requires i <= |b| && |a| + |b| < TWO63
    ensures RecordsFrom(b, i).Parsed? <==> RecordsFrom(a + b, |a| + i).Parsed?
    ensures RecordsFrom(b, i).Parsed? ==> RecordsFrom(a + b, |a| + i) == RecordsFrom(b, i)
    decreases |b| - i
  {
    hide ReadRecord;
    if i < |b| {
      assert Inside(b, a + b, |a|);
      if ReadRecord(b, i).Got? {
        RecordWindow(b, a + b, |a|, i);
        RecordsOfSuffix(a, b, ReadRecord(b, i).next);
      } else if ReadRecord(a + b, |a| + i).Got? {
        RecordCut(b, a + b, |a|, i, ReadRecord(a + b, |a| + i).next - |a|);
      }
    }
  }

  lemma RecordsConcat(a: Bytes, b: Bytes)
    requires |a| + |b| < TWO63
    requires Records(a).Parsed?
    ensures Records(a + b).Parsed? <==> Records(b).Parsed?
    ensures Records(b).Parsed? ==> Records(a + b) == Parsed(Records(a).value + Records(b).value)
  {
    RecordsOfPrefix(a, b, 0);
    RecordsOfSuffix(a, b, 0);
  }

  lemma {:induction false} FoldConcat(m: Meta, xs: seq<Record>, ys: seq<Record>, discard: bool)
    ensures Fold(m, xs + ys, discard) == Fold(Fold(m, xs, discard), ys, discard)
    decreases |xs|
  {
    if xs == [] {
      assert xs + ys == ys;
    } else {
      assert (xs + ys)[1..] == xs[1..] + ys;
      FoldConcat(Apply(m, xs[0], discard), xs[1..], ys, discard);
    }
  }

  /**
  Concatenation is merge: once `a` parses, `a + b` parses exactly when `b` does, and
  then equals parsing `b` into the result of `a`.
   */
  lemma ConcatIsMerge(a: Bytes, b: Bytes, m: Meta, discard: bool)
    requires |a| + |b| < TWO63
    requires Parse(a, m, discard).Parsed?
    ensures Parse(a + b, m, discard).Parsed? <==> Parse(b, m, discard).Parsed?
    ensures Parse(b, m, discard).Parsed? ==>
              Parse(a + b, m, discard) == Parse(b, Parse(a, m, discard).value, discard)
  {
    RecordsConcat(a, b);
    if Records(b).Parsed? {
      FoldConcat(m, Records(a).value, Records(b).value, discard);
    }
  }

  // ---------- What a record stream does to a message ----------

  function Values(rs: seq<Record>, f: ListField): seq<U64>
  {
    if rs == [] then []
    else (if rs[0].IntsRecord? && rs[0].field == f then rs[0].values else []) + Values(rs[1..], f)
  }

  function Texts(rs: seq<Record>): seq<Bytes>
  {
    if rs == [] then [] else (if rs[0].SignerRecord? then [rs[0].text] else []) + Texts(rs[1..])
  }

  function Raws(rs: seq<Record>): Bytes
  {
    if rs == [] then [] else (if rs[0].UnknownRecord? then rs[0].raw else []) + Raws(rs[1..])
  }

  /** The last value written to a scalar, or `before` when the stream does not mention it. */
  function LastChainId(before: Bytes, rs: seq<Record>): Bytes
    decreases |rs|
  {
    if rs == [] then before
    else if rs[|rs| - 1].ChainIdRecord? then rs[|rs| - 1].text
    else LastChainId(before, rs[..|rs| - 1])
  }

  function LastMedian(before: U64, rs: seq<Record>): U64
    decreases |rs|
  {
    if rs == [] then before
    else if rs[|rs| - 1].MedianRecord? then rs[|rs| - 1].value
    else LastMedian(before, rs[..|rs| - 1])
  }

  function LastHeight(before: U64, rs: seq<Record>): U64
    decreases |rs|
  {
    if rs == [] then before
    else if rs[|rs| - 1].HeightRecord? then rs[|rs| - 1].value
    else LastHeight(before, rs[..|rs| - 1])
  }

  lemma ApplyLists(m: Meta, r: Record, discard: bool)
    ensures forall f :: ListOf(Apply(m, r, discard), f) == ListOf(m, f) + Values([r], f)
    ensures Apply(m, r, discard).signers == m.signers + Texts([r])
    ensures Apply(m, r, discard).unknown == if discard then m.unknown else m.unknown + Raws([r])
  {
  }

  lemma HeadAndTail(rs: seq<Record>)
    requires rs != []
    ensures forall f :: Values(rs, f) == Values([rs[0]], f) + Values(rs[1..], f)
    ensures Texts(rs) == Texts([rs[0]]) + Texts(rs[1..])
    ensures Raws(rs) == Raws([rs[0]]) + Raws(rs[1..])
  {
    forall f
      ensures Values(rs, f) == Values([rs[0]], f) + Values(rs[1..], f)
    {
      ValuesOfOne(rs[0], f);
    }
    TextsOfOne(rs[0]);
    RawsOfOne(rs[0]);
  }

  lemma ValuesOfOne(r: Record, f: ListField)
    ensures Values([r], f) == if r.IntsRecord? && r.field == f then r.values else []
  {
    assert Values([r][1..], f) == [];
  }

  lemma TextsOfOne(r: Record)
    ensures Texts([r]) == if r.SignerRecord? then [r.text] else []
  {
    assert Texts([r][1..]) == [];
  }

  lemma RawsOfOne(r: Record)
    ensures Raws([r]) == if r.UnknownRecord? then r.raw else []
  {
    assert Raws([r][1..]) == [];
  }

  /** Lists append in stream order. */
  lemma {:induction false} FoldLists(m: Meta, rs: seq<Record>, discard: bool)
    ensures forall f :: ListOf(Fold(m, rs, discard), f) == ListOf(m, f) + Values(rs, f)
    ensures Fold(m, rs, discard).signers == m.signers + Texts(rs)
    ensures Fold(m, rs, discard).unknown == if discard then m.unknown else m.unknown + Raws(rs)
    decreases |rs|
  {
    if rs != [] {
      ApplyLists(m, rs[0], discard);
      HeadAndTail(rs);
      hide Apply, ListOf, Values, Texts, Raws;
      var m', head, tail := Apply(m, rs[0], discard), [rs[0]], rs[1..];
      FoldLists(m', tail, discard);
      forall f
        ensures ListOf(Fold(m, rs, discard), f) == ListOf(m, f) + Values(rs, f)
      {
        Regroup(ListOf(m, f), Values(head, f), Values(tail, f));
      }
      Regroup(m.signers, Texts(head), Texts(tail));
      Regroup(m.unknown, Raws(head), Raws(tail));
    }
  }

  /** Scalars: last one wins. */
  lemma {:induction false} FoldScalars(m: Meta, rs: seq<Record>, discard: bool)
    ensures Fold(m, rs, discard).chainId == LastChainId(m.chainId, rs)
    ensures Fold(m, rs, discard).medianIndex == LastMedian(m.medianIndex, rs)
    ensures Fold(m, rs, discard).appliedHeight == LastHeight(m.appliedHeight, rs)
    decreases |rs|
  {
    if rs != [] {
      var init, last := rs[..|rs| - 1], rs[|rs| - 1];
      assert rs == init + [last];
      FoldConcat(m, init, [last], discard);
      FoldScalars(m, init, discard);
    }
  }

  // ---------- Printing records ----------

  /** Tags `field << 3 | wireType`, as the constants of the printer. */
  function PackedTag(f: ListField): Byte
  {
    match f
    case Prices => 0x1a
    case ChainHeights => 0x22
    case StoredAts => 0x2a
  }

  function SingleTag(f: ListField): Byte
  {
    PackedTag(f) - 2
  }

  function EncodeText(tag: Byte, t: Bytes): Bytes
  {
    [tag] + EncodeVarint(|t|) + t
  }

  function EncodeInts(vs: seq<U64>): Bytes
  {
    if vs == [] then [] else EncodeVarint(vs[0]) + EncodeInts(vs[1..])
  }

  function EncodeRecord(r: Record): Bytes
  {
    match r
    case ChainIdRecord(t) => EncodeText(0x0a, t)
    case SignerRecord(t) => EncodeText(0x12, t)
    case IntsRecord(f, packed, vs) =>
      if packed then EncodeText(PackedTag(f), EncodeInts(vs)) else [SingleTag(f)] + EncodeInts(vs)
    case MedianRecord(v) => [0x30] + EncodeVarint(v)
    case HeightRecord(v) => [0x38] + EncodeVarint(v)
    case UnknownRecord(raw) => raw
  }

  /** An unpacked record carries one value; unknown bytes must be one skippable record. */
  predicate Printable(r: Record)
  {
    match r
    case IntsRecord(_, packed, vs) => packed || |vs| == 1
    case UnknownRecord(raw) => raw != [] && ReadRecord(raw, 0) == Got(r, |raw|)
    case _ => true
  }

  function EncodeAll(rs: seq<Record>): Bytes
  {
    if rs == [] then [] else EncodeRecord(rs[0]) + EncodeAll(rs[1..])
  }

  lemma TagReads(tag: Byte, rest: Bytes)
    requires tag < 128
    ensures ReadVarint([tag] + rest, 0) == Got(tag, 1)
    ensures Inside(rest, [tag] + rest, 1)
  {
  }

  lemma TextReads(tag: Byte, t: Bytes)
    requires |EncodeText(tag, t)| < TWO63
    ensures ReadBounds(EncodeText(tag, t), 1) == Got(1 + |EncodeVarint(|t|)|, |EncodeText(tag, t)|)
    ensures EncodeText(tag, t)[1 + |EncodeVarint(|t|)|..] == t
    ensures Inside(t, EncodeText(tag, t), 1 + |EncodeVarint(|t|)|)
  {
    hide ReadVarint, EncodeVarint;
    var s := EncodeText(tag, t);
    var rest := EncodeVarint(|t|) + t;
    assert s == [tag] + rest;
    assert Inside(rest, s, 1);
    VarintRoundTrip(|t|, t);
    VarintWindow(rest, s, 1, 0);
  }

  lemma {:induction false} PackedReads(vs: seq<U64>)
    ensures ReadPacked(EncodeInts(vs), 0, |EncodeInts(vs)|) == Got(vs, |EncodeInts(vs)|)
    decreases |vs|
  {
    hide ReadVarint, EncodeVarint;
    if vs != [] {
      var s := EncodeInts(vs);
      var rest := EncodeInts(vs[1..]);
      var n := |EncodeVarint(vs[0])|;
      VarintRoundTrip(vs[0], rest);
      assert Inside(rest, s, n);
      PackedReads(vs[1..]);
      PackedWindow(rest, s, n, 0, |rest|);
      assert [vs[0]] + vs[1..] == vs;
    }
  }

  /** Each printed record is read back and ends where it was printed to end. */
  lemma RecordReads(r: Record)
    requires Printable(r) && |EncodeRecord(r)| < TWO63
    ensures EncodeRecord(r) != []
    ensures ReadRecord(EncodeRecord(r), 0) == Got(r, |EncodeRecord(r)|)
  {
    hide ReadRecord, EncodeVarint;
    var s := EncodeRecord(r);
    match r {
      case ChainIdRecord(t) => TextRecordReads(0x0a, t);
      case SignerRecord(t) => TextRecordReads(0x12, t);
      case IntsRecord(f, packed, vs) =>
        if packed {
          PackedRecordReads(f, vs);
        } else {
          assert vs == [vs[0]];
          assert EncodeInts(vs) == EncodeVarint(vs[0]) + [] == EncodeVarint(vs[0]);
          SingleRecordReads(f, vs[0]);
        }
      case MedianRecord(v) => ScalarRecordReads(0x30, v);
      case HeightRecord(v) => ScalarRecordReads(0x38, v);
      case UnknownRecord(raw) =>
    }
  }

  lemma TextRecordReads(tag: Byte, t: Bytes)
    requires tag == 0x0a || tag == 0x12
    requires |EncodeText(tag, t)| < TWO63
    ensures ReadRecord(EncodeText(tag, t), 0)
            == Got(if tag == 0x0a then ChainIdRecord(t) else SignerRecord(t), |EncodeText(tag, t)|)
  {
    hide ReadVarint, EncodeVarint, ReadBounds;
    TagReads(tag, EncodeVarint(|t|) + t);
    assert EncodeText(tag, t) == [tag] + (EncodeVarint(|t|) + t);
    TextReads(tag, t);
  }

  lemma PackedRecordReads(f: ListField, vs: seq<U64>)
    requires |EncodeText(PackedTag(f), EncodeInts(vs))| < TWO63
    ensures var s := EncodeText(PackedTag(f), EncodeInts(vs));
            ReadRecord(s, 0) == Got(IntsRecord(f, true, vs), |s|)
  {
    hide ReadVarint, EncodeVarint, ReadBounds, ReadPacked, EncodeInts;
    var tag, t := PackedTag(f), EncodeInts(vs);
    var s := EncodeText(tag, t);
    assert ReadVarint(s, 0) == Got(tag, 1) by {
      TagReads(tag, EncodeVarint(|t|) + t);
      assert s == [tag] + (EncodeVarint(|t|) + t);
    }
    TextReads(tag, t);
    PackedReads(vs);
    PackedWindow(t, s, 1 + |EncodeVarint(|t|)|, 0, |t|);
    assert ReadInts(s, 1, 2) == Got(vs, |s|);
    hide ReadInts;
    assert tag % 8 == 2 && ListNumber(FieldNumber(tag)) == f;
  }

  lemma ScalarReads(tag: Byte, v: U64)
    requires tag < 128
    ensures ReadVarint([tag] + EncodeVarint(v), 0) == Got(tag, 1)
    ensures ReadVarint([tag] + EncodeVarint(v), 1) == Got(v, 1 + |EncodeVarint(v)|)
  {
    hide ReadVarint, EncodeVarint;
    var s := [tag] + EncodeVarint(v);
    TagReads(tag, EncodeVarint(v));
    assert EncodeVarint(v) + [] == EncodeVarint(v);
    VarintRoundTrip(v, []);
    VarintWindow(EncodeVarint(v), s, 1, 0);
  }

  lemma ScalarRecordReads(tag: Byte, v: U64)
    requires tag == 0x30 || tag == 0x38
    ensures ReadRecord([tag] + EncodeVarint(v), 0)
            == Got(if tag == 0x30 then MedianRecord(v) else HeightRecord(v), 1 + |EncodeVarint(v)|)
  {
    hide ReadVarint, EncodeVarint, ReadText, ReadInts, ReadUnknown;
    ScalarReads(tag, v);
  }

  lemma SingleRecordReads(f: ListField, v: U64)
    ensures ReadRecord([SingleTag(f)] + EncodeVarint(v), 0)
            == Got(IntsRecord(f, false, [v]), 1 + |EncodeVarint(v)|)
  {
    hide ReadVarint, EncodeVarint, ReadText, ReadUnknown;
    ScalarReads(SingleTag(f), v);
    assert SingleTag(f) % 8 == 0 && ListNumber(FieldNumber(SingleTag(f))) == f;
  }

  /** Every printable record stream parses back to itself: any order, any split into chunks. */
  lemma {:induction false} StreamRoundTrip(rs: seq<Record>)
    requires forall r :: r in rs ==> Printable(r)
    requires |EncodeAll(rs)| < TWO63
    ensures Records(EncodeAll(rs)) == Parsed(rs)
    decreases |rs|
  {
    hide ReadRecord, EncodeRecord;
    if rs != [] {
      var e, rest := EncodeRecord(rs[0]), EncodeAll(rs[1..]);
      RecordReads(rs[0]);
      assert RecordsFrom(e, |e|) == Parsed([]);
      assert Records(e) == Parsed([rs[0]]) by { assert [rs[0]] + [] == [rs[0]]; }
      StreamRoundTrip(rs[1..]);
      RecordsConcat(e, rest);
      assert [rs[0]] + rs[1..] == rs;
    }
  }

  // ---------- Packed and unpacked lists ----------

  /** A split of a list field: each record packed, or holding a single value. */
  ghost predicate Chunks(rs: seq<Record>, f: ListField)
  {
    forall r :: r in rs ==> r.IntsRecord? && r.field == f && (r.packed || |r.values| == 1)
  }

  lemma {:induction false} FoldChunks(m: Meta, rs: seq<Record>, f: ListField, discard: bool)
    requires Chunks(rs, f)
    ensures Fold(m, rs, discard) == WithList(m, f, ListOf(m, f) + Values(rs, f))
    decreases |rs|
  {
    if rs != [] {
      FoldChunks(Apply(m, rs[0], discard), rs[1..], f, discard);
      assert ListOf(m, f) + rs[0].values + Values(rs[1..], f) == ListOf(m, f) + (rs[0].values + Values(rs[1..], f));
    }
  }

  /** Any split of a list into packed chunks and single records appends the same list. */
  lemma PackedAndUnpackedAgree(m: Meta, f: ListField, rs: seq<Record>, discard: bool)
    requires Chunks(rs, f) && |EncodeAll(rs)| < TWO63
    ensures Parse(EncodeAll(rs), m, discard) == Parsed(WithList(m, f, ListOf(m, f) + Values(rs, f)))
  {
    StreamRoundTrip(rs);
    FoldChunks(m, rs, f, discard);
  }

  // ---------- The fields by tag ----------

  lemma OneRecord(r: Record, m: Meta, discard: bool)
    requires Printable(r) && |EncodeRecord(r)| < TWO63
    ensures Parse(EncodeRecord(r), m, discard) == Parsed(Apply(m, r, discard))
  {
    hide ReadRecord, EncodeRecord, Apply;
    var d := EncodeRecord(r);
    RecordReads(r);
    assert RecordsFrom(d, |d|) == Parsed([]);
    assert [r] + [] == [r];
    assert Records(d) == Parsed([r]);
    assert Fold(m, [r], discard) == Apply(m, r, discard);
  }

  /** Tags 0x0a and 0x12 carry the chain id and a signer. */
  lemma TextTags(m: Meta, t: Bytes, discard: bool)
    requires |EncodeVarint(|t|)| + |t| + 1 < TWO63
    ensures Parse(EncodeText(0x0a, t), m, discard) == Parsed(m.(chainId := t))
    ensures Parse(EncodeText(0x12, t), m, discard) == Parsed(m.(signers := m.signers + [t]))
  {
    hide Parse, EncodeVarint;
    OneRecord(ChainIdRecord(t), m, discard);
    OneRecord(SignerRecord(t), m, discard);
  }

  /** Tags 0x1a, 0x22 and 0x2a carry packed prices, chain heights and storage times. */
  lemma PackedTags(m: Meta, vs: seq<U64>, discard: bool)
    requires |EncodeVarint(|EncodeInts(vs)|)| + |EncodeInts(vs)| + 1 < TWO63
    ensures Parse(EncodeText(0x1a, EncodeInts(vs)), m, discard) == Parsed(m.(prices := m.prices + vs))
    ensures Parse(EncodeText(0x22, EncodeInts(vs)), m, discard) == Parsed(m.(chainHeights := m.chainHeights + vs))
    ensures Parse(EncodeText(0x2a, EncodeInts(vs)), m, discard) == Parsed(m.(storedAts := m.storedAts + vs))
  {
    hide Parse, EncodeVarint, EncodeInts;
    OneRecord(IntsRecord(Prices, true, vs), m, discard);
    OneRecord(IntsRecord(ChainHeights, true, vs), m, discard);
    OneRecord(IntsRecord(StoredAts, true, vs), m, discard);
  }

  /** Tags 0x18, 0x20 and 0x28 carry a single element of the lists, 0x30 and 0x38 the two scalars. */
  lemma VarintTags(m: Meta, v: U64, discard: bool)
    ensures Parse([0x18] + EncodeVarint(v), m, discard) == Parsed(m.(prices := m.prices + [v]))
    ensures Parse([0x20] + EncodeVarint(v), m, discard) == Parsed(m.(chainHeights := m.chainHeights + [v]))
    ensures Parse([0x28] + EncodeVarint(v), m, discard) == Parsed(m.(storedAts := m.storedAts + [v]))
    ensures Parse([0x30] + EncodeVarint(v), m, discard) == Parsed(m.(medianIndex := v))
    ensures Parse([0x38] + EncodeVarint(v), m, discard) == Parsed(m.(appliedHeight := v))
  {
    VarintLength(v);
    hide Parse, EncodeVarint;
    SingleInt(v);
    OneRecord(IntsRecord(Prices, false, [v]), m, discard);
    OneRecord(IntsRecord(ChainHeights, false, [v]), m, discard);
    OneRecord(IntsRecord(StoredAts, false, [v]), m, discard);
    OneRecord(MedianRecord(v), m, discard);
    OneRecord(HeightRecord(v), m, discard);
  }

  lemma SingleInt(v: U64)
    ensures EncodeInts([v]) == EncodeVarint(v)
  {
    assert EncodeInts([v]) == EncodeVarint(v) + EncodeInts([]);
  }

  // ---------- Every tag, printed by this code or not ----------

  /** The bounds of a length-delimited field: a negative or overflowing length, one that runs past the end, or its bytes. */
  lemma BoundsTable(d: Bytes, i: nat)
    requires i <= |d|
    ensures match ReadVarint(d, i)
            case Failed(e) => ReadBounds(d, i) == Failed(e)
            case Got(len, j) =>
              ReadBounds(d, i) == (if len >= 0x8000_0000_0000_0000 || j + len >= 0x8000_0000_0000_0000 then Failed(InvalidLength)
                                   else if j + len > |d| then Failed(UnexpectedEOF)
                                   else Got(j, j + len))
  {
  }

  /** A tag that is refused: the end of a group, a field number that is not positive, a wrong wire type. */
  lemma RefusedTags(d: Bytes, i: nat)
    requires i < |d|
    ensures match ReadVarint(d, i)
            case Failed(e) => ReadRecord(d, i) == Failed(e)
            case Got(wire, j) =>
              var n, wt := (wire / 8) % 0x1_0000_0000, wire % 8;
              && (wt == 4 ==> ReadRecord(d, i) == Failed(EndGroup))
              && (wt != 4 && (n == 0 || n >= 0x8000_0000) ==> ReadRecord(d, i) == Failed(IllegalTag))
              && (wt != 4 && (n == 1 || n == 2) && wt != 2 ==> ReadRecord(d, i) == Failed(WrongWireType))
              && (wt != 4 && 3 <= n <= 5 && wt != 0 && wt != 2 ==> ReadRecord(d, i) == Failed(WrongWireType))
              && (wt != 4 && (n == 6 || n == 7) && wt != 0 ==> ReadRecord(d, i) == Failed(WrongWireType))
  {
    hide ReadVarint, ReadBounds, ReadPacked, SkipFrom;
  }

  /** A text record under any spelling of its tag and length. */
  lemma TextRecords(d: Bytes, i: nat, wire: U64, j: nat)
    requires i < |d| && ReadVarint(d, i) == Got(wire, j) && wire % 8 == 2
    requires (wire / 8) % 0x1_0000_0000 == 1 || (wire / 8) % 0x1_0000_0000 == 2
    ensures match ReadBounds(d, j)
            case Failed(e) => ReadRecord(d, i) == Failed(e)
            case Got(start, end) =>
              ReadRecord(d, i) == Got(if (wire / 8) % 0x1_0000_0000 == 1 then ChainIdRecord(d[start..end])
                                      else SignerRecord(d[start..end]), end)
  {
    hide ReadVarint, ReadBounds, ReadPacked, SkipFrom;
  }

  /** A record with a single varint under any spelling of its tag. */
  lemma VarintRecords(d: Bytes, i: nat, wire: U64, j: nat)
    requires i < |d| && ReadVarint(d, i) == Got(wire, j) && wire % 8 == 0 && 3 <= (wire / 8) % 0x1_0000_0000 <= 7
    ensures var n := (wire / 8) % 0x1_0000_0000;
            match ReadVarint(d, j)
            case Failed(e) => ReadRecord(d, i) == Failed(e)
            case Got(v, k) =>
              ReadRecord(d, i) == Got(if n == 3 then IntsRecord(Prices, false, [v])
                                      else if n == 4 then IntsRecord(ChainHeights, false, [v])
                                      else if n == 5 then IntsRecord(StoredAts, false, [v])
                                      else if n == 6 then MedianRecord(v)
                                      else HeightRecord(v), k)
  {
    hide ReadVarint, ReadBounds, ReadPacked, SkipFrom;
  }

  /** A packed record under any spelling of its tag and length. */
  lemma PackedRecords(d: Bytes, i: nat, wire: U64, j: nat)
    requires i < |d| && ReadVarint(d, i) == Got(wire, j) && wire % 8 == 2 && 3 <= (wire / 8) % 0x1_0000_0000 <= 5
    ensures ReadBounds(d, j).Failed? ==> ReadRecord(d, i) == Failed(ReadBounds(d, j).error)
    ensures ReadBounds(d, j).Got? ==>
              var n, all := (wire / 8) % 0x1_0000_0000, ReadPacked(d, ReadBounds(d, j).value, ReadBounds(d, j).next);
              && (all.Failed? ==> ReadRecord(d, i) == Failed(all.error))
              && (all.Got? ==>
                    ReadRecord(d, i)
                    == Got(IntsRecord(if n == 3 then Prices else if n == 4 then ChainHeights else StoredAts, true, all.value), all.next))
  {
    hide ReadVarint, ReadBounds, SkipFrom, ReadPacked;
  }

  /** Packed elements are varint after varint until the declared end is reached. */
  lemma PackedElements(d: Bytes, i: nat, end: nat)
    requires i <= |d| && end <= |d|
    ensures i >= end ==> ReadPacked(d, i, end) == Got([], i)
    ensures i < end && ReadVarint(d, i).Failed? ==> ReadPacked(d, i, end) == Failed(ReadVarint(d, i).error)
    ensures i < end && ReadVarint(d, i).Got? ==>
              var rest := ReadPacked(d, ReadVarint(d, i).next, end);
              ReadPacked(d, i, end) == if rest.Failed? then rest else Got([ReadVarint(d, i).value] + rest.value, rest.next)
  {
    hide ReadVarint;
  }

  // ---------- Unknown fields ----------

  /** A tag of a field this message does not have. */
  predicate UnknownTag(wire: U64)
  {
    8 <= (wire / 8) % 0x1_0000_0000 < 0x8000_0000 && wire % 8 != 4
  }

  /** An unknown record of wire type 1 takes eight bytes after its tag, and one of wire type 5 four; 6 and 7 are refused. */
  lemma FixedWidths(d: Bytes, i: nat, wire: U64, j: nat)
    requires i < |d| < TWO63 && ReadVarint(d, i) == Got(wire, j) && UnknownTag(wire)
    ensures wire % 8 == 1 && j + 8 <= |d| ==> ReadRecord(d, i) == Got(UnknownRecord(d[i..j + 8]), j + 8)
    ensures wire % 8 == 1 && |d| < j + 8 < TWO63 ==> ReadRecord(d, i) == Failed(UnexpectedEOF)
    ensures wire % 8 == 5 && j + 4 <= |d| ==> ReadRecord(d, i) == Got(UnknownRecord(d[i..j + 4]), j + 4)
    ensures wire % 8 == 5 && |d| < j + 4 < TWO63 ==> ReadRecord(d, i) == Failed(UnexpectedEOF)
    ensures wire % 8 == 6 || wire % 8 == 7 ==> ReadRecord(d, i) == Failed(IllegalWireType)
  {
    hide *;
    TagInSlice(d[i..], d, i, wire, j);
    UnknownIs(d, i, wire, j);
    SkipWidth(d[i..], wire, j - i);
  }

  /** An unknown record of wire type 0 ends after its varint. */
  lemma VarintWidth(d: Bytes, i: nat, wire: U64, j: nat)
    requires i < |d| < TWO63 && ReadVarint(d, i) == Got(wire, j) && UnknownTag(wire) && wire % 8 == 0
    requires ReadVarint(d, j).Got?
    ensures var k := ReadVarint(d, j).next;
            ReadRecord(d, i) == Got(UnknownRecord(d[i..k]), k)
  {
    hide *;
    TagInSlice(d[i..], d, i, wire, j);
    UnknownIs(d, i, wire, j);
    VarintCut(d[i..], d, i, j - i);
    SkipWidth(d[i..], wire, j - i);
  }

  /** An unknown record of wire type 2 ends after the bytes its length announces. */
  lemma LengthWidth(d: Bytes, i: nat, wire: U64, j: nat)
    requires i < |d| < TWO63 && ReadVarint(d, i) == Got(wire, j) && UnknownTag(wire) && wire % 8 == 2
    requires ReadBounds(d, j).Got?
    ensures var end := ReadBounds(d, j).next;
            ReadRecord(d, i) == Got(UnknownRecord(d[i..end]), end)
  {
    hide *;
    TagInSlice(d[i..], d, i, wire, j);
    UnknownIs(d, i, wire, j);
    BoundsTable(d, j);
    VarintCut(d[i..], d, i, j - i);
    SkipWidth(d[i..], wire, j - i);
  }

  lemma UnknownIs(d: Bytes, i: nat, wire: U64, j: nat)
    requires i < |d| && ReadVarint(d, i) == Got(wire, j) && UnknownTag(wire)
    ensures ReadRecord(d, i) == match SkipFrom(d[i..], 0, 0)
                                case Stuck(e) => Failed(e)
                                case Past(n) =>
                                  if i + n >= TWO63 then Failed(InvalidLength)
                                  else if i + n > |d| then Failed(UnexpectedEOF)
                                  else Got(UnknownRecord(d[i..i + n]), i + n)
  {
    hide ReadVarint, SkipFrom, ReadText, ReadInts;
  }

  lemma SkipWidth(s: Bytes, wire: U64, j: nat)
    requires 0 < j <= |s| && ReadVarint(s, 0) == Got(wire, j)
    ensures wire % 8 == 1 ==> SkipFrom(s, 0, 0) == if j + 8 >= TWO63 then Stuck(InvalidLength) else Past(j + 8)
    ensures wire % 8 == 5 ==> SkipFrom(s, 0, 0) == if j + 4 >= TWO63 then Stuck(InvalidLength) else Past(j + 4)
    ensures wire % 8 == 0 && ReadVarint(s, j).Got? && ReadVarint(s, j).next < TWO63 ==>
              SkipFrom(s, 0, 0) == Past(ReadVarint(s, j).next)
    ensures wire % 8 == 2 && ReadVarint(s, j).Got? ==>
              var Got(len, k) := ReadVarint(s, j);
              len < TWO63 && k + len < TWO63 ==> SkipFrom(s, 0, 0) == Past(k + len)
    ensures wire % 8 == 6 || wire % 8 == 7 ==> SkipFrom(s, 0, 0) == Stuck(IllegalWireType)
  {
    hide ReadVarint;
  }

  lemma TagInSlice(s: Bytes, d: Bytes, i: nat, wire: U64, j: nat)
    requires i < |d| && s == d[i..] && ReadVarint(d, i) == Got(wire, j)
    ensures Inside(s, d, i) && j > i && ReadVarint(s, 0) == Got(wire, j - i)
  {
    VarintCut(s, d, i, 0);
  }

  /** Inside a group a complete field is stepped over, at any depth. */
  lemma {:induction false} GroupStepsOver(d: Bytes, i: nat, depth: nat, outer: nat, k: nat)
    requires i <= |d| < TWO63 && k < |d| && SkipFrom(d, i, depth) == Past(k) && outer > 0
    ensures SkipFrom(d, i, depth + outer) == SkipFrom(d, k, outer)
    decreases |d| - i
  {
    hide ReadVarint, SkipPayload;
    var Got(wire, j) := ReadVarint(d, i);
    var wt := wire % 8;
    var payload := SkipPayload(d, j, wt);
    var depth' := NewDepth(depth, wt);
    assert NewDepth(depth + outer, wt) == depth' + outer;
    if depth' != 0 {
      GroupStepsOver(d, payload.next, depth', outer, k);
    }
  }

  /** A group opens with its start tag and ends right after the matching end tag. */
  lemma GroupBrackets(d: Bytes, i: nat, wire: U64, j: nat)
    requires i < |d| < TWO63 && ReadVarint(d, i) == Got(wire, j)
    ensures wire % 8 == 3 && j < |d| ==> SkipFrom(d, i, 0) == SkipFrom(d, j, 1)
    ensures wire % 8 == 3 && j == |d| ==> SkipFrom(d, i, 0) == Stuck(UnexpectedEOF)
    ensures wire % 8 == 4 ==> SkipFrom(d, i, 1) == Past(j) && SkipFrom(d, i, 0) == Stuck(EndGroup)
  {
    hide ReadVarint;
  }

  // ---------- Messages ----------

  function SignerRecords(ts: seq<Bytes>): seq<Record>
  {
    if ts == [] then [] else [SignerRecord(ts[0])] + SignerRecords(ts[1..])
  }

  function ListRecords(f: ListField, vs: seq<U64>): seq<Record>
  {
    if vs == [] then [] else [IntsRecord(f, true, vs)]
  }

  /** The records the printer emits for the known fields: default values are left out. */
  function KnownRecords(m: Meta): seq<Record>
  {
    (if m.chainId != [] then [ChainIdRecord(m.chainId)] else [])
    + SignerRecords(m.signers)
    + ListRecords(Prices, m.prices)
    + ListRecords(ChainHeights, m.chainHeights)
    + ListRecords(StoredAts, m.storedAts)
    + (if m.medianIndex != 0 then [MedianRecord(m.medianIndex)] else [])
    + (if m.appliedHeight != 0 then [HeightRecord(m.appliedHeight)] else [])
  }

  /** The printed message. */
  function Encode(m: Meta): Bytes
  {
    EncodeAll(KnownRecords(m)) + m.unknown
  }

  /** Unknown bytes that are a run of unknown records, as every parse leaves them. */
  predicate CleanUnknown(u: Bytes)
  {
    Records(u).Parsed? && forall r :: r in Records(u).value ==> r.UnknownRecord?
  }

  lemma {:induction false} FoldSigners(m: Meta, ts: seq<Bytes>)
    ensures Fold(m, SignerRecords(ts), false) == m.(signers := m.signers + ts)
    decreases |ts|
  {
    if ts == [] {
      assert m.signers + ts == m.signers;
    } else {
      var head, tail := [SignerRecord(ts[0])], SignerRecords(ts[1..]);
      var m' := m.(signers := m.signers + [ts[0]]);
      FoldOne(m, head[0]);
      FoldSigners(m', ts[1..]);
      FoldThen(m, head, tail, m');
      assert m.signers + [ts[0]] + ts[1..] == m.signers + ts;
    }
  }

  lemma FoldOne(m: Meta, r: Record)
    ensures Fold(m, [r], false) == Apply(m, r, false)
  {
  }

  lemma FoldThen(m: Meta, xs: seq<Record>, ys: seq<Record>, m': Meta)
    requires Fold(m, xs, false) == m'
    ensures Fold(m, xs + ys, false) == Fold(m', ys, false)
  {
    FoldConcat(m, xs, ys, false);
  }

  lemma FoldList(m: Meta, f: ListField, vs: seq<U64>)
    requires ListOf(m, f) == []
    ensures Fold(m, ListRecords(f, vs), false) == WithList(m, f, vs)
  {
    if vs != [] {
      FoldOne(m, IntsRecord(f, true, vs));
      assert [] + vs == vs;
    }
  }

  lemma FoldScalar(m: Meta, r: Record, present: bool)
    requires !present ==> Apply(m, r, false) == m
    ensures Fold(m, if present then [r] else [], false) == Apply(m, r, false)
  {
    FoldOne(m, r);
  }

  /** The records of the known fields rebuild them from the empty message. */
  lemma FoldKnown(m: Meta)
    ensures Fold(EmptyMeta, KnownRecords(m), false) == m.(unknown := [])
  {
    hide Fold, SignerRecords, ListRecords;
    var r1 := if m.chainId != [] then [ChainIdRecord(m.chainId)] else [];
    var r2 := SignerRecords(m.signers);
    var r3 := ListRecords(Prices, m.prices);
    var r4 := ListRecords(ChainHeights, m.chainHeights);
    var r5 := ListRecords(StoredAts, m.storedAts);
    var r6 := if m.medianIndex != 0 then [MedianRecord(m.medianIndex)] else [];
    var r7 := if m.appliedHeight != 0 then [HeightRecord(m.appliedHeight)] else [];
    var m1 := EmptyMeta.(chainId := m.chainId);
    var m2 := m1.(signers := m.signers);
    var m3 := m2.(prices := m.prices);
    var m4 := m3.(chainHeights := m.chainHeights);
    var m5 := m4.(storedAts := m.storedAts);
    var m6 := m5.(medianIndex := m.medianIndex);
    FoldScalar(EmptyMeta, ChainIdRecord(m.chainId), m.chainId != []);
    FoldSigners(m1, m.signers);
    assert m1.signers + m.signers == m.signers;
    FoldThen(EmptyMeta, r1, r2, m1);
    FoldList(m2, Prices, m.prices);
    FoldThen(EmptyMeta, r1 + r2, r3, m2);
    FoldList(m3, ChainHeights, m.chainHeights);
    FoldThen(EmptyMeta, r1 + r2 + r3, r4, m3);
    FoldList(m4, StoredAts, m.storedAts);
    FoldThen(EmptyMeta, r1 + r2 + r3 + r4, r5, m4);
    FoldScalar(m5, MedianRecord(m.medianIndex), m.medianIndex != 0);
    FoldThen(EmptyMeta, r1 + r2 + r3 + r4 + r5, r6, m5);
    FoldScalar(m6, HeightRecord(m.appliedHeight), m.appliedHeight != 0);
    FoldThen(EmptyMeta, r1 + r2 + r3 + r4 + r5 + r6, r7, m6);
  }

  lemma {:induction false} SignersPrintable(ts: seq<Bytes>)
    ensures forall r :: r in SignerRecords(ts) ==> r.SignerRecord?
    decreases |ts|
  {
    if ts != [] {
      SignersPrintable(ts[1..]);
    }
  }

  lemma KnownPrintable(m: Meta)
    ensures forall r :: r in KnownRecords(m) ==> Printable(r) && !r.UnknownRecord?
  {
    SignersPrintable(m.signers);
  }

  lemma {:induction false} FoldUnknown(m: Meta, rs: seq<Record>)
    requires forall r :: r in rs ==> r.UnknownRecord?
    ensures Fold(m, rs, false) == m.(unknown := m.unknown + Raws(rs))
    decreases |rs|
  {
    if rs != [] {
      FoldUnknown(Apply(m, rs[0], false), rs[1..]);
      assert m.unknown + rs[0].raw + Raws(rs[1..]) == m.unknown + (rs[0].raw + Raws(rs[1..]));
    }
  }

  /** Unknown records cover the buffer they were read from, byte for byte. */
  lemma {:induction false} RawsCover(d: Bytes, i: nat)
    requires i <= |d| && RecordsFrom(d, i).Parsed?
    requires forall r :: r in RecordsFrom(d, i).value ==> r.UnknownRecord?
    ensures Raws(RecordsFrom(d, i).value) == d[i..]
    decreases |d| - i
  {
    hide ReadRecord, Raws;
    if i == |d| {
      NoRaws();
    } else {
      var Got(r, j) := ReadRecord(d, i);
      var rest := RecordsFrom(d, j).value;
      assert RecordsFrom(d, i).value == [r] + rest;
      assert r in [r] + rest && forall x :: x in rest ==> x in [r] + rest;
      UnknownIsSlice(d, i);
      RawsCover(d, j);
      RawsOf(r, rest);
      assert d[i..j] + d[j..] == d[i..];
    }
  }

  lemma NoRaws()
    ensures Raws([]) == []
  {
  }

  lemma RawsOf(r: Record, rest: seq<Record>)
    requires r.UnknownRecord?
    ensures Raws([r] + rest) == r.raw + Raws(rest)
  {
    assert ([r] + rest)[1..] == rest;
  }

  lemma UnknownIsSlice(d: Bytes, i: nat)
    requires i < |d| && ReadRecord(d, i).Got? && ReadRecord(d, i).value.UnknownRecord?
    ensures ReadRecord(d, i).value.raw == d[i..ReadRecord(d, i).next]
  {
    hide ReadVarint, ReadText, ReadInts, ReadUnknown;
  }

  /** Printing and parsing a message gives it back, empty signers and unknown bytes included. */
  lemma RoundTrip(m: Meta)
    requires CleanUnknown(m.unknown) && |Encode(m)| < TWO63
    ensures Parse(Encode(m), EmptyMeta, false) == Parsed(m)
  {
    hide RecordsFrom, Fold, EncodeAll, KnownRecords;
    var known := EncodeAll(KnownRecords(m));
    KnownPrintable(m);
    StreamRoundTrip(KnownRecords(m));
    FoldKnown(m);
    RecordsConcat(known, m.unknown);
    var us := Records(m.unknown).value;
    FoldConcat(EmptyMeta, KnownRecords(m), us, false);
    RawsCover(m.unknown, 0);
    FoldUnknown(m.(unknown := []), us);
    assert [] + Raws(us) == m.unknown;
  }

  // ---------- Re-printing what was parsed ----------

  function UnknownOnly(rs: seq<Record>): seq<Record>
  {
    if rs == [] then [] else (if rs[0].UnknownRecord? then [rs[0]] else []) + UnknownOnly(rs[1..])
  }

  lemma {:induction false} UnknownOnlyProps(rs: seq<Record>)
    ensures forall r :: r in UnknownOnly(rs) ==> r in rs && r.UnknownRecord?
    ensures EncodeAll(UnknownOnly(rs)) == Raws(rs)
  {
    if rs != [] {
      UnknownOnlyProps(rs[1..]);
      if rs[0].UnknownRecord? {
        assert UnknownOnly(rs)[1..] == UnknownOnly(rs[1..]);
      } else {
        assert UnknownOnly(rs) == UnknownOnly(rs[1..]);
        assert Raws(rs) == Raws(rs[1..]);
      }
    }
  }

  /** An unknown record cut out of its buffer is still one record. */
  lemma {:induction false} UnknownPrintable(d: Bytes, i: nat)
    requires i <= |d| < TWO63 && RecordsFrom(d, i).Parsed?
    ensures forall r :: r in RecordsFrom(d, i).value && r.UnknownRecord? ==> Printable(r)
    decreases |d| - i
  {
    hide ReadRecord;
    if i < |d| {
      var Got(r, j) := ReadRecord(d, i);
      UnknownPrintable(d, j);
      if r.UnknownRecord? {
        UnknownIsSlice(d, i);
        assert Inside(d[i..j], d, i);
        RecordCut(d[i..j], d, i, 0, j - i);
      }
    }
  }

  lemma ParsedUnknownIsClean(d: Bytes)
    requires |d| < TWO63 && Parse(d, EmptyMeta, false).Parsed?
    requires |Parse(d, EmptyMeta, false).value.unknown| < TWO63
    ensures CleanUnknown(Parse(d, EmptyMeta, false).value.unknown)
  {
    hide ReadRecord, Printable, Fold;
    var rs := Records(d).value;
    UnknownPrintable(d, 0);
    UnknownOnlyProps(rs);
    FoldLists(EmptyMeta, rs, false);
    assert [] + Raws(rs) == Raws(rs);
    StreamRoundTrip(UnknownOnly(rs));
  }

  /**
  Whatever a buffer parses to, its print parses to the same message: non-minimal
  varints, unpacked lists, repeated scalars and out-of-order fields are normalised once.
   */
  lemma ParsePrintParse(d: Bytes)
    requires |d| < TWO63 && Parse(d, EmptyMeta, false).Parsed?
    requires |Encode(Parse(d, EmptyMeta, false).value)| < TWO63
    ensures Parse(Encode(Parse(d, EmptyMeta, false).value), EmptyMeta, false) == Parse(d, EmptyMeta, false)
  {
    hide Parse, EncodeAll, KnownRecords;
    ParsedUnknownIsClean(d);
    RoundTrip(Parse(d, EmptyMeta, false).value);
  }

  /** Two printable messages with the same print are the same message. */
  lemma EncodeInjective(m: Meta, n: Meta)
    requires CleanUnknown(m.unknown) && CleanUnknown(n.unknown)
    requires |Encode(m)| < TWO63 && Encode(m) == Encode(n)
    ensures m == n
  {
    hide Parse, Encode;
    RoundTrip(m);
    RoundTrip(n);
  }

  // ---------- Packed chunks that overrun ----------

  /**
  A packed chunk ends at its declared end exactly when it is empty or its last byte
  closes a varint; otherwise its last element takes bytes of the next record.
   */
  lemma {:induction false} PackedEndsAtDeclaredEnd(d: Bytes, i: nat, end: nat)
    requires i <= end <= |d| && ReadPacked(d, i, end).Got?
    ensures ReadPacked(d, i, end).next == end <==> i == end || d[end - 1] < 128
    decreases end - i
  {
    if i < end {
      ScanShape(d, i, 0);
      var j := ReadVarint(d, i).next;
      if j <= end {
        PackedEndsAtDeclaredEnd(d, j, end);
      } else {
        assert ReadPacked(d, j, end) == Got([], j);
      }
    }
  }

  /** A one-byte chunk followed by a stray byte parses as the single price 128. */
  lemma PackedOverrunExample()
    ensures Parse([0x1a, 0x01, 0x80, 0x01], EmptyMeta, false) == Parsed(EmptyMeta.(prices := [128]))
  {
    var d: Bytes := [0x1a, 0x01, 0x80, 0x01];
    var v: U64 := 128;
    var r := IntsRecord(Prices, true, [v]);
    OverrunRecord(d);
    hide ReadRecord;
    assert RecordsFrom(d, 4) == Parsed([]);
    assert [r] + [] == [r];
    assert Records(d) == Parsed([r]);
    FoldOne(EmptyMeta, r);
    assert [] + [v] == [v];
  }

  lemma OverrunRecord(d: Bytes)
    requires d == [0x1a, 0x01, 0x80, 0x01]
    ensures ReadRecord(d, 0) == Got(IntsRecord(Prices, true, [128]), 4)
  {
    OverrunVarints(d);
    hide ReadVarint;
    assert ReadPacked(d, 4, 3) == Got([], 4);
    var v: U64 := 128;
    assert [v] + [] == [v];
    assert ReadPacked(d, 2, 3) == Got([v], 4);
    assert ReadBounds(d, 1) == Got(2, 3);
  }

  lemma OverrunVarints(d: Bytes)
    requires d == [0x1a, 0x01, 0x80, 0x01]
    ensures ReadVarint(d, 0) == Got(0x1a, 1) && ReadVarint(d, 1) == Got(1, 2) && ReadVarint(d, 2) == Got(128, 4)
  {
    assert Scan(d, 0, 0) == Got(0x1a, 1);
    assert Scan(d, 1, 0) == Got(1, 2);
    assert Scan(d, 3, 1) == Got(1, 4);
    assert Scan(d, 2, 0) == Got(128, 4);
  }

  // ---------- Failed parses ----------

  /** A failing scalar record leaves the bits of up to ten bytes after its tag. */
  lemma AbandonedScalars(m: Meta, d: Bytes, i: nat, wire: U64, j: nat)
    requires i < |d| && ReadVarint(d, i) == Got(wire, j) && wire % 8 == 0 && ReadVarint(d, j).Failed?
    ensures var n := (wire / 8) % 0x1_0000_0000;
            var bits := LittleEndian(d[j..if j + 10 <= |d| then j + 10 else |d|]) % 0x1_0000_0000_0000_0000;
            && (n == 6 ==> Abandoned(m, d, i) == m.(medianIndex := bits))
            && (n == 7 ==> Abandoned(m, d, i) == m.(appliedHeight := bits))
  {
    GatheredMeans(d, j, 0);
    hide ReadVarint, Gathered, LittleEndian, IntsSoFar;
  }

  /** A failing list record leaves the elements before the failing one. */
  lemma AbandonedLists(m: Meta, d: Bytes, i: nat, wire: U64, j: nat)
    requires i < |d| && ReadVarint(d, i) == Got(wire, j) && wire % 8 != 4
    ensures var n, vs := (wire / 8) % 0x1_0000_0000, IntsSoFar(d, j, wire % 8);
            && (n == 3 ==> Abandoned(m, d, i) == m.(prices := m.prices + vs))
            && (n == 4 ==> Abandoned(m, d, i) == m.(chainHeights := m.chainHeights + vs))
            && (n == 5 ==> Abandoned(m, d, i) == m.(storedAts := m.storedAts + vs))
  {
    hide ReadVarint, Gathered, IntsSoFar;
  }

  /** Any other failing record leaves the message as it was. */
  lemma AbandonedOthers(m: Meta, d: Bytes, i: nat)
    requires i < |d|
    ensures ReadVarint(d, i).Failed? ==> Abandoned(m, d, i) == m
    ensures ReadVarint(d, i).Got? ==>
              var n, wt := (ReadVarint(d, i).value / 8) % 0x1_0000_0000, ReadVarint(d, i).value % 8;
              wt == 4 || n <= 2 || n > 7 || (n >= 6 && wt != 0) ==> Abandoned(m, d, i) == m
  {
    hide ReadVarint, Gathered, IntsSoFar;
  }

  /** Where the parser meets its first error, or the end of the buffer. */
  function Reached(d: Bytes, i: nat): (k: nat)
    requires i <= |d|
    ensures i <= k <= |d|
    ensures k == |d| <==> RecordsFrom(d, i).Parsed?
    ensures k < |d| ==> ReadRecord(d, k).Failed?
    decreases |d| - i
  {
    if i < |d| && ReadRecord(d, i).Got? then Reached(d, ReadRecord(d, i).next) else i
  }

  lemma {:induction false} PrefixParses(d: Bytes, i: nat, m: Meta, discard: bool)
    requires i <= |d| < TWO63
    ensures RecordsFrom(d[..Reached(d, i)], i).Parsed?
    ensures var k := Reached(d, i);
            var m' := Fold(m, RecordsFrom(d[..k], i).value, discard);
            Left(d, i, m, discard) == if k == |d| then m' else Abandoned(m', d, k)
    decreases |d| - i
  {
    hide ReadRecord, Abandoned, Apply;
    var k := Reached(d, i);
    if i < |d| && ReadRecord(d, i).Got? {
      var Got(r, j) := ReadRecord(d, i);
      PrefixParses(d, j, Apply(m, r, discard), discard);
      assert Inside(d[..k], d, 0);
      RecordCut(d[..k], d, 0, i, j);
      var rs := RecordsFrom(d[..k], j).value;
      assert ([r] + rs)[1..] == rs;
    }
  }

  /**
  A failed parse has applied exactly the records before the first error, which parse on their own,
  and then what the failing record writes before it fails.
   */
  lemma FailedParseKeepsPrefix(d: Bytes, m: Meta, discard: bool)
    requires |d| < TWO63 && Parse(d, m, discard).Rejected?
    ensures var k := Reached(d, 0);
            && k < |d| && ReadRecord(d, k).Failed?
            && Parse(d[..k], m, discard).Parsed?
            && Left(d, 0, m, discard) == Abandoned(Parse(d[..k], m, discard).value, d, k)
  {
    hide ReadRecord, Abandoned;
    PrefixParses(d, 0, m, discard);
  }

  /** A successful parse leaves the parsed message. */
  lemma ParsedIsLeft(d: Bytes, m: Meta, discard: bool)
    requires |d| < TWO63 && Parse(d, m, discard).Parsed?
    ensures Left(d, 0, m, discard) == Parse(d, m, discard).value
  {
    hide ReadRecord, Abandoned;
    PrefixParses(d, 0, m, discard);
    assert d[..|d|] == d;
  }
}
