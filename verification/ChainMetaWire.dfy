/**
The wire format of ChainMeta as a stream of records.

`ReadRecord` is one turn of the parser's outer loop. `Records` reads a whole
buffer, and `Fold` applies the records to a message. `EncodeRecord` prints one record.
Reading does not depend on the message, so everything the parser does to a message
is `Fold`.
 */
module ChainMetaWire {
  import opened Basics
  import opened Varint

  type Bytes = seq<Byte>

  datatype ListField = Prices | ChainHeights | StoredAts

  /** The message. Go strings are byte sequences; the parser does not check UTF-8. */
  datatype Meta = Meta(
    chainId: Bytes,
    signers: seq<Bytes>,
    prices: seq<U64>,
    chainHeights: seq<U64>,
    storedAts: seq<U64>,
    medianIndex: U64,
    appliedHeight: U64,
    unknown: Bytes)

  const EmptyMeta := Meta([], [], [], [], [], 0, 0, [])

  datatype Record =
    | ChainIdRecord(text: Bytes)
    | SignerRecord(text: Bytes)
    | IntsRecord(field: ListField, packed: bool, values: seq<U64>)
    | MedianRecord(value: U64)
    | HeightRecord(value: U64)
    | UnknownRecord(raw: Bytes)

  /** The index after a skipped field, or an error. */
  datatype Skipped = Past(next: nat) | Stuck(error: ParseError)

  datatype Outcome<+T> = Parsed(value: T) | Rejected(error: ParseError)

  // ---------- Applying records ----------

  function ListOf(m: Meta, f: ListField): seq<U64>
  {
    match f
    case Prices => m.prices
    case ChainHeights => m.chainHeights
    case StoredAts => m.storedAts
  }

  function WithList(m: Meta, f: ListField, vs: seq<U64>): Meta
  {
    match f
    case Prices => m.(prices := vs)
    case ChainHeights => m.(chainHeights := vs)
    case StoredAts => m.(storedAts := vs)
  }

  /** Scalars are overwritten, lists and unknown bytes are appended to. */
  function Apply(m: Meta, r: Record, discardUnknown: bool): Meta
  {
    match r
    case ChainIdRecord(t) => m.(chainId := t)
    case SignerRecord(t) => m.(signers := m.signers + [t])
    case IntsRecord(f, _, vs) => WithList(m, f, ListOf(m, f) + vs)
    case MedianRecord(v) => m.(medianIndex := v)
    case HeightRecord(v) => m.(appliedHeight := v)
    case UnknownRecord(raw) => if discardUnknown then m else m.(unknown := m.unknown + raw)
  }

  function Fold(m: Meta, rs: seq<Record>, discardUnknown: bool): Meta
    decreases |rs|
  {
    if rs == [] then m else Fold(Apply(m, rs[0], discardUnknown), rs[1..], discardUnknown)
  }

  // ---------- Reading ----------

  /** `int(x)` of an unsigned 64-bit value. */
  function AsInt64(x: U64): int
  {
    if x < TWO63 then x else x - TWO64
  }

  /** `int32(wire >> 3)`: the field number, truncated to 32 signed bits. */
  function FieldNumber(wire: U64): int
  {
    var low := (wire / 8) % 0x1_0000_0000;
    if low < 0x8000_0000 then low else low - 0x1_0000_0000
  }

  /** A length-delimited field: its bounds `[start, end)`, as `Got(start, end)`. */
  function ReadBounds(d: Bytes, i: nat): (r: Read<nat>)
    requires i <= |d|
    ensures r.Got? ==> i < r.value <= r.next <= |d|
  {
    match ReadVarint(d, i)
    case Failed(e) => Failed(e)
    case Got(len, j) =>
      if AsInt64(len) < 0 || j + len >= TWO63 then Failed(InvalidLength)
      else if j + len > |d| then Failed(UnexpectedEOF)
      else Got(j, j + len)
  }

  /** The packed loop. Each element is bounded by the buffer, not by `end`. */
  function ReadPacked(d: Bytes, i: nat, end: nat): (r: Read<seq<U64>>)
    requires i <= |d| && end <= |d|
    ensures r.Got? ==> i <= r.next <= |d| && end <= r.next
    decreases |d| - i
  {
    if i >= end then Got([], i)
    else
      match ReadVarint(d, i)
      case Failed(e) => Failed(e)
      case Got(v, j) =>
        match ReadPacked(d, j, end)
        case Failed(e) => Failed(e)
        case Got(vs, k) => Got([v] + vs, k)
  }

  /** Length of the unknown field at the start of `d`, which may reach past its end. */
  function SkipFrom(d: Bytes, i: nat, depth: nat): (r: Skipped)
    requires i <= |d|
    ensures r.Past? ==> r.next > i
    decreases |d| - i
  {
    if i == |d| then Stuck(UnexpectedEOF)
    else
      match ReadVarint(d, i)
      case Failed(e) => Stuck(e)
      case Got(wire, j) =>
        var wt := wire % 8;
        var payload := SkipPayload(d, j, wt);
        if payload.Stuck? then payload
        else if wt == 4 && depth == 0 then Stuck(EndGroup)
        else
          var depth' := NewDepth(depth, wt);
          if payload.next >= TWO63 then Stuck(InvalidLength)
          else if depth' == 0 then payload
          else if payload.next >= |d| then Stuck(UnexpectedEOF)
          else SkipFrom(d, payload.next, depth')
  }

  /** Group nesting after a tag of wire type `wt`. */
  function NewDepth(depth: nat, wt: nat): nat
    requires wt == 4 ==> depth > 0
  {
    if wt == 3 then depth + 1 else if wt == 4 then depth - 1 else depth
  }

  /** Index after the payload of wire type `wt` at `j`. */
  function SkipPayload(d: Bytes, j: nat, wt: nat): (r: Skipped)
    requires j <= |d|
    ensures r.Past? ==> r.next >= j
  {
    if wt == 0 then
      match ReadVarint(d, j)
      case Failed(e) => Stuck(e)
      case Got(_, k) => Past(k)
    else if wt == 1 then Past(j + 8)
    else if wt == 2 then
      match ReadVarint(d, j)
      case Failed(e) => Stuck(e)
      case Got(len, k) => if AsInt64(len) < 0 then Stuck(InvalidLength) else Past(k + len)
    else if wt == 3 || wt == 4 then Past(j)
    else if wt == 5 then Past(j + 4)
    else Stuck(IllegalWireType)
  }

  function ReadText(d: Bytes, i: nat, wt: nat): (r: Read<Bytes>)
    requires i <= |d|
    ensures r.Got? ==> i < r.next <= |d|
  {
    if wt != 2 then Failed(WrongWireType)
    else
      match ReadBounds(d, i)
      case Failed(e) => Failed(e)
      case Got(start, end) => Got(d[start..end], end)
  }

  function ReadInts(d: Bytes, i: nat, wt: nat): (r: Read<seq<U64>>)
    requires i <= |d|
    ensures r.Got? ==> i < r.next <= |d|
  {
    if wt == 0 then
      match ReadVarint(d, i)
      case Failed(e) => Failed(e)
      case Got(v, j) => Got([v], j)
    else if wt == 2 then
      match ReadBounds(d, i)
      case Failed(e) => Failed(e)
      case Got(start, end) => ReadPacked(d, start, end)
    else Failed(WrongWireType)
  }

  function ReadScalar(d: Bytes, i: nat, wt: nat): (r: Read<U64>)
    requires i <= |d|
    ensures r.Got? ==> i < r.next <= |d|
  {
    if wt != 0 then Failed(WrongWireType) else ReadVarint(d, i)
  }

  /** The default case: the record is skipped from its tag on. */
  function ReadUnknown(d: Bytes, i: nat): (r: Read<Bytes>)
    requires i < |d|
    ensures r.Got? ==> i < r.next <= |d| && r.value == d[i..r.next]
  {
    match SkipFrom(d[i..], 0, 0)
    case Stuck(e) => Failed(e)
    case Past(n) =>
      if i + n >= TWO63 then Failed(InvalidLength)
      else if i + n > |d| then Failed(UnexpectedEOF)
      else Got(d[i..i + n], i + n)
  }

  function Wrap<T, U>(r: Read<T>, f: T -> U): (s: Read<U>)
  {
    match r
    case Got(v, j) => Got(f(v), j)
    case Failed(e) => Failed(e)
  }

  /** The list field of a field number. */
  function ListNumber(n: int): ListField
    requires 3 <= n <= 5
  {
    if n == 3 then Prices else if n == 4 then ChainHeights else StoredAts
  }

  /** The body of a record whose tag at `i` was read as `wire` and ends before `j`. */
  function ReadBody(d: Bytes, i: nat, wire: U64, j: nat): (r: Read<Record>)
    requires i < j <= |d|
    ensures r.Got? ==> i < r.next <= |d|
  {
    var n := FieldNumber(wire);
    var wt := wire % 8;
    if wt == 4 then Failed(EndGroup)
    else if n <= 0 then Failed(IllegalTag)
    else if n == 1 then Wrap(ReadText(d, j, wt), t => ChainIdRecord(t))
    else if n == 2 then Wrap(ReadText(d, j, wt), t => SignerRecord(t))
    else if n <= 5 then Wrap(ReadInts(d, j, wt), vs => IntsRecord(ListNumber(n), wt == 2, vs))
    else if n == 6 then Wrap(ReadScalar(d, j, wt), v => MedianRecord(v))
    else if n == 7 then Wrap(ReadScalar(d, j, wt), v => HeightRecord(v))
    else Wrap(ReadUnknown(d, i), raw => UnknownRecord(raw))
  }

  /** One turn of the outer loop: the record that starts at `i`. */
  function ReadRecord(d: Bytes, i: nat): (r: Read<Record>)
    requires i < |d|
    ensures r.Got? ==> i < r.next <= |d|
  {
    match ReadVarint(d, i)
    case Failed(e) => Failed(e)
    case Got(wire, j) => ReadBody(d, i, wire, j)
  }

  /** All records from `i` to the end of the buffer. */
  function RecordsFrom(d: Bytes, i: nat): Outcome<seq<Record>>
    requires i <= |d|
    decreases |d| - i
  {
    if i == |d| then Parsed([])
    else
      match ReadRecord(d, i)
      case Failed(e) => Rejected(e)
      case Got(r, j) =>
        match RecordsFrom(d, j)
        case Rejected(e) => Rejected(e)
        case Parsed(rs) => Parsed([r] + rs)
  }

  function Records(d: Bytes): Outcome<seq<Record>>
  {
    RecordsFrom(d, 0)
  }

  /** Unmarshalling `d` into `m`. */
  function Parse(d: Bytes, m: Meta, discardUnknown: bool): Outcome<Meta>
  {
    match Records(d)
    case Rejected(e) => Rejected(e)
    case Parsed(rs) => Parsed(Fold(m, rs, discardUnknown))
  }

  // ---------- What a failed parse leaves ----------

  /** The elements a packed loop appends before it stops, whether or not it succeeds. */
  function PackedSoFar(d: Bytes, i: nat, end: nat): seq<U64>
    requires i <= |d| && end <= |d|
    decreases |d| - i
  {
    if i >= end then []
    else
      match ReadVarint(d, i)
      case Failed(_) => []
      case Got(v, j) => [v] + PackedSoFar(d, j, end)
  }

  /** The elements a list record appends before it stops. */
  function IntsSoFar(d: Bytes, i: nat, wt: nat): seq<U64>
    requires i <= |d|
  {
    if wt == 2 then
      match ReadBounds(d, i)
      case Failed(_) => []
      case Got(start, end) => PackedSoFar(d, start, end)
    else []
  }

  /**
  The message after the record at `i` failed. A packed list keeps the elements read so far and a
  scalar the bits gathered so far; nothing else has been written.
   */
  function Abandoned(m: Meta, d: Bytes, i: nat): Meta
    requires i < |d|
  {
    match ReadVarint(d, i)
    case Failed(_) => m
    case Got(wire, j) =>
      var n, wt := FieldNumber(wire), wire % 8;
      if wt == 4 then m
      else if 3 <= n <= 5 then WithList(m, ListNumber(n), ListOf(m, ListNumber(n)) + IntsSoFar(d, j, wt))
      else if n == 6 && wt == 0 then m.(medianIndex := Gathered(d, j, 0) % TWO64)
      else if n == 7 && wt == 0 then m.(appliedHeight := Gathered(d, j, 0) % TWO64)
      else m
  }

  /** The message after the parser has run from `i` to the end or to its first error. */
  function Left(d: Bytes, i: nat, m: Meta, discardUnknown: bool): Meta
    requires i <= |d|
    decreases |d| - i
  {
    if i == |d| then m
    else
      match ReadRecord(d, i)
      case Failed(_) => Abandoned(m, d, i)
      case Got(r, j) => Left(d, j, Apply(m, r, discardUnknown), discardUnknown)
  }

  // ---------- Locality ----------

  lemma BoundsWindow(s: Bytes, d: Bytes, lo: nat, i: nat)
    requires Inside(s, d, lo) && |d| < TWO63 && i <= |s|
    requires ReadBounds(s, i).Got?
    ensures ReadBounds(d, lo + i) == Got(lo + ReadBounds(s, i).value, lo + ReadBounds(s, i).next)
  {
    VarintWindow(s, d, lo, i);
  }

  lemma {:induction false} PackedWindow(s: Bytes, d: Bytes, lo: nat, i: nat, end: nat)
    requires Inside(s, d, lo) && i <= |s| && end <= |s|
    requires ReadPacked(s, i, end).Got?
    ensures ReadPacked(d, lo + i, lo + end) == Got(ReadPacked(s, i, end).value, lo + ReadPacked(s, i, end).next)
    decreases |s| - i
  {
    hide ReadVarint;
    if i < end {
      VarintWindow(s, d, lo, i);
      PackedWindow(s, d, lo, ReadVarint(s, i).next, end);
    }
  }

  lemma PayloadWindow(s: Bytes, d: Bytes, lo: nat, j: nat, wt: nat)
    requires Inside(s, d, lo) && j <= |s|
    requires SkipPayload(s, j, wt).Past?
    ensures SkipPayload(d, lo + j, wt) == Past(lo + SkipPayload(s, j, wt).next)
  {
    if wt == 0 || wt == 2 {
      VarintWindow(s, d, lo, j);
    }
  }

  lemma {:induction false} SkipWindow(s: Bytes, d: Bytes, lo: nat, i: nat, depth: nat)
    requires Inside(s, d, lo) && |d| < TWO63 && i <= |s|
    requires SkipFrom(s, i, depth).Past? && SkipFrom(s, i, depth).next <= |s|
    ensures SkipFrom(d, lo + i, depth) == Past(lo + SkipFrom(s, i, depth).next)
    decreases |s| - i
  {
    hide ReadVarint, SkipFrom, SkipPayload;
    var wire, j := SkipInversion(s, i, depth);
    var wt := wire % 8;
    VarintWindow(s, d, lo, i);
    PayloadWindow(s, d, lo, j, wt);
    SkipStep(d, lo + i, depth, wire, lo + j);
    if NewDepth(depth, wt) != 0 {
      SkipWindow(s, d, lo, SkipPayload(s, j, wt).next, NewDepth(depth, wt));
    }
  }

  /** A record read inside a window of the buffer is read the same in the whole buffer. */
  lemma RecordWindow(s: Bytes, d: Bytes, lo: nat, i: nat)
    requires Inside(s, d, lo) && |d| < TWO63 && i < |s|
    requires ReadRecord(s, i).Got?
    ensures ReadRecord(d, lo + i) == Got(ReadRecord(s, i).value, lo + ReadRecord(s, i).next)
  {
    hide ReadVarint, ReadBody;
    VarintWindow(s, d, lo, i);
    var Got(wire, j) := ReadVarint(s, i);
    BodyWindow(s, d, lo, i, wire, j);
  }

  lemma BodyWindow(s: Bytes, d: Bytes, lo: nat, i: nat, wire: U64, j: nat)
    requires Inside(s, d, lo) && |d| < TWO63 && i < j <= |s|
    requires ReadBody(s, i, wire, j).Got?
    ensures ReadBody(d, lo + i, wire, lo + j)
            == Got(ReadBody(s, i, wire, j).value, lo + ReadBody(s, i, wire, j).next)
  {
    hide ReadVarint, ReadText, ReadInts, ReadUnknown;
    var n := FieldNumber(wire);
    var wt := wire % 8;
    if n <= 2 {
      TextWindow(s, d, lo, j, wt);
    } else if n <= 5 {
      IntsWindow(s, d, lo, j, wt);
    } else if n <= 7 {
      VarintWindow(s, d, lo, j);
    } else {
      UnknownWindow(s, d, lo, i);
    }
  }

  lemma TextWindow(s: Bytes, d: Bytes, lo: nat, j: nat, wt: nat)
    requires Inside(s, d, lo) && |d| < TWO63 && j <= |s|
    requires ReadText(s, j, wt).Got?
    ensures ReadText(d, lo + j, wt) == Got(ReadText(s, j, wt).value, lo + ReadText(s, j, wt).next)
  {
    hide ReadVarint;
    BoundsWindow(s, d, lo, j);
    var Got(start, end) := ReadBounds(s, j);
    SubWindow(s, d, lo, start, end);
  }

  lemma IntsWindow(s: Bytes, d: Bytes, lo: nat, j: nat, wt: nat)
    requires Inside(s, d, lo) && |d| < TWO63 && j <= |s|
    requires ReadInts(s, j, wt).Got?
    ensures ReadInts(d, lo + j, wt) == Got(ReadInts(s, j, wt).value, lo + ReadInts(s, j, wt).next)
  {
    hide ReadVarint;
    if wt == 0 {
      VarintWindow(s, d, lo, j);
    } else {
      BoundsWindow(s, d, lo, j);
      var Got(start, end) := ReadBounds(s, j);
      PackedWindow(s, d, lo, start, end);
    }
  }

  lemma UnknownWindow(s: Bytes, d: Bytes, lo: nat, i: nat)
    requires Inside(s, d, lo) && |d| < TWO63 && i < |s|
    requires ReadUnknown(s, i).Got?
    ensures ReadUnknown(d, lo + i) == Got(ReadUnknown(s, i).value, lo + ReadUnknown(s, i).next)
  {
    hide ReadVarint;
    var n := SkipFrom(s[i..], 0, 0).next;
    SubWindow(s, d, lo, i, i + n);
    SkipWindow(s[i..], d[lo + i..], 0, 0, 0);
  }

  // The converse direction: a record that ends inside the window depends on nothing outside it.

  lemma BoundsCut(s: Bytes, d: Bytes, lo: nat, i: nat)
    requires Inside(s, d, lo) && |d| < TWO63 && i <= |s|
    requires ReadBounds(d, lo + i).Got? && ReadBounds(d, lo + i).next <= lo + |s|
    ensures ReadBounds(s, i) == Got(ReadBounds(d, lo + i).value - lo, ReadBounds(d, lo + i).next - lo)
  {
    VarintCut(s, d, lo, i);
  }

  lemma {:induction false} PackedCut(s: Bytes, d: Bytes, lo: nat, i: nat, end: nat)
    requires Inside(s, d, lo) && i <= |s| && end <= |s|
    requires ReadPacked(d, lo + i, lo + end).Got? && ReadPacked(d, lo + i, lo + end).next <= lo + |s|
    ensures ReadPacked(s, i, end)
            == Got(ReadPacked(d, lo + i, lo + end).value, ReadPacked(d, lo + i, lo + end).next - lo)
    decreases |s| - i
  {
    hide ReadVarint;
    if i < end {
      VarintCut(s, d, lo, i);
      PackedCut(s, d, lo, ReadVarint(s, i).next, end);
    }
  }

  lemma PayloadCut(s: Bytes, d: Bytes, lo: nat, j: nat, wt: nat)
    requires Inside(s, d, lo) && j <= |s|
    requires SkipPayload(d, lo + j, wt).Past? && SkipPayload(d, lo + j, wt).next <= lo + |s|
    ensures SkipPayload(s, j, wt) == Past(SkipPayload(d, lo + j, wt).next - lo)
  {
    if wt == 0 || wt == 2 {
      VarintCut(s, d, lo, j);
    }
  }

  lemma {:induction false} SkipCut(s: Bytes, d: Bytes, lo: nat, i: nat, depth: nat, n: nat)
    requires Inside(s, d, lo) && i <= |s| && n <= |s|
    requires SkipFrom(d, lo + i, depth) == Past(lo + n)
    ensures SkipFrom(s, i, depth) == Past(n)
    decreases |s| - i
  {
    hide ReadVarint, SkipFrom, SkipPayload;
    var wire, j := SkipInversion(d, lo + i, depth);
    var wt := wire % 8;
    VarintCut(s, d, lo, i);
    PayloadCut(s, d, lo, j - lo, wt);
    SkipStep(s, i, depth, wire, j - lo);
    if NewDepth(depth, wt) != 0 {
      SkipCut(s, d, lo, SkipPayload(d, j, wt).next - lo, NewDepth(depth, wt), n);
    }
  }

  /** The tag and payload of a skip that succeeds. */
  lemma SkipInversion(d: Bytes, i: nat, depth: nat) returns (wire: U64, j: nat)
    requires i <= |d| && SkipFrom(d, i, depth).Past?
    ensures i < |d| && ReadVarint(d, i) == Got(wire, j) && j <= |d|
    ensures SkipPayload(d, j, wire % 8).Past? && (wire % 8 == 4 ==> depth > 0)
    ensures var next, depth' := SkipPayload(d, j, wire % 8).next, NewDepth(depth, wire % 8);
            && j <= next <= SkipFrom(d, i, depth).next && next < TWO63
            && if depth' == 0 then SkipFrom(d, i, depth) == Past(next)
               else next < |d| && SkipFrom(d, i, depth) == SkipFrom(d, next, depth')
  {
    hide ReadVarint, SkipPayload;
    var t := ReadVarint(d, i);
    wire, j := t.value, t.next;
  }

  /** One level of a skip, without its recursion. */
  lemma SkipStep(d: Bytes, i: nat, depth: nat, wire: U64, j: nat)
    requires i < |d| && ReadVarint(d, i) == Got(wire, j)
    requires SkipPayload(d, j, wire % 8).Past? && (wire % 8 == 4 ==> depth > 0)
    ensures var next, depth' := SkipPayload(d, j, wire % 8).next, NewDepth(depth, wire % 8);
            SkipFrom(d, i, depth) ==
            if next >= TWO63 then Stuck(InvalidLength)
            else if depth' == 0 then Past(next)
            else if next >= |d| then Stuck(UnexpectedEOF)
            else SkipFrom(d, next, depth')
  {
    hide ReadVarint, SkipPayload;
  }

  lemma UnknownCut(s: Bytes, d: Bytes, lo: nat, i: nat, n: nat)
    requires Inside(s, d, lo) && |d| < TWO63 && i < n <= |s|
    requires ReadUnknown(d, lo + i).Got? && ReadUnknown(d, lo + i).next == lo + n
    ensures ReadUnknown(s, i) == Got(ReadUnknown(d, lo + i).value, n)
  {
    hide ReadVarint;
    SubWindow(s, d, lo, i, n);
    SkipCut(s[i..], d[lo + i..], 0, 0, 0, n - i);
  }

  lemma IntsCut(s: Bytes, d: Bytes, lo: nat, j: nat, wt: nat, n: nat)
    requires Inside(s, d, lo) && |d| < TWO63 && j <= n <= |s|
    requires ReadInts(d, lo + j, wt).Got? && ReadInts(d, lo + j, wt).next == lo + n
    ensures ReadInts(s, j, wt) == Got(ReadInts(d, lo + j, wt).value, n)
  {
    hide ReadVarint;
    if wt == 0 {
      VarintCut(s, d, lo, j);
    } else {
      BoundsCut(s, d, lo, j);
      var Got(start, end) := ReadBounds(s, j);
      PackedCut(s, d, lo, start, end);
    }
  }

  lemma TextCut(s: Bytes, d: Bytes, lo: nat, j: nat, wt: nat, n: nat)
    requires Inside(s, d, lo) && |d| < TWO63 && j <= n <= |s|
    requires ReadText(d, lo + j, wt).Got? && ReadText(d, lo + j, wt).next == lo + n
    ensures ReadText(s, j, wt) == Got(ReadText(d, lo + j, wt).value, n)
  {
    hide ReadVarint;
    BoundsCut(s, d, lo, j);
    var Got(start, end) := ReadBounds(s, j);
    SubWindow(s, d, lo, start, end);
  }

  lemma BodyCut(s: Bytes, d: Bytes, lo: nat, i: nat, wire: U64, j: nat, n: nat)
    requires Inside(s, d, lo) && |d| < TWO63 && i < j <= n <= |s|
    requires ReadBody(d, lo + i, wire, lo + j).Got? && ReadBody(d, lo + i, wire, lo + j).next == lo + n
    ensures ReadBody(s, i, wire, j) == Got(ReadBody(d, lo + i, wire, lo + j).value, n)
  {
    hide ReadVarint, ReadText, ReadInts, ReadUnknown;
    var field := FieldNumber(wire);
    var wt := wire % 8;
    if field <= 2 {
      TextCut(s, d, lo, j, wt, n);
    } else if field <= 5 {
      IntsCut(s, d, lo, j, wt, n);
    } else if field <= 7 {
      VarintCut(s, d, lo, j);
    } else {
      UnknownCut(s, d, lo, i, n);
    }
  }

  lemma RecordCut(s: Bytes, d: Bytes, lo: nat, i: nat, n: nat)
    requires Inside(s, d, lo) && |d| < TWO63 && i < n <= |s|
    requires ReadRecord(d, lo + i).Got? && ReadRecord(d, lo + i).next == lo + n
    ensures ReadRecord(s, i) == Got(ReadRecord(d, lo + i).value, n)
  {
    hide ReadVarint, ReadBody;
    var Got(wire, j) := ReadVarint(d, lo + i);
    BodyPastTag(d, lo + i, wire, j);
    VarintCut(s, d, lo, i);
    BodyCut(s, d, lo, i, wire, j - lo, n);
  }

  /** A record ends at or after the end of its tag, also when it is skipped from the tag on. */
  lemma BodyPastTag(d: Bytes, i: nat, wire: U64, j: nat)
    requires i < |d| && ReadVarint(d, i) == Got(wire, j)
    requires ReadBody(d, i, wire, j).Got?
    ensures j <= ReadBody(d, i, wire, j).next
  {
    hide ReadVarint, ReadText, ReadInts, ReadUnknown;
    if FieldNumber(wire) > 7 {
      UnknownPastTag(d, i);
    }
  }

  lemma UnknownPastTag(d: Bytes, i: nat)
    requires i < |d| && ReadVarint(d, i).Got? && ReadUnknown(d, i).Got?
    ensures ReadVarint(d, i).next <= ReadUnknown(d, i).next
  {
    hide ReadVarint;
    var s := d[i..];
    assert Inside(s, d, i);
    VarintCut(s, d, i, 0);
  }
}
