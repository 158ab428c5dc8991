/** Queues of messages in one buffer of bytes: a new message pushes the oldest
    ones out when there is no room for it. */
module BufferQueue {
  import opened Bytes

  const OVERHEAD := 20

  /** A message with what is kept beside it. */
  datatype Record = Record(player: int, kind: int, time: int, msg: Text)

  const LONG_LIMIT := 0x8000_0000_0000_0000

  predicate IsLong(t: int) {
    -LONG_LIMIT <= t < LONG_LIMIT
  }

  predicate Fits(r: Record) {
    IsInt(r.player) && IsInt(r.kind) && IsLong(r.time) && NulFree(r.msg) && |r.msg| < BUFFER_LEN
  }

  // ----- Records in bytes

  function EncodeLong(t: int): (b: seq<Byte>)
    ensures |b| == 8
  {
    Digits(t % (2 * LONG_LIMIT), 8)
  }

  function DecodeLong(b: seq<Byte>): int
    requires |b| == 8
  {
    var u := Number(b);
    if u >= LONG_LIMIT then u - 2 * LONG_LIMIT else u
  }

  lemma DecodeEncodeLong(t: int)
    requires IsLong(t)
    ensures DecodeLong(EncodeLong(t)) == t
  {
    assert Power256(2) == 0x1_0000 && Power256(4) == 0x1_0000_0000 && Power256(6) == 0x1_0000_0000_0000;
    assert Power256(8) == 2 * LONG_LIMIT;
    NumberOfDigits(t % (2 * LONG_LIMIT), 8);
  }

  function EncodeRecord(r: Record): (b: seq<Byte>)
    ensures |b| == |r.msg| + 1 + OVERHEAD
  {
    EncodeInt(|r.msg|) + EncodeInt(r.player) + EncodeInt(r.kind) + EncodeLong(r.time) + r.msg + [0]
  }

  function EncodeAll(rs: seq<Record>): seq<Byte> {
    if rs == [] then [] else EncodeRecord(rs[0]) + EncodeAll(rs[1..])
  }

  /** The room that a record takes. */
  function Room(r: Record): nat {
    |r.msg| + 1 + OVERHEAD
  }

  function Used(rs: seq<Record>): (n: nat)
    ensures n == |EncodeAll(rs)|
  {
    if rs == [] then 0 else Room(rs[0]) + Used(rs[1..])
  }

  /** The record at the start of some bytes, when there is one. */
  function Parse(b: seq<Byte>): Option<Record> {
    if |b| < OVERHEAD + 1 then None
    else
      var size := DecodeInt(b[..4]);
      if size < 0 || |b| < size + 1 + OVERHEAD then None
      else Some(Record(DecodeInt(b[4..8]), DecodeInt(b[8..12]), DecodeLong(b[12..20]), b[20..20 + size]))
  }

  function ParseAll(b: seq<Byte>): Option<seq<Record>>
    decreases |b|
  {
    if b == [] then Some([]) else
      var r := Parse(b);
      if r.None? then None else
        var rest := ParseAll(b[Room(r.value)..]);
        if rest.None? then None else Some([r.value] + rest.value)
  }

  lemma ParseRecord(r: Record, rest: seq<Byte>)
    requires Fits(r)
    ensures Parse(EncodeRecord(r) + rest) == Some(r)
  {
    var b := EncodeRecord(r) + rest;
    var size := |r.msg|;
    PartsOf(EncodeInt(size), EncodeInt(r.player), EncodeInt(r.kind), EncodeLong(r.time), r.msg, [0] + rest);
    assert b == EncodeInt(size) + EncodeInt(r.player) + EncodeInt(r.kind) + EncodeLong(r.time) + r.msg + ([0] + rest);
    DecodeEncode(size);
    DecodeEncode(r.player);
    DecodeEncode(r.kind);
    DecodeEncodeLong(r.time);
    hide EncodeInt, EncodeLong, DecodeInt, DecodeLong, EncodeRecord;
  }

  lemma PartsOf(x: seq<Byte>, y: seq<Byte>, z: seq<Byte>, t: seq<Byte>, m: seq<Byte>, rest: seq<Byte>)
    requires |x| == |y| == |z| == 4 && |t| == 8
    ensures var b := x + y + z + t + m + rest;
            b[..4] == x && b[4..8] == y && b[8..12] == z && b[12..20] == t && b[20..20 + |m|] == m && b[20 + |m|..] == rest
  {
  }

  /** The bytes of some records parse as those records. */
  lemma {:induction false} ParseEncodeAll(rs: seq<Record>)
    requires forall i :: 0 <= i < |rs| ==> Fits(rs[i])
    ensures ParseAll(EncodeAll(rs)) == Some(rs)
  {
    if rs != [] {
      var r, rest := rs[0], EncodeAll(rs[1..]);
      assert EncodeAll(rs) == EncodeRecord(r) + rest && rs == [r] + rs[1..];
      hide Parse, EncodeRecord, EncodeAll, Fits;
      ParseRecord(r, rest);
      ParseEncodeAll(rs[1..]);
      assert EncodeAll(rs)[Room(r)..] == rest;
    }
  }

  lemma {:induction false} UsedConcat(a: seq<Record>, b: seq<Record>)
    ensures EncodeAll(a + b) == EncodeAll(a) + EncodeAll(b) && Used(a + b) == Used(a) + Used(b)
  {
    if a == [] {
      assert a + b == b;
    } else {
      assert (a + b)[1..] == a[1..] + b;
      UsedConcat(a[1..], b);
    }
  }

  // ----- Pushing out

  /** How many of the oldest records have to go to get `space` bytes. */
  function Evicted(rs: seq<Record>, space: int): (k: nat)
    ensures k <= |rs|
  {
    if space <= 0 || rs == [] then 0 else 1 + Evicted(rs[1..], space - Room(rs[0]))
  }

  /** The fewest that are enough, or all. */
  lemma {:induction false} EvictedFewest(rs: seq<Record>, space: int)
    ensures var k := Evicted(rs, space);
            && (Used(rs[..k]) >= space || k == |rs|)
            && forall j :: 0 <= j < k ==> Used(rs[..j]) < space
  {
    var k := Evicted(rs, space);
    if k > 0 {
      EvictedFewest(rs[1..], space - Room(rs[0]));
      assert rs[..k][1..] == rs[1..][..k - 1];
      forall j | 0 <= j < k ensures Used(rs[..j]) < space {
        if j > 0 { assert rs[..j][1..] == rs[1..][..j - 1]; }
      }
    }
  }

  // ----- The queue as a value

  datatype Queue = Queue(size: nat, records: seq<Record>)

  ghost predicate QueueOk(q: Queue) {
    Used(q.records) <= q.size && forall i :: 0 <= i < |q.records| ==> Fits(q.records[i])
  }

  function Shifted(q: Queue, space: int): Queue {
    q.(records := q.records[Evicted(q.records, space)..])
  }

  /** `add_to_bufferq`: a message that is longer than the whole buffer is lost. */
  function Added(q: Queue, r: Record): Queue {
    if Room(r) > q.size then q
    else
      var q' := if q.size - Used(q.records) < Room(r) then Shifted(q, Room(r)) else q;
      q'.(records := q'.records + [r])
  }

  /** The size for a number of lines, which is not the one a new queue gets. */
  function SizeFor(lines: nat): nat {
    lines * (BUFFER_LEN + 2 * OVERHEAD)
  }

  /** `reallocate_bufferq`. */
  function Resized(q: Queue, lines: nat): Queue {
    var bytes := SizeFor(lines);
    var q' := if q.size > bytes && Used(q.records) >= bytes then Shifted(q, Used(q.records) - bytes) else q;
    q'.(size := bytes)
  }

  lemma ShiftedUsed(q: Queue, space: int)
    ensures Used(Shifted(q, space).records) <= Used(q.records)
    ensures Used(Shifted(q, space).records) <= Used(q.records) - space || Shifted(q, space).records == []
  {
    hide EncodeAll, EncodeRecord;
    var k := Evicted(q.records, space);
    EvictedFewest(q.records, space);
    assert q.records == q.records[..k] + q.records[k..];
    UsedConcat(q.records[..k], q.records[k..]);
  }

  /** Pushing out the oldest keeps the queue in order, with the room asked for
      where there can be any. */
  lemma ShiftedOk(q: Queue, space: int)
    requires QueueOk(q) && space <= q.size
    ensures QueueOk(Shifted(q, space)) && Used(Shifted(q, space).records) + space <= q.size
  {
    ShiftedUsed(q, space);
    NoneUsed([]);
    hide Used, EncodeAll, Evicted, Fits;
  }

  /** Nothing takes no room, and whatever takes none is nothing. */
  lemma NoneUsed(rs: seq<Record>)
    ensures Used(rs) == 0 <==> rs == []
  {
    hide EncodeAll;
  }

  /** A record for which there is room can be put at the end. */
  lemma AppendedOk(q: Queue, r: Record)
    requires QueueOk(q) && Fits(r) && Used(q.records) + Room(r) <= q.size
    ensures QueueOk(q.(records := q.records + [r]))
  {
    UsedOne(r);
    hide Used, EncodeAll, Fits, Room;
    UsedConcat(q.records, [r]);
  }

  lemma AddedOk(q: Queue, r: Record)
    requires QueueOk(q) && Fits(r)
    ensures QueueOk(Added(q, r))
  {
    hide QueueOk, Used, EncodeAll, Fits, Room, Shifted;
    if Room(r) <= q.size {
      if q.size - Used(q.records) < Room(r) {
        ShiftedOk(q, Room(r));
        ShiftedSize(q, Room(r));
        AppendedOk(Shifted(q, Room(r)), r);
      } else {
        AppendedOk(q, r);
      }
    }
  }

  lemma ShiftedSize(q: Queue, space: int)
    ensures Shifted(q, space).size == q.size
  {
  }

  lemma UsedOne(r: Record)
    ensures Used([r]) == Room(r)
  {
    hide EncodeInt, EncodeLong, EncodeAll, EncodeRecord;
    assert [r][1..] == [];
  }

  lemma ResizedOk(q: Queue, lines: nat)
    requires QueueOk(q)
    ensures QueueOk(Resized(q, lines))
  {
    var space := Used(q.records) - SizeFor(lines);
    ShiftedUsed(q, space);
    NoneUsed([]);
    hide Used, EncodeAll, Evicted, Fits, SizeFor;
  }

  // ----- What goes, and what stays

  /** `k` records are the fewest of the oldest that take `space` bytes, or they
      are all. */
  ghost predicate Fewest(rs: seq<Record>, space: int, k: nat) {
    && k <= |rs| && (Used(rs[..k]) >= space || k == |rs|)
    && forall j :: 0 <= j < k ==> Used(rs[..j]) < space
  }

  /** A message that is too long changes nothing.  Any other goes to the end, and
      pushes out nothing while there is room for it, and then the fewest of the
      oldest that take as much room as it does. */
  lemma AddedKeeps(q: Queue, r: Record) returns (k: nat)
    ensures Added(q, r).size == q.size && k <= |q.records|
    ensures Room(r) > q.size ==> Added(q, r) == q
    ensures Room(r) <= q.size ==> Added(q, r).records == q.records[k..] + [r]
    ensures Used(q.records) + Room(r) <= q.size ==> k == 0
    ensures Used(q.records) + Room(r) > q.size ==> Fewest(q.records, Room(r), k)
  {
    hide Used, EncodeAll, Room, Evicted;
    EvictedFewest(q.records, Room(r));
    k := if q.size - Used(q.records) < Room(r) then Evicted(q.records, Room(r)) else 0;
    assert q.records[0..] == q.records;
  }

  /** After resizing, the fewest of the oldest are gone that take what is in use
      beyond the new size: none, if all of it fits. */
  lemma ResizedKeeps(q: Queue, lines: nat) returns (k: nat)
    requires QueueOk(q)
    ensures Resized(q, lines).size == SizeFor(lines)
    ensures Fewest(q.records, Used(q.records) - SizeFor(lines), k) && Resized(q, lines).records == q.records[k..]
    ensures Used(q.records) <= SizeFor(lines) ==> k == 0
  {
    hide Used, EncodeAll, Evicted, SizeFor, Fits;
    var space := Used(q.records) - SizeFor(lines);
    EvictedFewest(q.records, space);
    NothingUsed(q.records);
    k := if space > 0 then Evicted(q.records, space) else 0;
    assert q.records[0..] == q.records;
    if space == 0 { NoneEvicted(q.records); }
  }

  /** A line takes up more when a queue is resized than when it is new, by what is
      kept beside one message. */
  lemma ResizedLarger(lines: nat)
    ensures SizeFor(lines) == lines * (BUFFER_LEN + OVERHEAD) + lines * OVERHEAD
  {
  }

  lemma NothingUsed(rs: seq<Record>)
    ensures Used(rs[..0]) == 0
  {
    hide EncodeAll;
  }

  lemma NoneEvicted(rs: seq<Record>)
    ensures Evicted(rs, 0) == 0
  {
  }

  datatype Call = Add(r: Record) | Resize(lines: nat)

  function Done(q: Queue, call: Call): Queue {
    match call
    case Add(r) => Added(q, r)
    case Resize(lines) => Resized(q, lines)
  }

  /** The messages that the queue takes in, in order. */
  function Accepted(q: Queue, calls: seq<Call>): seq<Record>
    decreases |calls|
  {
    if calls == [] then [] else Taken(q, calls[0]) + Accepted(Done(q, calls[0]), calls[1..])
  }

  function Taken(q: Queue, call: Call): seq<Record> {
    if call.Add? && Room(call.r) <= q.size then [call.r] else []
  }

  function RunOf(q: Queue, calls: seq<Call>): Queue
    decreases |calls|
  {
    if calls == [] then q else RunOf(Done(q, calls[0]), calls[1..])
  }

  ghost predicate SuffixOf(a: seq<Record>, b: seq<Record>) {
    |a| <= |b| && a == b[|b| - |a|..]
  }

  /** Over any run, the bytes in use never exceed the size, they parse as the
      records, and those are the latest of the messages the queue took in. */
  lemma {:induction false} RunKeeps(q: Queue, calls: seq<Call>)
    requires QueueOk(q) && forall i :: 0 <= i < |calls| && calls[i].Add? ==> Fits(calls[i].r)
    ensures var e := RunOf(q, calls);
            && QueueOk(e) && ParseAll(EncodeAll(e.records)) == Some(e.records)
            && SuffixOf(e.records, q.records + Accepted(q, calls))
    decreases |calls|
  {
    hide EncodeAll, Used, Fits, ParseAll, QueueOk, Added, Resized, SuffixOf;
    if calls == [] {
      assert q.records + [] == q.records;
      EndOf(q);
    } else {
      var next := Done(q, calls[0]);
      StepKeeps(q, calls[0]);
      RunKeeps(next, calls[1..]);
      var first := Taken(q, calls[0]);
      var rest := Accepted(next, calls[1..]);
      SuffixMore(RunOf(next, calls[1..]).records, next.records, q.records + first, rest);
      assert q.records + first + rest == q.records + (first + rest);
    }
  }

  lemma EndOf(q: Queue)
    requires QueueOk(q)
    ensures ParseAll(EncodeAll(q.records)) == Some(q.records) && SuffixOf(q.records, q.records)
  {
    hide EncodeAll, Used, Fits, ParseAll;
    ParseEncodeAll(q.records);
  }

  lemma StepKeeps(q: Queue, call: Call)
    requires QueueOk(q) && (call.Add? ==> Fits(call.r))
    ensures QueueOk(Done(q, call)) && SuffixOf(Done(q, call).records, q.records + Taken(q, call))
  {
    match call {
      case Add(r) => AddedOk(q, r);
      case Resize(lines) => ResizedOk(q, lines);
    }
    hide EncodeAll, Used, Fits, QueueOk, Evicted;
  }

  lemma SuffixMore(e: seq<Record>, a: seq<Record>, b: seq<Record>, rest: seq<Record>)
    requires SuffixOf(e, a + rest) && SuffixOf(a, b)
    ensures SuffixOf(e, b + rest)
  {
    var k := |b| - |a|;
    assert (b + rest)[k..] == a + rest;
    assert (b + rest)[k..][|a + rest| - |e|..] == (b + rest)[|b + rest| - |e|..];
  }

  /** All that has been taken in fits at every moment, from sizes alone: `total`
      bytes are in use to begin with. */
  predicate AlwaysFits(size: nat, total: nat, calls: seq<Call>)
    decreases |calls|
  {
    && total <= size
    && (calls == [] ||
        match calls[0]
        case Add(r) => AlwaysFits(size, if Room(r) <= size then total + Room(r) else total, calls[1..])
        case Resize(lines) => AlwaysFits(SizeFor(lines), total, calls[1..]))
  }

  /** Over a run nothing is lost if and only if all of it always fits. */
  lemma {:induction false} NothingLost(q: Queue, calls: seq<Call>)
    requires QueueOk(q) && forall i :: 0 <= i < |calls| && calls[i].Add? ==> Fits(calls[i].r)
    ensures RunOf(q, calls).records == q.records + Accepted(q, calls) <==> AlwaysFits(q.size, Used(q.records), calls)
    decreases |calls|
  {
    hide EncodeAll, Used, Fits, QueueOk, Added, Resized, SizeFor, Room, SuffixOf, Fewest;
    RoomInUse(q);
    if calls == [] {
      assert q.records + [] == q.records;
    } else {
      var next, first := Done(q, calls[0]), Taken(q, calls[0]);
      var rest := Accepted(next, calls[1..]);
      StepKeeps(q, calls[0]);
      StepLoses(q, calls[0]);
      NothingLost(next, calls[1..]);
      RunKeeps(next, calls[1..]);
      assert q.records + (first + rest) == (q.records + first) + rest;
      if next.records != q.records + first { ShorterSuffix(RunOf(next, calls[1..]).records, next.records, q.records + first, rest); }
    }
  }

  lemma RoomInUse(q: Queue)
    requires QueueOk(q)
    ensures Used(q.records) <= q.size
  {
    hide Fits, Used;
  }

  /** What one call takes in, and whether it pushes anything out for it. */
  lemma StepLoses(q: Queue, call: Call)
    requires QueueOk(q)
    ensures var total := Used(q.records) + (if call.Add? && Room(call.r) <= q.size then Room(call.r) else 0);
            && Done(q, call).size == (if call.Add? then q.size else SizeFor(call.lines))
            && Used(q.records + Taken(q, call)) == total
            && (Done(q, call).records == q.records + Taken(q, call) <==> total <= Done(q, call).size)
            && (Done(q, call).records != q.records + Taken(q, call) ==> |Done(q, call).records| < |q.records + Taken(q, call)|)
  {
    hide EncodeAll, Used, Fits, Added, Resized, SizeFor, Room;
    NothingUsed(q.records);
    NoneUsed(q.records);
    match call {
      case Add(r) =>
        var k := AddedKeeps(q, r);
        UsedConcat(q.records, [r]);
        UsedOne(r);
        RoomTaken(r);
        if k == 0 { assert q.records[0..] == q.records; }
        assert q.records + [] == q.records;
      case Resize(lines) =>
        var k := ResizedKeeps(q, lines);
        if k == 0 { assert q.records[0..] == q.records; }
        assert q.records + [] == q.records;
    }
  }

  lemma RoomTaken(r: Record)
    ensures Room(r) > 0
  {
  }

  /** What has gone does not come back. */
  lemma ShorterSuffix(e: seq<Record>, a: seq<Record>, b: seq<Record>, rest: seq<Record>)
    requires SuffixOf(e, a + rest) && |a| < |b|
    ensures e != b + rest
  {
  }
}
