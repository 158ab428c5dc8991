/** A message queue as it is kept: the buffer, where its used part ends, and how
    many messages are in it. */
module BufferStore {
  import opened Bytes
  import opened BufferQueue

  /** Where record `k` starts in the bytes of some records, and what is there. */
  lemma RecordAt(rs: seq<Record>, k: nat)
    requires k < |rs| && forall i :: 0 <= i < |rs| ==> Fits(rs[i])
    ensures Used(rs[..k + 1]) == Used(rs[..k]) + Room(rs[k]) <= Used(rs)
    ensures EncodeAll(rs)[Used(rs[..k])..] == EncodeAll(rs[k..])
    ensures Parse(EncodeAll(rs)[Used(rs[..k])..]) == Some(rs[k])
  {
    hide EncodeInt, EncodeLong, EncodeRecord, Parse, Used, EncodeAll, Fits;
    UsedTo(rs, k);
    UsedTo(rs, k + 1);
    assert rs[..k + 1] == rs[..k] + [rs[k]];
    UsedConcat(rs[..k], [rs[k]]);
    UsedOne(rs[k]);
    FirstOf(rs[k..]);
    assert rs[k..][0] == rs[k];
    ParseRecord(rs[k], EncodeAll(rs[k..][1..]));
  }

  lemma FirstOf(rs: seq<Record>)
    requires rs != []
    ensures EncodeAll(rs) == EncodeRecord(rs[0]) + EncodeAll(rs[1..])
  {
    hide EncodeRecord;
  }

  lemma UsedTo(rs: seq<Record>, k: nat)
    requires k <= |rs|
    ensures Used(rs[..k]) <= Used(rs) && Used(rs) == Used(rs[..k]) + Used(rs[k..])
    ensures EncodeAll(rs)[Used(rs[..k])..] == EncodeAll(rs[k..])
  {
    assert rs == rs[..k] + rs[k..];
    UsedConcat(rs[..k], rs[k..]);
  }

  /** The parts that are read one by one are those of the record. */
  lemma PartsRead(b: seq<Byte>, r: Record)
    requires Parse(b) == Some(r) && Fits(r)
    ensures |b| >= Room(r) && DecodeInt(b[..4]) == |r.msg| && DecodeInt(b[4..8]) == r.player && DecodeInt(b[8..12]) == r.kind
    ensures DecodeLong(b[12..20]) == r.time && b[20..20 + |r.msg|] == r.msg
  {
    hide DecodeInt, DecodeLong;
  }

  class BufferQ {
    var buffer: array<Byte>
    var bufferEnd: nat
    var bufferSize: nat
    var numBuffered: int
    var lastString: Text
    var lastType: Byte

    ghost var records: seq<Record>

    ghost predicate Valid()
      reads this, buffer
    {
      && QueueOk(Contents()) && buffer.Length == bufferSize && numBuffered == |records|
      && bufferEnd == Used(records) && buffer[..bufferEnd] == EncodeAll(records)
    }

    ghost function Contents(): Queue
      reads this
    {
      Queue(bufferSize, records)
    }

    constructor (lines: nat)
      ensures Valid() && fresh(buffer) && Contents() == Queue(lines * (BUFFER_LEN + OVERHEAD), [])
    {
      var bytes := lines * (BUFFER_LEN + OVERHEAD);
      buffer := new Byte[bytes](_ => 0);
      bufferEnd, numBuffered, bufferSize := 0, 0, bytes;
      lastString, lastType, records := [], 0, [];
      new;
      assert buffer[..0] == [];
    }

    /** `memcpy` to the end of the used part. */
    method Append(bytes: seq<Byte>)
      requires bufferEnd + |bytes| <= buffer.Length
      modifies this`bufferEnd, buffer
      ensures bufferEnd == old(bufferEnd) + |bytes| && buffer[..bufferEnd] == old(buffer[..bufferEnd]) + bytes
    {
      forall i | 0 <= i < |bytes| { buffer[bufferEnd + i] := bytes[i]; }
      bufferEnd := bufferEnd + |bytes|;
    }

    /** Add a message; `mudtime` is the time now. */
    method AddToBufferq(kind: int, player: int, msg: Text, mudtime: int)
      requires Valid() && Fits(Record(player, kind, mudtime, msg))
      modifies this, buffer
      ensures Valid() && buffer == old(buffer)
      ensures Contents() == Added(old(Contents()), Record(player, kind, mudtime, msg))
      ensures |msg| + 1 + OVERHEAD <= bufferSize ==> lastString == msg && lastType == kind % 256
    {
      ghost var r := Record(player, kind, mudtime, msg);
      var len := |msg|;
      var room := len + 1 + OVERHEAD;
      if room > bufferSize {
        return;
      }
      hide EncodeInt, EncodeLong, EncodeRecord, Fits, Used, EncodeAll, Evicted;
      AddedRoom(Contents(), r);
      if bufferEnd > 0 && bufferSize - bufferEnd < room {
        ShiftBufferq(room);
      } else if bufferEnd == 0 {
        NoneUsed(records);
      }
      AddLast(kind, player, msg, mudtime);
    }

    /** Add a message that there is room for. */
    method AddLast(kind: int, player: int, msg: Text, mudtime: int)
      requires Valid() && Fits(Record(player, kind, mudtime, msg)) && bufferEnd + |msg| + 1 + OVERHEAD <= bufferSize
      modifies this, buffer
      ensures Valid() && buffer == old(buffer) && bufferSize == old(bufferSize)
      ensures records == old(records) + [Record(player, kind, mudtime, msg)]
      ensures lastString == msg && lastType == kind % 256
    {
      hide EncodeInt, EncodeLong, EncodeRecord, Fits, Used, EncodeAll;
      ghost var r := Record(player, kind, mudtime, msg);
      OneRecord(r);
      UsedConcat(records, [r]);
      PutRecord(player, kind, mudtime, msg);
      records := records + [r];
      lastString, lastType := msg, kind % 256;
      numBuffered := numBuffered + 1;
    }

    lemma OneRecord(r: Record)
      ensures Used([r]) == Room(r) && EncodeAll([r]) == EncodeRecord(r)
    {
      hide EncodeInt, EncodeLong, EncodeRecord;
      UsedOne(r);
      assert [r][1..] == [];
    }

    lemma AddedRoom(q: Queue, r: Record)
      requires QueueOk(q) && Fits(r) && Room(r) <= q.size
      ensures var q' := Shifted(q, Room(r)); Used(q'.records) + Room(r) <= q.size
      ensures q.records == [] ==> Used(q.records) == 0
    {
      ShiftedUsed(q, Room(r));
    }

    /** The parts of a record, one after another. */
    method PutRecord(player: int, kind: int, time: int, msg: Text)
      requires bufferEnd + |msg| + 1 + OVERHEAD <= buffer.Length
      modifies this`bufferEnd, buffer
      ensures bufferEnd == old(bufferEnd) + |msg| + 1 + OVERHEAD <= buffer.Length
      ensures buffer[..bufferEnd] == old(buffer[..bufferEnd]) + EncodeRecord(Record(player, kind, time, msg))
    {
      ghost var was := buffer[..bufferEnd];
      hide EncodeInt, EncodeLong;
      Append(EncodeInt(|msg|));
      Append(EncodeInt(player));
      Append(EncodeInt(kind));
      Append(EncodeLong(time));
      Append(msg + [0]);
      Together(was, EncodeInt(|msg|), EncodeInt(player), EncodeInt(kind), EncodeLong(time), msg, [0]);
    }

    lemma Together(w: seq<Byte>, x: seq<Byte>, y: seq<Byte>, z: seq<Byte>, t: seq<Byte>, m: seq<Byte>, e: seq<Byte>)
      ensures w + x + y + z + t + (m + e) == w + (x + y + z + t + m + e)
    {
    }

    /** Push out the oldest messages until `spaceNeeded` bytes are free of them,
        or none is left. */
    method ShiftBufferq(spaceNeeded: int)
      requires Valid()
      modifies this`bufferEnd, this`numBuffered, this`records, buffer
      ensures Valid() && Contents() == Shifted(old(Contents()), spaceNeeded)
    {
      var p, skipped := FindKept(spaceNeeded);
      DropFront(p, skipped);
    }

    /** How many messages have to go, and where the first one that stays starts.
        The server logs a fault when it gets to the end of the buffer otherwise
        than at the end of a message, which does not happen. */
    method FindKept(spaceNeeded: int) returns (p: nat, skipped: nat)
      requires Valid()
      ensures skipped == Evicted(records, spaceNeeded) && p == Used(records[..skipped])
    {
      p, skipped := 0, 0;
      var space := spaceNeeded;
      hide Valid, EncodeAll, Used, Fits, Room, Evicted;
      ghost var rs := records;
      ValidMeans();
      StartAt(rs);
      while space > 0 && p < bufferEnd
        invariant 0 <= skipped <= |rs| && p == Used(rs[..skipped]) <= bufferEnd
        invariant Evicted(rs, spaceNeeded) == skipped + Evicted(rs[skipped..], space)
        decreases |rs| - skipped
      {
        var jump;
        p, jump := Next(p, skipped, space);
        space := space - jump;
        skipped := skipped + 1;
      }
      if p != bufferEnd && space > 0 {
        assert false;
      }
      StopAt(rs, skipped, space);
    }

    /** Past message `k`. */
    method Next(p: nat, ghost k: nat, ghost space: int) returns (p': nat, jump: nat)
      requires Valid() && k <= |records| && p == Used(records[..k]) < bufferEnd && space > 0
      ensures k < |records| && p' == Used(records[..k + 1]) <= bufferEnd
      ensures Evicted(records[k..], space) == 1 + Evicted(records[k + 1..], space - jump)
    {
      hide Valid, EncodeAll, Used, Fits, Room, Evicted;
      ValidMeans();
      NotAtEnd(records, k);
      EvictedNext(records, k, space);
      var size := SizeAt(p, k);
      jump := size + OVERHEAD + 1;
      p' := p + jump;
    }

    lemma ValidMeans()
      requires Valid()
      ensures bufferEnd == Used(records)
    {
    }

    /** The length of message `k`, which is kept first. */
    method SizeAt(p: nat, ghost k: nat) returns (size: nat)
      requires Valid() && k < |records| && p == Used(records[..k])
      ensures size == |records[k].msg| && Used(records[..k + 1]) == p + Room(records[k]) <= bufferEnd
    {
      hide EncodeInt, DecodeInt, DecodeLong, Parse, EncodeAll, Used;
      RecordAt(records, k);
      PartsRead(buffer[..bufferEnd][p..], records[k]);
      ReadPart(buffer[..bufferEnd], buffer[..], p, 0, 4);
      size := DecodeInt(buffer[p..p + 4]);
    }

    /** Move everything from `p` on, where message `k` starts, to the front. */
    method DropFront(p: nat, k: nat)
      requires Valid() && k <= |records| && p == Used(records[..k])
      modifies this`bufferEnd, this`numBuffered, this`records, buffer
      ensures Valid() && records == old(records)[k..]
    {
      hide EncodeAll, Used, Fits;
      ghost var used, rs := buffer[..bufferEnd], records;
      UsedTo(rs, k);
      if p < bufferEnd {
        forall i | 0 <= i < bufferEnd - p { buffer[i] := buffer[p + i]; }
      }
      bufferEnd := bufferEnd - p;
      numBuffered := numBuffered - k;
      records := records[k..];
      assert buffer[..bufferEnd] == used[p..];
    }

    lemma StartAt(rs: seq<Record>)
      ensures Used(rs[..0]) == 0 && rs[0..] == rs
    {
    }

    lemma NotAtEnd(rs: seq<Record>, k: nat)
      requires k <= |rs| && Used(rs[..k]) < Used(rs)
      ensures k < |rs|
    {
      assert rs[..|rs|] == rs;
    }

    lemma EvictedNext(rs: seq<Record>, k: nat, space: int)
      requires k < |rs| && space > 0
      ensures Evicted(rs[k..], space) == 1 + Evicted(rs[k + 1..], space - Room(rs[k])) && Room(rs[k]) == |rs[k].msg| + OVERHEAD + 1
    {
      assert rs[k..][1..] == rs[k + 1..];
    }

    /** At the end of the loop either enough has gone, or all. */
    lemma StopAt(rs: seq<Record>, k: nat, space: int)
      requires k <= |rs| && (space > 0 ==> Used(rs[..k]) == Used(rs))
      ensures Evicted(rs[k..], space) == 0
    {
      if space > 0 {
        UsedTo(rs, k);
        NoneUsed(rs[k..]);
      }
    }

    /** Give the queue another size. */
    method ReallocateBufferq(lines: nat)
      requires Valid()
      modifies this, buffer
      ensures Valid() && (buffer == old(buffer) || fresh(buffer))
      ensures Contents() == Resized(old(Contents()), lines)
    {
      var bytes := lines * (BUFFER_LEN + 2 * OVERHEAD);
      ResizedOk(Contents(), lines);
      if bufferSize == bytes {
        return;
      }
      hide EncodeInt, EncodeAll, Used, Fits, Evicted;
      if bufferSize > bytes {
        if bufferEnd >= bytes {
          ShiftBufferq(bufferEnd - bytes);
        }
      }
      Realloc(bytes);
    }

    method Realloc(bytes: nat)
      requires Valid() && Used(records) <= bytes
      modifies this`buffer, this`bufferSize
      ensures Valid() && fresh(buffer) && Contents() == old(Contents()).(size := bytes)
    {
      hide EncodeInt, EncodeAll, Used, Fits;
      var newbuff := new Byte[bytes](_ => 0);
      forall i | 0 <= i < bufferEnd { newbuff[i] := buffer[i]; }
      assert newbuff[..bufferEnd] == buffer[..bufferEnd];
      buffer := newbuff;
      bufferSize := bytes;
    }

    /** The next message, starting from `p`, or from the first one when `p` is
        nothing; and where the one after it starts.  `k` is the number of messages
        before `p`. */
    method IterBufferq(p: Option<nat>, ghost k: nat) returns (p': Option<nat>, r: Option<Record>)
      requires Valid() && k <= |records| && (if p.None? then k == 0 else p.value == Used(records[..k]))
      ensures k == |records| ==> r == None
      ensures k < |records| ==> r == Some(records[k]) && p' == Some(Used(records[..k + 1]))
    {
      hide EncodeInt, DecodeInt, DecodeLong, Parse, EncodeAll, Used, Fits;
      if k == |records| { assert records[..k] == records; } else { RecordAt(records, k); UsedTo(records, k); }
      StartAt(records);
      if bufferEnd == 0 || p == Some(bufferEnd) {
        return p, None;
      }
      var at := if p.None? then 0 else p.value;
      if k == |records| {
        NoneBefore(records, k);
        assert false;
      }
      PartsRead(buffer[..bufferEnd][at..], records[k]);
      ghost var used, n := buffer[..bufferEnd], |records[k].msg|;
      ReadPart(used, buffer[..], at, 0, 4);
      ReadPart(used, buffer[..], at, 4, 8);
      ReadPart(used, buffer[..], at, 8, 12);
      ReadPart(used, buffer[..], at, 12, 20);
      ReadPart(used, buffer[..], at, 20, 20 + n);
      var size := DecodeInt(buffer[at..at + 4]);
      var player := DecodeInt(buffer[at + 4..at + 8]);
      var kind := DecodeInt(buffer[at + 8..at + 12]);
      var time := DecodeLong(buffer[at + 12..at + 20]);
      var msg := buffer[at + 20..at + 20 + size];
      return Some(at + 20 + size + 1), Some(Record(player, kind, time, msg));
    }

    lemma NoneBefore(rs: seq<Record>, k: nat)
      requires k == |rs|
      ensures Used(rs[..k]) == Used(rs) && (k == 0 ==> Used(rs) == 0)
    {
      assert rs[..k] == rs;
    }

    lemma ReadPart(used: seq<Byte>, all: seq<Byte>, at: nat, i: nat, j: nat)
      requires |used| <= |all| && used == all[..|used|] && at + j <= |used| && i <= j
      ensures used[at..][i..j] == all[at + i..at + j]
    {
      assert forall k :: 0 <= k < |used| ==> used[k] == all[k];
    }

    /** How many messages there are, by going through them. */
    method BufferqLines() returns (lines: nat)
      requires Valid()
      ensures lines == |Contents().records| == numBuffered
    {
      lines := 0;
      var p: Option<nat>, r := IterBufferq(None, 0);
      while r.Some?
        invariant lines <= |records| && (lines < |records| <==> r.Some?)
        invariant r.Some? ==> p == Some(Used(records[..lines + 1]))
        decreases |records| - lines
      {
        p, r := IterBufferq(p, lines + 1);
        lines := lines + 1;
      }
    }
  }
}
