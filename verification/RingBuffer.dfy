/** The persistent log ring of src/ringbuffer.c as written, and its log-dump client. */
module RingBuffer {
  import opened Bytes
  import opened RingLayout

  class U8RingBuffer {
    const buf: array<byte>  // `size` cells, then the slack cell
    const size: nat
    var free: nat
    var head: nat
    var tail: nat
    var items: nat
    ghost var records: seq<Record>  // what the buffer stores, oldest first

    /** All that memory safety needs: no other field is trusted. */
    ghost predicate Allocated() {
      buf.Length == size + 1 && size + 258 < SIZE_T_RANGE
    }

    /** The fields and the bytes describe `records`. */
    ghost predicate Valid()
      reads this, buf
    {
      && Allocated()
      && items == |records|
      && free + Total(records) == size
      && Stored(false, buf[..], size, head, tail, records)
    }

    /** Record i starts at cell o; past the last record, that is where a next one would. */
    ghost predicate Starts(i: nat, o: int)
      reads this
    {
      && i <= |records| && head < size && Total(records[..i]) <= size
      && o == Position(size, head, records, i)
    }

    /** When removing the oldest record leaves the buffer well: an emptied buffer's `head` and
        `tail` are not set anew, so an only record has to have filled it. */
    ghost predicate FirstWell()
      reads this
    {
      items > 1 || (records != [] && |records[0]| + 2 == size)
    }

    ghost predicate Emptied()
      reads this
    {
      items == 0 && records == [] && free == size && head < size && tail < size
    }

    /** When removing the newest record leaves the buffer well. */
    ghost predicate LastWell()
      reads this, buf
    {
      Allocated() && head < size && records != [] && LastGoesWell(buf[..], size, head, tail, records)
    }

    /** An emptied buffer is well again exactly when `head` and `tail` have met. */
    lemma EmptiedIsWell()
      requires Allocated() && Emptied()
      ensures Valid() <==> head == tail
    {
    }

    /** One record, and `head` elsewhere. */
    ghost predicate OneApart(data: Record)
      reads this, buf
    {
      && Allocated() && |data| + 2 <= size
      && items == 1 && records == [data] && free == size - |data| - 2
      && head < size && tail < size && head != tail
      && RecordAt(false, buf[..], size, tail, data)
    }

    /** A walk then starts at a stale cell. The step on from there reaches the record exactly
        if the stale length happens to lead that far. */
    lemma StaleStart(data: Record)
      requires OneApart(data)
      ensures NextOffset(buf[..], size, head) == tail <==> Around(size, buf[head] as int + 2) == Dist(size, head, tail)
    {
      NextIsAround(buf[..], size, head);
      FarEnough(size, head, tail, buf[head] as int + 2);
    }

    /** u8_ringbuffer_init on a caller's array. */
    constructor (b: array<byte>, size: nat)
      requires b.Length == size + 1 && size + 258 < SIZE_T_RANGE
      ensures Valid() && records == [] && buf == b && this.size == size
      ensures free == size && head == tail == items == 0
    {
      buf := b;
      this.size := size;
      free := size;
      head, tail, items := 0, 0, 0;
      records := [];
    }

    method RemoveFirstItem() returns (r: int)
      requires Allocated()
      modifies this`head, this`free, this`items, this`records
      ensures r == if old(items) < 1 then -2 else if old(head) >= size then -3 else 0
      ensures r != 0 ==> unchanged(this)
      ensures r == 0 ==>
                && items == old(items) - 1 && free == old(free) + buf[old(head)] as int + 2
                && head == NextOffset(buf[..], size, old(head))
                && records == if old(records) == [] then [] else old(records[1..])
      // the oldest record goes
      ensures old(Valid()) && old(items) > 0 ==>
                && r == 0 && records == old(records[1..]) && free == old(free + |records[0]| + 2)
                && head == At(size, old(head), |old(records[0])| + 2)
                && (if records == [] then Emptied() else Valid())
                && (Valid() <==> old(FirstWell()))
    {
      if items < 1 {
        return -2;
      }
      if head >= size {
        return -3;
      }
      if Valid() {
        DropFirst(false, buf[..], size, head, tail, records);
        NextIsAfter(buf[..], size, head);
      }
      var itemLen := 1 + buf[head] as int + 1;
      head := NextOffset(buf[..], size, head);
      free := free + itemLen;
      items := items - 1;
      records := if records == [] then [] else records[1..];
      return 0;
    }

    method RemoveLastItem() returns (r: int)
      requires Allocated()
      modifies this`tail, this`free, this`items, this`records
      ensures r == if old(items) < 1 then -2 else if old(tail) >= size then -3 else 0
      ensures r != 0 ==> unchanged(this)
      ensures r == 0 ==>
                && items == old(items) - 1 && free == old(free) + buf[old(tail)] as int + 2
                && tail == PreviousOffset(buf[..], size, old(tail))
                && records == if old(records) == [] then [] else Init(old(records))
      // the newest record goes
      ensures old(Valid()) && old(items) > 0 ==>
                && r == 0 && records == Init(old(records)) && free == old(free + |Last(records)| + 2)
                && (Valid() <==> old(LastWell()))
    {
      if items < 1 {
        return -2;
      }
      if tail >= size {
        return -3;
      }
      if Valid() {
        DropLast(buf[..], size, head, tail, records);
      }
      var itemLen := 1 + buf[tail] as int + 1;
      tail := PreviousOffset(buf[..], size, tail);
      free := free + itemLen;
      items := items - 1;
      records := if records == [] then [] else Init(records);
      return 0;
    }

    /** The store loop of u8_ringbuffer_add: the payload wraps, the suffix does not, so a
        suffix on the wrap point goes to the slack cell. */
    method Store(at: nat, data: Record)
      requires Allocated() && at < size
      modifies buf
      ensures |data| + 2 <= size ==> RecordAt(false, buf[..], size, at, data)
      ensures |data| + 2 <= size ==> forall x :: 0 <= x < size && Dist(size, at, x) > |data| ==>
                buf[x] == if Dist(size, at, x) == |data| + 1 && x != 0 then |data| else old(buf[x])
      // the slack cell is written exactly for a suffix on the wrap point
      ensures |data| + 2 <= size ==> buf[size] == if SuffixOnWrap(size, at, |data|) then |data| else old(buf[size])
    {
      var dst := at;
      buf[dst] := |data|;
      dst := dst + 1;
      var i := 0;
      while i < |data|
        invariant 0 <= i <= |data|
        invariant dst <= size
        invariant |data| + 2 <= size ==> dst == if at + i + 1 <= size then at + i + 1 else at + i + 1 - size
        invariant |data| + 2 <= size ==> buf[at] == |data| && buf[size] == old(buf[size])
        invariant |data| + 2 <= size ==> forall k :: 0 <= k < i ==> buf[At(size, at, k + 1)] == data[k]
        invariant |data| + 2 <= size ==> forall x :: 0 <= x < size && Dist(size, at, x) > i ==> buf[x] == old(buf[x])
      {
        if dst >= size {
          dst := 0;
        }
        buf[dst] := data[i];
        dst := dst + 1;
        i := i + 1;
      }
      buf[dst] := |data|;
    }

    /** The state inside the discard loop of u8_ringbuffer_add, begun with `was` and `wasFree`:
        all is well until every record is gone, and then exactly if the last of them filled
        the buffer. */
    ghost predicate MakingRoom(was: seq<Record>, wasFree: nat, wasHead: nat, need: nat)
      reads this, buf
    {
      && DiscardingFrom(size, was, wasFree, wasHead, records, free, head, need)
      && items == |records| && free + Total(records) == size
      && (records == [] && was != [] ==> Emptied())
      && (Valid() <==> records != [] || was == [] || |Last(was)| + 2 == size)
    }

    /** One round of that loop. */
    method DiscardOne(ghost was: seq<Record>, ghost wasFree: nat, ghost wasHead: nat, need: nat) returns (e: int)
      requires Allocated() && free < need
      modifies this`head, this`free, this`items, this`records
      ensures e == 0 <==> old(items) > 0 && old(head) < size
      ensures e == 0 ==> items < old(items)
      ensures e != 0 ==> unchanged(this)
      ensures old(MakingRoom(was, wasFree, wasHead, need)) ==> MakingRoom(was, wasFree, wasHead, need) && (e != 0 ==> records == [])
    {
      ghost var left, had, from := records, free, head;
      e := RemoveFirstItem();
      if old(MakingRoom(was, wasFree, wasHead, need)) && e == 0 {
        DiscardFromOneMore(size, was, wasFree, wasHead, left, had, from, need);
      }
    }

    /** The first d records of `was` are gone. All is well, unless every record went and the last
        of them did not fill the buffer. */
    ghost predicate RoomMade(was: seq<Record>, wasFree: nat, wasHead: nat, d: nat)
      requires d <= |was|
      reads this, buf
    {
      && records == was[d..] && items == |records| && free == wasFree + Total(was[..d])
      && (if d == 0 then head == wasHead else HeadAfter(size, wasHead, Total(was[..d]), head))
      && (Valid() || Emptied())
      && (Valid() <==> d < |was| || d == 0 || |Last(was)| + 2 == size)
    }

    /** The discard loop of an overwriting u8_ringbuffer_add. */
    method MakeRoom(need: nat)
      requires Allocated() && free < need
      modifies this`head, this`free, this`items, this`records
      ensures old(Valid()) ==> RoomMade(old(records), old(free), old(head), Discards(old(records), old(free), need))
    {
      ghost var was, wasFree, wasHead, well := records, free, head, Valid();
      if well {
        RoomBegins(need);
      }
      while true
        invariant free < need && (well ==> MakingRoom(was, wasFree, wasHead, need))
        decreases items
      {
        var e := DiscardOne(was, wasFree, wasHead, need);
        if e != 0 {
          break;
        }
        if free >= need {
          break;
        }
      }
      if well {
        RoomEnds(was, wasFree, wasHead, need);
      }
    }

    lemma RoomBegins(need: nat)
      requires Valid() && free < need
      ensures MakingRoom(records, free, head, need)
    {
      assert records[..0] == [];
    }

    lemma RoomEnds(was: seq<Record>, wasFree: nat, wasHead: nat, need: nat)
      requires Allocated() && MakingRoom(was, wasFree, wasHead, need) && (free >= need || records == [])
      ensures RoomMade(was, wasFree, wasHead, Discards(was, wasFree, need))
    {
      DiscardingDone(was, wasFree, records, free, need);
      assert was[..0] == [];
    }

    lemma NoRoomMade()
      requires Valid()
      ensures RoomMade(records, free, head, 0)
    {
      assert records[..0] == [] && records[0..] == records;
    }

    /** The discards are made for an overwriting add that lacks room, and only then. */
    method MakeRoomIf(need: nat, overwrite: bool)
      requires Allocated()
      modifies this`head, this`free, this`items, this`records
      ensures old(Valid()) ==>
                var d := if overwrite then Discards(old(records), old(free), need) else 0;
                RoomMade(old(records), old(free), old(head), d)
      ensures old(free) >= need ==> unchanged(this)
    {
      if Valid() {
        NoRoomMade();
      }
      if overwrite && free < need {
        MakeRoom(need);
      }
    }

    /** Where the next record goes: `tail`, moved on unless the buffer is empty. */
    method Advance()
      requires Allocated() && tail < size
      modifies this`tail
      ensures tail < size && tail == if items == 0 then old(tail) else NextOffset(buf[..], size, old(tail))
      ensures old(Valid()) ==> head < size && tail == At(size, head, Total(records)) && Chain(false, buf[..], size, head, records)
    {
      if Valid() {
        NextTail(false, buf[..], size, head, tail, records);
      }
      if items > 0 {
        tail := NextOffset(buf[..], size, tail);
      }
    }

    /** The record is at `at`, a suffix on the wrap point in the slack cell, and every other
        cell, the slack cell included, is as it was in `before`. */
    ghost predicate WrittenAt(at: nat, data: Record, before: seq<byte>)
      requires Allocated() && at < size && |data| + 2 <= size && |before| == buf.Length
      reads this, buf
    {
      && RecordAt(false, buf[..], size, at, data)
      && (buf[size] == if SuffixOnWrap(size, at, |data|) then |data| else before[size])
      && forall x :: 0 <= x < size && Dist(size, at, x) > |data| ==>
           buf[x] == if Dist(size, at, x) == |data| + 1 && x != 0 then |data| else before[x]
    }

    /** The part of u8_ringbuffer_add that stores, once there is room. */
    method Put(data: Record)
      requires Allocated() && tail < size && free >= |data| + 2
      modifies this`free, this`tail, this`items, this`records, buf
      ensures records == old(records) + [data]
      ensures old(Valid()) ==> Valid()
      ensures old(Emptied() && !Valid()) ==> !Valid() && OneApart(data)
      ensures items == old(items) + 1 && free == old(free) - |data| - 2
      ensures tail < size && tail == if old(items) == 0 then old(tail) else NextOffset(old(buf[..]), size, old(tail))
      ensures old(Valid()) ==> head < size && tail == At(size, head, Total(old(records)))
      ensures |data| + 2 <= size ==> WrittenAt(tail, data, old(buf[..]))
    {
      ghost var well, before, was := Valid(), buf[..], records;
      ghost var apart := Emptied() && !Valid();
      Advance();
      Store(tail, data);
      free := free - (|data| + 2);
      items := items + 1;
      records := records + [data];
      if well {
        AppendLast(false, before, buf[..], size, head, was, data);
      }
      if apart {
        assert Init(records) == [];
      }
    }

    /** The state after an add that discarded the first d records of `was`. */
    ghost predicate AddOutcome(was: seq<Record>, wasFree: nat, wasHead: nat, data: Record, d: nat, r: int)
      requires d <= |was|
      reads this, buf
    {
      && (r == 0 <==> wasFree + Total(was[..d]) >= |data| + 2)
      && records == was[d..] + (if r == 0 then [data] else [])
      && (if d == 0 then head == wasHead else HeadAfter(size, wasHead, Total(was[..d]), head))
      // well, unless every record went and the last of them did not fill the buffer
      && (Valid() <==> d < |was| || d == 0 || |Last(was)| + 2 == size)
      && (r == 0 && Valid() ==> head < size && Total(was[d..]) <= size && tail == At(size, head, Total(was[d..])))
      && (r != 0 ==> Valid() || Emptied())
    }

    lemma NothingAdded(was: seq<Record>, wasFree: nat, wasHead: nat, data: Record, d: nat)
      requires d <= |was| && RoomMade(was, wasFree, wasHead, d) && free < |data| + 2
      ensures AddOutcome(was, wasFree, wasHead, data, d, -2)
    {
      assert was[d..] + [] == was[d..];
    }

    /** u8_ringbuffer_add of the first `data` bytes a caller passes (a uint8_t count). */
    method Add(data: seq<byte>, overwrite: bool) returns (r: int)
      requires Allocated() && |data| <= 255
      modifies this`free, this`head, this`tail, this`items, this`records, buf
      ensures r == 0 || r == -1 || r == -2
      ensures |data| < 1 ==> r == -1 && unchanged(this) && unchanged(buf)
      // the shortest prefix of old records that makes room goes, and only when overwriting
      ensures old(Valid()) && |data| >= 1 ==>
                var d := if overwrite then Discards(old(records), old(free), |data| + 2) else 0;
                && AddOutcome(old(records), old(free), old(head), data, d, r)
                && (r != 0 ==> r == -2 && tail == old(tail))
      // where the record lies, and that no other cell changes; for a suffix on the wrap point
      // that is the slack cell
      ensures r == 0 ==> tail < size && (1 <= |data| <= size - 2 ==> WrittenAt(tail, data, old(buf[..])))
      ensures r == 0 ==> old(tail) < size && tail == if items == 1 then old(tail) else NextOffset(old(buf[..]), size, old(tail))
      ensures r != 0 ==> unchanged(buf)
      // an add to an empty buffer leaves `head` and `tail` parted if they were
      ensures old(Emptied() && !Valid()) && 1 <= |data| <= size - 2 ==>
                && r == 0 && OneApart(data) && head == old(head) && tail == old(tail) && !Valid()
    {
      var itemLen := |data| + 2;
      if |data| < 1 {
        return -1;
      }
      if tail >= size || free > size {
        return -2;
      }
      ghost var was, wasFree, wasHead, well := records, free, head, Valid();
      ghost var d := if overwrite then Discards(records, free, itemLen) else 0;
      MakeRoomIf(itemLen, overwrite);
      if free < itemLen {
        if well {
          NothingAdded(was, wasFree, wasHead, data, d);
        }
        return -2;
      }
      Put(data);
      assert well ==> AddOutcome(was, wasFree, wasHead, data, d, 0);
      return 0;
    }

    /** Walking: a step forward from record i reaches record i + 1, and a step back returns
        exactly under StepsBack (WalkBack). */
    lemma Walk(i: nat, o: nat)
      requires Valid() && i < items && Starts(i, o)
      ensures o < size && |records[i]| + 2 <= size && RecordAt(false, buf[..], size, o, records[i])
      ensures (o == tail <==> i == items - 1) && (o == head <==> i == 0)
      ensures Starts(i + 1, NextOffset(buf[..], size, o))
    {
      ChainRecord(false, buf[..], size, head, records, i);
      NextInChain(false, buf[..], size, head, records, i);
      if i < items - 1 {
        PositionsDiffer(size, head, records, i, items - 1);
      }
      if i > 0 {
        PositionsDiffer(size, head, records, 0, i);
      }
    }

    lemma WalkBack(i: nat, o: nat, p: nat)
      requires Valid() && i + 1 < items && Starts(i, p) && Starts(i + 1, o)
      ensures PreviousOffset(buf[..], size, o) == p <==> StepsBack(buf[..], size, p, records[i])
    {
      PreviousInChain(buf[..], size, head, records, i);
    }

    /** u8_ringbuffer_peek into a caller's array of `room` bytes. */
    method Peek(offset: nat, room: nat) returns (len: int, data: seq<byte>, next: int, prev: int)
      requires Allocated()
      ensures len == if offset >= size then -2 else if items < 1 then -3
                     else if buf[offset] > room then -4 else buf[offset]
      ensures len < 0 ==> data == [] && next == -1 && prev == -1
      ensures len >= 0 ==>
                && |data| == len
                && (len + 2 <= size ==> forall k :: 0 <= k < len ==> data[k] == buf[At(size, offset, k + 1)])
                && next == (if offset == tail then -1 else NextOffset(buf[..], size, offset))
                && prev == (if offset == head then -1 else PreviousOffset(buf[..], size, offset))
    {
      data, next, prev := [], -1, -1;
      if offset >= size {
        return -2, data, next, prev;
      }
      if items < 1 {
        return -3, data, next, prev;
      }
      len := buf[offset];
      if len > room {
        return -4, data, next, prev;
      }
      var src := offset + 1;
      var i := 0;
      while i < len
        invariant 0 <= i <= len && |data| == i && src <= size
        invariant len + 2 <= size ==> src == if offset + 1 + i <= size then offset + 1 + i else offset + 1 + i - size
        invariant len + 2 <= size ==> forall k :: 0 <= k < i ==> data[k] == buf[At(size, offset, k + 1)]
      {
        if src >= size {
          src := 0;
        }
        data := data + [buf[src]];
        src := src + 1;
        i := i + 1;
      }
      if offset != tail {
        next := NextOffset(buf[..], size, offset);
      }
      if offset != head {
        prev := PreviousOffset(buf[..], size, offset);
      }
    }

    /** So a walk of a parted ring does not end at `head`, whatever it finds there, unless that
        is an empty record or one too long for the caller. */
    method PeekApart(ghost data: Record, room: nat) returns (len: int, stale: seq<byte>, next: int)
      requires OneApart(data)
      ensures len == if buf[head] > room then -4 else buf[head]
      ensures len >= 0 ==> next >= 0 && (next == tail <==> Around(size, len + 2) == Dist(size, head, tail))
      ensures len >= 0 ==> |stale| == len
      ensures len >= 0 && len + 2 <= size ==> forall k :: 0 <= k < len ==> stale[k] == buf[At(size, head, k + 1)]
    {
      var prev;
      len, stale, next, prev := Peek(head, room);
      StaleStart(data);
    }

    /** u8_ringbuffer_remove_first. */
    method RemoveFirst(room: nat) returns (len: int, data: seq<byte>)
      requires Allocated()
      modifies this`head, this`free, this`items, this`records
      ensures len == if old(head) >= size then -2 else if old(items) < 1 then -3
                     else if buf[old(head)] > room then -4 else buf[old(head)]
      ensures len < 0 ==> data == []
      ensures len <= 0 ==> unchanged(this)
      ensures len > 0 ==> |data| == len && items == old(items) - 1
      ensures old(Valid() && items > 0 && |records[0]| > room) ==> len == -4
      // the oldest record is returned and goes
      ensures old(Valid() && items > 0 && |records[0]| <= room) ==>
                && data == old(records[0]) && len == |data| && records == old(records[1..])
                && head == At(size, old(head), |data| + 2)
                && (Valid() <==> old(FirstWell()))
    {
      var next, prev;
      len, data, next, prev := Peek(head, room);
      if Valid() && items > 0 {
        Walk(0, head);
        assert len >= 0 ==> data == records[0];
      }
      if len > 0 {
        var _ := RemoveFirstItem();
      }
    }

    /** u8_ringbuffer_remove_last. */
    method RemoveLast(room: nat) returns (len: int, data: seq<byte>)
      requires Allocated()
      modifies this`tail, this`free, this`items, this`records
      ensures len == if old(tail) >= size then -2 else if old(items) < 1 then -3
                     else if buf[old(tail)] > room then -4 else buf[old(tail)]
      ensures len < 0 ==> data == []
      ensures len <= 0 ==> unchanged(this)
      ensures len > 0 ==> |data| == len && items == old(items) - 1
      ensures old(Valid() && items > 0 && |Last(records)| > room) ==> len == -4
      // the newest record is returned and goes
      ensures old(Valid() && items > 0 && |Last(records)| <= room) ==>
                && data == Last(old(records)) && len == |data| && records == Init(old(records))
                && (Valid() <==> old(LastWell()))
    {
      var next, prev;
      len, data, next, prev := Peek(tail, room);
      if Valid() && items > 0 {
        Walk(items - 1, tail);
        assert len >= 0 ==> data == Last(records);
      }
      if len > 0 {
        var _ := RemoveLastItem();
      }
    }
  }

  // ---- runs that show what goes wrong ----

  /** A new ring and its first record. */
  method FirstRecord(b: array<byte>, size: nat, data: Record) returns (rb: U8RingBuffer)
    requires b.Length == size + 1 && size + 258 < SIZE_T_RANGE && |data| + 2 <= size
    modifies b
    ensures fresh(rb) && rb.buf == b && rb.size == size && rb.Valid() && rb.records == [data]
    ensures rb.head == rb.tail == 0 && rb.free == size - |data| - 2
    ensures b[0] == |data| && forall x :: |data| + 2 <= x < size ==> b[x] == old(b[x])
  {
    TotalOfOne(data);
    rb := new U8RingBuffer(b, size);
    var r := rb.Add(data, true);
    assert rb.records == [data];
    forall x | |data| + 2 <= x < size
      ensures b[x] == old(b[x])
    {
      assert Dist(size, 0, x) == x;
    }
  }

  /** An emptied buffer at work: adding, removing and adding again leaves `head` away from
      the one record there is. In zeroed memory a walk from `head` finds an empty record and
      ends there. */
  method AddAfterEmptying(b: array<byte>) returns (rb: U8RingBuffer, len: int)
    requires b.Length == 601 && forall x :: 0 <= x < b.Length ==> b[x] == 0
    modifies b
    ensures rb.buf == b && rb.records == [[7]] && !rb.Valid()
    ensures len == 0
  {
    rb := FirstRecord(b, 600, [5]);
    var r := rb.RemoveFirstItem();
    assert rb.Emptied() && rb.head == 3;
    r := rb.Add([7], true);
    var data, next, prev;
    len, data, next, prev := rb.Peek(rb.head, 255);
  }

  /** In memory with older records in it, the walk starts with a record that was removed, and
      here comes to the one there is after it. */
  method StaleThenFound(b: array<byte>) returns (rb: U8RingBuffer, first: seq<byte>, second: seq<byte>)
    requires b.Length == 7
    modifies b
    ensures rb.buf == b && rb.OneApart([7]) && !rb.Valid()
    ensures first == [1] && second == [7]
  {
    rb := TwoRemoved(b);
    var r := rb.Add([7], true);
    assert b[0] == 1 && b[1] == 1 by {
      assert Dist(6, 3, 0) == 3 && Dist(6, 3, 1) == 4;
    }
    var len, next, prev;
    len, first, next := rb.PeekApart([7], 255);
    assert Around(6, 3) == 3 == Dist(6, 0, 3);
    len, second, next, prev := rb.Peek(next, 255);
  }

  lemma FirstByte(m: seq<byte>, size: nat, off: nat, r: Record)
    requires off < size <= |m| && |r| + 2 <= size && RecordAt(false, m, size, off, r)
    ensures m[At(size, off, 1)] == r[0]
  {
    var k := 0;
    assert m[At(size, off, k + 1)] == r[k];
  }

  method TwoRemoved(b: array<byte>) returns (rb: U8RingBuffer)
    requires b.Length == 7
    modifies b
    ensures fresh(rb) && rb.buf == b && rb.size == 6 && b[0] == 1 && b[1] == 1
    ensures rb.Emptied() && !rb.Valid() && rb.head == 0 && rb.tail == 3
  {
    rb := FirstRecord(b, 6, [1]);
    FirstByte(b[..], 6, 0, [1]);
    TotalOfOne([1]);
    var r := rb.Add([2], true);
    assert b[0] == 1 && b[1] == 1 by {
      assert Dist(6, 3, 0) == 3 && Dist(6, 3, 1) == 4;
    }
    assert rb.records == [[1], [2]] && rb.tail == 3;
    r := rb.RemoveFirstItem();
    assert rb.records == [[2]] && rb.head == 3;
    r := rb.RemoveFirstItem();
  }

  /** Parted, `head` and `tail` can come together again by chance: removing that one record
      steps back over a cell that no record wrote. */
  method TogetherByChance(b: array<byte>) returns (rb: U8RingBuffer)
    requires b.Length == 6 && forall x :: 0 <= x < b.Length ==> b[x] == 0
    modifies b
    ensures rb.buf == b && rb.records == [] && rb.Valid() && rb.head == rb.tail == 3
  {
    rb := PartedFive(b);
    var r := rb.Add([9], true);
    assert b[4] == 0 by {
      assert Dist(5, 0, 4) == 4;
    }
    PreviousIsBack(b[..], 5, 0);
    r := rb.RemoveLastItem();
  }

  /** An overwriting add that never finds room discards everything and parts them. */
  method PartedFive(b: array<byte>) returns (rb: U8RingBuffer)
    requires b.Length == 6 && forall x :: 0 <= x < b.Length ==> b[x] == 0
    modifies b
    ensures fresh(rb) && rb.buf == b && rb.size == 5 && b[4] == 0
    ensures rb.Emptied() && !rb.Valid() && rb.head == 3 && rb.tail == 0
  {
    rb := FirstRecord(b, 5, [9]);
    TotalOfOne([9]);
    var r := rb.Add([1, 2, 3, 4], true);
  }

  lemma TotalOfOne(a: Record)
    ensures Total([a]) == |a| + 2 && [a][1..] == [] && [a][..1] == [a]
  {
  }

  lemma TotalOfTwo(a: Record, b: Record)
    ensures Total([a, b]) == |a| + |b| + 4 && [a, b][1..] == [b] && [a, b][..1] == [a]
  {
    TotalSnoc([a], b);
    TotalOfOne(a);
    assert [a] + [b] == [a, b];
  }

  /** The wrap point at work: the suffix of [7] goes to the slack cell, and the step back from
      the newest record goes by what an older one left in cell 0: to 6 instead of 7. */
  method WalkBackMisses(b: array<byte>) returns (rb: U8RingBuffer, prev: int)
    requires b.Length == 10
    modifies b
    ensures rb.buf == b && rb.Valid() && rb.records == [[9], [7], [8]]
    ensures rb.Starts(1, 7) && rb.Starts(2, rb.tail) && prev == 6
  {
    rb := AroundTheEnd(b);
    var r := rb.Add([8], true);
    assert b[0] == 2 by {
      assert Dist(9, 1, 0) == 8;
    }
    var len, data, next;
    len, data, next, prev := rb.Peek(rb.tail, 255);
    PreviousIsBack(b[..], 9, 1);
    TotalOfOne([9]);
    TotalOfTwo([9], [7]);
    assert rb.records[..1] == [[9]] && rb.records[..2] == [[9], [7]];
  }

  /** Three adds to nine cells, the third of which discards the first. */
  method AroundTheEnd(b: array<byte>) returns (rb: U8RingBuffer)
    requires b.Length == 10
    modifies b
    ensures fresh(rb) && rb.buf == b && rb.size == 9 && rb.Valid() && rb.records == [[9], [7]]
    ensures rb.head == 4 && rb.tail == 7 && rb.free == 3 && b[0] == 2
  {
    rb := UpToTheEnd(b);
    OneOfTwoGoes([9, 9], [9], rb.free);
    TotalOfTwo([9], [7]);
    assert At(9, 0, 4) == 4 && At(9, 4, 3) == 7;
    var r := rb.Add([7], true);
    assert rb.records == [[9]] + [[7]] && rb.head == 4 && rb.tail == 7;
    assert b[0] == 2 by {
      assert Dist(9, 7, 0) == 2;
    }
  }

  lemma OneOfTwoGoes(a: Record, b: Record, free: nat)
    requires free < 3
    ensures var recs := [a, b];
            && Discards(recs, free, 3) == 1
            && recs[1..] == [b] && Total(recs[1..]) == |b| + 2 && Total(recs[..1]) == |a| + 2
  {
    TotalOfOne(a);
    TotalOfOne(b);
    TotalOfTwo(a, b);
  }

  /** The first two of them. */
  method UpToTheEnd(b: array<byte>) returns (rb: U8RingBuffer)
    requires b.Length == 10
    modifies b
    ensures fresh(rb) && rb.buf == b && rb.size == 9 && rb.Valid() && rb.records == [[9, 9], [9]]
    ensures rb.head == 0 && rb.tail == 4 && rb.free == 2 && b[0] == 2
  {
    rb := FirstRecord(b, 9, [9, 9]);
    TotalOfOne([9, 9]);
    TotalOfTwo([9, 9], [9]);
    var r := rb.Add([9], true);
    assert b[0] == 2 by {
      assert Dist(9, 4, 0) == 5;
    }
  }

  /** The log is not spared the wrap point: a third message whose suffix is written past the
      ring, and which a step back misses. */
  method LogPastTheEnd(b: array<byte>, m0: Record, m1: Record, m2: Record) returns (rb: U8RingBuffer)
    requires b.Length == 515 && |m0| == 255 && |m1| == 253 && |m2| == 1
    modifies b
    ensures rb.buf == b && rb.size == 514 && rb.Valid() && rb.records == [m1, m2] && rb.tail == 512
    ensures SuffixOnWrap(514, 512, |m2|) && b[514] == 1 && !StepsBack(b[..], 514, 512, m2)
  {
    rb := TwoMessages(b, m0, m1);
    LastOfTwoStays(m0, m1);
    NextIsAfter(b[..], 514, 257);
    var r := rb.Add(m2, true);
    assert b[0] == 255 by {
      assert Dist(514, 512, 0) == 2;
    }
  }

  method TwoMessages(b: array<byte>, m0: Record, m1: Record) returns (rb: U8RingBuffer)
    requires b.Length == 515 && |m0| == 255 && |m1| == 253
    modifies b
    ensures fresh(rb) && rb.buf == b && rb.size == 514 && rb.Valid() && rb.records == [m0, m1]
    ensures rb.head == 0 && rb.tail == 257 && rb.free == 2 && b[0] == 255 && b[257] == 253
  {
    rb := FirstRecord(b, 514, m0);
    TotalOfOne(m0);
    TotalOfTwo(m0, m1);
    var r := rb.Add(m1, true);
    assert b[0] == 255 by {
      assert Dist(514, 257, 0) == 257;
    }
  }

  lemma LastOfTwoStays(a: Record, b: Record)
    requires |a| == 255 && |b| == 253
    ensures Discards([a, b], 2, 3) == 1 && [a, b][1..] == [b] && Total([a, b][..1]) == 257
  {
    TotalOfOne(a);
    TotalOfTwo(a, b);
  }

  const MEM_LOG_BUF_SIZE := 256

  /** The walk of cmd_mem_log: what it prints, record by record, is what the ring stores. */
  method DumpLog(rb: U8RingBuffer) returns (out: seq<seq<byte>>)
    requires rb.Valid()
    ensures out == rb.records
  {
    out := [];
    var o: int := rb.head;
    var more := true;
    while more
      invariant |out| <= rb.items && out == rb.records[..|out|]
      invariant more ==> 0 <= o && (rb.items == 0 || (|out| < rb.items && rb.Starts(|out|, o)))
      invariant !more ==> |out| == rb.items
      decreases more, rb.items - |out|
    {
      var len, data, next, prev := rb.Peek(o, MEM_LOG_BUF_SIZE);
      if rb.items > 0 {
        rb.Walk(|out|, o);
        assert data == rb.records[|out|];
      }
      if len > 0 {
        out := out + [data];
      }
      o := next;
      more := len > 0 && o >= 0;
    }
  }

  /** What log_msg does with the ring: it adds its message, overwriting. In a buffer of 514
      bytes or more this never empties it, so all stays well. */
  method LogMsg(rb: U8RingBuffer, ghost history: seq<Record>, msg: Record)
    requires rb.Valid() && 514 <= rb.size && LongestFit(rb.records, history, rb.size)
    modifies rb, rb.buf
    ensures rb.Valid() && LongestFit(rb.records, history + [msg], rb.size)
    ensures rb.records != [] && Last(rb.records) == msg
    // it lies right after the message before it; past the ring goes just a suffix on the wrap point
    ensures old(rb.tail) < rb.size && rb.tail < rb.size
    ensures rb.tail == if old(rb.records) == [] then old(rb.tail)
                       else At(rb.size, old(rb.tail), |Last(old(rb.records))| + 2)
    ensures rb.buf[rb.size] == if SuffixOnWrap(rb.size, rb.tail, |msg|) then |msg| else old(rb.buf[rb.size])
  {
    AddKeepsLongestFit(rb.records, rb.free, history, rb.size, msg);
    if rb.records != [] {
      ChainInit(false, rb.buf[..], rb.size, rb.head, rb.records);
      NextIsAfter(rb.buf[..], rb.size, rb.tail);
    }
    var _ := rb.Add(msg, true);
  }

  lemma AddKeepsLongestFit(was: seq<Record>, free: nat, history: seq<Record>, size: nat, msg: Record)
    requires free + Total(was) == size && 514 <= size && LongestFit(was, history, size)
    ensures var d := Discards(was, free, |msg| + 2);
            && (d < |was| || was == []) && free + Total(was[..d]) >= |msg| + 2
            && LongestFit(was[d..] + [msg], history + [msg], size)
  {
    if was != [] {
      DiscardsSpareNewest(was, size, |msg| + 2);
    }
    RoomAfterDiscards(was, free, |msg| + 2);
    TotalSplit(was, Discards(was, free, |msg| + 2));
    LongestFitAfterAdd(was, history, size, msg);
  }

  /** Any run of log_msg calls on a ring that holds what is left of `history`: what is left
      now is the longest run of newest messages, of all ever added, that fits. */
  method LogAll(rb: U8RingBuffer, ghost history: seq<Record>, msgs: seq<Record>)
    requires rb.Valid() && 514 <= rb.size && LongestFit(rb.records, history, rb.size)
    modifies rb, rb.buf
    ensures rb.Valid() && LongestFit(rb.records, history + msgs, rb.size)
    ensures msgs != [] ==> rb.records != [] && Last(rb.records) == Last(msgs)
  {
    ghost var past := history;
    for i := 0 to |msgs|
      invariant rb.Valid() && LongestFit(rb.records, past, rb.size) && past == history + msgs[..i]
      invariant i > 0 ==> rb.records != [] && Last(rb.records) == msgs[i - 1]
    {
      LogMsg(rb, past, msgs[i]);
      past := past + [msgs[i]];
    }
    assert past == history + msgs;
  }
}
