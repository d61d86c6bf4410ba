/** How the records of src/ringbuffer.c lie in its circular byte array.

    A record of n bytes takes n + 2 cells: a length prefix, the n bytes, a length suffix.
    Cells are counted modulo `size`; the array has one more cell, the slack cell at index
    `size`, which takes the one write of u8_ringbuffer_add that does not wrap. */
module RingLayout {
  import opened Bytes
  import Division

  /** A stored message: `len` is a uint8_t and zero is rejected. */
  type Record = r: seq<byte> | 1 <= |r| <= 255 witness [0]

  /** The cells a run of records takes. */
  function Total(recs: seq<Record>): nat {
    if recs == [] then 0 else |recs[0]| + 2 + Total(recs[1..])
  }

  /** The cell k places after `off`, going round at `size`. */
  function At(size: nat, off: nat, k: nat): (c: nat)
    requires off < size && k <= size
    ensures c < size
  {
    if off + k < size then off + k else off + k - size
  }

  /** Where n cells from cell 0 end, going round as often as it takes: n modulo size. */
  function Around(size: nat, n: nat): (c: nat)
    requires size > 0
    ensures c < size
  {
    if n < size then n else Around(size, n - size)
  }

  lemma {:induction false} AroundThenAt(size: nat, n: nat, k: nat)
    requires size > 0 && k <= size
    ensures At(size, Around(size, n), k) == Around(size, n + k)
    decreases n
  {
    if n >= size {
      AroundThenAt(size, n - size, k);
    }
  }

  lemma {:induction false} AroundAround(size: nat, n: nat, k: nat)
    requires size > 0
    ensures Around(size, Around(size, n) + k) == Around(size, n + k)
    decreases n
  {
    if n >= size {
      AroundAround(size, n - size, k);
    }
  }

  /** How far after `off` cell `x` comes; the inverse of At. */
  function Dist(size: nat, off: nat, x: nat): (k: nat)
    requires off < size && x < size
    ensures k < size && At(size, off, k) == x
  {
    if x >= off then x - off else x + size - off
  }

  lemma AtTwice(size: nat, off: nat, j: nat, k: nat)
    requires off < size && j + k <= size
    ensures At(size, At(size, off, j), k) == At(size, off, j + k)
  {
  }

  /** True when the suffix of an n-byte record at `off` falls on the wrap point. */
  predicate SuffixOnWrap(size: nat, off: nat, n: nat) {
    off + n + 1 == size
  }

  /** Record r lies at `off`. With `wrapped` its suffix is where a wrapping write puts it;
      without, nothing is said of a suffix that falls on the wrap point. */
  ghost predicate RecordAt(wrapped: bool, m: seq<byte>, size: nat, off: nat, r: Record)
    requires off < size <= |m| && |r| + 2 <= size
  {
    && m[off] == |r|
    && (forall k :: 0 <= k < |r| ==> m[At(size, off, k + 1)] == r[k])
    && (wrapped || !SuffixOnWrap(size, off, |r|) ==> m[At(size, off, |r| + 1)] == |r|)
  }

  /** Records `recs` lie one after the other from `off`. */
  ghost predicate Chain(wrapped: bool, m: seq<byte>, size: nat, off: nat, recs: seq<Record>)
    requires off < size <= |m| && Total(recs) <= size
    decreases |recs|
  {
    recs == [] ||
    (&& RecordAt(wrapped, m, size, off, recs[0])
     && Chain(wrapped, m, size, At(size, off, |recs[0]| + 2), recs[1..]))
  }

  /** Where record i of a chain from `head` starts. */
  function Position(size: nat, head: nat, recs: seq<Record>, i: nat): nat
    requires head < size && i <= |recs| && Total(recs[..i]) <= size
  {
    At(size, head, Total(recs[..i]))
  }

  lemma {:induction false} TotalAppend(a: seq<Record>, b: seq<Record>)
    ensures Total(a + b) == Total(a) + Total(b)
  {
    if a == [] {
      assert a + b == b;
    } else {
      assert (a + b)[1..] == a[1..] + b;
      TotalAppend(a[1..], b);
    }
  }

  lemma TotalSplit(recs: seq<Record>, i: nat)
    requires i <= |recs|
    ensures Total(recs) == Total(recs[..i]) + Total(recs[i..])
  {
    assert recs == recs[..i] + recs[i..];
    TotalAppend(recs[..i], recs[i..]);
  }

  lemma TotalSnoc(recs: seq<Record>, r: Record)
    ensures Total(recs + [r]) == Total(recs) + |r| + 2
  {
    TotalAppend(recs, [r]);
    assert [r][1..] == [];
  }

  /** A chain of a + b is a chain of a followed, where a ends, by a chain of b. */
  lemma {:induction false} ChainAppend(wrapped: bool, m: seq<byte>, size: nat, off: nat, a: seq<Record>, b: seq<Record>)
    requires off < size <= |m| && Total(a + b) <= size && Total(a) <= size && Total(b) <= size
    ensures Chain(wrapped, m, size, off, a + b) <==>
            Chain(wrapped, m, size, off, a) && Chain(wrapped, m, size, At(size, off, Total(a)), b)
    decreases |a|
  {
    TotalAppend(a, b);
    if a == [] {
      assert a + b == b;
    } else {
      var next := At(size, off, |a[0]| + 2);
      assert (a + b)[0] == a[0] && (a + b)[1..] == a[1..] + b;
      ChainFirst(wrapped, m, size, off, a + b);
      ChainFirst(wrapped, m, size, off, a);
      ChainAppend(wrapped, m, size, next, a[1..], b);
      AtTwice(size, off, |a[0]| + 2, Total(a[1..]));
    }
  }

  lemma ChainFirst(wrapped: bool, m: seq<byte>, size: nat, off: nat, recs: seq<Record>)
    requires off < size <= |m| && Total(recs) <= size && recs != []
    ensures |recs[0]| + 2 <= size && Total(recs) == |recs[0]| + 2 + Total(recs[1..])
    ensures Chain(wrapped, m, size, off, recs) <==>
            RecordAt(wrapped, m, size, off, recs[0]) && Chain(wrapped, m, size, At(size, off, |recs[0]| + 2), recs[1..])
  {
  }

  /** A chain only depends on its own cells. */
  lemma {:induction false} ChainFrame(wrapped: bool, m: seq<byte>, m': seq<byte>, size: nat, off: nat, recs: seq<Record>)
    requires off < size <= |m| && size <= |m'| && Total(recs) <= size
    requires forall x :: 0 <= x < size && Dist(size, off, x) < Total(recs) ==> m[x] == m'[x]
    requires Chain(wrapped, m, size, off, recs)
    ensures Chain(wrapped, m', size, off, recs)
    decreases |recs|
  {
    if recs != [] {
      var n := |recs[0]| + 2;
      forall k | 0 <= k < n ensures m[At(size, off, k)] == m'[At(size, off, k)] {
        assert Dist(size, off, At(size, off, k)) == k;
      }
      ChainFrame(wrapped, m, m', size, At(size, off, n), recs[1..]);
    }
  }

  /** Record i of a chain lies at its position. */
  lemma ChainRecord(wrapped: bool, m: seq<byte>, size: nat, head: nat, recs: seq<Record>, i: nat)
    requires head < size <= |m| && Total(recs) <= size && i < |recs|
    requires Chain(wrapped, m, size, head, recs)
    ensures Total(recs[..i]) + |recs[i]| + 2 <= Total(recs) && Total(recs[..i + 1]) == Total(recs[..i]) + |recs[i]| + 2
    ensures RecordAt(wrapped, m, size, Position(size, head, recs, i), recs[i])
  {
    TotalSplit(recs, i);
    TotalSplit(recs, i + 1);
    assert recs[..i + 1] == recs[..i] + [recs[i]];
    TotalSnoc(recs[..i], recs[i]);
    assert recs == recs[..i] + recs[i..];
    ChainAppend(wrapped, m, size, head, recs[..i], recs[i..]);
  }

  /** Records never start at the same cell. */
  lemma PositionsDiffer(size: nat, head: nat, recs: seq<Record>, i: nat, j: nat)
    requires head < size && Total(recs) <= size && i < j < |recs|
    ensures Total(recs[..i]) < Total(recs[..j]) < size
    ensures Position(size, head, recs, i) != Position(size, head, recs, j)
  {
    TotalSplit(recs, j);
    assert recs[..j][..i] == recs[..i];
    TotalSplit(recs[..j], i);
  }

  lemma SmallMod(x: nat, size: nat)
    requires 0 < size && x < 2 * size
    ensures x % size == if x < size then x else x - size
  {
    if x >= size {
      assert x == size * 1 + (x - size);
    }
  }

  const SIZE_T_RANGE := 0x1_0000_0000

  /** u8_next_item_offset. */
  function NextOffset(m: seq<byte>, size: nat, offset: nat): (o: nat)
    requires offset < size <= |m|
    ensures o < size
  {
    var o := offset % size + 1 + m[offset] + 1;
    if o >= size then o % size else o
  }

  /** u8_previous_item_offset: `prev` is a uint8_t, and the subtraction is on 32-bit size_t. */
  function PreviousOffset(m: seq<byte>, size: nat, offset: nat): (o: nat)
    requires offset < size <= |m|
  {
    var o := if offset % size < 1 then size - (1 - offset % size) else offset % size - 1;
    BackBy(size, o, (m[o] as int + 1) % 256)
  }

  function BackBy(size: nat, o: nat, prev: nat): nat
    requires o < size && prev < SIZE_T_RANGE
  {
    if o >= prev then o - prev
    else if prev - o <= size then size - (prev - o)
    else SIZE_T_RANGE + size - (prev - o)
  }

  /** Whatever length a cell holds, a step forward goes round from it. */
  lemma NextIsAround(m: seq<byte>, size: nat, offset: nat)
    requires offset < size <= |m|
    ensures NextOffset(m, size, offset) == Around(size, offset + m[offset] as int + 2)
  {
    SmallMod(offset, size);
    AroundIsMod(offset + m[offset] as int + 2, size);
    StepIsAround(m, size, offset, Around(size, offset + m[offset] as int + 2));
  }

  lemma StepIsAround(m: seq<byte>, size: nat, offset: nat, a: nat)
    requires offset < size <= |m| && offset % size == offset
    requires var n := offset + m[offset] as int + 2; a == n % size && (n < size ==> a == n)
    ensures NextOffset(m, size, offset) == a
  {
  }

  lemma {:induction false} AroundIsMod(n: nat, size: nat)
    requires size > 0
    ensures Around(size, n) == n % size
  {
    if n < size {
      SmallMod(n, size);
    } else {
      AroundIsMod(n - size, size);
      ModLess(n, size);
    }
  }

  lemma ModLess(n: nat, size: nat)
    requires 0 < size <= n
    ensures (n - size) % size == n % size
  {
    var q, r := (n - size) / size, (n - size) % size;
    assert n - size == size * q + r;
    assert n == size * (q + 1) + r;
    Division.RemainderUnique(n, size, q + 1, r);
  }

  /** The cell n on from `head` is `tail` exactly if n is their distance, up to full rounds. */
  lemma FarEnough(size: nat, head: nat, tail: nat, n: nat)
    requires head < size && tail < size
    ensures Around(size, head + n) == tail <==> Around(size, n) == Dist(size, head, tail)
  {
    AroundAround(size, n, head);
  }

  /** A step forward leads to the cell after the record. */
  lemma NextIsAfter(m: seq<byte>, size: nat, offset: nat)
    requires offset < size <= |m| && m[offset] as int + 2 <= size
    ensures NextOffset(m, size, offset) == At(size, offset, m[offset] as int + 2)
  {
    SmallMod(offset, size);
    SmallMod(offset + m[offset] + 2, size);
  }

  /** When a step back from the end of r lands on its start: the one-byte `prev` must not
      overflow, and a suffix on the wrap point (which goes to the slack cell)
      must happen to be repeated in cell 0. */
  predicate StepsBack(m: seq<byte>, size: nat, off: nat, r: Record)
    requires 0 < size <= |m|
  {
    |r| <= 254 && (SuffixOnWrap(size, off, |r|) ==> m[0] == |r|)
  }

  lemma PreviousIsBack(m: seq<byte>, size: nat, offset: nat)
    requires offset < size <= |m|
    ensures var o := At(size, offset, size - 1);
            && PreviousOffset(m, size, offset) == BackBy(size, o, if m[o] == 255 then 0 else m[o] as int + 1)
  {
    SmallMod(offset, size);
  }

  lemma StepBackExact(m: seq<byte>, size: nat, off: nat, r: Record)
    requires off < size <= |m| && |r| + 2 <= size < SIZE_T_RANGE
    requires RecordAt(false, m, size, off, r)
    ensures PreviousOffset(m, size, NextOffset(m, size, off)) == off <==> StepsBack(m, size, off, r)
  {
    NextIsAfter(m, size, off);
    var next := At(size, off, |r| + 2);
    PreviousIsBack(m, size, next);
    assert At(size, next, size - 1) == At(size, off, |r| + 1);
  }

  /** Walking: from the start of record i a step forward reaches record i + 1. */
  lemma NextInChain(wrapped: bool, m: seq<byte>, size: nat, head: nat, recs: seq<Record>, i: nat)
    requires head < size <= |m| && Total(recs) <= size && i < |recs|
    requires Chain(wrapped, m, size, head, recs)
    ensures Total(recs[..i]) <= size && Total(recs[..i + 1]) <= size
    ensures m[Position(size, head, recs, i)] == |recs[i]|
    ensures NextOffset(m, size, Position(size, head, recs, i)) == Position(size, head, recs, i + 1)
  {
    ChainRecord(wrapped, m, size, head, recs, i);
    NextIsAfter(m, size, Position(size, head, recs, i));
  }

  /** ... and a step back from record i + 1 returns to record i exactly under StepsBack. */
  lemma PreviousInChain(m: seq<byte>, size: nat, head: nat, recs: seq<Record>, i: nat)
    requires head < size <= |m| && size < SIZE_T_RANGE && Total(recs) <= size && i + 1 < |recs|
    requires Chain(false, m, size, head, recs)
    ensures Total(recs[..i]) <= size && Total(recs[..i + 1]) <= size
    ensures PreviousOffset(m, size, Position(size, head, recs, i + 1)) == Position(size, head, recs, i) <==>
            StepsBack(m, size, Position(size, head, recs, i), recs[i])
  {
    NextInChain(false, m, size, head, recs, i);
    ChainRecord(false, m, size, head, recs, i);
    StepBackExact(m, size, Position(size, head, recs, i), recs[i]);
  }

  /** With wrapped suffixes the step back is right over every record of at most 254 bytes, and
      over no other. */
  lemma PreviousInWrappedChain(m: seq<byte>, size: nat, head: nat, recs: seq<Record>, i: nat)
    requires head < size <= |m| && size < SIZE_T_RANGE && Total(recs) <= size && i + 1 < |recs|
    requires Chain(true, m, size, head, recs)
    ensures Total(recs[..i]) <= size && Total(recs[..i + 1]) <= size
    ensures PreviousOffset(m, size, Position(size, head, recs, i + 1)) == Position(size, head, recs, i) <==> |recs[i]| <= 254
  {
    ChainRecord(true, m, size, head, recs, i);
    NextInChain(true, m, size, head, recs, i);
    var off := Position(size, head, recs, i);
    StepBackExact(m, size, off, recs[i]);
    assert SuffixOnWrap(size, off, |recs[i]|) ==> At(size, off, |recs[i]| + 1) == 0;
  }

  /** When a step back from `off` leads to `off` itself. */
  predicate StepsInPlace(m: seq<byte>, size: nat, off: nat)
    requires off < size <= |m|
  {
    var before := m[At(size, off, size - 1)];
    before <= 254 && (before as int + 2 == size || (off == 0 && before as int + 2 == 2 * size))
  }

  lemma StepBackInPlace(m: seq<byte>, size: nat, off: nat)
    requires off < size <= |m| && 2 <= size < SIZE_T_RANGE
    ensures PreviousOffset(m, size, off) == off <==> StepsInPlace(m, size, off)
  {
    PreviousIsBack(m, size, off);
  }

  /** The whole layout: `recs` from `head`, with `tail` at the last of them. */
  ghost predicate Stored(wrapped: bool, m: seq<byte>, size: nat, head: nat, tail: nat, recs: seq<Record>)
    requires size <= |m| && Total(recs) <= size
  {
    if size == 0 then head == tail == 0
    else
      && head < size
      && Chain(wrapped, m, size, head, recs)
      && if recs == [] then tail == head
         else Total(Init(recs)) <= size && tail == At(size, head, Total(Init(recs)))
  }

  function Init<T>(s: seq<T>): seq<T>
    requires s != []
  {
    s[..|s| - 1]
  }

  function Last<T>(s: seq<T>): T
    requires s != []
  {
    s[|s| - 1]
  }

  /** The wrap point at work, in a memory that four adds make: the suffix of [7], which lies
      from cell 7 of 9, is in the slack cell, and the step back from [8] goes by cell 0. */
  lemma StepBackMissesTheSlack()
    ensures Total([[9], [7], [8]]) == 9 && Total([[9], [7], [8]][..1]) == 3
    ensures var m: seq<byte> := [2, 1, 8, 1, 1, 9, 1, 1, 7, 1];
            && Stored(false, m, 9, 4, 1, [[9], [7], [8]])
            && Position(9, 4, [[9], [7], [8]], 1) == 7 && PreviousOffset(m, 9, 1) == 6
  {
    var m: seq<byte> := [2, 1, 8, 1, 1, 9, 1, 1, 7, 1];
    var a: Record, b: Record, c: Record := [9], [7], [8];
    assert RecordAt(false, m, 9, 4, a) && RecordAt(false, m, 9, 7, b) && RecordAt(false, m, 9, 1, c);
    ThreeRecords(m, a, b, c);
    assert [a, b, c][..1] == [a];
    PreviousIsBack(m, 9, 1);
  }

  lemma ThreeRecords(m: seq<byte>, a: Record, b: Record, c: Record)
    requires |m| == 10 && |a| == |b| == |c| == 1
    requires RecordAt(false, m, 9, 4, a) && RecordAt(false, m, 9, 7, b) && RecordAt(false, m, 9, 1, c)
    ensures Total([a, b, c]) == 9 && Stored(false, m, 9, 4, 1, [a, b, c])
  {
    var recs := [a, b, c];
    assert recs[1..] == [b, c] && [b, c][1..] == [c] && [c][1..] == [];
    assert Total([c]) == 3 && Total([b, c]) == 6 && Total(recs) == 9;
    assert Chain(false, m, 9, 1, [c]);
    assert Chain(false, m, 9, 7, [b, c]);
    assert Init(recs) == [a, b] && [a, b][1..] == [b] && Total([b]) == 3 && Total([a, b]) == 6;
  }

  /** What a chain is without its last record. */
  lemma ChainInit(wrapped: bool, m: seq<byte>, size: nat, head: nat, recs: seq<Record>)
    requires head < size <= |m| && Total(recs) <= size && recs != []
    requires Chain(wrapped, m, size, head, recs)
    ensures Total(Init(recs)) + |Last(recs)| + 2 == Total(recs)
    ensures Chain(wrapped, m, size, head, Init(recs))
    ensures m[At(size, head, Total(Init(recs)))] == |Last(recs)|
  {
    var n := |recs| - 1;
    ChainRecord(wrapped, m, size, head, recs, n);
    assert recs[..n + 1] == recs;
    assert recs == recs[..n] + recs[n..];
    ChainAppend(wrapped, m, size, head, recs[..n], recs[n..]);
  }

  /** Dropping the oldest record by one step forward of `head`. */
  lemma DropFirst(wrapped: bool, m: seq<byte>, size: nat, head: nat, tail: nat, recs: seq<Record>)
    requires 0 < size <= |m| && Total(recs) <= size && recs != []
    requires Stored(wrapped, m, size, head, tail, recs)
    ensures m[head] == |recs[0]| && head < size
    ensures Stored(wrapped, m, size, NextOffset(m, size, head), tail, recs[1..]) <==>
            |recs| > 1 || |recs[0]| + 2 == size
  {
    NextIsAfter(m, size, head);
    if |recs| > 1 {
      assert Init(recs)[1..] == Init(recs[1..]);
      AtTwice(size, head, |recs[0]| + 2, Total(Init(recs[1..])));
    } else {
      assert Init(recs) == [];
    }
  }

  /** When removing the newest record leaves things well: the step back over the record before
      it has to be right or, with no record before it, has to lead nowhere. */
  ghost predicate LastGoesWell(m: seq<byte>, size: nat, head: nat, tail: nat, recs: seq<Record>)
    requires head < size <= |m| && recs != []
  {
    if |recs| > 1 then
      && Total(Init(Init(recs))) <= size
      && StepsBack(m, size, At(size, head, Total(Init(Init(recs)))), Last(Init(recs)))
    else
      tail < size && StepsInPlace(m, size, tail)
  }

  /** Dropping the newest record by one step back of `tail`. */
  lemma DropLast(m: seq<byte>, size: nat, head: nat, tail: nat, recs: seq<Record>)
    requires 0 < size <= |m| && size < SIZE_T_RANGE && Total(recs) <= size && recs != []
    requires Stored(false, m, size, head, tail, recs)
    ensures head < size && tail < size && m[tail] == |Last(recs)| && Total(Init(recs)) + |Last(recs)| + 2 == Total(recs)
    ensures Stored(false, m, size, head, PreviousOffset(m, size, tail), Init(recs)) <==>
            LastGoesWell(m, size, head, tail, recs)
  {
    ChainInit(false, m, size, head, recs);
    if |recs| > 1 {
      ChainInit(false, m, size, head, Init(recs));
      assert Init(Init(recs)) == recs[..|recs| - 2];
      PreviousInChain(m, size, head, recs, |recs| - 2);
    } else {
      StepBackInPlace(m, size, tail);
    }
  }

  /** Writing r after a chain, over free cells, extends the chain by r. */
  lemma AppendLast(wrapped: bool, m: seq<byte>, m': seq<byte>, size: nat, head: nat, recs: seq<Record>, r: Record)
    requires head < size <= |m| && size <= |m'| && Total(recs) + |r| + 2 <= size
    requires Chain(wrapped, m, size, head, recs)
    requires forall x :: 0 <= x < size && Dist(size, At(size, head, Total(recs)), x) >= |r| + 2 ==> m'[x] == m[x]
    requires RecordAt(wrapped, m', size, At(size, head, Total(recs)), r)
    ensures Total(recs + [r]) == Total(recs) + |r| + 2
    ensures Stored(wrapped, m', size, head, At(size, head, Total(recs)), recs + [r])
  {
    TotalSnoc(recs, r);
    ChainFrame(wrapped, m, m', size, head, recs);
    ChainAppend(wrapped, m', size, head, recs, [r]);
    assert Init(recs + [r]) == recs;
  }

  /** Where a new record goes: `tail` itself in an empty buffer, else one step on. */
  lemma NextTail(wrapped: bool, m: seq<byte>, size: nat, head: nat, tail: nat, recs: seq<Record>)
    requires 0 < size <= |m| && Total(recs) <= size
    requires Stored(wrapped, m, size, head, tail, recs)
    ensures tail < size && head < size
    ensures (if recs == [] then tail else NextOffset(m, size, tail)) == At(size, head, Total(recs))
    ensures Chain(wrapped, m, size, head, recs)
  {
    if recs != [] {
      ChainInit(wrapped, m, size, head, recs);
      NextIsAfter(m, size, tail);
    }
  }

  /** How many of the oldest records must go before `need` cells are free. */
  function Discards(recs: seq<Record>, free: nat, need: nat): (d: nat)
    ensures d <= |recs|
  {
    if free >= need || recs == [] then 0 else 1 + Discards(recs[1..], free + |recs[0]| + 2, need)
  }

  /** `left` and `free` are what an unfinished run of discards has made of `was` and `wasFree`. */
  ghost predicate Discarding(was: seq<Record>, wasFree: nat, left: seq<Record>, free: nat, need: nat) {
    && |left| <= |was|
    && left == was[|was| - |left|..]
    && free == wasFree + Total(was[..|was| - |left|])
    && Discards(was, wasFree, need) == |was| - |left| + Discards(left, free, need)
  }

  lemma DiscardOneMore(was: seq<Record>, wasFree: nat, left: seq<Record>, free: nat, need: nat)
    requires Discarding(was, wasFree, left, free, need) && left != [] && free < need
    ensures Discarding(was, wasFree, left[1..], free + |left[0]| + 2, need)
    ensures Last(left) == Last(was)
  {
    var k := |was| - |left|;
    assert was[..k + 1] == was[..k] + [left[0]];
    TotalSnoc(was[..k], left[0]);
  }

  /** Where discarding `total` cells' worth of records from `head` leads. */
  ghost predicate HeadAfter(size: nat, head: nat, total: nat, head': nat) {
    head < size && total <= size && head' == At(size, head, total)
  }

  lemma HeadOneMore(size: nat, head: nat, was: seq<Record>, n: nat, from: nat)
    requires n < |was| && Total(was) <= size && HeadAfter(size, head, Total(was[..n]), from)
    ensures |was[n]| + 2 <= size && HeadAfter(size, head, Total(was[..n + 1]), At(size, from, |was[n]| + 2))
  {
    OneRecordMore(was, n);
    AtTwice(size, head, Total(was[..n]), |was[n]| + 2);
  }

  lemma OneRecordMore(was: seq<Record>, n: nat)
    requires n < |was|
    ensures Total(was[..n + 1]) == Total(was[..n]) + |was[n]| + 2 <= Total(was)
  {
    assert was[..n + 1] == was[..n] + [was[n]];
    TotalSnoc(was[..n], was[n]);
    TotalSplit(was, n + 1);
  }

  /** The same, and where the run of discards has moved the head to. */
  ghost predicate DiscardingFrom(size: nat, was: seq<Record>, wasFree: nat, wasHead: nat,
                                 left: seq<Record>, free: nat, head: nat, need: nat)
  {
    && Discarding(was, wasFree, left, free, need)
    && if size > 0 then HeadAfter(size, wasHead, Total(was[..|was| - |left|]), head) else head == wasHead
  }

  lemma DiscardFromOneMore(size: nat, was: seq<Record>, wasFree: nat, wasHead: nat,
                           left: seq<Record>, free: nat, head: nat, need: nat)
    requires DiscardingFrom(size, was, wasFree, wasHead, left, free, head, need)
    requires left != [] && free < need && free + Total(left) == size
    ensures Last(left) == Last(was) && head < size && |left[0]| + 2 <= size
    ensures DiscardingFrom(size, was, wasFree, wasHead, left[1..], free + |left[0]| + 2, At(size, head, |left[0]| + 2), need)
  {
    var n := |was| - |left|;
    DiscardOneMore(was, wasFree, left, free, need);
    TotalSplit(was, n);
    assert left[0] == was[n];
    HeadOneMore(size, wasHead, was, n, head);
  }

  lemma DiscardingDone(was: seq<Record>, wasFree: nat, left: seq<Record>, free: nat, need: nat)
    requires Discarding(was, wasFree, left, free, need) && (free >= need || left == [])
    ensures var d := Discards(was, wasFree, need);
            && |left| == |was| - d && left == was[d..] && free == wasFree + Total(was[..d])
  {
  }

  /** Discards is the length of the shortest prefix that makes room, or of the whole run
      when no prefix does. */
  lemma {:induction false} DiscardsShortest(recs: seq<Record>, free: nat, need: nat)
    ensures var d := Discards(recs, free, need);
            && (d < |recs| ==> free + Total(recs[..d]) >= need)
            && (forall j :: 0 <= j < d ==> free + Total(recs[..j]) < need)
    decreases |recs|
  {
    if free < need && recs != [] {
      DiscardsShortest(recs[1..], free + |recs[0]| + 2, need);
      var d := Discards(recs, free, need);
      forall j | 0 < j <= d ensures Total(recs[..j]) == |recs[0]| + 2 + Total(recs[1..][..j - 1]) {
        assert recs[..j][1..] == recs[1..][..j - 1];
      }
    }
  }

  /** What is left after the discards leaves room, if an empty buffer does. */
  lemma RoomAfterDiscards(recs: seq<Record>, free: nat, need: nat)
    requires need <= free + Total(recs)
    ensures Total(recs[Discards(recs, free, need)..]) + need <= free + Total(recs)
  {
    var d := Discards(recs, free, need);
    DiscardsShortest(recs, free, need);
    TotalSplit(recs, d);
    assert d == |recs| ==> recs[..d] == recs && recs[d..] == [];
  }

  /** Without its last discard the prefix would not have made room. */
  lemma LastDiscard(recs: seq<Record>, free: nat, need: nat)
    requires Discards(recs, free, need) > 0
    ensures var d := Discards(recs, free, need);
            free + Total(recs) - Total(recs[d..]) - |recs[d - 1]| - 2 < need
  {
    var d := Discards(recs, free, need);
    DiscardsShortest(recs, free, need);
    var rest := recs[d - 1..];
    TotalSplit(recs, d - 1);
    assert rest[1..] == recs[d..];
  }

  /** In a buffer of 514 bytes or more, making room for any record spares the newest one. */
  lemma DiscardsSpareNewest(recs: seq<Record>, size: nat, need: nat)
    requires Total(recs) <= size && 514 <= size && need <= 257 && recs != []
    ensures Discards(recs, size - Total(recs), need) < |recs|
  {
    DiscardsShortest(recs, size - Total(recs), need);
    TotalSplit(recs, |recs| - 1);
    assert recs[|recs| - 1..] == [] + [recs[|recs| - 1]];
    TotalSnoc([], recs[|recs| - 1]);
  }

  /** `kept` is the longest run of newest messages of `history` that fits in `size` bytes:
      it fits, and with the newest of the messages that are gone it would not. */
  ghost predicate LongestFit(kept: seq<Record>, history: seq<Record>, size: nat) {
    exists gone :: FitsWithout(gone, kept, history, size)
  }

  ghost predicate FitsWithout(gone: seq<Record>, kept: seq<Record>, history: seq<Record>, size: nat) {
    history == gone + kept && Total(kept) <= size && NoMoreFits(gone, Total(kept), size)
  }

  ghost predicate NoMoreFits(gone: seq<Record>, total: nat, size: nat) {
    gone != [] ==> |gone[|gone| - 1]| + 2 + total > size
  }

  /** Discarding the shortest prefix and adding r keeps the longest fitting run. */
  lemma LongestFitAfterAdd(kept: seq<Record>, history: seq<Record>, size: nat, r: Record)
    requires Total(kept) <= size && LongestFit(kept, history, size) && |r| + 2 <= size
    ensures LongestFit(kept[Discards(kept, size - Total(kept), |r| + 2)..] + [r], history + [r], size)
  {
    var gone :| FitsWithout(gone, kept, history, size);
    var d := Discards(kept, size - Total(kept), |r| + 2);
    FitsAfterAdd(gone, kept, history, size, r, d);
    FitsIsLongest(gone + kept[..d], kept[d..] + [r], history + [r], size);
  }

  lemma FitsIsLongest(gone: seq<Record>, kept: seq<Record>, history: seq<Record>, size: nat)
    requires FitsWithout(gone, kept, history, size)
    ensures LongestFit(kept, history, size)
  {
  }

  lemma FitsAfterAdd(gone: seq<Record>, kept: seq<Record>, history: seq<Record>, size: nat, r: Record, d: nat)
    requires FitsWithout(gone, kept, history, size) && |r| + 2 <= size
    requires d == Discards(kept, size - Total(kept), |r| + 2)
    ensures FitsWithout(gone + kept[..d], kept[d..] + [r], history + [r], size)
  {
    AfterAdd(gone, kept, size, |r| + 2);
    TotalSnoc(kept[d..], r);
    Reassociate(gone, kept, d, r);
  }

  lemma Reassociate<T>(a: seq<T>, b: seq<T>, d: nat, x: T)
    requires d <= |b|
    ensures (a + b) + [x] == (a + b[..d]) + (b[d..] + [x])
  {
  }

  lemma AfterAdd(gone: seq<Record>, kept: seq<Record>, size: nat, need: nat)
    requires Total(kept) <= size && NoMoreFits(gone, Total(kept), size) && need <= size
    ensures var d := Discards(kept, size - Total(kept), need);
            var total := Total(kept[d..]) + need;
            total <= size && NoMoreFits(gone + kept[..d], total, size)
  {
    var d := Discards(kept, size - Total(kept), need);
    RoomAfterDiscards(kept, size - Total(kept), need);
    if d > 0 {
      LastDiscard(kept, size - Total(kept), need);
      assert (gone + kept[..d])[|gone| + d - 1] == kept[d - 1];
    } else {
      assert gone + kept[..d] == gone;
    }
  }
}
