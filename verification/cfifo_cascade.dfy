/**
 Cascaded FIFOs of components/m_cfifo/m_cfifo.c with the semaphores
 removed: the public single-FIFO calls on a possibly NULL handle, the
 adjacency lookup, and the `m_cfifo_All_*` walks along the chain.

 A cascade is a sequence of FIFOs in `next` order, so `next` of FIFO `i` is
 FIFO `i + 1` and `prev` is FIFO `i - 1`; a handle is an index into it, or
 None for NULL.
 */
module CFifoCascade {
  import opened Wrappers
  import opened Bitwise
  import opened CFifo

  /** m_cfifo_tDirection: UP follows `next`, DOWN follows `prev`. */
  datatype Direction = Up | Down

  type Chain = seq<Fifo>
  type Handle = Option<nat>

  /** The result of a call that reports success and may change the cascade. */
  datatype Outcome = Outcome(ok: bool, chain: Chain)

  /** The result of a pop along the cascade: success, the byte behind `data` afterwards, and the cascade. */
  datatype Taken = Taken(ok: bool, data: u8, chain: Chain)

  ghost predicate ChainValid(c: Chain)
  {
    forall k :: 0 <= k < |c| ==> Valid(c[k])
  }

  /** A handle is NULL or names a FIFO of the cascade. */
  predicate HandleIn(c: Chain, h: Handle)
  {
    h.Some? ==> h.value < |c|
  }

  // ---------------------------------------------------------------------------
  // Adjacency
  // ---------------------------------------------------------------------------

  /** m_cfifo_GetAdjacentFifo: NULL stays NULL; the ends of the cascade have no neighbour outwards. */
  function GetAdjacent(c: Chain, h: Handle, dir: Direction): (r: Handle)
    requires HandleIn(c, h)
    ensures HandleIn(c, r)
  {
    match h
    case None => None
    case Some(i) =>
      if dir == Up then (if i + 1 < |c| then Some(i + 1) else None)
      else (if i > 0 then Some(i - 1) else None)
  }

  /** `next` and `prev` undo each other wherever the neighbour exists, and a NULL handle has no neighbour. */
  lemma AdjacentInverse(c: Chain, i: nat, dir: Direction)
    requires i < |c|
    ensures GetAdjacent(c, None, dir) == None
    ensures var j := GetAdjacent(c, Some(i), dir);
      j.Some? ==> GetAdjacent(c, j, if dir == Up then Down else Up) == Some(i)
    ensures GetAdjacent(c, Some(i), dir).None? <==> (if dir == Up then i == |c| - 1 else i == 0)
  {
  }

  /** The FIFOs a walk from `s` in direction `dir` visits, the start included. */
  predicate Reached(s: nat, dir: Direction, k: nat)
  {
    if dir == Up then s <= k else k <= s
  }

  // ---------------------------------------------------------------------------
  // Single-FIFO calls on a handle
  // ---------------------------------------------------------------------------

  /** A FIFO takes a pushed byte: it has a buffer and room. */
  predicate Accepts(f: Fifo)
  {
    f.buffer.Some? && !IsFull(f)
  }

  /** `g` has the size and the dummy byte of `f`: the configuration a queue operation leaves alone. */
  predicate Kept(f: Fifo, g: Fifo)
  {
    g.bufferSize == f.bufferSize && g.dummyByte == f.dummyByte
  }

  /** m_cfifo_This_Push: false for a NULL handle, otherwise the internal push. */
  function ThisPush(c: Chain, h: Handle, x: u8): (r: Outcome)
    requires ChainValid(c) && HandleIn(c, h)
    ensures |r.chain| == |c| && ChainValid(r.chain)
    ensures r.ok <==> h.Some? && Accepts(c[h.value])
    ensures r.ok ==> Contents(r.chain[h.value]) == Contents(c[h.value]) + [x]
    ensures r.ok ==> Kept(c[h.value], r.chain[h.value])
    ensures forall k :: 0 <= k < |c| && (h.None? || k != h.value) ==> r.chain[k] == c[k]
    ensures !r.ok ==> r.chain == c
  {
    match h
    case None => Outcome(false, c)
    case Some(i) =>
      PushAppends(c[i], x);
      var p := PushInternal(c[i], x);
      Outcome(p.ok, c[i := p.fifo])
  }

  /**
   m_cfifo_This_Pop with `data` the output argument (None for NULL): false
   for a NULL handle or output argument, otherwise the internal pop.
   */
  function ThisPop(c: Chain, h: Handle, data: Option<u8>): (r: Outcome)
    requires ChainValid(c) && HandleIn(c, h)
    ensures |r.chain| == |c| && ChainValid(r.chain)
    ensures r.ok <==> h.Some? && data.Some? && Contents(c[h.value]) != []
    ensures r.ok ==> Contents(r.chain[h.value]) == Contents(c[h.value])[1..]
    ensures r.ok ==> Kept(c[h.value], r.chain[h.value]) && r.chain[h.value].buffer == c[h.value].buffer
    ensures forall k :: 0 <= k < |c| && (h.None? || k != h.value) ==> r.chain[k] == c[k]
    ensures !r.ok ==> r.chain == c
  {
    if h.None? || data.None? then Outcome(false, c)
    else
      var i := h.value;
      PopHead(c[i], data.value);
      var p := PopInternal(c[i], data.value);
      Outcome(p.ok, c[i := p.fifo])
  }

  /** The byte m_cfifo_This_Pop leaves behind `data`: the queue's head on success, the old byte otherwise. */
  function ThisPopData(c: Chain, h: Handle, data: Option<u8>): (d: Option<u8>)
    requires ChainValid(c) && HandleIn(c, h)
    ensures data.None? ==> d.None?
    ensures ThisPop(c, h, data).ok ==> d == Some(Contents(c[h.value])[0])
    ensures !ThisPop(c, h, data).ok ==> d == data
  {
    if h.None? || data.None? then data
    else
      PopHead(c[h.value], data.value);
      Some(PopInternal(c[h.value], data.value).data)
  }

  /**
   m_cfifo_This_Clear: false and no change on a NULL handle; otherwise true,
   and the named FIFO's queue is emptied while its region, size and dummy
   byte stay and every other FIFO is untouched.
   */
  function ThisClear(c: Chain, h: Handle): (r: Outcome)
    requires ChainValid(c) && HandleIn(c, h)
    ensures r.ok == h.Some? && |r.chain| == |c| && ChainValid(r.chain)
    ensures h.Some? ==> Contents(r.chain[h.value]) == []
    ensures h.Some? ==> Kept(c[h.value], r.chain[h.value]) && r.chain[h.value].buffer == c[h.value].buffer
    ensures forall k :: 0 <= k < |c| && (h.None? || k != h.value) ==> r.chain[k] == c[k]
  {
    if h.None? then Outcome(false, c)
    else
      ClearEmpties(c[h.value]);
      Outcome(true, c[h.value := ClearInternal(c[h.value])])
  }

  /**
   m_cfifo_This_SetFull: false and no change on a NULL handle; otherwise true,
   and the named FIFO is full, queueing its region's first `bufferSize` bytes
   unmodified, while every other FIFO is untouched.
   */
  function ThisSetFull(c: Chain, h: Handle): (r: Outcome)
    requires ChainValid(c) && HandleIn(c, h)
    ensures r.ok == h.Some? && |r.chain| == |c| && ChainValid(r.chain)
    ensures h.Some? ==> IsFull(r.chain[h.value]) && |Contents(r.chain[h.value])| == c[h.value].bufferSize
    ensures h.Some? && c[h.value].buffer.Some? ==>
      Contents(r.chain[h.value]) == c[h.value].buffer.value[..c[h.value].bufferSize]
    ensures h.Some? ==> Kept(c[h.value], r.chain[h.value]) && r.chain[h.value].buffer == c[h.value].buffer
    ensures forall k :: 0 <= k < |c| && (h.None? || k != h.value) ==> r.chain[k] == c[k]
  {
    if h.None? then Outcome(false, c)
    else
      SetFullContents(c[h.value]);
      Outcome(true, c[h.value := SetFullInternal(c[h.value])])
  }

  /*
   The queries answer 0 or false on a NULL handle and otherwise read the
   named FIFO. ConfigBuffer and SetDummyByte have no defined return value,
   so only their effect is given.
   */

  function ThisGetSize(c: Chain, h: Handle): (r: u16)
    requires HandleIn(c, h)
  {
    if h.None? then 0 else GetSize(c[h.value])
  }

  function ThisGetUsage(c: Chain, h: Handle): (r: u16)
    requires HandleIn(c, h)
  {
    if h.None? then 0 else GetUsage(c[h.value])
  }

  function ThisIsEmpty(c: Chain, h: Handle): (r: bool)
    requires HandleIn(c, h)
  {
    h.Some? && IsEmpty(c[h.value])
  }

  function ThisIsFull(c: Chain, h: Handle): (r: bool)
    requires HandleIn(c, h)
  {
    h.Some? && IsFull(c[h.value])
  }

  function ThisConfigBuffer(c: Chain, h: Handle, buffer: Option<seq<u8>>, size: u16): (r: Chain)
    requires HandleIn(c, h)
  {
    if h.None? then c else c[h.value := ConfigBuffer(c[h.value], buffer, size)]
  }

  function ThisSetDummyByte(c: Chain, h: Handle, data: u8): (r: Chain)
    requires HandleIn(c, h)
  {
    if h.None? then c else c[h.value := SetDummyByte(c[h.value], data)]
  }

  /** The single-FIFO queries on a handle read the named FIFO's queue; a NULL handle reads as 0 and false. */
  lemma ThisQueries(c: Chain, h: Handle)
    requires ChainValid(c) && HandleIn(c, h)
    ensures h.None? ==> ThisGetSize(c, h) == 0 && ThisGetUsage(c, h) == 0 && !ThisIsEmpty(c, h) && !ThisIsFull(c, h)
    ensures h.Some? ==> ThisGetUsage(c, h) == |Contents(c[h.value])| <= ThisGetSize(c, h)
    ensures h.Some? ==> (ThisIsEmpty(c, h) <==> Contents(c[h.value]) == [])
    ensures h.Some? ==> (ThisIsFull(c, h) <==> |Contents(c[h.value])| == ThisGetSize(c, h))
  {
  }

  /**
   ConfigBuffer through a handle changes the named FIFO only: it keeps the
   cascade valid when the region is large enough, sets the size and the
   usage to `size`, and queues the region's first `size` bytes, or `size`
   dummy bytes without a region.
   */
  lemma ThisConfigEffect(c: Chain, h: Handle, buffer: Option<seq<u8>>, size: u16)
    requires ChainValid(c) && HandleIn(c, h)
    requires buffer.Some? ==> |buffer.value| >= size
    ensures var r := ThisConfigBuffer(c, h, buffer, size);
      && |r| == |c| && ChainValid(r)
      && (forall k :: 0 <= k < |c| && (h.None? || k != h.value) ==> r[k] == c[k])
      && (h.Some? ==> ThisGetSize(r, h) == size && ThisGetUsage(r, h) == size && r[h.value].buffer == buffer)
      && (h.Some? && buffer.Some? ==> Contents(r[h.value]) == buffer.value[..size])
      && (h.Some? && buffer.None? ==> forall i :: 0 <= i < size ==> Contents(r[h.value])[i] == c[h.value].dummyByte)
  {
    if h.Some? {
      ConfigBufferContents(c[h.value], buffer, size);
    }
  }

  /**
   SetDummyByte through a handle changes the named FIFO only: with a buffer
   its queue is unchanged, without one every queued byte now reads as `data`.
   */
  lemma ThisDummyByteEffect(c: Chain, h: Handle, data: u8)
    requires ChainValid(c) && HandleIn(c, h)
    ensures var r := ThisSetDummyByte(c, h, data);
      && |r| == |c| && ChainValid(r)
      && (forall k :: 0 <= k < |c| && (h.None? || k != h.value) ==> r[k] == c[k])
      && (h.Some? ==> |Contents(r[h.value])| == |Contents(c[h.value])| && r[h.value].buffer == c[h.value].buffer)
      && (h.Some? && c[h.value].buffer.Some? ==> Contents(r[h.value]) == Contents(c[h.value]))
      && (h.Some? && c[h.value].buffer.None? ==>
            forall i :: 0 <= i < |Contents(c[h.value])| ==> Contents(r[h.value])[i] == data)
  {
    if h.Some? {
      SetDummyByteContents(c[h.value], data);
    }
  }

  // ---------------------------------------------------------------------------
  // First-fit push and pop along `next`
  // ---------------------------------------------------------------------------

  /** `j` is the first FIFO from `i` on that accepts a byte. */
  predicate FirstAccepting(c: Chain, i: nat, j: nat)
  {
    i <= j < |c| && Accepts(c[j]) && forall k :: i <= k < j ==> !Accepts(c[k])
  }

  /** `j` is the first FIFO from `i` on that holds a byte. */
  predicate FirstNonEmpty(c: Chain, i: nat, j: nat)
  {
    i <= j < |c| && !IsEmpty(c[j]) && forall k :: i <= k < j ==> IsEmpty(c[k])
  }

  /** One internal push keeps the FIFO valid, succeeds exactly when the FIFO accepts, and changes nothing when it fails. */
  lemma PushStep(f: Fifo, x: u8)
    requires Valid(f)
    ensures var p := PushInternal(f, x);
      Valid(p.fifo) && (p.ok <==> Accepts(f)) && (!p.ok ==> p.fifo == f)
  {
    if Accepts(f) {
      PushValid(f, x);
    }
  }

  /** One internal pop keeps the FIFO valid, succeeds exactly when the FIFO holds a byte, and changes nothing when it fails. */
  lemma PopStep(f: Fifo, d: u8)
    requires Valid(f)
    ensures var p := PopInternal(f, d);
      Valid(p.fifo) && (p.ok <==> !IsEmpty(f)) && (!p.ok ==> p.fifo == f && p.data == d)
  {
    if !IsEmpty(f) {
      PopValid(f, d);
    }
  }

  /** Replacing one FIFO of a valid cascade by a valid FIFO keeps the cascade valid. */
  lemma ChainUpdate(c: Chain, i: nat, f: Fifo)
    requires ChainValid(c) && i < |c| && Valid(f)
    ensures ChainValid(c[i := f])
  {
  }

  /** The cascade after pushing `x` into FIFO `j`. */
  function PushAt(c: Chain, j: nat, x: u8): (r: Chain)
    requires ChainValid(c) && j < |c|
  {
    c[j := PushInternal(c[j], x).fifo]
  }

  /** A successful pop from FIFO `j`: the byte it yields and the cascade afterwards. */
  function PopAt(c: Chain, j: nat, d: u8): (r: Taken)
    requires ChainValid(c) && j < |c|
  {
    var p := PopInternal(c[j], d);
    Taken(true, p.data, c[j := p.fifo])
  }

  /**
   First-fit push from FIFO `i` along `next`: the byte goes into the first
   FIFO that accepts it and nowhere else, and the push fails only when no
   FIFO from `i` on accepts it.
   */
  function PushFrom(c: Chain, i: nat, x: u8): (r: Outcome)
    requires ChainValid(c) && i <= |c|
    ensures |r.chain| == |c| && ChainValid(r.chain)
    ensures r.ok <==> exists j :: i <= j < |c| && Accepts(c[j])
    ensures !r.ok ==> r.chain == c
    ensures r.ok ==> exists j: nat :: FirstAccepting(c, i, j) && r.chain == PushAt(c, j, x)
    decreases |c| - i
  {
    if i == |c| then Outcome(false, c)
    else
      PushStep(c[i], x);
      var p := PushInternal(c[i], x);
      if p.ok then
        ChainUpdate(c, i, p.fifo);
        assert FirstAccepting(c, i, i);
        Outcome(true, PushAt(c, i, x))
      else
        var r := PushFrom(c, i + 1, x);
        assert r.ok ==> exists j: nat :: FirstAccepting(c, i, j) && r.chain == PushAt(c, j, x) by {
          if r.ok {
            var j: nat :| FirstAccepting(c, i + 1, j) && r.chain == PushAt(c, j, x);
            assert FirstAccepting(c, i, j);
          }
        }
        r
  }

  /**
   First-fit pop from FIFO `i` along `next`: the oldest byte of the first
   FIFO that holds one is taken, and the pop fails, leaving `d`, only when
   every FIFO from `i` on is empty.
   */
  function PopFrom(c: Chain, i: nat, d: u8): (r: Taken)
    requires ChainValid(c) && i <= |c|
    ensures |r.chain| == |c| && ChainValid(r.chain)
    ensures r.ok <==> exists j :: i <= j < |c| && !IsEmpty(c[j])
    ensures !r.ok ==> r.chain == c && r.data == d
    ensures r.ok ==> exists j: nat :: FirstNonEmpty(c, i, j) && r == PopAt(c, j, d)
    decreases |c| - i
  {
    if i == |c| then Taken(false, d, c)
    else
      PopStep(c[i], d);
      var p := PopInternal(c[i], d);
      if p.ok then
        ChainUpdate(c, i, p.fifo);
        assert FirstNonEmpty(c, i, i);
        PopAt(c, i, d)
      else
        var r := PopFrom(c, i + 1, d);
        assert r.ok ==> exists j: nat :: FirstNonEmpty(c, i, j) && r == PopAt(c, j, d) by {
          if r.ok {
            var j: nat :| FirstNonEmpty(c, i + 1, j) && r == PopAt(c, j, d);
            assert FirstNonEmpty(c, i, j);
          }
        }
        r
  }

  /** The first-fit push is decided by the first accepting FIFO: it takes the byte there. */
  lemma {:induction false} PushFromFirst(c: Chain, i: nat, j: nat, x: u8)
    requires ChainValid(c) && FirstAccepting(c, i, j)
    ensures PushFrom(c, i, x) == Outcome(true, PushAt(c, j, x))
    decreases j - i
  {
    PushStep(c[i], x);
    if i < j {
      PushFromFirst(c, i + 1, j, x);
    }
  }

  /** The first-fit pop is decided by the first FIFO that holds a byte: it pops there. */
  lemma {:induction false} PopFromFirst(c: Chain, i: nat, j: nat, d: u8)
    requires ChainValid(c) && FirstNonEmpty(c, i, j)
    ensures PopFrom(c, i, d) == PopAt(c, j, d)
    decreases j - i
  {
    if i < j {
      PopFromFirst(c, i + 1, j, d);
    }
  }

  /** In queue terms: a successful cascaded push appends the byte to one FIFO's queue and leaves every other FIFO as it was. */
  lemma PushFromQueues(c: Chain, i: nat, x: u8)
    requires ChainValid(c) && i <= |c|
    ensures var r := PushFrom(c, i, x);
      r.ok ==> exists j: nat :: (
        && FirstAccepting(c, i, j)
        && Contents(r.chain[j]) == Contents(c[j]) + [x]
        && forall k :: 0 <= k < |c| && k != j ==> r.chain[k] == c[k])
  {
    var r := PushFrom(c, i, x);
    if r.ok {
      var j: nat :| FirstAccepting(c, i, j) && r.chain == PushAt(c, j, x);
      PushAppends(c[j], x);
    }
  }

  /** In queue terms: a successful cascaded pop returns the head of one FIFO's queue, drops it there, and leaves every other FIFO as it was. */
  lemma PopFromQueues(c: Chain, i: nat, d: u8)
    requires ChainValid(c) && i <= |c|
    ensures var r := PopFrom(c, i, d);
      r.ok ==> exists j: nat :: (
        && FirstNonEmpty(c, i, j)
        && r.data == Contents(c[j])[0]
        && Contents(r.chain[j]) == Contents(c[j])[1..]
        && forall k :: 0 <= k < |c| && k != j ==> r.chain[k] == c[k])
  {
    var r := PopFrom(c, i, d);
    if r.ok {
      var j: nat :| FirstNonEmpty(c, i, j) && r == PopAt(c, j, d);
      PopHead(c[j], d);
    }
  }

  /** m_cfifo_All_Push: the walk along `next` from the handle, stopping at the first FIFO that takes the byte. */
  method AllPush(c: Chain, h: Handle, x: u8) returns (ok: bool, c': Chain)
    requires ChainValid(c) && HandleIn(c, h)
    ensures h.None? ==> !ok && c' == c
    ensures h.Some? ==> Outcome(ok, c') == PushFrom(c, h.value, x)
  {
    if h.None? {
      return false, c;
    }
    var s, i := h.value, h.value;
    ok, c' := false, c;
    while !ok && i < |c'|
      invariant s <= i <= |c| && |c'| == |c|
      invariant !ok ==> c' == c && forall k :: s <= k < i ==> !Accepts(c[k])
      invariant ok ==> s < i && FirstAccepting(c, s, i - 1) && c' == PushAt(c, i - 1, x)
      decreases |c| - i
    {
      PushStep(c'[i], x);
      var p := PushInternal(c'[i], x);
      ok, c' := p.ok, c'[i := p.fifo];
      i := i + 1;
    }
    if ok {
      PushFromFirst(c, s, i - 1, x);
    }
  }

  /** m_cfifo_All_Pop: false for a NULL handle or output argument; otherwise the walk along `next`, stopping at the first FIFO that yields a byte. */
  method AllPop(c: Chain, h: Handle, data: Option<u8>) returns (ok: bool, data': Option<u8>, c': Chain)
    requires ChainValid(c) && HandleIn(c, h)
    ensures h.None? || data.None? ==> !ok && data' == data && c' == c
    ensures h.Some? && data.Some? ==>
      var r := PopFrom(c, h.value, data.value);
      ok == r.ok && data' == Some(r.data) && c' == r.chain
  {
    if h.None? || data.None? {
      return false, data, c;
    }
    var s, i, d := h.value, h.value, data.value;
    ok, c' := false, c;
    while !ok && i < |c'|
      invariant s <= i <= |c| && |c'| == |c|
      invariant !ok ==> c' == c && d == data.value && forall k :: s <= k < i ==> IsEmpty(c[k])
      invariant ok ==> s < i && FirstNonEmpty(c, s, i - 1) && Taken(true, d, c') == PopAt(c, i - 1, data.value)
      decreases |c| - i
    {
      var p := PopInternal(c'[i], d);
      ok, d, c' := p.ok, p.data, c'[i := p.fifo];
      i := i + 1;
    }
    if ok {
      PopFromFirst(c, s, i - 1, data.value);
    }
    data' := Some(d);
  }

  /**
   Why the cascade is not one FIFO: two one-byte FIFOs take 1 and then 2;
   a pop yields 1 and frees the first FIFO, so the next byte 3 lands there
   and the following pop yields 3 although 2 was pushed before it.
   */
  lemma CascadeReorders()
    ensures PushFrom([OneByte(0, false), OneByte(0, false)], 0, 1) == Outcome(true, [OneByte(1, true), OneByte(0, false)])
    ensures PushFrom([OneByte(1, true), OneByte(0, false)], 0, 2) == Outcome(true, [OneByte(1, true), OneByte(2, true)])
    ensures PopFrom([OneByte(1, true), OneByte(2, true)], 0, 0) == Taken(true, 1, [OneByte(1, false), OneByte(2, true)])
    ensures PushFrom([OneByte(1, false), OneByte(2, true)], 0, 3) == Outcome(true, [OneByte(3, true), OneByte(2, true)])
    ensures PopFrom([OneByte(3, true), OneByte(2, true)], 0, 0) == Taken(true, 3, [OneByte(3, false), OneByte(2, true)])
    ensures Contents(OneByte(2, true)) == [2]
  {
    PushPair(0, false, 0, false, 1);
    PushPair(1, true, 0, false, 2);
    PopPair(1, OneByte(2, true));
    PushPair(1, false, 2, true, 3);
    PopPair(3, OneByte(2, true));
  }

  /** A FIFO over a one-byte region holding `b`, with that byte queued or not. */
  function OneByte(b: u8, queued: bool): (f: Fifo)
    ensures Valid(f)
  {
    Fifo(Some([b]), 1, if queued then 1 else 0, 0, 0, 0)
  }

  /** Pushing into a pair of one-byte FIFOs fills the first if it is free, else the second if that is free. */
  lemma PushPair(a: u8, qa: bool, b: u8, qb: bool, x: u8)
    ensures !qa ==> PushFrom([OneByte(a, qa), OneByte(b, qb)], 0, x) == Outcome(true, [OneByte(x, true), OneByte(b, qb)])
    ensures qa && !qb ==> PushFrom([OneByte(a, qa), OneByte(b, qb)], 0, x) == Outcome(true, [OneByte(a, qa), OneByte(x, true)])
  {
    assert [a][0 := x] == [x] && [b][0 := x] == [x];
  }

  /** Popping from a pair whose first one-byte FIFO holds `a` yields `a` and frees that FIFO. */
  lemma PopPair(a: u8, g: Fifo)
    requires Valid(g)
    ensures PopFrom([OneByte(a, true), g], 0, 0) == Taken(true, a, [OneByte(a, false), g])
  {
  }

  // ---------------------------------------------------------------------------
  // Totals and conjunctions along `next`
  // ---------------------------------------------------------------------------

  /** The exact sum of one 16-bit counter over the cascade. */
  ghost function Total(c: Chain, field: Fifo -> u16): (t: nat)
    ensures t <= 0xFFFF * |c|
  {
    if |c| == 0 then 0 else Total(c[..|c| - 1], field) + field(c[|c| - 1])
  }

  /** A 32-bit running sum of `field` along `next` from FIFO `s`, as the All_Get* loops keep it. */
  method SumAlong(c: Chain, s: nat, field: Fifo -> u16) returns (total: u32)
    requires s <= |c|
    ensures total == Wrap32(Total(c[s..], field))
  {
    total := 0;
    var i := s;
    while i < |c|
      invariant s <= i <= |c|
      invariant total == Wrap32(Total(c[s..i], field))
    {
      TotalStep(c, s, i, field);
      WrapAdd32(Total(c[s..i], field), field(c[i]));
      total := Wrap32(total + field(c[i]));
      i := i + 1;
    }
    assert c[s..i] == c[s..];
  }

  /** Extending the summed stretch by FIFO `i` adds that FIFO's counter. */
  lemma TotalStep(c: Chain, s: nat, i: nat, field: Fifo -> u16)
    requires s <= i < |c|
    ensures Total(c[s..i + 1], field) == Total(c[s..i], field) + field(c[i])
  {
    assert c[s..i + 1][..i - s] == c[s..i];
    assert c[s..i + 1][i - s] == c[i];
  }

  /** Reducing an intermediate sum modulo 2^32 does not change the final 32-bit result. */
  lemma WrapAdd32(x: int, y: int)
    ensures Wrap32(Wrap32(x) + y) == Wrap32(x + y)
  {
    var q := x / 0x1_0000_0000;
    assert x == q * 0x1_0000_0000 + Wrap32(x);
    assert Wrap32(x) + y == (x + y) - q * 0x1_0000_0000;
  }

  /** m_cfifo_All_GetSize: 0 for a NULL handle, else the 32-bit sum of the sizes from the handle on. */
  method AllGetSize(c: Chain, h: Handle) returns (total: u32)
    requires HandleIn(c, h)
    ensures h.None? ==> total == 0
    ensures h.Some? ==> total == Wrap32(Total(c[h.value..], GetSize))
  {
    total := 0;
    if h.Some? {
      total := SumAlong(c, h.value, GetSize);
    }
  }

  /** m_cfifo_All_GetUsage: 0 for a NULL handle, else the 32-bit sum of the usages from the handle on. */
  method AllGetUsage(c: Chain, h: Handle) returns (total: u32)
    requires HandleIn(c, h)
    ensures h.None? ==> total == 0
    ensures h.Some? ==> total == Wrap32(Total(c[h.value..], GetUsage))
  {
    total := 0;
    if h.Some? {
      total := SumAlong(c, h.value, GetUsage);
    }
  }

  /**
   The 32-bit totals are exact for up to 65537 FIFOs, since each counter is
   below 2^16; the usage total is the number of bytes queued in all of them.
   */
  lemma TotalsExact(c: Chain)
    requires ChainValid(c)
    ensures |c| <= 0x1_0001 ==> Wrap32(Total(c, GetSize)) == Total(c, GetSize)
    ensures |c| <= 0x1_0001 ==> Wrap32(Total(c, GetUsage)) == Total(c, GetUsage)
    ensures Total(c, GetUsage) == Queued(c) <= Total(c, GetSize)
  {
    QueuedTotal(c);
    WrapInRange(Total(c, GetSize));
    WrapInRange(Total(c, GetUsage));
  }

  /** The number of bytes queued in the whole cascade. */
  ghost function Queued(c: Chain): nat
    requires ChainValid(c)
  {
    if |c| == 0 then 0 else Queued(c[..|c| - 1]) + |Contents(c[|c| - 1])|
  }

  lemma {:induction false} QueuedTotal(c: Chain)
    requires ChainValid(c)
    ensures Total(c, GetUsage) == Queued(c) <= Total(c, GetSize)
  {
    if |c| > 0 {
      QueuedTotal(c[..|c| - 1]);
      GettersMeaning(c[|c| - 1]);
    }
  }

  /** The conjunction of `test` along `next` from FIFO `s`, as the All_Is* loops fold it. */
  method AllAlong(c: Chain, s: nat, test: Fifo -> bool) returns (b: bool)
    requires s <= |c|
    ensures b <==> forall k :: s <= k < |c| ==> test(c[k])
  {
    b := true;
    var i := s;
    while i < |c|
      invariant s <= i <= |c|
      invariant b <==> forall k :: s <= k < i ==> test(c[k])
    {
      b := b && test(c[i]);
      i := i + 1;
    }
  }

  /** m_cfifo_All_IsEmpty: false for a NULL handle, else whether every FIFO from the handle on holds nothing. */
  method AllIsEmpty(c: Chain, h: Handle) returns (b: bool)
    requires ChainValid(c) && HandleIn(c, h)
    ensures h.None? ==> !b
    ensures h.Some? ==> (b <==> forall k :: h.value <= k < |c| ==> Contents(c[k]) == [])
  {
    b := false;
    if h.Some? {
      b := AllAlong(c, h.value, IsEmpty);
    }
  }

  /** m_cfifo_All_IsFull: false for a NULL handle, else whether every FIFO from the handle on has no room. */
  method AllIsFull(c: Chain, h: Handle) returns (b: bool)
    requires ChainValid(c) && HandleIn(c, h)
    ensures h.None? ==> !b
    ensures h.Some? ==> (b <==> forall k :: h.value <= k < |c| ==> |Contents(c[k])| == GetSize(c[k]))
  {
    b := false;
    if h.Some? {
      b := AllAlong(c, h.value, IsFull);
    }
  }

  /** A full cascade refuses a push and an empty one refuses a pop; a refused push need not mean a full cascade. */
  lemma FullRefusesPush(c: Chain, i: nat, x: u8, d: u8)
    requires ChainValid(c) && i <= |c|
    ensures (forall k :: i <= k < |c| ==> IsFull(c[k])) ==> !PushFrom(c, i, x).ok
    ensures (forall k :: i <= k < |c| ==> IsEmpty(c[k])) ==> !PopFrom(c, i, d).ok
  {
  }

  /** A FIFO given a size but no buffer is not full after a clear, yet takes no byte. */
  lemma NoBufferNotFullRefuses(x: u8)
    ensures var c := [Fifo(None, 1, 0, 0, 0, 0)];
      !IsFull(c[0]) && !PushFrom(c, 0, x).ok
  {
    var c := [Fifo(None, 1, 0, 0, 0, 0)];
    assert !Accepts(c[0]);
  }

  // ---------------------------------------------------------------------------
  // Clear and set-full over a direction
  // ---------------------------------------------------------------------------

  /** Apply `op` to every FIFO reached from the handle in direction `dir`, following GetAdjacent as the All_Clear and All_SetFull loops do. */
  method Sweep(c: Chain, h: Handle, dir: Direction, op: Fifo -> Fifo) returns (c': Chain)
    requires h.Some? && h.value < |c|
    ensures |c'| == |c|
    ensures forall k :: 0 <= k < |c| ==> c'[k] == if Reached(h.value, dir, k) then op(c[k]) else c[k]
  {
    var s := h.value;
    var cur := h;
    c' := c;
    while cur.Some?
      invariant HandleIn(c, cur) && |c'| == |c|
      invariant cur.Some? ==> Reached(s, dir, cur.value)
      invariant forall k :: 0 <= k < |c| ==>
        c'[k] == if Reached(s, dir, k) && !Pending(s, cur, dir, k) then op(c[k]) else c[k]
      decreases match cur case None => 0 case Some(i) => if dir == Up then |c| - i + 1 else i + 1
    {
      var i := cur.value;
      c' := c'[i := op(c'[i])];
      cur := GetAdjacent(c, cur, dir);
    }
  }

  /** FIFO `k` is still to be visited by a walk from `s` that stands at `cur`. */
  predicate Pending(s: nat, cur: Handle, dir: Direction, k: nat)
  {
    cur.Some? && (if dir == Up then cur.value <= k else k <= cur.value)
  }

  /** m_cfifo_All_Clear: false for a NULL handle; otherwise every FIFO reached in `dir` is emptied and the others are untouched. */
  method AllClear(c: Chain, h: Handle, dir: Direction) returns (ok: bool, c': Chain)
    requires ChainValid(c) && HandleIn(c, h)
    ensures ok == h.Some? && |c'| == |c| && ChainValid(c')
    ensures h.None? ==> c' == c
    ensures h.Some? ==> forall k :: 0 <= k < |c| ==>
      if Reached(h.value, dir, k) then c'[k] == ClearInternal(c[k]) && Contents(c'[k]) == [] else c'[k] == c[k]
  {
    if h.None? {
      return false, c;
    }
    c' := Sweep(c, h, dir, ClearInternal);
    ok := true;
  }

  /** m_cfifo_All_SetFull: false for a NULL handle; otherwise every FIFO reached in `dir` holds its whole region, and the others are untouched. */
  method AllSetFull(c: Chain, h: Handle, dir: Direction) returns (ok: bool, c': Chain)
    requires ChainValid(c) && HandleIn(c, h)
    ensures ok == h.Some? && |c'| == |c| && ChainValid(c')
    ensures h.None? ==> c' == c
    ensures h.Some? ==> forall k :: 0 <= k < |c| ==>
      if Reached(h.value, dir, k) then
        && c'[k] == SetFullInternal(c[k]) && IsFull(c'[k])
        && (c[k].buffer.Some? ==> Contents(c'[k]) == c[k].buffer.value[..c[k].bufferSize])
      else c'[k] == c[k]
  {
    if h.None? {
      return false, c;
    }
    c' := Sweep(c, h, dir, SetFullInternal);
    ok := true;
    forall k | 0 <= k < |c| && Reached(h.value, dir, k)
      ensures Valid(c'[k])
      ensures c[k].buffer.Some? ==> Contents(c'[k]) == c[k].buffer.value[..c[k].bufferSize]
    {
      SetFullContents(c[k]);
    }
  }
}
