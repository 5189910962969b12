/**
 One circular FIFO of components/m_cfifo/m_cfifo.c with its semaphore
 removed: the `m_cfifo_This_*Internal` helpers, the pointer increments and
 the configuration calls. The ring is related to an abstract queue of bytes
 (`Contents`), and every operation is proved against that queue.
 */
module CFifo {
  import opened Wrappers
  import opened Bitwise

  /**
   m_cfifo_tCFifo without its links and semaphore. `buffer` is the caller's
   memory region (None for NULL); the FIFO uses its first
   `bufferSize` bytes.
   */
  datatype Fifo = Fifo(
    buffer: Option<seq<u8>>,
    bufferSize: u16,
    usedCount: u16,
    rdPtr: u16,
    wrPtr: u16,
    dummyByte: u8)

  /** The result of m_cfifo_This_PushInternal: its return value and the FIFO afterwards. */
  datatype Pushed = Pushed(ok: bool, fifo: Fifo)

  /** The result of m_cfifo_This_PopInternal: its return value, the byte behind `data` afterwards, and the FIFO. */
  datatype Popped = Popped(ok: bool, data: u8, fifo: Fifo)

  // ---------------------------------------------------------------------------
  // Ring invariant and the queue it stands for
  // ---------------------------------------------------------------------------

  /**
   The ring invariant every operation keeps: the buffer region holds at
   least `bufferSize` bytes, at most `bufferSize` bytes are in use, and in a
   non-empty ring both indices are in range and the write index sits
   `usedCount` slots past the read index.
   */
  ghost predicate Valid(f: Fifo)
  {
    && (f.buffer.Some? ==> |f.buffer.value| >= f.bufferSize)
    && f.usedCount <= f.bufferSize
    && (f.bufferSize > 0 ==>
          && f.rdPtr < f.bufferSize
          && f.wrPtr < f.bufferSize
          && f.wrPtr == (f.rdPtr + f.usedCount) % f.bufferSize)
  }

  /** The buffer index that holds the `i`-th queued byte: `i` slots past the read index, wrapping. */
  function Slot(f: Fifo, i: int): (k: int)
    requires f.bufferSize > 0 && 0 <= i
    ensures 0 <= k < f.bufferSize
  {
    (f.rdPtr + i) % f.bufferSize
  }

  /**
   The queue a valid ring holds, oldest byte first: the `usedCount` bytes
   from `rdPtr` onwards, wrapping at `bufferSize`. Without a buffer every
   stored byte reads as the dummy byte.
   */
  ghost function Contents(f: Fifo): (q: seq<u8>)
    requires Valid(f)
    ensures |q| == f.usedCount
  {
    match f.buffer
    case None => seq(f.usedCount, _ => f.dummyByte)
    case Some(b) => seq(f.usedCount, i requires 0 <= i < f.usedCount => b[Slot(f, i)])
  }

  /** Reduction modulo `n` of a value below `2n` subtracts `n` at most once. */
  lemma ModSmall(x: int, n: int)
    requires n > 0 && 0 <= x < 2 * n
    ensures x % n == if x < n then x else x - n
  {
    if x >= n {
      assert x == 1 * n + (x - n);
    }
  }

  /** A slot less than a full turn past a valid read index wraps at most once. */
  lemma SlotOf(f: Fifo, i: int)
    requires Valid(f) && 0 <= i < f.bufferSize
    ensures Slot(f, i) == if f.rdPtr + i < f.bufferSize then f.rdPtr + i else f.rdPtr + i - f.bufferSize
  {
    ModSmall(f.rdPtr + i, f.bufferSize);
  }

  // ---------------------------------------------------------------------------
  // Operations
  // ---------------------------------------------------------------------------

  /** m_cfifo_This_IsEmptyInternal. */
  function IsEmpty(f: Fifo): (r: bool)
  {
    f.usedCount == 0
  }

  /** m_cfifo_This_IsFullInternal: `>=`, so a FIFO of size 0 is full. */
  function IsFull(f: Fifo): (r: bool)
  {
    f.usedCount >= f.bufferSize
  }

  /** The empty and full tests read the queue: empty holds no byte, full holds `bufferSize` bytes; size 0 is both. */
  lemma EmptyFullMeaning(f: Fifo)
    requires Valid(f)
    ensures IsEmpty(f) <==> Contents(f) == []
    ensures IsFull(f) <==> |Contents(f)| == f.bufferSize
    ensures f.bufferSize == 0 ==> IsEmpty(f) && IsFull(f)
  {
  }

  /** m_cfifo_This_GetSizeInternal. */
  function GetSize(f: Fifo): (r: u16)
  {
    f.bufferSize
  }

  /** m_cfifo_This_GetUsageInternal. */
  function GetUsage(f: Fifo): (r: u16)
  {
    f.usedCount
  }

  /** The size and usage getters report the capacity and the queue's length. */
  lemma GettersMeaning(f: Fifo)
    requires Valid(f)
    ensures GetUsage(f) == |Contents(f)| <= GetSize(f)
  {
  }

  /** m_cfifo_IncRdPtr: C's `%` on a size that the callers keep non-zero. */
  function IncRdPtr(f: Fifo): (r: Fifo)
    requires f.bufferSize > 0
    ensures r == f.(rdPtr := r.rdPtr)
    ensures f.rdPtr < f.bufferSize ==> r.rdPtr == if f.rdPtr + 1 == f.bufferSize then 0 else f.rdPtr + 1
  {
    var r := f.(rdPtr := (f.rdPtr + 1) % f.bufferSize);
    assert f.rdPtr < f.bufferSize ==> r.rdPtr == if f.rdPtr + 1 == f.bufferSize then 0 else f.rdPtr + 1 by {
      if f.rdPtr < f.bufferSize {
        ModSmall(f.rdPtr + 1, f.bufferSize);
      }
    }
    r
  }

  /** m_cfifo_IncWrPtr. */
  function IncWrPtr(f: Fifo): (r: Fifo)
    requires f.bufferSize > 0
    ensures r == f.(wrPtr := r.wrPtr)
    ensures f.wrPtr < f.bufferSize ==> r.wrPtr == if f.wrPtr + 1 == f.bufferSize then 0 else f.wrPtr + 1
  {
    var r := f.(wrPtr := (f.wrPtr + 1) % f.bufferSize);
    assert f.wrPtr < f.bufferSize ==> r.wrPtr == if f.wrPtr + 1 == f.bufferSize then 0 else f.wrPtr + 1 by {
      if f.wrPtr < f.bufferSize {
        ModSmall(f.wrPtr + 1, f.bufferSize);
      }
    }
    r
  }

  /**
   m_cfifo_This_PushInternal: refuse without a buffer or when full;
   otherwise store at `wrPtr`, advance it and count the byte.
   */
  function PushInternal(f: Fifo, data: u8): (r: Pushed)
    requires Valid(f)
  {
    if f.buffer.None? then Pushed(false, f)
    else if IsFull(f) then Pushed(false, f)
    else
      var stored := f.(buffer := Some(f.buffer.value[f.wrPtr := data]));
      var g := IncWrPtr(stored);
      Pushed(true, g.(usedCount := f.usedCount + 1))
  }

  /**
   m_cfifo_This_PopInternal with `data` the byte behind the output argument:
   refuse when empty and leave `data` alone; otherwise read the slot at
   `rdPtr` (or the dummy byte without a buffer), advance and uncount.
   */
  function PopInternal(f: Fifo, data: u8): (r: Popped)
    requires Valid(f)
  {
    if IsEmpty(f) then Popped(false, data, f)
    else
      var out := if f.buffer.None? then f.dummyByte else f.buffer.value[f.rdPtr];
      var g := IncRdPtr(f);
      Popped(true, out, g.(usedCount := f.usedCount - 1))
  }

  /** m_cfifo_This_ClearInternal. */
  function ClearInternal(f: Fifo): (r: Fifo)
  {
    f.(rdPtr := 0, wrPtr := 0, usedCount := 0)
  }

  /** m_cfifo_This_SetFullInternal: the region is declared full of data, as it stands. */
  function SetFullInternal(f: Fifo): (r: Fifo)
  {
    f.(rdPtr := 0, wrPtr := 0, usedCount := f.bufferSize)
  }

  /**
   m_cfifo_ConfigBuffer on a FIFO (its undefined return value is not
   modelled): install the region and its size, then SetFullInternal.
   */
  function ConfigBuffer(f: Fifo, buffer: Option<seq<u8>>, size: u16): (r: Fifo)
  {
    SetFullInternal(f.(buffer := buffer, bufferSize := size))
  }

  /** m_cfifo_SetDummyByte on a FIFO. */
  function SetDummyByte(f: Fifo, data: u8): (r: Fifo)
  {
    f.(dummyByte := data)
  }

  /** m_cfifo_InitBuffer once its semaphore exists: dummy byte 0, then ConfigBuffer(NULL, 0). */
  function Init(): (r: Fifo)
  {
    ConfigBuffer(Fifo(None, 0, 0, 0, 0, 0), None, 0)
  }

  // ---------------------------------------------------------------------------
  // Refinement of the queue
  // ---------------------------------------------------------------------------

  /** A fresh FIFO is valid, holds nothing and has no room: it is both empty and full, and refuses a push. */
  lemma InitState()
    ensures Valid(Init()) && Contents(Init()) == []
    ensures IsEmpty(Init()) && IsFull(Init())
    ensures !PushInternal(Init(), 0).ok
  {
  }

  /**
   Push appends to the queue: it succeeds exactly when a buffer is set and
   there is room; then the byte is the new last element, it is written into
   the region at the write index and nowhere else, the size and the dummy
   byte are kept and the ring stays valid; otherwise nothing changes.
   */
  lemma PushAppends(f: Fifo, data: u8)
    requires Valid(f)
    ensures var r := PushInternal(f, data);
      && Valid(r.fifo)
      && (r.ok <==> f.buffer.Some? && |Contents(f)| < f.bufferSize)
      && (r.ok ==> Contents(r.fifo) == Contents(f) + [data])
      && (r.ok ==> f.wrPtr < |f.buffer.value| && r.fifo.buffer == Some(f.buffer.value[f.wrPtr := data]))
      && (r.ok ==> r.fifo.bufferSize == f.bufferSize && r.fifo.dummyByte == f.dummyByte)
      && (!r.ok ==> r.fifo == f)
  {
    var r := PushInternal(f, data);
    if r.ok {
      PushValid(f, data);
      var q := Contents(f) + [data];
      forall i | 0 <= i < |q|
        ensures Contents(r.fifo)[i] == q[i]
      {
        PushSlot(f, data, i);
      }
    }
  }

  /** A successful push keeps the ring invariant: the write index moves one slot, wrapping. */
  lemma PushValid(f: Fifo, data: u8)
    requires Valid(f) && PushInternal(f, data).ok
    ensures Valid(PushInternal(f, data).fifo)
  {
    var n, rd: int := f.bufferSize, f.rdPtr;
    ModSmall(rd + f.usedCount, n);
    ModSmall(rd + f.usedCount + 1, n);
  }

  /** After a successful push, slot `i` of the queue holds the old byte there, or the new byte at the end. */
  lemma PushSlot(f: Fifo, data: u8, i: int)
    requires Valid(f) && PushInternal(f, data).ok && 0 <= i <= f.usedCount
    ensures Valid(PushInternal(f, data).fifo)
      && Contents(PushInternal(f, data).fifo)[i] == if i < f.usedCount then Contents(f)[i] else data
  {
    PushValid(f, data);
    var g := PushInternal(f, data).fifo;
    assert Slot(g, i) == Slot(f, i);
    SlotOf(f, i);
    SlotOf(f, f.usedCount);
    ModSmall(f.rdPtr + f.usedCount, f.bufferSize);
  }

  /**
   Pop removes the head of the queue: it succeeds exactly when the queue is
   non-empty; then `data` receives the oldest byte, the rest stays in order
   and the region, the size and the dummy byte are untouched; otherwise
   `data` and the FIFO are left alone.
   */
  lemma PopHead(f: Fifo, data: u8)
    requires Valid(f)
    ensures var r := PopInternal(f, data);
      && Valid(r.fifo)
      && (r.ok <==> Contents(f) != [])
      && (r.ok ==> r.data == Contents(f)[0] && Contents(r.fifo) == Contents(f)[1..])
      && (r.ok ==> r.fifo.buffer == f.buffer && r.fifo.bufferSize == f.bufferSize && r.fifo.dummyByte == f.dummyByte)
      && (!r.ok ==> r.data == data && r.fifo == f)
  {
    var r := PopInternal(f, data);
    if r.ok {
      PopValid(f, data);
      SlotOf(f, 0);
      var q := Contents(f)[1..];
      forall i | 0 <= i < |q|
        ensures Contents(r.fifo)[i] == q[i]
      {
        PopSlot(f, data, i);
      }
    }
  }

  /** A successful pop keeps the ring invariant: the read index moves one slot, wrapping. */
  lemma PopValid(f: Fifo, data: u8)
    requires Valid(f) && PopInternal(f, data).ok
    ensures Valid(PopInternal(f, data).fifo)
  {
    var n, rd, u: int := f.bufferSize, f.rdPtr, f.usedCount;
    var g := PopInternal(f, data).fifo;
    assert g.rdPtr == if rd + 1 == n then 0 else rd + 1;
    ModSmall(rd + u, n);
    ModSmall(g.rdPtr + (u - 1), n);
  }

  /** After a successful pop, slot `i` of the queue is slot `i + 1` of the old one. */
  lemma PopSlot(f: Fifo, data: u8, i: int)
    requires Valid(f) && PopInternal(f, data).ok && 0 <= i < f.usedCount - 1
    ensures Valid(PopInternal(f, data).fifo)
      && Contents(PopInternal(f, data).fifo)[i] == Contents(f)[i + 1]
  {
    PopValid(f, data);
    var g := PopInternal(f, data).fifo;
    SlotOf(f, i + 1);
    SlotOf(g, i);
  }

  /**
   A FIFO configured without a buffer but with a non-zero size counts as
   full of dummy bytes: pop hands out the dummy byte and still uses one up.
   */
  lemma PopWithoutBuffer(f: Fifo, data: u8)
    requires Valid(f) && f.buffer.None? && f.usedCount > 0
    ensures var r := PopInternal(f, data);
      r.ok && r.data == f.dummyByte && GetUsage(r.fifo) == f.usedCount - 1
  {
  }

  /** On a FIFO of size 0 both push and pop fail and change nothing. */
  lemma SizeZeroRefuses(f: Fifo, x: u8, data: u8)
    requires Valid(f) && f.bufferSize == 0
    ensures PushInternal(f, x) == Pushed(false, f)
    ensures PopInternal(f, data) == Popped(false, data, f)
  {
  }

  /** Clear empties the queue and keeps the region, the size and the dummy byte. */
  lemma ClearEmpties(f: Fifo)
    requires Valid(f)
    ensures var g := ClearInternal(f);
      && Valid(g) && Contents(g) == []
      && g.buffer == f.buffer && g.bufferSize == f.bufferSize && g.dummyByte == f.dummyByte
  {
  }

  /**
   SetFull leaves the region's bytes as they are and declares all of them
   queued, in region order; without a buffer the queue is `bufferSize`
   dummy bytes.
   */
  lemma SetFullContents(f: Fifo)
    requires f.buffer.Some? ==> |f.buffer.value| >= f.bufferSize
    ensures var g := SetFullInternal(f);
      && Valid(g) && g.buffer == f.buffer && IsFull(g)
      && (f.buffer.Some? ==> Contents(g) == f.buffer.value[..f.bufferSize])
      && (f.buffer.None? ==> forall i :: 0 <= i < |Contents(g)| ==> Contents(g)[i] == f.dummyByte)
  {
    var g := SetFullInternal(f);
    if f.bufferSize > 0 {
      ModSmall(f.bufferSize, f.bufferSize);
    }
    if f.buffer.Some? {
      forall i | 0 <= i < f.bufferSize
        ensures Contents(g)[i] == f.buffer.value[i]
      {
        ModSmall(i, f.bufferSize);
      }
    }
  }

  /**
   ConfigBuffer installs a region of at least `size` bytes and queues its
   first `size` bytes; without a region it queues `size` dummy bytes.
   */
  lemma ConfigBufferContents(f: Fifo, buffer: Option<seq<u8>>, size: u16)
    requires buffer.Some? ==> |buffer.value| >= size
    ensures var g := ConfigBuffer(f, buffer, size);
      && Valid(g) && g.buffer == buffer && GetSize(g) == size && GetUsage(g) == size
      && (buffer.Some? ==> Contents(g) == buffer.value[..size])
      && (buffer.None? ==> forall i :: 0 <= i < |Contents(g)| ==> Contents(g)[i] == f.dummyByte)
      && g.dummyByte == f.dummyByte
  {
    SetFullContents(f.(buffer := buffer, bufferSize := size));
  }

  /**
   Changing the dummy byte keeps a valid ring valid and changes the queue
   only when there is no buffer: then every queued byte reads as the new one.
   */
  lemma SetDummyByteContents(f: Fifo, data: u8)
    requires Valid(f)
    ensures Valid(SetDummyByte(f, data)) && |Contents(SetDummyByte(f, data))| == |Contents(f)|
    ensures f.buffer.Some? ==> Contents(SetDummyByte(f, data)) == Contents(f)
    ensures f.buffer.None? ==> forall i :: 0 <= i < |Contents(f)| ==> Contents(SetDummyByte(f, data))[i] == data
  {
  }
}
