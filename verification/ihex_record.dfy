/**
 What the decoder does with one well-formed record (components/ihex/ihex.c,
 ihex_Lexer and ihex_LexerTokenStream together): the lexer passes through
 the record mark, byte count, load offset, record type, payload and checksum
 phases, returns to waiting for a colon, and leaves behind the checksum
 verdict, one callback per data-record payload byte and the new extended base.

 Each phase is proved over any step function that follows the rows of the
 transition table it needs (IhexSteps), and the phases are composed through
 RunAppend; RecordDecode then instantiates the step with ihex_Put.
 */
module IhexRecord {
  import opened Wrappers
  import opened Bitwise
  import opened IhexTypes
  import opened IhexDigits
  import opened Ihex
  import opened IhexStream
  import opened IhexSteps

  // ---------------------------------------------------------------------------
  // The text of a record
  // ---------------------------------------------------------------------------

  /** One record as it appears on the wire; the byte count is the payload's length. */
  datatype Record = Record(loadOffset: u16, rectyp: u8, payload: seq<u8>, checkSum: u8)

  /** Two upper-case hex digits, most significant first. */
  function Hex2(v: u8): (s: seq<u8>)
    ensures |s| == 2
  {
    [HexChar(v / 16), HexChar(v % 16)]
  }

  function Hex4(v: u16): (s: seq<u8>)
    ensures |s| == 4
  {
    Hex2(v / 0x100) + Hex2(v % 0x100)
  }

  function PayloadText(p: seq<u8>): (s: seq<u8>)
    ensures |s| == 2 * |p|
  {
    if |p| == 0 then [] else Hex2(p[0]) + PayloadText(p[1..])
  }

  /** `:`, byte count, load offset and record type: the text before the payload. */
  function HeaderText(r: Record): (s: seq<u8>)
    requires |r.payload| < 0x100
    ensures |s| == 9
  {
    [COLON] + Hex2(|r.payload|) + Hex4(r.loadOffset) + Hex2(r.rectyp)
  }

  /** `:`, byte count, load offset, record type, payload and checksum, all in upper-case hex. */
  function RecordText(r: Record): (s: seq<u8>)
    requires |r.payload| < 0x100
    ensures |s| == 11 + 2 * |r.payload|
  {
    HeaderText(r) + PayloadText(r.payload) + Hex2(r.checkSum)
  }

  function Sum(s: seq<u8>): nat
  {
    if |s| == 0 then 0 else s[0] + Sum(s[1..])
  }

  /** The byte sum of every field of the record except the checksum. */
  function FieldSum(r: Record): nat
  {
    |r.payload| + r.loadOffset / 0x100 + r.loadOffset % 0x100 + r.rectyp + Sum(r.payload)
  }

  /** The record's checksum makes the byte sum of all its fields vanish modulo 256. */
  predicate ChecksumValid(r: Record)
  {
    (FieldSum(r) + r.checkSum) % 0x100 == 0
  }

  /**
   A record the decoder can take without undefined behaviour: at most 255
   payload bytes, at most two for an 02 record and at most four for an 04
   record (more would shift the base by a negative or oversized amount).
   */
  predicate Decodable(r: Record)
  {
    && |r.payload| < 0x100
    && (r.rectyp == EXTENDED_SEGMENT_ADDRESS_RECORD ==> |r.payload| <= 2)
    && (r.rectyp == EXTENDED_LINEAR_ADDRESS_RECORD ==> |r.payload| <= 4)
  }

  /** The message the last checksum digit produces. */
  function Verdict(r: Record): Message
  {
    if r.rectyp == END_OF_FILE_RECORD then End
    else if ChecksumValid(r) then Continue
    else CheckSumError
  }

  // ---------------------------------------------------------------------------
  // Payload bytes: callbacks, messages and the extended base
  // ---------------------------------------------------------------------------

  /** The callbacks of a payload whose first byte lies at address `first`. */
  function DataCalls(funcData: Option<DataCallback>, rectyp: u8, first: int, p: seq<u8>): seq<Call>
    decreases |p|
  {
    if |p| == 0 then []
    else
      (if Reports(funcData, rectyp) then [Call(Wrap32(first), p[0])] else [])
      + DataCalls(funcData, rectyp, first + 1, p[1..])
  }

  /** The messages of a payload: two per byte, the second being the consumer's answer when it is called. */
  function DataMessages(funcData: Option<DataCallback>, rectyp: u8, first: int, p: seq<u8>): seq<Message>
    decreases |p|
  {
    if |p| == 0 then []
    else
      var reply := if Reports(funcData, rectyp) then funcData.value(Wrap32(first), p[0]) else Continue;
      [Continue, reply] + DataMessages(funcData, rectyp, first + 1, p[1..])
  }

  /** The `i`-th payload byte is reported once, at `first + i` modulo 2^32; other record types report nothing. */
  lemma {:induction false} DataCallsIndexed(funcData: Option<DataCallback>, rectyp: u8, first: int, p: seq<u8>)
    ensures var c := DataCalls(funcData, rectyp, first, p);
      && (Reports(funcData, rectyp) ==>
            |c| == |p| && forall i :: 0 <= i < |p| ==> c[i] == Call(Wrap32(first + i), p[i]))
      && (!Reports(funcData, rectyp) ==> c == [])
    decreases |p|
  {
    if |p| > 0 {
      DataCallsIndexed(funcData, rectyp, first + 1, p[1..]);
      var c := DataCalls(funcData, rectyp, first, p);
      var rest := DataCalls(funcData, rectyp, first + 1, p[1..]);
      if Reports(funcData, rectyp) {
        assert c == [Call(Wrap32(first), p[0])] + rest;
        forall i | 0 <= i < |p|
          ensures c[i] == Call(Wrap32(first + i), p[i])
        {
          if i > 0 {
            assert c[i] == rest[i - 1];
            assert p[1..][i - 1] == p[i];
          }
        }
      }
    }
  }

  /**
   Each payload byte yields CONTINUE for its high digit and, for its low
   digit, the consumer's answer to that byte's callback (CONTINUE when
   nothing is called).
   */
  lemma {:induction false} DataMessagesIndexed(funcData: Option<DataCallback>, rectyp: u8, first: int, p: seq<u8>)
    ensures var m := DataMessages(funcData, rectyp, first, p);
      && |m| == 2 * |p|
      && forall i :: 0 <= i < |p| ==>
           && m[2 * i] == Continue
           && m[2 * i + 1] == (if Reports(funcData, rectyp) then funcData.value(Wrap32(first + i), p[i]) else Continue)
    decreases |p|
  {
    if |p| > 0 {
      DataMessagesIndexed(funcData, rectyp, first + 1, p[1..]);
      var m := DataMessages(funcData, rectyp, first, p);
      var rest := DataMessages(funcData, rectyp, first + 1, p[1..]);
      forall i | 0 <= i < |p|
        ensures m[2 * i] == Continue
        ensures m[2 * i + 1] == (if Reports(funcData, rectyp) then funcData.value(Wrap32(first + i), p[i]) else Continue)
      {
        if i > 0 {
          assert m[2 * i] == rest[2 * (i - 1)];
          assert m[2 * i + 1] == rest[2 * (i - 1) + 1];
          assert p[1..][i - 1] == p[i];
        }
      }
    }
  }

  /** The extended base and byte position after the payload bytes `p`: per byte of an 02/04 record, ExtendBase and a decrement. */
  function BaseFold(rectyp: u8, ext: u32, pos: u8, p: seq<u8>): (u32, u8)
    requires BaseDefined(rectyp, pos, |p|)
    decreases |p|
  {
    if |p| == 0 then (ext, pos)
    else if rectyp != EXTENDED_SEGMENT_ADDRESS_RECORD && rectyp != EXTENDED_LINEAR_ADDRESS_RECORD then (ext, pos)
    else BaseFold(rectyp, ExtendBase(rectyp, ext, pos, p[0]), Dec8(pos), p[1..])
  }

  /** A standard two-byte 02 record sets the base to the segment number times 16. */
  lemma SegmentBase(b0: u8, b1: u8)
    ensures BaseFold(EXTENDED_SEGMENT_ADDRESS_RECORD, 0, 1, [b0, b1]) == ((b0 * 0x100 + b1) * 16, 0xFF)
  {
    SegmentBaseShort(b0);
    var e := b0 * 0x100 + b1;
    assert Or32(b0 * 0x100, b1) == e by {
      Pow2Values();
      OrDisjoint(b0, b1, 8);
    }
    assert 0 <= e * 16 < 0x10_0000;
    WrapInRange(e * 16);
    assert ExtendBase(EXTENDED_SEGMENT_ADDRESS_RECORD, b0 * 0x100, 0, b1) == e * 16;
    assert [b0, b1][1..] == [b1];
    assert [b1][1..] == [];
    assert BaseFold(EXTENDED_SEGMENT_ADDRESS_RECORD, b0 * 0x100, 0, [b1]) == (e * 16, 0xFF);
  }

  /** A one-byte 02 record leaves that byte in bits 8 to 15 of the base, unshifted: the shift by 4 waits for position 0. */
  lemma SegmentBaseShort(b0: u8)
    ensures BaseFold(EXTENDED_SEGMENT_ADDRESS_RECORD, 0, 1, [b0]) == (b0 * 0x100, 0)
    ensures ExtendBase(EXTENDED_SEGMENT_ADDRESS_RECORD, 0, 1, b0) == b0 * 0x100
  {
    OrFromZero(ShiftByte(b0, 1));
    assert [b0][1..] == [];
  }

  /** A standard two-byte 04 record sets the base to the upper linear address times 65536. */
  lemma LinearBase(b0: u8, b1: u8)
    ensures BaseFold(EXTENDED_LINEAR_ADDRESS_RECORD, 0, 3, [b0, b1]) == ((b0 * 0x100 + b1) * 0x1_0000, 1)
  {
    OrFromZero(ShiftByte(b0, 3));
    assert ExtendBase(EXTENDED_LINEAR_ADDRESS_RECORD, 0, 3, b0) == b0 * 0x100_0000;
    OrHighBytes(b0, b1);
    var e := b0 * 0x100 + b1;
    assert ExtendBase(EXTENDED_LINEAR_ADDRESS_RECORD, b0 * 0x100_0000, 2, b1) == e * 0x1_0000;
    assert [b0, b1][1..] == [b1];
    assert [b1][1..] == [];
    assert BaseFold(EXTENDED_LINEAR_ADDRESS_RECORD, b0 * 0x100_0000, 2, [b1]) == (e * 0x1_0000, 1);
  }

  lemma OrFromZero(x: u32)
    ensures Or32(0, x) == x
  {

  }

  /** Bytes 3 and 2 of a 32-bit word OR-ed together hold their big-endian pair. */
  lemma OrHighBytes(b0: u8, b1: u8)
    ensures Or32(b0 * 0x100_0000, b1 * 0x1_0000) == (b0 * 0x100 + b1) * 0x1_0000
  {
    Pow2Values();
    OrDisjoint(b0, b1 * 0x1_0000, 24);
  }

  // ---------------------------------------------------------------------------
  // The phases of one record, one character at a time
  // ---------------------------------------------------------------------------

  /** The record mark. */
  lemma MarkRun(step: (Lexer, u8) --> Step, f: Option<DataCallback>, lx: Lexer)
    requires MarkRow(step)
    requires lx.state == WaitColon
    ensures RunDefined(step, lx, [COLON])
    ensures Run(step, lx, [COLON]) == Trace(Marked(lx), [Continue], [])
  {
    assert Fed(lx, COLON);
    RunOne(step, lx, COLON);
  }

  /** The two byte-count digits: the count is assembled and added to the checksum. */
  lemma CountRun(step: (Lexer, u8) --> Step, f: Option<DataCallback>, lx: Lexer, n: u8)
    requires CountHighRow(step) && CountLowRow(step)
    requires lx.state == WaitByteCount && lx.numExpected == 2 && lx.recordData.reclen == 0
    ensures RunDefined(step, lx, Hex2(n))
    ensures Run(step, lx, Hex2(n)) == Trace(
      lx.(state := WaitAddress, numExpected := NUM_ADDRESS_DIGITS, calcChkSum := Wrap8(lx.calcChkSum + n),
          recordData := lx.recordData.(reclen := n)),
      [Continue, Continue], [])
  {
    var hi, lo := n / 16, n % 16;
    HexCharValue(hi);
    HexCharValue(lo);
    var lx1 := CountHigh(lx, hi);
    assert Fed(lx, HexChar(hi));
    assert step(lx, HexChar(hi)) == Quiet(lx1);
    assert Fed(lx1, HexChar(lo));
    assert step(lx1, HexChar(lo)) == Quiet(CountLow(lx1, lo));
    RunPair(step, lx, HexChar(hi), HexChar(lo));
  }

  /** The first two load-offset digits. */
  lemma AddressHighRun(step: (Lexer, u8) --> Step, f: Option<DataCallback>, lx: Lexer, hi: u8)
    requires AddressNextRow(step)
    requires lx.state == WaitAddress && lx.numExpected == 4 && lx.recordData.loadOffset == 0
    ensures RunDefined(step, lx, Hex2(hi))
    ensures Run(step, lx, Hex2(hi)) == Trace(
      lx.(numExpected := 2, recordData := lx.recordData.(loadOffset := hi * 0x100)), [Continue, Continue], [])
  {
    var d3, d2 := hi / 16, hi % 16;
    HexCharValue(d3);
    HexCharValue(d2);
    AssembleHighByte(d3, d2);
    var lx1 := AddressNext(lx, d3);
    assert Fed(lx, HexChar(d3));
    assert step(lx, HexChar(d3)) == Quiet(lx1);
    assert Fed(lx1, HexChar(d2));
    assert step(lx1, HexChar(d2)) == Quiet(AddressNext(lx1, d2));
    RunPair(step, lx, HexChar(d3), HexChar(d2));
  }

  /** The last two load-offset digits complete the field, whose two bytes go into the checksum. */
  lemma AddressLowRun(step: (Lexer, u8) --> Step, f: Option<DataCallback>, lx: Lexer, hi: u8, lo: u8)
    requires AddressNextRow(step) && AddressLastRow(step)
    requires lx.state == WaitAddress && lx.numExpected == 2 && lx.recordData.loadOffset == hi * 0x100
    ensures RunDefined(step, lx, Hex2(lo))
    ensures var off := hi * 0x100 + lo;
      Run(step, lx, Hex2(lo)) == Trace(
        lx.(state := WaitType, numExpected := NUM_TYPE_DIGITS, calcChkSum := Wrap8(lx.calcChkSum + (hi + lo)),
            recordData := lx.recordData.(loadOffset := off)),
        [Continue, Continue], [])
  {
    var d1, d0 := lo / 16, lo % 16;
    HexCharValue(d1);
    HexCharValue(d0);
    var lx1 := AddressNext(lx, d1);
    AddressLastAfterNext(lx, hi, lo);
    assert Fed(lx, HexChar(d1));
    assert Fed(lx1, HexChar(d0));
    RunPair(step, lx, HexChar(d1), HexChar(d0));
  }

  /** The last two load-offset digits, applied in turn, complete the offset and add both of its bytes to the checksum. */
  lemma AddressLastAfterNext(lx: Lexer, hi: u8, lo: u8)
    requires lx.state == WaitAddress && lx.numExpected == 2 && lx.recordData.loadOffset == hi * 0x100
    ensures var lx1 := AddressNext(lx, lo / 16);
      && lx1.state == WaitAddress && lx1.numExpected == 1
      && AddressLast(lx1, lo % 16) == lx.(state := WaitType, numExpected := NUM_TYPE_DIGITS,
           calcChkSum := Wrap8(lx.calcChkSum + (hi + lo)), recordData := lx.recordData.(loadOffset := hi * 0x100 + lo))
  {
    AssembleLowByte(hi * 0x100, lo / 16, lo % 16);
    var off := hi * 0x100 + lo;
    assert off / 0x100 == hi && off % 0x100 == lo;
  }

  /** The four load-offset digits. */
  lemma AddressRun(step: (Lexer, u8) --> Step, f: Option<DataCallback>, lx: Lexer, off: u16)
    requires AddressNextRow(step) && AddressLastRow(step)
    requires lx.state == WaitAddress && lx.numExpected == 4 && lx.recordData.loadOffset == 0
    ensures RunDefined(step, lx, Hex4(off))
    ensures Run(step, lx, Hex4(off)) == Trace(
      lx.(state := WaitType, numExpected := NUM_TYPE_DIGITS,
          calcChkSum := Wrap8(lx.calcChkSum + (off / 0x100 + off % 0x100)),
          recordData := lx.recordData.(loadOffset := off)),
      [Continue, Continue, Continue, Continue], [])
  {
    var hi, lo := off / 0x100, off % 0x100;
    AddressHighRun(step, f, lx, hi);
    var lx1 := lx.(numExpected := 2, recordData := lx.recordData.(loadOffset := hi * 0x100));
    AddressLowRun(step, f, lx1, hi, lo);
    RunAppend(step, lx, Hex2(hi), Hex2(lo));
  }

  /** The two record-type digits. */
  lemma TypeRun(step: (Lexer, u8) --> Step, f: Option<DataCallback>, lx: Lexer, t: u8)
    requires TypeHighRow(step) && TypeLowRow(step)
    requires lx.state == WaitType && lx.numExpected == 2 && lx.recordData.rectyp == 0
    ensures RunDefined(step, lx, Hex2(t))
    ensures Run(step, lx, Hex2(t)) == Trace(TypeRead(lx, t), [Continue, Continue], [])
  {
    var hi, lo := t / 16, t % 16;
    HexCharValue(hi);
    HexCharValue(lo);
    var lx1 := TypeHigh(lx, hi);
    assert Fed(lx, HexChar(hi));
    assert step(lx, HexChar(hi)) == Quiet(lx1);
    assert Fed(lx1, HexChar(lo));
    assert step(lx1, HexChar(lo)) == Quiet(TypeRead(lx1, t));
    TypeReadFrame(lx, lx1, t);
    RunPair(step, lx, HexChar(hi), HexChar(lo));
  }

  /** TypeRead overwrites the counter and the type, so their values before it do not matter. */
  lemma TypeReadFrame(lx: Lexer, lx1: Lexer, t: u8)
    requires lx1 == lx.(numExpected := lx1.numExpected, recordData := lx.recordData.(rectyp := lx1.recordData.rectyp))
    ensures TypeRead(lx1, t) == TypeRead(lx, t)
  {
  }

  /** Both digits of one payload byte. */
  lemma ByteRun(step: (Lexer, u8) --> Step, f: Option<DataCallback>, lx: Lexer, b: u8)
    requires DataHighRow(step) && DataLowRow(step, f)
    requires lx.state == WaitData && lx.numExpected >= 2 && lx.numExpected % 2 == 0 && lx.recordData.data == 0
    requires BaseDefined(lx.recordData.rectyp, lx.extBytePos, 1)
    ensures RunDefined(step, lx, Hex2(b))
    ensures var reports := Reports(f, lx.recordData.rectyp);
      Run(step, lx, Hex2(b)) == Trace(
        ByteRead(lx, b),
        [Continue, if reports then f.value(DataAddress(lx), b) else Continue],
        if reports then [Call(DataAddress(lx), b)] else [])
  {
    var hi, lo := b / 16, b % 16;
    HexCharValue(hi);
    HexCharValue(lo);
    var lx1 := DataHigh(lx, hi);
    DataLowAfterHigh(f, lx, b);
    assert Fed(lx, HexChar(hi));
    assert Fed(lx1, HexChar(lo));
    RunPair(step, lx, HexChar(hi), HexChar(lo));
  }

  /** The low digit, from the lexer the high digit left, completes the byte as if both were read at once. */
  lemma DataLowAfterHigh(f: Option<DataCallback>, lx: Lexer, b: u8)
    requires lx.state == WaitData && lx.numExpected >= 2 && lx.numExpected % 2 == 0 && lx.recordData.data == 0
    requires BaseDefined(lx.recordData.rectyp, lx.extBytePos, 1)
    ensures var lx1, reports := DataHigh(lx, b / 16), Reports(f, lx.recordData.rectyp);
      && lx1.state == WaitData && lx1.numExpected % 2 == 1 && lx1.numExpected < 0xFFFF && lx1.recordData.data % 16 == 0
      && BaseDefined(lx1.recordData.rectyp, lx1.extBytePos, 1)
      && DataLow(lx1, f, b % 16) == Step(ByteRead(lx, b),
           if reports then f.value(DataAddress(lx), b) else Continue,
           if reports then [Call(DataAddress(lx), b)] else [])
  {
    var lx1 := DataHigh(lx, b / 16);
    assert lx1.(numExpected := lx1.numExpected + 1, recordData := lx1.recordData.(data := 0)) == lx;
    assert DataAddress(lx1) == DataAddress(lx);
  }

  /** The two checksum digits. */
  lemma SumRun(step: (Lexer, u8) --> Step, f: Option<DataCallback>, lx: Lexer, k: u8)
    requires SumHighRow(step) && SumLowRow(step)
    requires lx.state == WaitCheckSum && lx.numExpected == 2 && lx.recordData.targetCheckSum == 0
    ensures RunDefined(step, lx, Hex2(k))
    ensures var o := SumRead(lx, k);
      Run(step, lx, Hex2(k)) == Trace(o.lexer, [Continue, o.message], [])
  {
    var hi, lo := k / 16, k % 16;
    HexCharValue(hi);
    HexCharValue(lo);
    var lx1 := SumHigh(lx, hi);
    assert Fed(lx, HexChar(hi));
    assert step(lx, HexChar(hi)) == Quiet(lx1);
    assert Fed(lx1, HexChar(lo));
    assert step(lx1, HexChar(lo)) == SumRead(lx1, k);
    RunPair(step, lx, HexChar(hi), HexChar(lo));
  }

  // ---------------------------------------------------------------------------
  // The payload
  // ---------------------------------------------------------------------------

  /** The lexer after the whole payload `p`: checksum and byte offset advanced, base folded, checksum digits next. */
  function PayloadRead(lx: Lexer, p: seq<u8>): Lexer
    requires BaseDefined(lx.recordData.rectyp, lx.extBytePos, |p|)
    requires lx.recByteOffset + |p| < 0x1_0000
  {
    var base := BaseFold(lx.recordData.rectyp, lx.extOffset, lx.extBytePos, p);
    lx.(state := WaitCheckSum, numExpected := NUM_CHECK_SUM_DIGITS, calcChkSum := Wrap8(lx.calcChkSum + Sum(p)),
        recByteOffset := lx.recByteOffset + |p|, extOffset := base.0, extBytePos := base.1)
  }

  /** A payload that is not reported yields no callbacks, and its messages do not depend on its address. */
  lemma {:induction false} SilentPayload(f: Option<DataCallback>, rectyp: u8, x: int, y: int, p: seq<u8>)
    requires !Reports(f, rectyp)
    ensures DataCalls(f, rectyp, x, p) == []
    ensures DataMessages(f, rectyp, x, p) == DataMessages(f, rectyp, y, p)
    decreases |p|
  {
    if |p| > 0 {
      SilentPayload(f, rectyp, x + 1, y + 1, p[1..]);
    }
  }

  /** The first byte of a payload, then the rest from the next address (any address when nothing is reported). */
  lemma DataCons(f: Option<DataCallback>, rectyp: u8, first: int, next: int, p: seq<u8>)
    requires |p| > 0
    requires Reports(f, rectyp) ==> next == first + 1
    ensures var reports := Reports(f, rectyp);
      && DataMessages(f, rectyp, first, p)
         == [Continue, if reports then f.value(Wrap32(first), p[0]) else Continue] + DataMessages(f, rectyp, next, p[1..])
      && DataCalls(f, rectyp, first, p)
         == (if reports then [Call(Wrap32(first), p[0])] else []) + DataCalls(f, rectyp, next, p[1..])
  {
    if !Reports(f, rectyp) {
      SilentPayload(f, rectyp, first + 1, next, p[1..]);
      SilentPayload(f, rectyp, next, first + 1, p[1..]);
    }
  }

  /** One payload byte read in the payload phase, seen from the fields the rest of the payload depends on. */
  lemma ByteReadFrame(lx: Lexer, p: seq<u8>)
    requires |p| > 0 && lx.state == WaitData && lx.numExpected == 2 * |p| && lx.recordData.data == 0
    requires BaseDefined(lx.recordData.rectyp, lx.extBytePos, |p|)
    requires lx.recByteOffset + |p| < 0x1_0000
    ensures BaseDefined(lx.recordData.rectyp, lx.extBytePos, 1)
    ensures var lx1 := ByteRead(lx, p[0]);
      && lx1.recordData == lx.recordData
      && lx1.recByteOffset == lx.recByteOffset + 1
      && BaseDefined(lx1.recordData.rectyp, lx1.extBytePos, |p| - 1)
      && (|p| == 1 ==> lx1 == PayloadRead(lx, p))
      && (|p| > 1 ==> lx1.state == WaitData && lx1.numExpected == 2 * (|p| - 1))
      && (lx.recordData.rectyp == DATA_RECORD ==> lx1.extOffset == lx.extOffset)
  {
    if |p| == 1 {
      assert p[1..] == [];
      assert Sum(p) == p[0];
      var t, pos := lx.recordData.rectyp, lx.extBytePos;
      if t == EXTENDED_SEGMENT_ADDRESS_RECORD || t == EXTENDED_LINEAR_ADDRESS_RECORD {
        var ext1 := ExtendBase(t, lx.extOffset, pos, p[0]);
        assert BaseFold(t, ext1, Dec8(pos), p[1..]) == (ext1, Dec8(pos));
      }
    }
  }

  /** Reading the first byte and then the rest of a payload ends where reading the whole payload does. */
  lemma PayloadReadStep(lx: Lexer, p: seq<u8>)
    requires |p| > 1 && lx.state == WaitData && lx.numExpected == 2 * |p| && lx.recordData.data == 0
    requires BaseDefined(lx.recordData.rectyp, lx.extBytePos, |p|)
    requires lx.recByteOffset + |p| < 0x1_0000
    ensures BaseDefined(lx.recordData.rectyp, lx.extBytePos, 1)
    ensures var lx1 := ByteRead(lx, p[0]);
      && BaseDefined(lx1.recordData.rectyp, lx1.extBytePos, |p| - 1)
      && lx1.recByteOffset + |p| - 1 < 0x1_0000
      && PayloadRead(lx1, p[1..]) == PayloadRead(lx, p)
  {
    ByteReadFrame(lx, p);
    Wrap8Add(lx.calcChkSum + p[0], Sum(p[1..]));
    var t, pos := lx.recordData.rectyp, lx.extBytePos;
    if t != EXTENDED_SEGMENT_ADDRESS_RECORD && t != EXTENDED_LINEAR_ADDRESS_RECORD {
      assert BaseFold(t, lx.extOffset, pos, p[1..]) == (lx.extOffset, pos);
    }
  }

  /**
   The payload digits: two per byte, the bytes summed into the checksum, each
   byte of a data record reported at its address, and the base folded over
   the bytes of an 02/04 record.
   */
  lemma {:induction false} PayloadRun(step: (Lexer, u8) --> Step, f: Option<DataCallback>, lx: Lexer, p: seq<u8>)
    requires DataHighRow(step) && DataLowRow(step, f)
    requires |p| > 0 && lx.state == WaitData && lx.numExpected == 2 * |p| && lx.recordData.data == 0
    requires BaseDefined(lx.recordData.rectyp, lx.extBytePos, |p|)
    requires lx.recByteOffset + |p| < 0x1_0000
    ensures RunDefined(step, lx, PayloadText(p))
    ensures var first := lx.extOffset + lx.recordData.loadOffset + lx.recByteOffset;
      Run(step, lx, PayloadText(p)) == Trace(PayloadRead(lx, p),
        DataMessages(f, lx.recordData.rectyp, first, p), DataCalls(f, lx.recordData.rectyp, first, p))
    decreases |p|
  {
    ByteReadFrame(lx, p);
    ByteRun(step, f, lx, p[0]);
    var lx1 := ByteRead(lx, p[0]);
    if |p| == 1 {
      PayloadJoin(f, lx, p, Trace(lx1, [], []));
      assert PayloadText(p) == Hex2(p[0]) + [];
      RunAppend(step, lx, Hex2(p[0]), []);
    } else {
      PayloadReadStep(lx, p);
      PayloadRun(step, f, lx1, p[1..]);
      PayloadJoin(f, lx, p, Run(step, lx1, PayloadText(p[1..])));
      RunAppend(step, lx, Hex2(p[0]), PayloadText(p[1..]));
    }
  }

  /** The trace of the first payload byte followed by the trace of the rest is the trace of the whole payload. */
  lemma PayloadJoin(f: Option<DataCallback>, lx: Lexer, p: seq<u8>, rest: Trace)
    requires |p| > 0 && lx.state == WaitData && lx.numExpected == 2 * |p| && lx.recordData.data == 0
    requires BaseDefined(lx.recordData.rectyp, lx.extBytePos, |p|)
    requires lx.recByteOffset + |p| < 0x1_0000
    requires BaseDefined(lx.recordData.rectyp, lx.extBytePos, 1)
    requires var lx1 := ByteRead(lx, p[0]);
      var t, first1 := lx1.recordData.rectyp, lx1.extOffset + lx1.recordData.loadOffset + lx1.recByteOffset;
      if |p| == 1 then rest == Trace(lx1, [], [])
      else
        && BaseDefined(t, lx1.extBytePos, |p| - 1) && lx1.recByteOffset + |p| - 1 < 0x1_0000
        && rest == Trace(PayloadRead(lx1, p[1..]), DataMessages(f, t, first1, p[1..]), DataCalls(f, t, first1, p[1..]))
    ensures var t, first := lx.recordData.rectyp, lx.extOffset + lx.recordData.loadOffset + lx.recByteOffset;
      var reports := Reports(f, t);
      && rest.lexer == PayloadRead(lx, p)
      && [Continue, if reports then f.value(DataAddress(lx), p[0]) else Continue] + rest.messages
         == DataMessages(f, t, first, p)
      && (if reports then [Call(DataAddress(lx), p[0])] else []) + rest.calls == DataCalls(f, t, first, p)
  {
    ByteReadFrame(lx, p);
    var t, first := lx.recordData.rectyp, lx.extOffset + lx.recordData.loadOffset + lx.recByteOffset;
    var lx1 := ByteRead(lx, p[0]);
    var next := lx1.extOffset + lx1.recordData.loadOffset + lx1.recByteOffset;
    assert Reports(f, t) ==> next == first + 1 by {
      if Reports(f, t) {
        assert t == DATA_RECORD;
      }
    }
    assert DataAddress(lx) == Wrap32(first);
    if |p| > 1 {
      PayloadReadStep(lx, p);
    }
    JoinData(f, t, first, next, p, rest.messages, rest.calls);
  }

  /** DataCons with the rest of the payload already read into `messages` and `calls`. */
  lemma JoinData(f: Option<DataCallback>, t: u8, first: int, next: int, p: seq<u8>, messages: seq<Message>, calls: seq<Call>)
    requires |p| > 0
    requires Reports(f, t) ==> next == first + 1
    requires |p| == 1 ==> messages == [] && calls == []
    requires |p| > 1 ==> messages == DataMessages(f, t, next, p[1..]) && calls == DataCalls(f, t, next, p[1..])
    ensures var reports := Reports(f, t);
      && [Continue, if reports then f.value(Wrap32(first), p[0]) else Continue] + messages == DataMessages(f, t, first, p)
      && (if reports then [Call(Wrap32(first), p[0])] else []) + calls == DataCalls(f, t, first, p)
  {
    DataCons(f, t, first, next, p);
    if |p| == 1 {
      assert p[1..] == [];
    }
  }

  // ---------------------------------------------------------------------------
  // Whole records
  // ---------------------------------------------------------------------------

  /** The lexer once the header of `r` has been read, starting from the wait for a colon. */
  function Headed(lx: Lexer, r: Record): Lexer
    requires |r.payload| < 0x100
  {
    var n, off := |r.payload|, r.loadOffset;
    TypeRead(lx.(state := WaitType, numExpected := NUM_TYPE_DIGITS, calcChkSum := Wrap8(n + off / 0x100 + off % 0x100),
                 recByteOffset := 0, recordData := RecordData(COLON, n, off, 0, 0, 0)), r.rectyp)
  }

  /** The record mark and the two byte-count digits. */
  lemma MarkCountRun(step: (Lexer, u8) --> Step, f: Option<DataCallback>, lx: Lexer, n: u8)
    requires MarkRow(step) && CountHighRow(step) && CountLowRow(step)
    requires lx.state == WaitColon
    ensures RunDefined(step, lx, [COLON] + Hex2(n))
    ensures Run(step, lx, [COLON] + Hex2(n)) == Trace(
      lx.(state := WaitAddress, numExpected := NUM_ADDRESS_DIGITS, calcChkSum := n, recByteOffset := 0,
          recordData := RecordData(COLON, n, 0, 0, 0, 0)),
      Quiets(3), [])
  {
    MarkRun(step, f, lx);
    CountRun(step, f, Marked(lx), n);
    RunAppend(step, lx, [COLON], Hex2(n));
  }

  /** The load offset and the record type. */
  lemma OffsetTypeRun(step: (Lexer, u8) --> Step, f: Option<DataCallback>, lx: Lexer, off: u16, t: u8)
    requires AddressNextRow(step) && AddressLastRow(step) && TypeHighRow(step) && TypeLowRow(step)
    requires lx.state == WaitAddress && lx.numExpected == 4 && lx.recordData.loadOffset == 0 && lx.recordData.rectyp == 0
    ensures RunDefined(step, lx, Hex4(off) + Hex2(t))
    ensures Run(step, lx, Hex4(off) + Hex2(t)) == Trace(
      TypeRead(lx.(state := WaitType, numExpected := NUM_TYPE_DIGITS,
                   calcChkSum := Wrap8(lx.calcChkSum + (off / 0x100 + off % 0x100)),
                   recordData := lx.recordData.(loadOffset := off)), t),
      Quiets(6), [])
  {
    AddressRun(step, f, lx, off);
    var lx3 := lx.(state := WaitType, numExpected := NUM_TYPE_DIGITS,
                   calcChkSum := Wrap8(lx.calcChkSum + (off / 0x100 + off % 0x100)),
                   recordData := lx.recordData.(loadOffset := off));
    TypeRun(step, f, lx3, t);
    RunAppend(step, lx, Hex4(off), Hex2(t));
  }

  /** The whole header: nine CONTINUEs, no callback, and the lexer ready for the payload or the checksum. */
  lemma HeaderRun(step: (Lexer, u8) --> Step, f: Option<DataCallback>, lx: Lexer, r: Record)
    requires MarkRow(step) && CountHighRow(step) && CountLowRow(step) && AddressNextRow(step) && AddressLastRow(step)
    requires TypeHighRow(step) && TypeLowRow(step)
    requires lx.state == WaitColon && |r.payload| < 0x100
    ensures RunDefined(step, lx, HeaderText(r))
    ensures Run(step, lx, HeaderText(r)) == Trace(Headed(lx, r), Quiets(9), [])
  {
    var n, off, t := |r.payload|, r.loadOffset, r.rectyp;
    MarkCountRun(step, f, lx, n);
    var lx2 := lx.(state := WaitAddress, numExpected := NUM_ADDRESS_DIGITS, calcChkSum := n, recByteOffset := 0,
                   recordData := RecordData(COLON, n, 0, 0, 0, 0));
    OffsetTypeRun(step, f, lx2, off, t);
    RunAppend(step, lx, [COLON] + Hex2(n), Hex4(off) + Hex2(t));
    SeqAssoc([COLON] + Hex2(n), Hex4(off), Hex2(t));
    assert Quiets(3) + Quiets(6) == Quiets(9);
  }

  /** `k` CONTINUE messages. */
  function Quiets(k: nat): (m: seq<Message>)
    ensures |m| == k && forall i :: 0 <= i < k ==> m[i] == Continue
  {
    seq(k, i => Continue)
  }

  /** The extended base and byte position after a record: 02 and 04 restart from zero at byte position 1 and 3. */
  function RecordBase(lx: Lexer, r: Record): (u32, u8)
    requires Decodable(r)
  {
    if r.rectyp == EXTENDED_SEGMENT_ADDRESS_RECORD then BaseFold(r.rectyp, 0, 1, r.payload)
    else if r.rectyp == EXTENDED_LINEAR_ADDRESS_RECORD then BaseFold(r.rectyp, 0, 3, r.payload)
    else (lx.extOffset, lx.extBytePos)
  }

  /**
   The lexer after a whole record: waiting for the next colon, the record's
   fields stored, the running checksum negated into the value the checksum
   field should have had, and the base updated by an 02/04 record.
   */
  function RecordEnd(lx: Lexer, r: Record): Lexer
    requires Decodable(r)
  {
    var n, base := |r.payload|, RecordBase(lx, r);
    Lexer(WaitColon, 0, base.1, base.0, n, Wrap8(-(FieldSum(r) as int)), RecordData(COLON, n, r.loadOffset, r.rectyp, 0, r.checkSum))
  }

  /** The messages of a record: CONTINUE for the header, the payload's messages, CONTINUE and the verdict for the checksum. */
  function RecordMessages(f: Option<DataCallback>, lx: Lexer, r: Record): seq<Message>
  {
    Quiets(9) + DataMessages(f, r.rectyp, lx.extOffset + r.loadOffset, r.payload) + [Continue, Verdict(r)]
  }

  /** The lexer after the header, as the payload and checksum phases need it. */
  lemma HeadedFacts(lx: Lexer, r: Record)
    requires Decodable(r)
    ensures var h := Headed(lx, r);
      && h.recordData == RecordData(COLON, |r.payload|, r.loadOffset, r.rectyp, 0, 0)
      && h.recByteOffset == 0
      && (|r.payload| > 0 ==> h.state == WaitData && h.numExpected == 2 * |r.payload|)
      && (|r.payload| == 0 ==> h.state == WaitCheckSum && h.numExpected == 2)
      && BaseDefined(r.rectyp, h.extBytePos, |r.payload|)
      && BaseFold(r.rectyp, h.extOffset, h.extBytePos, r.payload) == RecordBase(lx, r)
      && (r.rectyp == DATA_RECORD ==> h.extOffset == lx.extOffset)
  {
    var t := r.rectyp;
    if |r.payload| > 0 && t != EXTENDED_SEGMENT_ADDRESS_RECORD && t != EXTENDED_LINEAR_ADDRESS_RECORD {
      var h := Headed(lx, r);
      assert BaseFold(t, h.extOffset, h.extBytePos, r.payload) == (h.extOffset, h.extBytePos);
    }
  }

  /** The running checksum after header and payload is the field sum modulo 256. */
  lemma BodyChecksum(lx: Lexer, r: Record)
    requires Decodable(r)
    ensures Wrap8(Headed(lx, r).calcChkSum + Sum(r.payload)) == Wrap8(FieldSum(r))
  {
    var off := r.loadOffset;
    var x := |r.payload| + off / 0x100 + off % 0x100;
    Wrap8Add(x, r.rectyp);
    Wrap8Add(x + r.rectyp, Sum(r.payload));
  }

  /** Negating an 8-bit sum in two's complement gives the checksum that makes the total vanish, and no other. */
  lemma ChecksumVerdict(x: int, k: u8)
    ensures Wrap8(-(Wrap8(x) as int)) == Wrap8(-x)
    ensures Wrap8(-x) == k <==> (x + k) % 0x100 == 0
  {
    var q, a := x / 0x100, (-x) / 0x100;
    assert x == q * 0x100 + Wrap8(x);
    ModShift(-x, q);
    assert -x == a * 0x100 + Wrap8(-x);
    assert x + k == (k - Wrap8(-x)) + (-a) * 0x100;
    ModShift(k - Wrap8(-x), -a);
  }

  /** Adding a multiple of 256 does not change a value modulo 256. */
  lemma ModShift(y: int, q: int)
    ensures (y + q * 0x100) % 0x100 == y % 0x100
  {
  }

  /** The lexer when the checksum digits start. */
  function BeforeSum(lx: Lexer, r: Record): Lexer
    requires Decodable(r)
  {
    HeadedFacts(lx, r);
    var h := Headed(lx, r);
    if |r.payload| == 0 then h else PayloadRead(h, r.payload)
  }

  /** The lexer when the checksum digits start, field by field. */
  lemma BeforeSumFields(lx: Lexer, r: Record)
    requires Decodable(r)
    ensures var b := BeforeSum(lx, r);
      && b.state == WaitCheckSum && b.numExpected == 2
      && b.recordData == RecordData(COLON, |r.payload|, r.loadOffset, r.rectyp, 0, 0)
      && b.recByteOffset == |r.payload|
      && b.calcChkSum == Wrap8(FieldSum(r))
      && (b.extOffset, b.extBytePos) == RecordBase(lx, r)
  {
    HeadedFacts(lx, r);
    BodyChecksum(lx, r);
  }

  /** The checksum field closes the record with its verdict. */
  lemma SumEnd(lx: Lexer, r: Record)
    requires Decodable(r)
    ensures BeforeSum(lx, r).state == WaitCheckSum && BeforeSum(lx, r).numExpected == 2
    ensures BeforeSum(lx, r).recordData.targetCheckSum == 0
    ensures SumRead(BeforeSum(lx, r), r.checkSum) == Step(RecordEnd(lx, r), Verdict(r), [])
  {
    BeforeSumFields(lx, r);
    ChecksumVerdict(FieldSum(r), r.checkSum);
  }

  /** Where the first payload byte is reported: the base the record found, since only a data record reports. */
  lemma FirstAddress(f: Option<DataCallback>, lx: Lexer, r: Record)
    requires Decodable(r)
    ensures var h, t, off := Headed(lx, r), r.rectyp, r.loadOffset;
      && DataMessages(f, t, h.extOffset + off, r.payload) == DataMessages(f, t, lx.extOffset + off, r.payload)
      && DataCalls(f, t, h.extOffset + off, r.payload) == DataCalls(f, t, lx.extOffset + off, r.payload)
  {
    HeadedFacts(lx, r);
    var h, t, off := Headed(lx, r), r.rectyp, r.loadOffset;
    if !Reports(f, t) {
      SilentPayload(f, t, h.extOffset + off, lx.extOffset + off, r.payload);
      SilentPayload(f, t, lx.extOffset + off, h.extOffset + off, r.payload);
    }
  }

  /** The payload and the checksum, from the lexer the header left. */
  lemma BodyRun(step: (Lexer, u8) --> Step, f: Option<DataCallback>, lx: Lexer, r: Record)
    requires DataHighRow(step) && DataLowRow(step, f) && SumHighRow(step) && SumLowRow(step)
    requires Decodable(r)
    ensures RunDefined(step, Headed(lx, r), PayloadText(r.payload) + Hex2(r.checkSum))
    ensures var first := lx.extOffset + r.loadOffset;
      Run(step, Headed(lx, r), PayloadText(r.payload) + Hex2(r.checkSum)) == Trace(RecordEnd(lx, r),
        DataMessages(f, r.rectyp, first, r.payload) + [Continue, Verdict(r)], DataCalls(f, r.rectyp, first, r.payload))
  {
    var h, p, k := Headed(lx, r), r.payload, r.checkSum;
    PayloadPhase(step, f, lx, r);
    SumEnd(lx, r);
    FirstAddress(f, lx, r);
    SumRun(step, f, BeforeSum(lx, r), k);
    RunAppend(step, h, PayloadText(p), Hex2(k));
  }

  /** The payload of a record, empty or not, from the lexer the header left. */
  lemma PayloadPhase(step: (Lexer, u8) --> Step, f: Option<DataCallback>, lx: Lexer, r: Record)
    requires DataHighRow(step) && DataLowRow(step, f)
    requires Decodable(r)
    ensures RunDefined(step, Headed(lx, r), PayloadText(r.payload))
    ensures var h := Headed(lx, r);
      var first := h.extOffset + r.loadOffset;
      Run(step, h, PayloadText(r.payload)) == Trace(BeforeSum(lx, r),
        DataMessages(f, r.rectyp, first, r.payload), DataCalls(f, r.rectyp, first, r.payload))
  {
    HeadedFacts(lx, r);
    if |r.payload| > 0 {
      PayloadRun(step, f, Headed(lx, r), r.payload);
    }
  }

  /**
   One well-formed record fed to a step that follows the table, from the wait
   for a colon: the lexer ends as RecordEnd says, the messages are CONTINUE up
   to the verdict on the last character, and the callbacks are the payload's.
   */
  lemma RecordRun(step: (Lexer, u8) --> Step, f: Option<DataCallback>, lx: Lexer, r: Record)
    requires Decodes(step, f)
    requires lx.state == WaitColon && Decodable(r)
    ensures RunDefined(step, lx, RecordText(r))
    ensures Run(step, lx, RecordText(r)) == Trace(RecordEnd(lx, r), RecordMessages(f, lx, r),
      DataCalls(f, r.rectyp, lx.extOffset + r.loadOffset, r.payload))
  {
    var body := PayloadText(r.payload) + Hex2(r.checkSum);
    HeaderRun(step, f, lx, r);
    BodyRun(step, f, lx, r);
    RunAppend(step, lx, HeaderText(r), body);
    SeqAssoc(HeaderText(r), PayloadText(r.payload), Hex2(r.checkSum));
    assert RecordText(r) == HeaderText(r) + body;
    var dm := DataMessages(f, r.rectyp, lx.extOffset + r.loadOffset, r.payload);
    SeqAssoc(Quiets(9), dm, [Continue, Verdict(r)]);
    assert RecordMessages(f, lx, r) == Quiets(9) + (dm + [Continue, Verdict(r)]);
  }

  /**
   ihex_Put fed one well-formed record, character by character, with its hex
   digits written in either case.
   */
  lemma RecordDecode(rd: Reader, r: Record, t: seq<u8>)
    requires rd.lexer.state == WaitColon && Decodable(r)
    requires Respells(t, RecordText(r))
    ensures FeedDefined(rd, t)
    ensures Feed(rd, t) == Trace(RecordEnd(rd.lexer, r), RecordMessages(rd.funcData, rd.lexer, r),
      DataCalls(rd.funcData, r.rectyp, rd.lexer.extOffset + r.loadOffset, r.payload))
  {
    PutFollowsTable(rd.funcData);
    RecordRun(PutStep(rd.funcData), rd.funcData, rd.lexer, r);
    FeedRespelled(rd, t, RecordText(r));
  }

  // ---------------------------------------------------------------------------
  // What one record does, as its consumer and its next record see it
  // ---------------------------------------------------------------------------

  /**
   The messages of one record position by position: CONTINUE for every
   character but the payload bytes' low digits, which carry the consumer's
   answer for the byte at the base plus the load offset plus its index, and
   the last checksum digit, which carries the verdict.
   */
  lemma RecordMessagesIndexed(f: Option<DataCallback>, lx: Lexer, r: Record)
    ensures var m, n := RecordMessages(f, lx, r), |r.payload|;
      && |m| == 11 + 2 * n
      && (forall i :: 0 <= i < 9 ==> m[i] == Continue)
      && (forall j :: 0 <= j < n ==>
            && m[9 + 2 * j] == Continue
            && m[10 + 2 * j] == (if Reports(f, r.rectyp)
                                 then f.value(Wrap32(lx.extOffset + r.loadOffset + j), r.payload[j])
                                 else Continue))
      && m[9 + 2 * n] == Continue
      && m[10 + 2 * n] == Verdict(r)
  {
    var first := lx.extOffset + r.loadOffset;
    var dm := DataMessages(f, r.rectyp, first, r.payload);
    DataMessagesIndexed(f, r.rectyp, first, r.payload);
    var m := RecordMessages(f, lx, r);
    assert m == Quiets(9) + dm + [Continue, Verdict(r)];
    forall j | 0 <= j < |r.payload|
      ensures m[9 + 2 * j] == dm[2 * j] && m[10 + 2 * j] == dm[2 * j + 1]
    {
    }
  }

  /**
   The lexer after one record waits for the next colon, with the extended
   base unchanged unless the record was 02 or 04; a standard two-byte 02
   record sets it to the segment base times 16, a two-byte 04 record to the
   upper linear address times 65536.
   */
  lemma RecordEndBase(lx: Lexer, r: Record)
    requires Decodable(r)
    ensures var e, p := RecordEnd(lx, r), r.payload;
      && e.state == WaitColon
      && (r.rectyp != EXTENDED_SEGMENT_ADDRESS_RECORD && r.rectyp != EXTENDED_LINEAR_ADDRESS_RECORD ==>
            e.extOffset == lx.extOffset)
      && (r.rectyp == EXTENDED_SEGMENT_ADDRESS_RECORD && |p| == 2 ==> e.extOffset == (p[0] as int * 0x100 + p[1]) * 16)
      && (r.rectyp == EXTENDED_LINEAR_ADDRESS_RECORD && |p| == 2 ==> e.extOffset == (p[0] as int * 0x100 + p[1]) * 0x1_0000)
  {
    var p := r.payload;
    if |p| == 2 {
      assert p == [p[0], p[1]];
      SegmentBase(p[0], p[1]);
      LinearBase(p[0], p[1]);
    }
  }
}
