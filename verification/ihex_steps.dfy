/**
 The transition table of the decoder for the characters of well-formed
 records (components/ihex/ihex.c, ihex_Lexer and ihex_LexerTokenStream):
 for each state and each kind of character, the lexer that follows, the
 message returned and the callbacks made.

 The table is a reference definition written field by field; PutFollowsTable
 proves ihex_Put meets it. Reasoning about whole records then uses only the
 table (Decodes), never the body of ihex_Put.
 */
module IhexSteps {
  import opened Wrappers
  import opened Bitwise
  import opened IhexTypes
  import opened IhexDigits
  import opened Ihex
  import opened IhexStream

  // ---------------------------------------------------------------------------
  // The table
  // ---------------------------------------------------------------------------

  /** The lexer once the record mark has been read: every record field zero, checksum and byte offset reset. */
  function Marked(lx: Lexer): Lexer
  {
    lx.(state := WaitByteCount, numExpected := NUM_BYTE_COUNT_DIGITS, calcChkSum := 0, recByteOffset := 0,
        recordData := RecordData(COLON, 0, 0, 0, 0, 0))
  }

  /** The first byte-count digit `d` lands in the high nibble. */
  function CountHigh(lx: Lexer, d: nat): Lexer
    requires d < 16
  {
    lx.(numExpected := 1, recordData := lx.recordData.(reclen := 16 * d))
  }

  /** The second byte-count digit completes the count, which goes into the checksum; the load offset follows. */
  function CountLow(lx: Lexer, d: nat): Lexer
    requires d < 16 && lx.recordData.reclen % 16 == 0
  {
    var n := lx.recordData.reclen + d;
    lx.(state := WaitAddress, numExpected := NUM_ADDRESS_DIGITS, calcChkSum := Wrap8(lx.calcChkSum + n),
        recordData := lx.recordData.(reclen := n))
  }

  /** One of the first three load-offset digits is inserted at the position the counter names. */
  function AddressNext(lx: Lexer, d: nat): Lexer
    requires d < 16 && 2 <= lx.numExpected <= 4
  {
    var pos := lx.numExpected - 1;
    lx.(numExpected := pos, recordData := lx.recordData.(loadOffset := InsertDigit(lx.recordData.loadOffset, d, pos)))
  }

  /** The last load-offset digit completes the field: both of its bytes go into the checksum. */
  function AddressLast(lx: Lexer, d: nat): Lexer
    requires d < 16
  {
    var off := InsertDigit(lx.recordData.loadOffset, d, 0);
    lx.(state := WaitType, numExpected := NUM_TYPE_DIGITS,
        calcChkSum := Wrap8(lx.calcChkSum + (off / 0x100 + off % 0x100)),
        recordData := lx.recordData.(loadOffset := off))
  }

  function TypeHigh(lx: Lexer, d: nat): Lexer
    requires d < 16
  {
    lx.(numExpected := 1, recordData := lx.recordData.(rectyp := 16 * d))
  }

  /**
   The lexer once the record type `t` has been read: the type goes into the
   checksum, an 02 or 04 record clears the base and sets the starting byte
   position, and the payload (or, without one, the checksum) comes next.
   */
  function TypeRead(lx: Lexer, t: u8): Lexer
  {
    var lx1 := lx.(calcChkSum := Wrap8(lx.calcChkSum + t), recordData := lx.recordData.(rectyp := t, data := 0));
    var lx2 :=
      if t == EXTENDED_SEGMENT_ADDRESS_RECORD then lx1.(extOffset := 0, extBytePos := 1)
      else if t == EXTENDED_LINEAR_ADDRESS_RECORD then lx1.(extOffset := 0, extBytePos := 3)
      else lx1;
    if lx.recordData.reclen > 0 then lx2.(state := WaitData, numExpected := 2 * lx.recordData.reclen)
    else lx2.(state := WaitCheckSum, numExpected := NUM_CHECK_SUM_DIGITS)
  }

  /** The high digit of a payload byte is only stored. */
  function DataHigh(lx: Lexer, d: nat): Lexer
    requires d < 16 && lx.numExpected >= 1
  {
    lx.(numExpected := lx.numExpected - 1, recordData := lx.recordData.(data := 16 * d))
  }

  /** Payload bytes of this record type reach the consumer. */
  predicate Reports(funcData: Option<DataCallback>, rectyp: u8)
  {
    rectyp == DATA_RECORD && funcData.Some?
  }

  /** An 02/04 payload of `n` more bytes keeps the byte position between 0 and 3 for each of them. */
  predicate BaseDefined(rectyp: u8, pos: u8, n: nat)
  {
    (rectyp == EXTENDED_SEGMENT_ADDRESS_RECORD || rectyp == EXTENDED_LINEAR_ADDRESS_RECORD)
      ==> n == 0 || (pos <= 3 && n <= pos + 1)
  }

  /** The token interpreter's update for one payload byte: checksum, byte offset and, for 02/04, the base. */
  function ByteCounted(lx: Lexer, b: u8): Lexer
    requires BaseDefined(lx.recordData.rectyp, lx.extBytePos, 1)
  {
    var rectyp := lx.recordData.rectyp;
    var baseRecord := rectyp == EXTENDED_SEGMENT_ADDRESS_RECORD || rectyp == EXTENDED_LINEAR_ADDRESS_RECORD;
    lx.(calcChkSum := Wrap8(lx.calcChkSum + b), recByteOffset := Wrap16(lx.recByteOffset + 1),
        extOffset := if baseRecord then ExtendBase(rectyp, lx.extOffset, lx.extBytePos, b) else lx.extOffset,
        extBytePos := if baseRecord then Dec8(lx.extBytePos) else lx.extBytePos)
  }

  /** The lexer once one payload byte `b` has been read (both digits): the checksum phase follows the last byte. */
  function ByteRead(lx: Lexer, b: u8): Lexer
    requires lx.numExpected >= 2
    requires BaseDefined(lx.recordData.rectyp, lx.extBytePos, 1)
  {
    var lx1 := ByteCounted(lx.(numExpected := lx.numExpected - 2), b);
    if lx1.numExpected == 0 then lx1.(state := WaitCheckSum, numExpected := NUM_CHECK_SUM_DIGITS) else lx1
  }

  /** The low digit completes a payload byte: a data record's byte goes to the consumer, whose answer is returned. */
  function DataLow(lx: Lexer, f: Option<DataCallback>, d: nat): Step
    requires d < 16 && lx.numExpected % 2 == 1 && lx.numExpected < 0xFFFF && lx.recordData.data % 16 == 0
    requires BaseDefined(lx.recordData.rectyp, lx.extBytePos, 1)
  {
    var b := lx.recordData.data + d;
    var reports := Reports(f, lx.recordData.rectyp);
    Step(ByteRead(lx.(numExpected := lx.numExpected + 1, recordData := lx.recordData.(data := 0)), b),
         if reports then f.value(DataAddress(lx), b) else Continue,
         if reports then [Call(DataAddress(lx), b)] else [])
  }

  function SumHigh(lx: Lexer, d: nat): Lexer
    requires d < 16
  {
    lx.(numExpected := 1, recordData := lx.recordData.(targetCheckSum := 16 * d))
  }

  /**
   The checksum field `k` is complete: the running sum is negated into its
   two's complement, and the record ends with END for an 01 record, a
   checksum error when the negated sum differs from `k`, and CONTINUE
   otherwise. The decoder waits for the next colon.
   */
  function SumRead(lx: Lexer, k: u8): Step
  {
    var negated := Wrap8(-(lx.calcChkSum as int));
    var message :=
      if lx.recordData.rectyp == END_OF_FILE_RECORD then End
      else if negated != k then CheckSumError
      else Continue;
    Step(lx.(state := WaitColon, numExpected := 0, calcChkSum := negated, recordData := lx.recordData.(targetCheckSum := k)),
         message, [])
  }

  // ---------------------------------------------------------------------------
  // A step function that follows the table
  // ---------------------------------------------------------------------------

  /** A quiet transition: CONTINUE, no callback. */
  function Quiet(lx: Lexer): Step
  {
    Step(lx, Continue, [])
  }

  /**
   Marks the application of a step to `c` in state `lx`. The rows below are
   instantiated only where a proof names the character it feeds, never by
   the unfolding of a whole run.
   */
  ghost predicate Fed(lx: Lexer, c: u8)
  {
    true
  }

  /** The record mark starts a record. */
  ghost predicate MarkRow(step: (Lexer, u8) --> Step)
  {
    forall lx: Lexer {:trigger Fed(lx, COLON)} ::
      Fed(lx, COLON) && lx.state == WaitColon ==> Applies(step, lx, COLON) && step(lx, COLON) == Quiet(Marked(lx))
  }

  ghost predicate CountHighRow(step: (Lexer, u8) --> Step)
  {
    forall lx: Lexer, c: u8 {:trigger Fed(lx, c)} ::
      Fed(lx, c) && CharToValue(c) >= 0 && lx.state == WaitByteCount && lx.numExpected == 2 && lx.recordData.reclen == 0 ==>
      Applies(step, lx, c) && step(lx, c) == Quiet(CountHigh(lx, CharToValue(c)))
  }

  ghost predicate CountLowRow(step: (Lexer, u8) --> Step)
  {
    forall lx: Lexer, c: u8 {:trigger Fed(lx, c)} ::
      Fed(lx, c) && CharToValue(c) >= 0 && lx.state == WaitByteCount && lx.numExpected == 1 && lx.recordData.reclen % 16 == 0 ==>
      Applies(step, lx, c) && step(lx, c) == Quiet(CountLow(lx, CharToValue(c)))
  }

  ghost predicate AddressNextRow(step: (Lexer, u8) --> Step)
  {
    forall lx: Lexer, c: u8 {:trigger Fed(lx, c)} ::
      Fed(lx, c) && CharToValue(c) >= 0 && lx.state == WaitAddress && 2 <= lx.numExpected <= 4 ==>
      Applies(step, lx, c) && step(lx, c) == Quiet(AddressNext(lx, CharToValue(c)))
  }

  ghost predicate AddressLastRow(step: (Lexer, u8) --> Step)
  {
    forall lx: Lexer, c: u8 {:trigger Fed(lx, c)} ::
      Fed(lx, c) && CharToValue(c) >= 0 && lx.state == WaitAddress && lx.numExpected == 1 ==>
      Applies(step, lx, c) && step(lx, c) == Quiet(AddressLast(lx, CharToValue(c)))
  }

  ghost predicate TypeHighRow(step: (Lexer, u8) --> Step)
  {
    forall lx: Lexer, c: u8 {:trigger Fed(lx, c)} ::
      Fed(lx, c) && CharToValue(c) >= 0 && lx.state == WaitType && lx.numExpected == 2 && lx.recordData.rectyp == 0 ==>
      Applies(step, lx, c) && step(lx, c) == Quiet(TypeHigh(lx, CharToValue(c)))
  }

  ghost predicate TypeLowRow(step: (Lexer, u8) --> Step)
  {
    forall lx: Lexer, c: u8 {:trigger Fed(lx, c)} ::
      Fed(lx, c) && CharToValue(c) >= 0 && lx.state == WaitType && lx.numExpected == 1 && lx.recordData.rectyp % 16 == 0 ==>
      Applies(step, lx, c) && step(lx, c) == Quiet(TypeRead(lx, lx.recordData.rectyp + CharToValue(c)))
  }

  ghost predicate DataHighRow(step: (Lexer, u8) --> Step)
  {
    forall lx: Lexer, c: u8 {:trigger Fed(lx, c)} ::
      Fed(lx, c) && CharToValue(c) >= 0 && lx.state == WaitData && lx.numExpected >= 2 && lx.numExpected % 2 == 0 && lx.recordData.data == 0 ==>
      Applies(step, lx, c) && step(lx, c) == Quiet(DataHigh(lx, CharToValue(c)))
  }

  ghost predicate DataLowRow(step: (Lexer, u8) --> Step, f: Option<DataCallback>)
  {
    forall lx: Lexer, c: u8 {:trigger Fed(lx, c)} ::
      Fed(lx, c) && CharToValue(c) >= 0 && lx.state == WaitData && lx.numExpected % 2 == 1 && lx.numExpected < 0xFFFF
      && lx.recordData.data % 16 == 0 && BaseDefined(lx.recordData.rectyp, lx.extBytePos, 1) ==>
      Applies(step, lx, c) && step(lx, c) == DataLow(lx, f, CharToValue(c))
  }

  ghost predicate SumHighRow(step: (Lexer, u8) --> Step)
  {
    forall lx: Lexer, c: u8 {:trigger Fed(lx, c)} ::
      Fed(lx, c) && CharToValue(c) >= 0 && lx.state == WaitCheckSum && lx.numExpected == 2 && lx.recordData.targetCheckSum == 0 ==>
      Applies(step, lx, c) && step(lx, c) == Quiet(SumHigh(lx, CharToValue(c)))
  }

  ghost predicate SumLowRow(step: (Lexer, u8) --> Step)
  {
    forall lx: Lexer, c: u8 {:trigger Fed(lx, c)} ::
      Fed(lx, c) && CharToValue(c) >= 0 && lx.state == WaitCheckSum && lx.numExpected == 1 && lx.recordData.targetCheckSum % 16 == 0 ==>
      Applies(step, lx, c) && step(lx, c) == SumRead(lx, lx.recordData.targetCheckSum + CharToValue(c))
  }

  /** `step` behaves as the table says on every row, with `f` as the consumer. */
  ghost predicate Decodes(step: (Lexer, u8) --> Step, f: Option<DataCallback>)
  {
    && MarkRow(step) && CountHighRow(step) && CountLowRow(step) && AddressNextRow(step) && AddressLastRow(step)
    && TypeHighRow(step) && TypeLowRow(step) && DataHighRow(step) && DataLowRow(step, f)
    && SumHighRow(step) && SumLowRow(step)
  }

  // ---------------------------------------------------------------------------
  // ihex_Put follows the table
  // ---------------------------------------------------------------------------

  lemma PutMarks(f: Option<DataCallback>)
    ensures MarkRow(PutStep(f))
  {
    forall lx: Lexer | lx.state == WaitColon
      ensures Applies(PutStep(f), lx, COLON) && PutStep(f)(lx, COLON) == Quiet(Marked(lx))
    {
      assert IsValidData(COLON) && CharToValue(COLON) < 0;
    }
  }

  lemma PutCountHigh(f: Option<DataCallback>)
    ensures CountHighRow(PutStep(f))
  {
    forall lx: Lexer, c: u8 | CharToValue(c) >= 0 && lx.state == WaitByteCount && lx.numExpected == 2 && lx.recordData.reclen == 0
      ensures Applies(PutStep(f), lx, c) && PutStep(f)(lx, c) == Quiet(CountHigh(lx, CharToValue(c)))
    {
      AssembleTwo(CharToValue(c), 0);
      DecrementedPositive(lx);
      PutDigit(Reader(lx, f), c);
    }
  }

  lemma PutCountLow(f: Option<DataCallback>)
    ensures CountLowRow(PutStep(f))
  {
    forall lx: Lexer, c: u8 | CharToValue(c) >= 0 && lx.state == WaitByteCount && lx.numExpected == 1 && lx.recordData.reclen % 16 == 0
      ensures Applies(PutStep(f), lx, c) && PutStep(f)(lx, c) == Quiet(CountLow(lx, CharToValue(c)))
    {
      CountLowField(lx, f, CharToValue(c));
      DecrementedPositive(lx);
      PutDigit(Reader(lx, f), c);
    }
  }

  lemma PutAddressNext(f: Option<DataCallback>)
    ensures AddressNextRow(PutStep(f))
  {
    forall lx: Lexer, c: u8 | CharToValue(c) >= 0 && lx.state == WaitAddress && 2 <= lx.numExpected <= 4
      ensures Applies(PutStep(f), lx, c) && PutStep(f)(lx, c) == Quiet(AddressNext(lx, CharToValue(c)))
    {
      DecrementedPositive(lx);
      PutDigit(Reader(lx, f), c);
    }
  }

  lemma PutAddressLast(f: Option<DataCallback>)
    ensures AddressLastRow(PutStep(f))
  {
    forall lx: Lexer, c: u8 | CharToValue(c) >= 0 && lx.state == WaitAddress && lx.numExpected == 1
      ensures Applies(PutStep(f), lx, c) && PutStep(f)(lx, c) == Quiet(AddressLast(lx, CharToValue(c)))
    {
      DecrementedPositive(lx);
      PutDigit(Reader(lx, f), c);
    }
  }

  lemma PutTypeHigh(f: Option<DataCallback>)
    ensures TypeHighRow(PutStep(f))
  {
    forall lx: Lexer, c: u8 | CharToValue(c) >= 0 && lx.state == WaitType && lx.numExpected == 2 && lx.recordData.rectyp == 0
      ensures Applies(PutStep(f), lx, c) && PutStep(f)(lx, c) == Quiet(TypeHigh(lx, CharToValue(c)))
    {
      AssembleTwo(CharToValue(c), 0);
      DecrementedPositive(lx);
      PutDigit(Reader(lx, f), c);
    }
  }

  lemma PutTypeLow(f: Option<DataCallback>)
    ensures TypeLowRow(PutStep(f))
  {
    forall lx: Lexer, c: u8 | CharToValue(c) >= 0 && lx.state == WaitType && lx.numExpected == 1 && lx.recordData.rectyp % 16 == 0
      ensures Applies(PutStep(f), lx, c) && PutStep(f)(lx, c) == Quiet(TypeRead(lx, lx.recordData.rectyp + CharToValue(c)))
    {
      TypeLowField(lx, f, CharToValue(c));
      DecrementedPositive(lx);
      PutDigit(Reader(lx, f), c);
    }
  }

  lemma PutDataHigh(f: Option<DataCallback>)
    ensures DataHighRow(PutStep(f))
  {
    forall lx: Lexer, c: u8 | CharToValue(c) >= 0 && lx.state == WaitData && lx.numExpected >= 2 && lx.numExpected % 2 == 0
        && lx.recordData.data == 0
      ensures Applies(PutStep(f), lx, c) && PutStep(f)(lx, c) == Quiet(DataHigh(lx, CharToValue(c)))
    {
      AssembleTwo(CharToValue(c), 0);
      DecrementedPositive(lx);
      PutDigit(Reader(lx, f), c);
    }
  }

  lemma PutDataLow(f: Option<DataCallback>)
    ensures DataLowRow(PutStep(f), f)
  {
    forall lx: Lexer, c: u8 | CharToValue(c) >= 0 && lx.state == WaitData && lx.numExpected % 2 == 1 && lx.numExpected < 0xFFFF
        && lx.recordData.data % 16 == 0 && BaseDefined(lx.recordData.rectyp, lx.extBytePos, 1)
      ensures Applies(PutStep(f), lx, c) && PutStep(f)(lx, c) == DataLow(lx, f, CharToValue(c))
    {
      DataLowField(lx, f, CharToValue(c));
      DecrementedPositive(lx);
      PutDigit(Reader(lx, f), c);
    }
  }

  lemma PutSumHigh(f: Option<DataCallback>)
    ensures SumHighRow(PutStep(f))
  {
    forall lx: Lexer, c: u8 | CharToValue(c) >= 0 && lx.state == WaitCheckSum && lx.numExpected == 2 && lx.recordData.targetCheckSum == 0
      ensures Applies(PutStep(f), lx, c) && PutStep(f)(lx, c) == Quiet(SumHigh(lx, CharToValue(c)))
    {
      AssembleTwo(CharToValue(c), 0);
      DecrementedPositive(lx);
      PutDigit(Reader(lx, f), c);
    }
  }

  lemma PutSumLow(f: Option<DataCallback>)
    ensures SumLowRow(PutStep(f))
  {
    forall lx: Lexer, c: u8 | CharToValue(c) >= 0 && lx.state == WaitCheckSum && lx.numExpected == 1 && lx.recordData.targetCheckSum % 16 == 0
      ensures Applies(PutStep(f), lx, c) && PutStep(f)(lx, c) == SumRead(lx, lx.recordData.targetCheckSum + CharToValue(c))
    {
      SumLowField(lx, f, CharToValue(c));
      DecrementedPositive(lx);
      PutDigit(Reader(lx, f), c);
    }
  }

  /** ihex_Put, with any consumer, follows every row of the table. */
  lemma PutFollowsTable(f: Option<DataCallback>)
    ensures Decodes(PutStep(f), f)
  {
    PutMarks(f);
    PutCountHigh(f);
    PutCountLow(f);
    PutAddressNext(f);
    PutAddressLast(f);
    PutTypeHigh(f);
    PutTypeLow(f);
    PutDataHigh(f);
    PutDataLow(f);
    PutSumHigh(f);
    PutSumLow(f);
  }

  /** ihex_LexerTokenStream on a completed payload byte, in terms of ByteCounted and Reports. */
  lemma ByteToken(lx: Lexer, f: Option<DataCallback>, b: u8)
    requires BaseDefined(lx.recordData.rectyp, lx.extBytePos, 1)
    ensures var reports := Reports(f, lx.recordData.rectyp);
      var o := TokenStream(lx, f, DataByte, b);
      && o.lexer == ByteCounted(lx, b)
      && o.message == (if reports then f.value(DataAddress(lx), b) else Continue)
      && o.calls == (if reports then [Call(DataAddress(lx), b)] else [])
  {
  }

  /** The last record-type digit, at the level of the field lexer. */
  lemma TypeLowField(lx: Lexer, f: Option<DataCallback>, d: nat)
    requires d < 16 && lx.state == WaitType && lx.numExpected == 1 && lx.recordData.rectyp % 16 == 0
    ensures LexType(lx, f, d) == Quiet(TypeRead(lx, lx.recordData.rectyp + d))
  {
    var t := lx.recordData.rectyp + d;
    LowDigitValue(lx.recordData.rectyp, d);
    assert Wrap8(InsertDigit(lx.recordData.rectyp, d, 0)) == t;
    var lx2 := lx.(numExpected := 0, recordData := lx.recordData.(rectyp := t));
    var o := TokenStream(lx2, f, RecTyp, t);
    assert o.message == Continue && o.calls == [];
  }

  /** The last byte-count digit, at the level of the byte-count lexer. */
  lemma CountLowField(lx: Lexer, f: Option<DataCallback>, d: nat)
    requires d < 16 && lx.state == WaitByteCount && lx.numExpected == 1 && lx.recordData.reclen % 16 == 0
    ensures LexByteCount(lx, f, d) == Quiet(CountLow(lx, d))
  {
    var n := lx.recordData.reclen + d;
    DecrementedPositive(lx);
    LowDigitValue(lx.recordData.reclen, d);
    assert Wrap8(InsertDigit(lx.recordData.reclen, d, 0)) == n;
    var lx2 := lx.(numExpected := 0, recordData := lx.recordData.(reclen := n));
    var o := TokenStream(lx2, f, RecLen, n);
    assert o == Quiet(lx2.(calcChkSum := Wrap8(lx.calcChkSum + n)));
  }

  /** The last checksum digit, at the level of the checksum lexer. */
  lemma SumLowField(lx: Lexer, f: Option<DataCallback>, d: nat)
    requires d < 16 && lx.state == WaitCheckSum && lx.numExpected == 1 && lx.recordData.targetCheckSum % 16 == 0
    ensures LexCheckSum(lx, f, d) == SumRead(lx, lx.recordData.targetCheckSum + d)
  {
    var k := lx.recordData.targetCheckSum + d;
    DecrementedPositive(lx);
    LowDigitValue(lx.recordData.targetCheckSum, d);
    assert Wrap8(InsertDigit(lx.recordData.targetCheckSum, d, 0)) == k;
    var lx2 := lx.(numExpected := 0, recordData := lx.recordData.(targetCheckSum := k));
    var o := TokenStream(lx2, f, ChkSum, k);
    assert o.lexer.(state := WaitColon) == SumRead(lx, k).lexer;
  }

  /** The low digit of a payload byte, at the level of the payload lexer. */
  lemma DataLowField(lx: Lexer, f: Option<DataCallback>, d: nat)
    requires d < 16 && lx.state == WaitData && lx.numExpected % 2 == 1 && lx.numExpected < 0xFFFF
    requires lx.recordData.data % 16 == 0 && BaseDefined(lx.recordData.rectyp, lx.extBytePos, 1)
    ensures LexData(lx, f, d) == DataLow(lx, f, d)
  {
    var b := lx.recordData.data + d;
    var lx2 := lx.(numExpected := lx.numExpected - 1, recordData := lx.recordData.(data := b));
    var lx0 := lx2.(recordData := lx2.recordData.(data := 0));
    LexDataLow(lx, f, d);
    ByteToken(lx2, f, b);
    ByteCountedClear(lx2, b);
    assert lx0.(numExpected := lx2.numExpected + 2) == lx.(numExpected := lx.numExpected + 1, recordData := lx.recordData.(data := 0));
    assert DataAddress(lx2) == DataAddress(lx);
  }

  /** LexData on the low digit of a byte: the completed byte goes to the token interpreter and is then cleared. */
  lemma LexDataLow(lx: Lexer, f: Option<DataCallback>, d: nat)
    requires d < 16 && lx.state == WaitData && lx.numExpected % 2 == 1 && lx.numExpected < 0xFFFF
    requires lx.recordData.data % 16 == 0 && BaseDefined(lx.recordData.rectyp, lx.extBytePos, 1)
    ensures var b := lx.recordData.data + d;
      var lx2 := lx.(numExpected := lx.numExpected - 1, recordData := lx.recordData.(data := b));
      var o := TokenStream(lx2, f, DataByte, b);
      var lx3 := o.lexer.(recordData := o.lexer.recordData.(data := 0));
      LexData(lx, f, d)
        == Step(if lx3.numExpected == 0 then lx3.(state := WaitCheckSum, numExpected := NUM_CHECK_SUM_DIGITS) else lx3,
                o.message, o.calls)
  {
    DecrementedPositive(lx);
    LowDigitValue(lx.recordData.data, d);
  }

  /** Clearing the byte accumulator commutes with the token interpreter's update. */
  lemma ByteCountedClear(lx: Lexer, b: u8)
    requires lx.numExpected < 0xFFFE
    requires BaseDefined(lx.recordData.rectyp, lx.extBytePos, 1)
    ensures var lx0 := lx.(recordData := lx.recordData.(data := 0));
      var counted := ByteCounted(lx0, b);
      && ByteCounted(lx, b).(recordData := lx0.recordData) == counted
      && ByteRead(lx0.(numExpected := lx.numExpected + 2), b)
         == if counted.numExpected == 0 then counted.(state := WaitCheckSum, numExpected := NUM_CHECK_SUM_DIGITS) else counted
  {
  }

  /** The low digit inserted into a value whose low nibble is clear. */
  lemma LowDigitValue(x: u8, d: nat)
    requires d < 16 && x % 16 == 0
    ensures Wrap8(InsertDigit(x, d, 0)) == x + d
  {
  }
}
