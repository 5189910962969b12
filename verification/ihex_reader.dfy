/**
 The per-character Intel HEX decoder (components/ihex/ihex.c): the token
 interpreter (ihex_LexerTokenStream), the field lexer (ihex_Lexer), the entry
 point (ihex_Put) and the two set-up calls (ihex_Init, ihex_Begin).

 Every step is a pure function from the old reader state and one input byte
 to the new lexer state, the returned message and the callback invocations
 the step made (at most one).
 */
module Ihex {
  import opened Wrappers
  import opened Bitwise
  import opened IhexTypes
  import opened IhexDigits

  const NUM_BYTE_COUNT_DIGITS: u16 := 2
  const NUM_ADDRESS_DIGITS: u16 := 4
  const NUM_TYPE_DIGITS: u16 := 2
  const NUM_CHECK_SUM_DIGITS: u16 := 2

  /** ihex_Init: bind the consumer callback (null allowed); nothing else is touched. */
  function Init(rd: Reader, funcData: Option<DataCallback>): (r: Reader)
    ensures r.lexer == rd.lexer && r.funcData == funcData
  {
    Reader(rd.lexer, funcData)
  }

  /** ihex_Begin: back to waiting for a record mark with a zero base; all other fields keep their values. */
  function Begin(lx: Lexer): (r: Lexer)
    ensures r.state == WaitColon && r.extOffset == 0
    ensures r.(state := lx.state, extOffset := lx.extOffset) == lx
  {
    lx.(state := WaitColon, extOffset := 0)
  }

  function SetNextState(lx: Lexer, next: LexerState, numDigits: u16): Lexer
  {
    lx.(state := next, numExpected := numDigits)
  }

  /**
   One payload byte of an 02 or 04 record OR-ed into the extended base at
   byte position `pos` (big-endian); for 02 the assembled paragraph number
   is shifted left by 4 bits once position 0 has been filled.
   */
  function ExtendBase(rectyp: u8, ext: u32, pos: u8, b: u8): u32
    requires rectyp == EXTENDED_SEGMENT_ADDRESS_RECORD || rectyp == EXTENDED_LINEAR_ADDRESS_RECORD
    requires pos <= 3
  {
    var ext1 := Or32(ext, ShiftByte(b, pos));
    if rectyp == EXTENDED_SEGMENT_ADDRESS_RECORD && pos == 0 then Wrap32(ext1 * 16) else ext1
  }

  /** `(uint32_t)b << (8 * pos)` for a byte position below 4: nothing is shifted out. */
  function ShiftByte(b: u8, pos: u8): u32
    requires pos <= 3
  {
    if pos == 0 then b
    else if pos == 1 then b * 0x100
    else if pos == 2 then b * 0x1_0000
    else b * 0x100_0000
  }

  /** ShiftByte is the 32-bit left shift by whole bytes: the byte lands at weight 2^(8*pos). */
  lemma ShiftByteWeight(b: u8, pos: u8)
    requires pos <= 3
    ensures ShiftByte(b, pos) == b * Pow2(8 * pos) < Pow2(8 * pos + 8)
  {
    Pow2Values();
    assert Pow2(0) == 1;
  }

  /** A token is free of undefined behaviour: an 02/04 payload byte never shifts by 32 bits or more. */
  predicate TokenDefined(lx: Lexer, tokenType: TokenType)
  {
    var baseRecord := lx.recordData.rectyp == EXTENDED_SEGMENT_ADDRESS_RECORD
      || lx.recordData.rectyp == EXTENDED_LINEAR_ADDRESS_RECORD;
    tokenType == DataByte && baseRecord ==> lx.extBytePos <= 3
  }

  /** The address a data-record payload byte is reported at: a 32-bit sum with no 16-bit wrap of the load offset. */
  function DataAddress(lx: Lexer): u32
  {
    Wrap32(lx.extOffset + lx.recordData.loadOffset + lx.recByteOffset)
  }

  /**
   ihex_LexerTokenStream: the interpreter of completed fields. It never moves
   the lexer between states or touches the record fields; it only updates
   the checksum, the extended base and the byte offset, and calls back at
   most once, for a payload byte of a data record.
   */
  function TokenStream(lx: Lexer, funcData: Option<DataCallback>, tokenType: TokenType, tokenData: u16): (o: Step)
    requires TokenDefined(lx, tokenType)
    ensures o.lexer.state == lx.state && o.lexer.numExpected == lx.numExpected
    ensures o.lexer.recordData == lx.recordData
    ensures |o.calls| <= 1
    ensures |o.calls| == 1 ==>
      tokenType == DataByte && lx.recordData.rectyp == DATA_RECORD && funcData.Some?
      && o.calls[0] == Call(DataAddress(lx), Wrap8(tokenData))
      && o.message == funcData.value(o.calls[0].address, o.calls[0].value)
    ensures o.calls == [] ==> o.message == Continue || (tokenType == ChkSum && o.message in {End, CheckSumError})
  {
    match tokenType
    case RecordMark =>
      Step(lx.(calcChkSum := 0, recByteOffset := 0), Continue, [])
    case RecLen =>
      Step(lx.(calcChkSum := Wrap8(lx.calcChkSum + tokenData)), Continue, [])
    case LoadOffset =>
      Step(lx.(calcChkSum := Wrap8(lx.calcChkSum + (tokenData / 0x100 + tokenData % 0x100))), Continue, [])
    case RecTyp =>
      var lx1 := lx.(calcChkSum := Wrap8(lx.calcChkSum + tokenData));
      if lx.recordData.rectyp == EXTENDED_SEGMENT_ADDRESS_RECORD then
        Step(lx1.(extOffset := 0, extBytePos := 1), Continue, [])
      else if lx.recordData.rectyp == EXTENDED_LINEAR_ADDRESS_RECORD then
        Step(lx1.(extOffset := 0, extBytePos := 3), Continue, [])
      else
        Step(lx1, Continue, [])
    case DataByte =>
      var lx1 := lx.(calcChkSum := Wrap8(lx.calcChkSum + tokenData));
      var rectyp := lx.recordData.rectyp;
      var next := lx1.(recByteOffset := Wrap16(lx.recByteOffset + 1));
      if rectyp == DATA_RECORD then
        if funcData.Some? then
          var call := Call(DataAddress(lx), Wrap8(tokenData));
          Step(next, funcData.value(call.address, call.value), [call])
        else
          Step(next, Continue, [])
      else if rectyp == EXTENDED_SEGMENT_ADDRESS_RECORD || rectyp == EXTENDED_LINEAR_ADDRESS_RECORD then
        var ext := ExtendBase(rectyp, lx.extOffset, lx.extBytePos, Wrap8(tokenData));
        Step(next.(extOffset := ext, extBytePos := Dec8(lx.extBytePos)), Continue, [])
      else
        Step(next, Continue, [])
    case ChkSum =>
      // `~x + 1` on the promoted value, stored back into 8 bits
      var negated := Wrap8(-(lx.calcChkSum as int));
      var lx1 := lx.(calcChkSum := negated);
      if lx.recordData.rectyp == END_OF_FILE_RECORD then Step(lx1, End, [])
      else if negated != lx.recordData.targetCheckSum then Step(lx1, CheckSumError, [])
      else Step(lx1, Continue, [])
  }

  /** The counter after the decrement every field state performs first (16-bit wrap). */
  function Decremented(lx: Lexer): u16
  {
    Wrap16(lx.numExpected - 1)
  }

  /**
   A character is free of undefined behaviour in the current state: a digit
   of a fixed-width field is inserted at a position below 7, and a completed
   payload byte of an 02/04 record has a byte position below 4.
   */
  predicate StepDefined(lx: Lexer, c: u8)
  {
    CharToValue(c) >= 0 ==>
      match lx.state
      case WaitColon => true
      case WaitData =>
        Decremented(lx) % 2 == 0 ==> TokenDefined(lx, DataByte)
      case _ => DigitPos(lx) <= 6
  }

  /** ihex_Lexer: one accepted character (the colon or a hex digit) drives one transition. */
  function Lex(lx: Lexer, funcData: Option<DataCallback>, c: u8): (o: Step)
    requires c == COLON || CharToValue(c) >= 0
    requires StepDefined(lx, c)
  {
    var d := CharToValue(c);
    if lx.state == WaitColon then LexColon(lx, funcData, c)
    else if d < 0 then Step(lx.(numExpected := Decremented(lx)), InvalidInputData, [])
    else
      match lx.state
      case WaitByteCount => LexByteCount(lx, funcData, d)
      case WaitAddress => LexAddress(lx, funcData, d)
      case WaitType => LexType(lx, funcData, d)
      case WaitData => LexData(lx, funcData, d)
      case WaitCheckSum => LexCheckSum(lx, funcData, d)
  }

  /** Waiting for a record mark: only the colon starts a record; hex digits are ignored. */
  function LexColon(lx: Lexer, funcData: Option<DataCallback>, c: u8): (o: Step)
  {
    if c != COLON then Step(lx, Continue, [])
    else
      var lx2 := lx.(recordData := RecordData(c, 0, 0, 0, 0, 0));
      var t := TokenStream(lx2, funcData, RecordMark, c);
      Step(SetNextState(t.lexer, WaitByteCount, NUM_BYTE_COUNT_DIGITS), t.message, t.calls)
  }

  /** The digit position the counter names once decremented; fixed-width fields insert there. */
  function DigitPos(lx: Lexer): u8
  {
    Wrap8(Decremented(lx))
  }

  /** While the counter is positive the decrement does not wrap, and a small counter names its digit directly. */
  lemma DecrementedPositive(lx: Lexer)
    requires lx.numExpected >= 1
    ensures Decremented(lx) == lx.numExpected - 1
    ensures lx.numExpected <= 0x100 ==> DigitPos(lx) == lx.numExpected - 1
  {
  }

  /** A byte-count digit; the second one hands the count to the token interpreter. */
  function LexByteCount(lx: Lexer, funcData: Option<DataCallback>, d: nat): (o: Step)
    requires d < 16 && DigitPos(lx) <= 6
  {
    var lx1 := lx.(numExpected := Decremented(lx));
    var v := Wrap8(InsertDigit(lx.recordData.reclen, d, DigitPos(lx)));
    var lx2 := lx1.(recordData := lx.recordData.(reclen := v));
    if lx2.numExpected != 0 then Step(lx2, Continue, [])
    else
      var t := TokenStream(lx2, funcData, RecLen, v);
      Step(SetNextState(t.lexer, WaitAddress, NUM_ADDRESS_DIGITS), t.message, t.calls)
  }

  /** A load-offset digit; the fourth one hands the offset to the token interpreter. */
  function LexAddress(lx: Lexer, funcData: Option<DataCallback>, d: nat): (o: Step)
    requires d < 16 && DigitPos(lx) <= 6
  {
    var lx1 := lx.(numExpected := Decremented(lx));
    var v := InsertDigit(lx.recordData.loadOffset, d, DigitPos(lx));
    var lx2 := lx1.(recordData := lx.recordData.(loadOffset := v));
    if lx2.numExpected != 0 then Step(lx2, Continue, [])
    else
      var t := TokenStream(lx2, funcData, LoadOffset, v);
      Step(SetNextState(t.lexer, WaitType, NUM_TYPE_DIGITS), t.message, t.calls)
  }

  /** A record-type digit; the second one hands the type over and chooses between payload and checksum. */
  function LexType(lx: Lexer, funcData: Option<DataCallback>, d: nat): (o: Step)
    requires d < 16 && DigitPos(lx) <= 6
  {
    var lx1 := lx.(numExpected := Decremented(lx));
    var v := Wrap8(InsertDigit(lx.recordData.rectyp, d, DigitPos(lx)));
    var lx2 := lx1.(recordData := lx.recordData.(rectyp := v));
    if lx2.numExpected != 0 then Step(lx2, Continue, [])
    else
      var t := TokenStream(lx2, funcData, RecTyp, v);
      var lx3 := t.lexer.(recordData := t.lexer.recordData.(data := 0));
      if lx3.recordData.reclen > 0 then
        Step(SetNextState(lx3, WaitData, 2 * lx3.recordData.reclen), t.message, t.calls)
      else
        Step(SetNextState(lx3, WaitCheckSum, NUM_CHECK_SUM_DIGITS), t.message, t.calls)
  }

  /** A checksum digit; the second one hands the checksum over and the lexer waits for the next colon. */
  function LexCheckSum(lx: Lexer, funcData: Option<DataCallback>, d: nat): (o: Step)
    requires d < 16 && DigitPos(lx) <= 6
  {
    var lx1 := lx.(numExpected := Decremented(lx));
    var v := Wrap8(InsertDigit(lx.recordData.targetCheckSum, d, DigitPos(lx)));
    var lx2 := lx1.(recordData := lx.recordData.(targetCheckSum := v));
    if lx2.numExpected != 0 then Step(lx2, Continue, [])
    else
      var t := TokenStream(lx2, funcData, ChkSum, v);
      Step(t.lexer.(state := WaitColon), t.message, t.calls)
  }

  /** A payload digit: every second one completes a byte, and the last one leads to the checksum. */
  function LexData(lx: Lexer, funcData: Option<DataCallback>, d: nat): (o: Step)
    requires d < 16
    requires lx.state == WaitData
    requires Decremented(lx) % 2 == 0 ==> TokenDefined(lx, DataByte)
  {
    var lx1 := lx.(numExpected := Decremented(lx));
    var digitPos := lx1.numExpected % 2;
    var v := Wrap8(InsertDigit(lx.recordData.data, d, digitPos));
    var lx2 := lx1.(recordData := lx.recordData.(data := v));
    var t :=
      if digitPos == 0 then
        var t0 := TokenStream(lx2, funcData, DataByte, v);
        Step(t0.lexer.(recordData := t0.lexer.recordData.(data := 0)), t0.message, t0.calls)
      else
        Step(lx2, Continue, []);
    if t.lexer.numExpected == 0 then
      Step(SetNextState(t.lexer, WaitCheckSum, NUM_CHECK_SUM_DIGITS), t.message, t.calls)
    else
      t
  }

  /** Feeding `c` to a reader in state `lx` is free of undefined behaviour. */
  predicate PutDefined(lx: Lexer, c: u8)
  {
    StepDefined(lx, c)
  }

  /**
   ihex_Put: the decoder's entry point. Line endings are absorbed, bytes
   outside the record alphabet are refused, and both leave the reader as it
   was; everything else goes to the lexer.
   */
  function Put(rd: Reader, c: u8): (o: Step)
    requires PutDefined(rd.lexer, c)
  {
    if c == LINE_FEED then Step(rd.lexer, Continue, [])
    else if c == CARRIAGE_RETURN then Step(rd.lexer, Continue, [])
    else if !IsValidData(c) then Step(rd.lexer, InvalidInputData, [])
    else Lex(rd.lexer, rd.funcData, c)
  }

  /**
   A hex digit reaches the lexer: it is ignored while waiting for a record
   mark, and otherwise goes to the handler of the current field.
   */
  lemma PutDigit(rd: Reader, c: u8)
    requires CharToValue(c) >= 0
    requires PutDefined(rd.lexer, c)
    ensures var lx, f, d := rd.lexer, rd.funcData, CharToValue(c);
      && (lx.state == WaitColon ==> Put(rd, c) == Step(lx, Continue, []))
      && (lx.state == WaitByteCount ==> Put(rd, c) == LexByteCount(lx, f, d))
      && (lx.state == WaitAddress ==> Put(rd, c) == LexAddress(lx, f, d))
      && (lx.state == WaitType ==> Put(rd, c) == LexType(lx, f, d))
      && (lx.state == WaitData ==> Put(rd, c) == LexData(lx, f, d))
      && (lx.state == WaitCheckSum ==> Put(rd, c) == LexCheckSum(lx, f, d))
  {
    assert IsValidData(c) && c != LINE_FEED && c != CARRIAGE_RETURN && c != COLON;
  }
}
