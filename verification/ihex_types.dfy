/**
 Data model of the streaming Intel HEX reader (components/ihex/include/ihex.h):
 lexer states, token kinds, record type codes, result messages, the record
 fields being assembled and the per-stream lexer state. Field widths follow
 the C declarations exactly, so the 8-bit checksum, the 16-bit digit counter
 and byte offset and the 32-bit extended base wrap as they do in C.
 */
module IhexTypes {
  import opened Wrappers
  import opened Bitwise

  /** The six lexer states; a datatype value is always exactly one of them. */
  datatype LexerState =
    | WaitColon
    | WaitByteCount
    | WaitAddress
    | WaitType
    | WaitData
    | WaitCheckSum

  /** A completed field handed from the lexer to the token interpreter. */
  datatype TokenType = RecordMark | RecLen | LoadOffset | RecTyp | DataByte | ChkSum

  /** Record type codes of the Intel Hexadecimal Object File Format (Rev. A). */
  const DATA_RECORD: u8 := 0
  const END_OF_FILE_RECORD: u8 := 1
  const EXTENDED_SEGMENT_ADDRESS_RECORD: u8 := 2
  const START_SEGMENT_ADDRESS_RECORD: u8 := 3
  const EXTENDED_LINEAR_ADDRESS_RECORD: u8 := 4
  const START_LINEAR_ADDRESS_RECORD: u8 := 5

  /** Result of feeding one character. `VerificationError` is never produced by the decoder itself. */
  datatype Message = Continue | End | InvalidInputData | CheckSumError | VerificationError

  /** The fields of the record currently being read. */
  datatype RecordData = RecordData(
    recordMark: u8,
    reclen: u8,
    loadOffset: u16,
    rectyp: u8,
    data: u8,
    targetCheckSum: u8)

  /** All decoder state owned by one stream. */
  datatype Lexer = Lexer(
    state: LexerState,
    numExpected: u16,       // digits still missing in the active field
    extBytePos: u8,         // byte position the next 02/04 payload byte is OR-ed into
    extOffset: u32,         // extended address base
    recByteOffset: u16,     // payload bytes seen so far in the current record
    calcChkSum: u8,         // running checksum
    recordData: RecordData)

  /** The consumer callback, a foreign function: an oracle from (address, byte) to a reply. */
  type DataCallback = (u32, u8) -> Message

  /** The reader: lexer state plus the optional (possibly null) callback. */
  datatype Reader = Reader(lexer: Lexer, funcData: Option<DataCallback>)

  /** One invocation of the callback, as recorded in the event trace. */
  datatype Call = Call(address: u32, value: u8)

  /** Outcome of processing one character or one token. */
  datatype Step = Step(lexer: Lexer, message: Message, calls: seq<Call>)
}
