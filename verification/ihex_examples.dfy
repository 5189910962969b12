/**
 Worked records in the format of the Intel Hexadecimal Object File Format
 Specification (Rev. A), decoded by ihex_Put from the wait for a record mark.
 */
module IhexExamples {
  import opened Wrappers
  import opened Bitwise
  import opened IhexTypes
  import opened IhexDigits
  import opened Ihex
  import opened IhexStream
  import opened IhexSteps
  import opened IhexRecord

  /** The bytes of an ASCII string. */
  function Bytes(s: string): (b: seq<u8>)
    requires forall i :: 0 <= i < |s| ==> s[i] as int < 0x100
    ensures |b| == |s| && forall i :: 0 <= i < |s| ==> b[i] == s[i] as int
  {
    seq(|s|, i requires 0 <= i < |s| => s[i] as int)
  }

  /** `:00000001FF`, the end-of-file record, ends the file with END. */
  lemma EndOfFile(rd: Reader)
    requires rd.lexer.state == WaitColon
    ensures var s := Bytes(":00000001FF");
      && FeedDefined(rd, s)
      && Feed(rd, s).messages[10] == End
      && Feed(rd, s).calls == []
      && Feed(rd, s).lexer.state == WaitColon
  {
    var r := Record(0, END_OF_FILE_RECORD, [], 0xFF);
    EndOfFileText();
    RecordDecode(rd, r, RecordText(r));
    RecordMessagesIndexed(rd.funcData, rd.lexer, r);
  }

  /** `:020000040800F2` sets the extended linear base to 0x0800 * 65536 = 0x0800_0000. */
  lemma LinearAddress(rd: Reader)
    requires rd.lexer.state == WaitColon
    ensures var s := Bytes(":020000040800F2");
      && FeedDefined(rd, s)
      && Feed(rd, s).messages[14] == Continue
      && Feed(rd, s).calls == []
      && Feed(rd, s).lexer.extOffset == 0x0800_0000
  {
    LinearAddressText();
    LinearAddressDecode(rd, Record(0, EXTENDED_LINEAR_ADDRESS_RECORD, [0x08, 0x00], 0xF2));
  }

  lemma LinearAddressDecode(rd: Reader, r: Record)
    requires rd.lexer.state == WaitColon
    requires r == Record(0, EXTENDED_LINEAR_ADDRESS_RECORD, [0x08, 0x00], 0xF2)
    ensures var s := RecordText(r);
      && FeedDefined(rd, s)
      && Feed(rd, s).messages[14] == Continue
      && Feed(rd, s).calls == []
      && Feed(rd, s).lexer.extOffset == 0x0800_0000
  {
    assert ChecksumValid(r);
    RecordDecode(rd, r, RecordText(r));
    RecordMessagesIndexed(rd.funcData, rd.lexer, r);
    RecordEndBase(rd.lexer, r);
  }

  /** `:0300300002337A1E` hands 02, 33 and 7A to the consumer at 0x30, 0x31 and 0x32 past the base. */
  lemma DataBytes(rd: Reader)
    requires rd.lexer.state == WaitColon && rd.funcData.Some?
    ensures var s, ext := Bytes(":0300300002337A1E"), rd.lexer.extOffset;
      && FeedDefined(rd, s)
      && Feed(rd, s).calls == [Call(Wrap32(ext + 0x30), 0x02), Call(Wrap32(ext + 0x31), 0x33), Call(Wrap32(ext + 0x32), 0x7A)]
      && Feed(rd, s).messages[16] == Continue
  {
    var r := Record(0x0030, DATA_RECORD, [0x02, 0x33, 0x7A], 0x1E);
    DataText();
    assert ChecksumValid(r);
    RecordDecode(rd, r, RecordText(r));
    RecordMessagesIndexed(rd.funcData, rd.lexer, r);
    DataCallsIndexed(rd.funcData, DATA_RECORD, rd.lexer.extOffset + 0x30, r.payload);
  }

  /** The same record with its checksum off by one ends with CHECK_SUM_ERROR, after the consumer has seen every byte. */
  lemma BadCheckSum(rd: Reader)
    requires rd.lexer.state == WaitColon
    ensures var s := Bytes(":0300300002337A1F");
      && FeedDefined(rd, s)
      && Feed(rd, s).messages[16] == CheckSumError
      && Feed(rd, s).calls == DataCalls(rd.funcData, DATA_RECORD, rd.lexer.extOffset + 0x30, [0x02, 0x33, 0x7A])
  {
    var r := Record(0x0030, DATA_RECORD, [0x02, 0x33, 0x7A], 0x1F);
    BadCheckSumText();
    assert !ChecksumValid(r);
    RecordDecode(rd, r, RecordText(r));
    RecordMessagesIndexed(rd.funcData, rd.lexer, r);
  }

  /** `:0300300002337a1e`, the data record with lower-case digits, is decoded exactly like its upper-case spelling. */
  lemma LowerCaseData(rd: Reader)
    requires rd.lexer.state == WaitColon
    ensures var s, u := Bytes(":0300300002337a1e"), Bytes(":0300300002337A1E");
      && FeedDefined(rd, s) && FeedDefined(rd, u)
      && Feed(rd, s) == Feed(rd, u)
      && Feed(rd, s).calls == DataCalls(rd.funcData, DATA_RECORD, rd.lexer.extOffset + 0x30, [0x02, 0x33, 0x7A])
      && Feed(rd, s).messages[16] == Continue
  {
    var r := Record(0x0030, DATA_RECORD, [0x02, 0x33, 0x7A], 0x1E);
    DataText();
    LowerCaseText();
    assert ChecksumValid(r);
    RecordDecode(rd, r, Bytes(":0300300002337a1e"));
    RecordDecode(rd, r, RecordText(r));
    RecordMessagesIndexed(rd.funcData, rd.lexer, r);
  }

  lemma LowerCaseText()
    ensures Respells(Bytes(":0300300002337a1e"), Bytes(":0300300002337A1E"))
  {
    var s, u := Bytes(":0300300002337a1e"), Bytes(":0300300002337A1E");
    forall i | 0 <= i < |s|
      ensures s[i] == u[i] || 0 <= CharToValue(s[i]) == CharToValue(u[i])
    {
      if i == 14 || i == 16 {
        assert s[i] == u[i] + 0x20;
      }
    }
  }

  lemma EndOfFileText()
    ensures RecordText(Record(0, END_OF_FILE_RECORD, [], 0xFF)) == Bytes(":00000001FF")
  {
  }

  lemma LinearAddressText()
    ensures RecordText(Record(0, EXTENDED_LINEAR_ADDRESS_RECORD, [0x08, 0x00], 0xF2)) == Bytes(":020000040800F2")
  {
  }

  lemma DataText()
    ensures RecordText(Record(0x0030, DATA_RECORD, [0x02, 0x33, 0x7A], 0x1E)) == Bytes(":0300300002337A1E")
  {
  }

  lemma BadCheckSumText()
    ensures RecordText(Record(0x0030, DATA_RECORD, [0x02, 0x33, 0x7A], 0x1F)) == Bytes(":0300300002337A1F")
  {
  }
}
