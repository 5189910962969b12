/**
 Properties of single ihex_Put steps and of whole streams that hold in every
 state (components/ihex/ihex.c): what line endings and refused bytes do, when
 the consumer is called, which messages the decoder itself can return, and
 which steps may move the extended base.
 */
module IhexProperties {
  import opened Wrappers
  import opened Bitwise
  import opened IhexTypes
  import opened IhexDigits
  import opened Ihex
  import opened IhexStream
  import opened IhexSteps

  // ---------------------------------------------------------------------------
  // Bytes that never reach the lexer
  // ---------------------------------------------------------------------------

  /** Line endings and bytes outside the record alphabet: ihex_Put answers them without touching the reader. */
  predicate Ignored(c: u8)
  {
    c == LINE_FEED || c == CARRIAGE_RETURN || !IsValidData(c)
  }

  /** The answer to an ignored byte: CONTINUE for a line ending, INVALID_INPUT_DATA for anything else. */
  function IgnoredReply(c: u8): Message
  {
    if c == LINE_FEED || c == CARRIAGE_RETURN then Continue else InvalidInputData
  }

  /** An ignored byte leaves the whole reader unchanged and calls nobody, in every state. */
  lemma PutIgnored(rd: Reader, c: u8)
    requires Ignored(c)
    ensures PutDefined(rd.lexer, c)
    ensures Put(rd, c) == Step(rd.lexer, IgnoredReply(c), [])
  {
    assert c != COLON && CharToValue(c) < 0;
  }

  /** `step` answers every ignored byte as ihex_Put does. */
  ghost predicate NoiseRow(step: (Lexer, u8) --> Step)
  {
    forall lx: Lexer, c: u8 {:trigger Fed(lx, c)} ::
      Fed(lx, c) && Ignored(c) ==> Applies(step, lx, c) && step(lx, c) == Step(lx, IgnoredReply(c), [])
  }

  lemma PutNoiseRow(f: Option<DataCallback>)
    ensures NoiseRow(PutStep(f))
  {
    forall lx: Lexer, c: u8 | Ignored(c)
      ensures Applies(PutStep(f), lx, c) && PutStep(f)(lx, c) == Step(lx, IgnoredReply(c), [])
    {
      PutIgnored(Reader(lx, f), c);
    }
  }

  /** The bytes of `s` that reach the lexer, in order. */
  function Strip(s: seq<u8>): (t: seq<u8>)
    ensures |t| <= |s|
  {
    if |s| == 0 then []
    else if Ignored(s[0]) then Strip(s[1..])
    else [s[0]] + Strip(s[1..])
  }

  /** The messages for `s`, given the messages `m` the stripped stream produced: ignored bytes get their fixed reply. */
  function Expand(s: seq<u8>, m: seq<Message>): (e: seq<Message>)
    requires |m| == |Strip(s)|
    ensures |e| == |s|
  {
    if |s| == 0 then []
    else if Ignored(s[0]) then [IgnoredReply(s[0])] + Expand(s[1..], m)
    else [m[0]] + Expand(s[1..], m[1..])
  }

  /**
   Line endings and refused bytes anywhere in a stream change nothing: the
   final lexer and the callbacks are those of the stream without them, and
   the messages are its messages with the fixed replies slotted in.
   */
  lemma {:induction false} RunNoise(step: (Lexer, u8) --> Step, lx: Lexer, s: seq<u8>)
    requires NoiseRow(step)
    requires RunDefined(step, lx, Strip(s))
    ensures RunDefined(step, lx, s)
    ensures var t := Run(step, lx, Strip(s));
      Run(step, lx, s) == Trace(t.lexer, Expand(s, t.messages), t.calls)
    decreases |s|
  {
    if |s| > 0 {
      assert Fed(lx, s[0]);
      if Ignored(s[0]) {
        RunNoise(step, lx, s[1..]);
      } else {
        var o := step(lx, s[0]);
        assert Strip(s)[0] == s[0] && Strip(s)[1..] == Strip(s[1..]);
        RunNoise(step, o.lexer, s[1..]);
      }
    }
  }

  /** RunNoise for ihex_Put. */
  lemma FeedNoise(rd: Reader, s: seq<u8>)
    requires FeedDefined(rd, Strip(s))
    ensures FeedDefined(rd, s)
    ensures var t := Feed(rd, Strip(s));
      Feed(rd, s) == Trace(t.lexer, Expand(s, t.messages), t.calls)
  {
    PutNoiseRow(rd.funcData);
    RunNoise(PutStep(rd.funcData), rd.lexer, s);
  }

  // ---------------------------------------------------------------------------
  // One step, in any state
  // ---------------------------------------------------------------------------

  /**
   A colon inside a record is refused, but only after the field's counter
   has been decremented; nothing else changes and nobody is called.
   */
  lemma ColonMidRecord(rd: Reader)
    requires rd.lexer.state != WaitColon
    requires PutDefined(rd.lexer, COLON)
    ensures Put(rd, COLON) == Step(rd.lexer.(numExpected := Wrap16(rd.lexer.numExpected - 1)), InvalidInputData, [])
  {
    assert IsValidData(COLON) && CharToValue(COLON) < 0;
  }

  /**
   The outcome of one character in any state. The consumer is called at most
   once, only for a completed payload byte of a data record, and its answer
   is the character's result. Otherwise the decoder answers CONTINUE, END,
   INVALID_INPUT_DATA or CHECK_SUM_ERROR, never VERIFICATION_ERROR;
   INVALID_INPUT_DATA exactly for a refused byte or a colon inside a record,
   END and CHECK_SUM_ERROR only on the last checksum digit.
   */
  lemma PutOutcome(rd: Reader, c: u8)
    requires PutDefined(rd.lexer, c)
    ensures var o, lx := Put(rd, c), rd.lexer;
      && |o.calls| <= 1
      && (|o.calls| == 1 ==>
            && lx.state == WaitData && lx.recordData.rectyp == DATA_RECORD && rd.funcData.Some?
            && o.message == rd.funcData.value(o.calls[0].address, o.calls[0].value))
      && (o.calls == [] ==> o.message in {Continue, End, InvalidInputData, CheckSumError})
      && (o.calls == [] ==>
            (o.message == InvalidInputData <==> (Ignored(c) && IgnoredReply(c) == InvalidInputData) || (c == COLON && lx.state != WaitColon)))
      && (o.calls == [] && o.message in {End, CheckSumError} ==> lx.state == WaitCheckSum && o.lexer.state == WaitColon)
  {
    var lx, f := rd.lexer, rd.funcData;
    if Ignored(c) {
      PutIgnored(rd, c);
    } else if c == COLON {
      if lx.state != WaitColon {
        ColonMidRecord(rd);
      }
    } else {
      FieldOutcome(lx, f, c);
    }
  }

  /** Lex on a hex digit: only a payload digit of a data record may call, and END or CHECK_SUM_ERROR only close a checksum. */
  lemma FieldOutcome(lx: Lexer, f: Option<DataCallback>, c: u8)
    requires CharToValue(c) >= 0
    requires StepDefined(lx, c)
    ensures var o := Lex(lx, f, c);
      && |o.calls| <= 1
      && (|o.calls| == 1 ==>
            && lx.state == WaitData && lx.recordData.rectyp == DATA_RECORD && f.Some?
            && o.message == f.value(o.calls[0].address, o.calls[0].value))
      && (o.calls == [] ==> o.message == Continue || (lx.state == WaitCheckSum && o.lexer.state == WaitColon && o.message in {End, CheckSumError}))
  {
  }

  /**
   Only the last record-type digit of an 02/04 record (which clears the base)
   and a payload byte of an 02/04 record (which ORs itself in) move the
   extended base.
   */
  lemma PutBaseFrame(rd: Reader, c: u8)
    requires PutDefined(rd.lexer, c)
    ensures var o, lx := Put(rd, c), rd.lexer;
      o.lexer.extOffset != lx.extOffset ==>
        && (lx.state == WaitType || lx.state == WaitData)
        && (o.lexer.recordData.rectyp == EXTENDED_SEGMENT_ADDRESS_RECORD
            || o.lexer.recordData.rectyp == EXTENDED_LINEAR_ADDRESS_RECORD)
  {
    if Ignored(c) {
      PutIgnored(rd, c);
    } else if c == COLON {
      if rd.lexer.state != WaitColon {
        ColonMidRecord(rd);
      }
    }
  }
}
