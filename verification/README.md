# Intel HEX decoder and cascaded circular FIFOs, modelled in Dafny

This project models two independent sequential components of an ESP-IDF
firmware repository.

**The streaming Intel HEX decoder** (`components/ihex`). It is fed one byte
at a time through `ihex_Put`. The lexer has six states. Each accepted hex
digit is inserted into a fixed-width big-endian field by `ihex_InsertDigit`,
counting a 16-bit digit counter down. Every completed field goes to the token
interpreter `ihex_LexerTokenStream`, which does three things:

- it keeps the 8-bit running checksum;
- it tracks the 32-bit extended base set by type 02 and 04 records;
- it calls the consumer callback once per payload byte of a data record, at
  the address base + load offset + byte index, computed in 32 bits.

The model has three layers:

- `Ihex` holds the step functions themselves (`Put`, `Lex`, `TokenStream`).
- `IhexSteps` turns them into a transition table, and proves that `Put`
  follows every row of it.
- `IhexRecord` and `IhexStream` run the table over the text of a whole record.
  They prove what a well-formed record does: the messages it yields
  character by character, the callbacks it makes, the final lexer, the
  checksum verdict and the new extended base.

`IhexProperties` states facts that hold in every state. `IhexExamples`
decodes worked records in the format of the Intel Hexadecimal Object File
Format Specification (Rev. A).

C integer widths are kept explicitly (`Bitwise`):

- the checksum is `u8`;
- the digit counter and the byte offset are `u16`;
- the base and the callback address are `u32`.

Every C assignment to these fields wraps as it does in C. The consumer
callback is a foreign function. It is an oracle `(u32, u8) -> Message` inside
an `Option` (None is a NULL callback), and every invocation is also recorded
as a `Call(address, value)` in the step's trace.

**The circular FIFO and its cascade** (`components/m_cfifo`), without its
semaphores.

- `CFifo` models one ring of `bufferSize` bytes with `rdPtr`, `wrPtr` and
  `usedCount`.
  - The ring invariant is `Valid`. The abstract queue it stands for is
    `Contents`: the `usedCount` bytes from `rdPtr` on, wrapping.
  - Every internal operation is proved against that queue. Push appends,
    pop removes the head, clear empties, and set-full declares the whole
    region queued.
- `CFifoCascade` models the public calls on a possibly NULL handle, the
  adjacency lookup, and the `m_cfifo_All_*` walks.
  - A cascade is a sequence of FIFOs in `next` order. The `prev` of FIFO `i`
    is FIFO `i - 1`.
  - The first-fit push and pop have recursive reference definitions
    (`PushFrom`, `PopFrom`), and the loops of `AllPush` and `AllPop` are
    proved equal to them.
  - A concrete run shows that the cascade is not one global FIFO.

A FIFO with a NULL buffer hands out its dummy byte only when its usage count
is non-zero. That happens after `ConfigBuffer(NULL, n)` with `n > 0`. The
doc comment of `m_cfifo_SetDummyByte`
(components/m_cfifo/include/m_cfifo.h:127-134) says the byte is returned
"when the FIFO is empty". The code (components/m_cfifo/m_cfifo.c:550-570)
refuses to pop from an empty FIFO, and the model follows the code.

## Model

| member | source | states |
|---|---|---|
| IhexDigits.CharToValueHexIff | components/ihex/ihex.c:304-316 | a byte has a non-negative value exactly when it spells a hex digit in either case, and that value is the digit it spells; every other byte gives -1 |
| IhexDigits.IsValidDataIff | components/ihex/ihex.c:296-302 | the decoder's alphabet is exactly the colon plus the hex digits of both cases |
| IhexDigits.CharToValueInverse | components/ihex/ihex.c:304-316 | decoding the upper- or lower-case spelling of a value gives the value back |
| IhexDigits.HexCharValue | components/ihex/ihex.c:304-316 | the upper-case character used in record text for a nibble is read back as that nibble |
| IhexDigits.InsertDigitReplacesNibble | components/ihex/ihex.c:208-218 | inserting a digit replaces exactly the addressed nibble of the 16-bit value and keeps the other three; positions 4 to 6 change nothing, because the mask is shifted out of 16 bits |
| IhexDigits.AssembleTwo | components/ihex/ihex.c:208-218 | two digits fed at positions 1 and 0 into zero give their big-endian byte value |
| IhexDigits.AssembleHighByte | components/ihex/ihex.c:208-218 | the first two load-offset digits, at positions 3 and 2, build the high byte |
| IhexDigits.AssembleLowByte | components/ihex/ihex.c:208-218 | the last two digits, at positions 1 and 0, complete the value when its low byte is clear |
| Ihex.Init | components/ihex/ihex.c:31-34 | binding a callback, NULL included, leaves the lexer untouched |
| Ihex.Begin | components/ihex/ihex.c:36-40 | Begin waits for a record mark with base 0 and keeps every other lexer field, including the byte position and the counter |
| Ihex.ShiftByteWeight | components/ihex/ihex.c:267-276 | shifting a byte left by 8·pos bits for pos ≤ 3 places it at weight 2^(8·pos) and loses nothing in 32 bits |
| Ihex.TokenStream | components/ihex/ihex.c:222-294 | the token interpreter never changes the lexer state, the counter or the record fields; it calls back at most once, only for a data-record payload byte with a non-NULL callback, at base + offset + index mod 2^32, and that call's answer is the message; otherwise it answers CONTINUE, or END / CHECK_SUM_ERROR on a checksum token |
| Ihex.PutDigit | components/ihex/ihex.c:64-198 | a hex digit is ignored with CONTINUE while waiting for a colon; otherwise it goes to the handler of the current field |
| IhexStream.RunAppend | components/ihex/ihex.c:42-57 | decoding a stream in two pieces gives the same final lexer, the same messages and the same callbacks as decoding it at once |
| IhexStream.FeedAppend | components/ihex/ihex.c:42-57 | RunAppend for ihex_Put with a fixed callback |
| IhexStream.PutRespelled | components/ihex/ihex.c:42-198 | ihex_Put sees a hex digit only through its value: the upper- and lower-case spellings of a digit make the same step from every state |
| IhexStream.FeedRespelled | components/ihex/ihex.c:42-57 | feeding a text whose hex digits are respelled in either case gives the final lexer, the messages and the callbacks of the original |
| IhexSteps.PutFollowsTable | components/ihex/ihex.c:64-198 | for any callback, ihex_Put follows every row of the record transition table: colon to BYTE_COUNT(2), ADDRESS(4), TYPE(2), DATA(2·reclen) or CHECK_SUM(2), then back to WAIT_COLON |
| IhexSteps.ByteToken | components/ihex/ihex.c:257-280 | a completed payload byte adds to the checksum, advances the byte offset, and is reported to the consumer exactly for a data record with a callback |
| IhexRecord.DataCallsIndexed | components/ihex/ihex.c:257-263 | in a data record the i-th payload byte causes exactly one callback, with address first + i mod 2^32 and that byte; every other record type, or a NULL callback, causes none |
| IhexRecord.DataMessagesIndexed | components/ihex/ihex.c:149-173 | each payload byte yields CONTINUE for its high digit and, for its low digit, the consumer's answer to that byte (CONTINUE when nothing is called) |
| IhexRecord.SegmentBase | components/ihex/ihex.c:264-273 | a two-byte 02 record builds the base ((b0·256)+b1)·16 |
| IhexRecord.SegmentBaseShort | components/ihex/ihex.c:264-273 | a one-byte 02 record leaves the byte in bits 8 to 15, unshifted, because the ×16 happens only at byte position 0 |
| IhexRecord.LinearBase | components/ihex/ihex.c:274-278 | a two-byte 04 record builds the base (b0·256+b1)·65536, since the byte position starts at 3 |
| IhexRecord.ChecksumVerdict | components/ihex/ihex.c:282-290 | the 8-bit two's-complement negation of the running sum equals the target exactly when the sum of all fields and the target vanishes mod 256 |
| IhexRecord.BodyChecksum | components/ihex/ihex.c:233-258 | after header and payload the 8-bit running checksum is the byte sum of reclen, both offset bytes, the type and the payload, mod 256 |
| IhexRecord.BeforeSumFields | components/ihex/ihex.c:149-173 | after the last payload digit the lexer waits for two checksum digits, with the byte offset equal to reclen and the base as the record set it |
| IhexRecord.SumEnd | components/ihex/ihex.c:175-194 | the two checksum digits close the record with END for type 01 whatever the checksum, otherwise CHECK_SUM_ERROR or CONTINUE by the checksum rule, and leave the lexer at WAIT_COLON |
| IhexRecord.PayloadRun | components/ihex/ihex.c:149-173 | the 2·n payload digits of a record yield the payload's messages and callbacks, in order, and the lexer state before the checksum |
| IhexRecord.RecordRun | components/ihex/ihex.c:72-194 | any step that follows the table, fed one well-formed record from WAIT_COLON, ends in RecordEnd with the record's messages and the payload's callbacks |
| IhexRecord.RecordDecode | components/ihex/ihex.c:42-198 | ihex_Put fed one well-formed record from WAIT_COLON, its hex digits written in upper, lower or mixed case, ends in RecordEnd, with one message per character and the callbacks of its payload |
| IhexRecord.RecordMessagesIndexed | components/ihex/ihex.c:72-194 | a record with n payload bytes yields 11 + 2n messages: CONTINUE everywhere except the payload bytes' low digits, which carry the consumer's answer, and the last checksum digit, which carries the verdict |
| IhexRecord.RecordEndBase | components/ihex/ihex.c:241-278 | after a record the lexer waits for a colon; the base is unchanged unless the record is 02 or 04, and two-byte 02 and 04 records set it to SBA·16 and ULBA·65536 |
| IhexProperties.PutIgnored | components/ihex/ihex.c:47-54 | line feed and carriage return give CONTINUE, and any byte outside the alphabet gives INVALID_INPUT_DATA; in every state the reader is left unchanged and nobody is called |
| IhexProperties.RunNoise | components/ihex/ihex.c:47-54 | for any step that answers ignored bytes as ihex_Put does, removing ignored bytes from a stream changes neither the final lexer nor the callbacks, and the messages differ only by the fixed replies |
| IhexProperties.FeedNoise | components/ihex/ihex.c:47-54 | RunNoise for ihex_Put |
| IhexProperties.ColonMidRecord | components/ihex/ihex.c:83-92 | a colon inside a record is refused with INVALID_INPUT_DATA, after the field's counter has already been decremented; no field value changes |
| IhexProperties.FieldOutcome | components/ihex/ihex.c:64-198 | on a hex digit the lexer calls back at most once, only for a data-record payload byte with a callback, and END or CHECK_SUM_ERROR come only from the last checksum digit |
| IhexProperties.PutOutcome | components/ihex/include/ihex.h:46-53 | one character causes at most one callback, whose answer is the result; otherwise the decoder answers only CONTINUE, END, INVALID_INPUT_DATA or CHECK_SUM_ERROR, never VERIFICATION_ERROR, and INVALID_INPUT_DATA exactly for a refused byte or a colon inside a record |
| IhexProperties.PutBaseFrame | components/ihex/ihex.c:241-278 | the extended base moves only on the type token or a payload byte of an 02 or 04 record |
| IhexExamples.EndOfFile | components/ihex/ihex.c:282-290 | `:00000001FF` ends with END on its last character and calls nobody |
| IhexExamples.LinearAddress | components/ihex/ihex.c:249-278 | `:020000040800F2` sets the base to 0x0800_0000 |
| IhexExamples.DataBytes | components/ihex/ihex.c:257-263 | `:0300300002337A1E` hands 02, 33 and 7A to the consumer at base + 0x30, 0x31 and 0x32 |
| IhexExamples.BadCheckSum | components/ihex/ihex.c:282-290 | the same data record with a wrong checksum ends with CHECK_SUM_ERROR, after the consumer has been handed all three payload bytes |
| IhexExamples.LowerCaseData | components/ihex/ihex.c:304-316 | `:0300300002337a1e` gives exactly the trace of its upper-case spelling, including the three callbacks |
| CFifo.EmptyFullMeaning | components/m_cfifo/m_cfifo.c:596-612 | empty means the queue holds nothing; full means it holds bufferSize bytes; a FIFO of size 0 is both |
| CFifo.GettersMeaning | components/m_cfifo/m_cfifo.c:586-594 | the usage getter is the queue's length and never exceeds the size getter |
| CFifo.IncRdPtr | components/m_cfifo/m_cfifo.c:614-617 | the read index moves one slot and wraps to 0 past the last slot; nothing else changes |
| CFifo.IncWrPtr | components/m_cfifo/m_cfifo.c:619-622 | the write index moves one slot and wraps to 0 past the last slot; nothing else changes |
| CFifo.InitState | components/m_cfifo/m_cfifo.c:175-187 | an initialised FIFO is valid, holds nothing, is both empty and full, and refuses a push |
| CFifo.PushAppends | components/m_cfifo/m_cfifo.c:535-548 | push keeps the ring valid; it succeeds exactly when a buffer is set and there is room, then appends the byte to the queue, writes it into the region at the write index only, and keeps the size and the dummy byte; otherwise it changes nothing |
| CFifo.PushValid | components/m_cfifo/m_cfifo.c:535-548 | a successful push keeps the ring invariant |
| CFifo.PushSlot | components/m_cfifo/m_cfifo.c:535-548 | after a push, queue position i holds the old byte there, or the new byte at the end |
| CFifo.PopHead | components/m_cfifo/m_cfifo.c:550-570 | pop keeps the ring valid; it succeeds exactly when the queue is non-empty, then yields the oldest byte, leaves the rest in order and keeps the region, the size and the dummy byte; otherwise the output byte and the FIFO are unchanged |
| CFifo.PopValid | components/m_cfifo/m_cfifo.c:550-570 | a successful pop keeps the ring invariant |
| CFifo.PopSlot | components/m_cfifo/m_cfifo.c:550-570 | after a pop, queue position i holds what position i + 1 held |
| CFifo.PopWithoutBuffer | components/m_cfifo/m_cfifo.c:550-570 | with a NULL buffer and a non-zero usage, pop succeeds, yields the dummy byte and still uses one byte up |
| CFifo.SizeZeroRefuses | components/m_cfifo/m_cfifo.c:535-570 | on a FIFO of size 0 push and pop both fail and change nothing |
| CFifo.ClearEmpties | components/m_cfifo/m_cfifo.c:572-577 | clear empties the queue and keeps the region, the size and the dummy byte |
| CFifo.SetFullContents | components/m_cfifo/m_cfifo.c:579-584 | set-full leaves the region untouched and queues all bufferSize bytes of it in region order (dummy bytes without a buffer); the FIFO is then full |
| CFifo.ConfigBufferContents | components/m_cfifo/m_cfifo.c:205-217 | configuring a region of at least size bytes gives a valid full FIFO whose queue is the region's first size bytes; configuring NULL with size n queues n dummy bytes |
| CFifo.SetDummyByteContents | components/m_cfifo/m_cfifo.c:219-228 | changing the dummy byte keeps the ring valid; with a buffer set it leaves the queue unchanged, and without one every queued byte reads as the new dummy byte |
| CFifoCascade.GetAdjacent | components/m_cfifo/m_cfifo.c:624-635 | the neighbour of a FIFO in the cascade is again NULL or a FIFO of the cascade |
| CFifoCascade.AdjacentInverse | components/m_cfifo/m_cfifo.c:624-635 | next and prev undo each other wherever the neighbour exists; NULL has no neighbour; only the ends of the cascade have no neighbour outwards |
| CFifoCascade.ThisPush | components/m_cfifo/m_cfifo.c:230-244 | a push on a handle succeeds exactly when the handle is non-NULL and its FIFO has a buffer and room; then it appends to that FIFO's queue only; otherwise nothing changes |
| CFifoCascade.ThisPop | components/m_cfifo/m_cfifo.c:269-283 | a pop on a handle succeeds exactly when the handle and the output argument are non-NULL and the queue is non-empty; then it drops the queue's head and keeps that FIFO's region, size and dummy byte; every other FIFO is untouched, and on failure nothing changes |
| CFifoCascade.ThisPopData | components/m_cfifo/m_cfifo.c:269-283 | after a successful pop the output byte is the queue's old head; after a refused pop it is unchanged |
| CFifoCascade.ThisClear | components/m_cfifo/m_cfifo.c:308-320 | clear on a handle answers whether the handle is non-NULL; then that FIFO's queue is empty with its region, size and dummy byte kept, and every other FIFO is untouched |
| CFifoCascade.ThisSetFull | components/m_cfifo/m_cfifo.c:342-354 | set-full on a handle answers whether the handle is non-NULL; then that FIFO is full and queues its region's first bufferSize bytes unmodified, and every other FIFO is untouched |
| CFifoCascade.ThisQueries | components/m_cfifo/m_cfifo.c:376-505 | the size, usage, empty and full queries on a handle read its FIFO's queue; a NULL handle reads as 0 and false |
| CFifoCascade.ThisConfigEffect | components/m_cfifo/m_cfifo.c:205-217 | ConfigBuffer through a handle keeps the cascade valid and changes only that FIFO, whose size and usage become size and whose queue is the region's first size bytes, or size dummy bytes for a NULL region; a NULL handle changes nothing |
| CFifoCascade.ThisDummyByteEffect | components/m_cfifo/m_cfifo.c:219-228 | SetDummyByte through a handle changes only that FIFO: with a buffer its queue is unchanged, without one every queued byte reads as the new dummy byte; a NULL handle changes nothing |
| CFifoCascade.PushStep | components/m_cfifo/m_cfifo.c:535-548 | one internal push succeeds exactly when the FIFO has a buffer and room, and a refused push changes nothing |
| CFifoCascade.PopStep | components/m_cfifo/m_cfifo.c:550-570 | one internal pop succeeds exactly when the FIFO is non-empty, and a refused pop changes nothing |
| CFifoCascade.PushFrom | components/m_cfifo/m_cfifo.c:246-267 | first-fit push keeps the cascade valid; it succeeds exactly when some FIFO from the start on accepts the byte, then it pushes into the first one that does; otherwise nothing changes |
| CFifoCascade.PopFrom | components/m_cfifo/m_cfifo.c:285-306 | first-fit pop succeeds exactly when some FIFO from the start on holds a byte, then it pops from the first one that does; otherwise the cascade and the output byte are unchanged |
| CFifoCascade.PushFromFirst | components/m_cfifo/m_cfifo.c:246-267 | the first accepting FIFO decides the cascaded push |
| CFifoCascade.PopFromFirst | components/m_cfifo/m_cfifo.c:285-306 | the first non-empty FIFO decides the cascaded pop |
| CFifoCascade.PushFromQueues | components/m_cfifo/m_cfifo.c:246-267 | a successful cascaded push appends the byte to the queue of exactly one FIFO, the first that accepts, and leaves every other FIFO as it was |
| CFifoCascade.PopFromQueues | components/m_cfifo/m_cfifo.c:285-306 | a successful cascaded pop yields the head of the first non-empty FIFO's queue, drops it there, and leaves every other FIFO as it was |
| CFifoCascade.AllPush | components/m_cfifo/m_cfifo.c:246-267 | the All_Push loop from a handle computes the first-fit push; a NULL handle fails and changes nothing |
| CFifoCascade.AllPop | components/m_cfifo/m_cfifo.c:285-306 | the All_Pop loop computes the first-fit pop; a NULL handle or output argument fails and changes nothing |
| CFifoCascade.CascadeReorders | components/m_cfifo/m_cfifo.c:246-306 | two one-byte FIFOs take 1 and 2; a pop yields 1; the next byte, 3, goes to the freed head; the next pop yields 3 before 2, so the cascade is not one global FIFO |
| CFifoCascade.SumAlong | components/m_cfifo/m_cfifo.c:392-452 | the running 32-bit sum of a 16-bit counter along next is the exact total mod 2^32 |
| CFifoCascade.AllGetSize | components/m_cfifo/m_cfifo.c:392-413 | All_GetSize is 0 for NULL, else the 32-bit sum of the sizes from the handle on |
| CFifoCascade.AllGetUsage | components/m_cfifo/m_cfifo.c:431-452 | All_GetUsage is 0 for NULL, else the 32-bit sum of the usages from the handle on |
| CFifoCascade.TotalsExact | components/m_cfifo/include/m_cfifo.h:244-268 | the 32-bit totals do not wrap for up to 65537 FIFOs; the usage total is the number of bytes queued and never exceeds the size total |
| CFifoCascade.QueuedTotal | components/m_cfifo/m_cfifo.c:431-452 | the summed usage counters equal the summed queue lengths and are bounded by the summed sizes |
| CFifoCascade.AllAlong | components/m_cfifo/m_cfifo.c:470-527 | the conjunction loop is true exactly when the test holds for every FIFO from the start on |
| CFifoCascade.AllIsEmpty | components/m_cfifo/m_cfifo.c:470-490 | All_IsEmpty is false for NULL, else true exactly when every queue from the handle on is empty |
| CFifoCascade.AllIsFull | components/m_cfifo/m_cfifo.c:507-527 | All_IsFull is false for NULL, else true exactly when every FIFO from the handle on holds as many bytes as its size |
| CFifoCascade.FullRefusesPush | components/m_cfifo/m_cfifo.c:246-306 | a cascade that is full from the start on refuses a push, and one that is empty refuses a pop |
| CFifoCascade.NoBufferNotFullRefuses | components/m_cfifo/m_cfifo.c:535-548 | a FIFO with a size but no buffer is not full yet refuses every push, so a refused push does not imply a full cascade |
| CFifoCascade.Sweep | components/m_cfifo/m_cfifo.c:322-374 | the GetAdjacent walk applies the operation to exactly the FIFOs reached from the handle in the given direction and leaves the others alone |
| CFifoCascade.AllClear | components/m_cfifo/m_cfifo.c:322-340 | All_Clear is false for NULL; otherwise it empties every FIFO reached in the direction and leaves the rest untouched |
| CFifoCascade.AllSetFull | components/m_cfifo/m_cfifo.c:356-374 | All_SetFull is false for NULL; otherwise every FIFO reached in the direction queues its whole region and is full, and the rest are untouched |

## Left out

- FreeRTOS semaphores: taking them, timeouts, failure to create them in `m_cfifo_InitBuffer`, and the fact that an All_* walk locks only the first FIFO. These are concurrency plumbing over an RTOS that is not part of this model. Every call is modelled as if the semaphore were always obtained.
- `m_cfifo_CascadeAsNextBuffer` and raw `prev`/`next` wiring: the cascade is an acyclic sequence in `next` order, so cyclic or inconsistently linked chains are not represented.
- The return values of `m_cfifo_ConfigBuffer` and `m_cfifo_SetDummyByte` on success: the C functions fall off their end, so the value is undefined. Only their effect on the FIFO is modelled (CFifo.ConfigBuffer, CFifo.SetDummyByte, CFifoCascade.ThisConfigBuffer, CFifoCascade.ThisSetDummyByte).
- A direction value other than UP or DOWN, which GetAdjacentFifo maps to NULL: the direction is a two-valued datatype.
- The consumer callback's body: it is a foreign function, taken as an oracle, with every invocation recorded in the trace.
- Undefined behaviour in the decoder. These cases are excluded by the definedness predicates `StepDefined`/`PutDefined` and `Decodable`, not modelled:
  - a digit inserted at position 7 or more, which happens after a colon has driven a field's counter to 0;
  - an 02 record with more than 2 payload bytes, or an 04 record with more than 4, which shifts by a wrapped byte position.
- Start-address records (03, 05) have no semantics beyond the checksum in the code, and none is modelled. Intel HEX encoding and whole-file validation do not exist in the code.
- IhexRecord.RecordDecode: only records the decoder can take without undefined behaviour (`Decodable`) are described at record level. Arbitrary streams are covered one character at a time by PutOutcome, PutBaseFrame and FeedNoise.
- IhexRecord.RecordRun: stated for the upper-case text `RecordText` over any step that follows the table. The table fixes a step only on the states a record passes through, so other spellings are proved for ihex_Put itself, by RecordDecode through FeedRespelled.
- The caller's memory region is modelled as a value the FIFO owns (`Fifo.buffer`). The C FIFO keeps only a pointer to the caller's `const void*` region, so three uses are not represented: the caller writing into the region after ConfigBuffer and then calling SetFull; two FIFOs sharing one region; and the caller reading the region after a push.
- CFifoCascade.TotalsExact: the 32-bit totals are proved exact only for cascades of at most 65537 FIFOs. Longer cascades are given by AllGetSize/AllGetUsage as the total mod 2^32.
- CFifo operations take `Valid` as a precondition. A FIFO whose region is shorter than its size, or whose indices are out of range, is undefined behaviour in C and is not modelled.
