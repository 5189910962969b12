/**
 The decoder driven over a whole character stream: ihex_Put applied to
 each byte in turn, collecting the returned messages and the callbacks.
 */
module IhexStream {
  import opened Wrappers
  import opened Bitwise
  import opened IhexTypes
  import opened IhexDigits
  import opened Ihex

  /** Everything feeding a stream produced: the final lexer, one message per character, all callbacks in order. */
  datatype Trace = Trace(lexer: Lexer, messages: seq<Message>, calls: seq<Call>)

  /** One decoder step for a fixed callback, as a partial function of the lexer state and the input byte. */
  function PutStep(funcData: Option<DataCallback>): (Lexer, u8) --> Step
  {
    (lx: Lexer, c: u8) requires PutDefined(lx, c) => Put(Reader(lx, funcData), c)
  }

  /**
   `step` may be applied to `c` in state `lx`, and ihex_Put would not reach
   undefined behaviour there.
   */
  ghost predicate Applies(step: (Lexer, u8) --> Step, lx: Lexer, c: u8)
  {
    step.requires(lx, c) && PutDefined(lx, c)
  }

  /** Every step of running `step` over `s` from `lx` is within the step's domain and free of undefined behaviour. */
  ghost predicate RunDefined(step: (Lexer, u8) --> Step, lx: Lexer, s: seq<u8>)
    decreases |s|
  {
    |s| == 0 || (Applies(step, lx, s[0]) && RunDefined(step, step(lx, s[0]).lexer, s[1..]))
  }

  /** A step function applied to each byte of `s` in turn, collecting messages and callbacks. */
  function Run(step: (Lexer, u8) --> Step, lx: Lexer, s: seq<u8>): (t: Trace)
    requires RunDefined(step, lx, s)
    ensures |t.messages| == |s|
    decreases |s|
  {
    if |s| == 0 then Trace(lx, [], [])
    else
      var o := step(lx, s[0]);
      var rest := Run(step, o.lexer, s[1..]);
      Trace(rest.lexer, [o.message] + rest.messages, o.calls + rest.calls)
  }

  /** Running over `a + b` is running over `a`, then over `b` from where `a` left off. */
  lemma {:induction false} RunAppend(step: (Lexer, u8) --> Step, lx: Lexer, a: seq<u8>, b: seq<u8>)
    requires RunDefined(step, lx, a)
    requires RunDefined(step, Run(step, lx, a).lexer, b)
    ensures RunDefined(step, lx, a + b)
    ensures var ta := Run(step, lx, a);
      var tb := Run(step, ta.lexer, b);
      Run(step, lx, a + b) == Trace(tb.lexer, ta.messages + tb.messages, ta.calls + tb.calls)
    decreases |a|
  {
    if |a| == 0 {
      assert a + b == b;
    } else {
      var o := step(lx, a[0]);
      RunAppend(step, o.lexer, a[1..], b);
      ConsAppend(a, b);
      var ta1 := Run(step, o.lexer, a[1..]);
      var tb := Run(step, ta1.lexer, b);
      SeqAssoc([o.message], ta1.messages, tb.messages);
      SeqAssoc(o.calls, ta1.calls, tb.calls);
    }
  }

  lemma ConsAppend<T>(a: seq<T>, b: seq<T>)
    requires |a| > 0
    ensures (a + b)[0] == a[0] && (a + b)[1..] == a[1..] + b
  {
  }

  lemma SeqAssoc<T>(x: seq<T>, y: seq<T>, z: seq<T>)
    ensures x + (y + z) == (x + y) + z
  {
  }

  /** Running over one byte is one application of the step. */
  lemma RunOne(step: (Lexer, u8) --> Step, lx: Lexer, x: u8)
    requires Applies(step, lx, x)
    ensures RunDefined(step, lx, [x])
    ensures var o := step(lx, x);
      Run(step, lx, [x]) == Trace(o.lexer, [o.message], o.calls)
  {
    assert [x][1..] == [];
  }

  /** Running over two bytes is two applications of the step. */
  lemma RunPair(step: (Lexer, u8) --> Step, lx: Lexer, x: u8, y: u8)
    requires Applies(step, lx, x)
    requires Applies(step, step(lx, x).lexer, y)
    ensures RunDefined(step, lx, [x, y])
    ensures var o1 := step(lx, x);
      var o2 := step(o1.lexer, y);
      Run(step, lx, [x, y]) == Trace(o2.lexer, [o1.message, o2.message], o1.calls + o2.calls)
  {
    var o1 := step(lx, x);
    RunOne(step, lx, x);
    RunOne(step, o1.lexer, y);
    RunAppend(step, lx, [x], [y]);
    assert [x] + [y] == [x, y];
  }

  /** No character of `s`, fed from `rd`, reaches undefined behaviour. */
  ghost predicate FeedDefined(rd: Reader, s: seq<u8>)
  {
    RunDefined(PutStep(rd.funcData), rd.lexer, s)
  }

  /** ihex_Put applied to each character of `s` in turn. */
  function Feed(rd: Reader, s: seq<u8>): (t: Trace)
    requires FeedDefined(rd, s)
  {
    Run(PutStep(rd.funcData), rd.lexer, s)
  }

  /** Feeding `a + b` is feeding `a` and then feeding `b` from where `a` left the lexer. */
  lemma FeedAppend(rd: Reader, a: seq<u8>, b: seq<u8>)
    requires FeedDefined(rd, a)
    requires FeedDefined(Reader(Feed(rd, a).lexer, rd.funcData), b)
    ensures FeedDefined(rd, a + b)
    ensures var ta := Feed(rd, a);
      var tb := Feed(Reader(ta.lexer, rd.funcData), b);
      Feed(rd, a + b) == Trace(tb.lexer, ta.messages + tb.messages, ta.calls + tb.calls)
  {
    RunAppend(PutStep(rd.funcData), rd.lexer, a, b);
  }

  /**
   `t` spells the same text as `u`: same length, and each character is the
   same or a hex digit of the same value, so upper- and lower-case digits
   may be mixed freely.
   */
  predicate Respells(t: seq<u8>, u: seq<u8>)
  {
    |t| == |u| && forall i :: 0 <= i < |t| ==> t[i] == u[i] || 0 <= CharToValue(t[i]) == CharToValue(u[i])
  }

  /** ihex_Put sees a hex digit only through its value: both spellings of a digit make the same step. */
  lemma PutRespelled(rd: Reader, c: u8, c': u8)
    requires 0 <= CharToValue(c) == CharToValue(c')
    requires PutDefined(rd.lexer, c')
    ensures PutDefined(rd.lexer, c) && Put(rd, c) == Put(rd, c')
  {
    PutDigit(rd, c');
    PutDigit(rd, c);
  }

  /** Feeding a respelled text gives the final lexer, the messages and the callbacks of the original. */
  lemma {:induction false} FeedRespelled(rd: Reader, t: seq<u8>, u: seq<u8>)
    requires Respells(t, u) && FeedDefined(rd, u)
    ensures FeedDefined(rd, t) && Feed(rd, t) == Feed(rd, u)
    decreases |t|
  {
    if |t| > 0 {
      var step := PutStep(rd.funcData);
      assert Applies(step, rd.lexer, u[0]);
      if t[0] != u[0] {
        PutRespelled(rd, t[0], u[0]);
      }
      assert Applies(step, rd.lexer, t[0]) && step(rd.lexer, t[0]) == step(rd.lexer, u[0]);
      var rd1 := Reader(step(rd.lexer, u[0]).lexer, rd.funcData);
      assert Respells(t[1..], u[1..]) by {
        forall i | 0 <= i < |t| - 1
          ensures t[1..][i] == u[1..][i] || 0 <= CharToValue(t[1..][i]) == CharToValue(u[1..][i])
        {
          assert t[1..][i] == t[i + 1] && u[1..][i] == u[i + 1];
        }
      }
      FeedRespelled(rd1, t[1..], u[1..]);
    }
  }
}
