/**
 The writable stream of module 64229 (readable-stream), without _writev, errors and destroy.
 _write may answer at once or later; the user's calls, the answers and the queued ticks are
 steps that come in any order.
 */
module Writable {

  // length is what chunk.length says.
  datatype Chunk = Chunk(data: int, length: nat)

  datatype Request = Request(chunk: Chunk, callback: nat)

  // What process.nextTick holds: afterWrite with its arguments, or the call of _final.
  datatype Tick = AfterWrite(finished: bool, callback: nat) | CallFinal

  // What the outside sees; Called(n) is the callback of the n-th accepted write.
  datatype Event = Called(callback: nat) | Drain | Prefinish | Finish

  datatype Step =
    | Write(chunk: Chunk)
    | Cork
    | Uncork
    | EndWith(chunk: Chunk)
    | End
    | Answer        // _write calls back, if a write is out
    | NextTick      // the oldest tick runs, if there is one
    | FinalAnswer   // _final calls back, if it is running

  // How many of the ticks will call callback n, will call any, or will call _final.
  ghost function Waits(ticks: seq<Tick>, n: nat): nat {
    if |ticks| == 0 then 0 else (if ticks[0].AfterWrite? && ticks[0].callback == n then 1 else 0) + Waits(ticks[1..], n)
  }

  ghost function Waiting(ticks: seq<Tick>): nat {
    if |ticks| == 0 then 0 else (if ticks[0].AfterWrite? then 1 else 0) + Waiting(ticks[1..])
  }

  ghost function Finals(ticks: seq<Tick>): nat {
    if |ticks| == 0 then 0 else (if ticks[0].CallFinal? then 1 else 0) + Finals(ticks[1..])
  }

  ghost function Count(events: seq<Event>, e: Event): nat {
    if |events| == 0 then 0
    else Count(events[..|events| - 1], e) + (if events[|events| - 1] == e then 1 else 0)
  }

  lemma {:induction false} TickAdded(ticks: seq<Tick>, t: Tick)
    ensures forall n: nat {:trigger Waits(ticks + [t], n)} ::
      Waits(ticks + [t], n) == Waits(ticks, n) + (if t.AfterWrite? && t.callback == n then 1 else 0)
    ensures Waiting(ticks + [t]) == Waiting(ticks) + (if t.AfterWrite? then 1 else 0)
    ensures Finals(ticks + [t]) == Finals(ticks) + (if t.CallFinal? then 1 else 0)
  {
    var all := ticks + [t];
    if |ticks| > 0 {
      TickAdded(ticks[1..], t);
      assert all[1..] == ticks[1..] + [t] && all[0] == ticks[0];
    } else {
      assert all[1..] == [] && all[0] == t;
    }
  }

  lemma EventAdded(events: seq<Event>, e: Event)
    ensures forall x {:trigger Count(events + [e], x)} ::
      Count(events + [e], x) == Count(events, x) + (if e == x then 1 else 0)
  {
    var all := events + [e];
    assert all[..|all| - 1] == events && all[|all| - 1] == e;
  }

  // Every chunk is delivered once and in order, or is among rest, which still waits.
  ghost predicate InOrder(accepted: seq<Chunk>, delivered: seq<Chunk>, rest: seq<Request>) {
    && delivered <= accepted && |delivered| + |rest| == |accepted|
    && forall i | 0 <= i < |rest| :: rest[i] == Request(accepted[|delivered| + i], |delivered| + i)
  }

  // The callbacks of the first n writes, and no others, are called once each, now or later.
  ghost predicate CalledOnce(events: seq<Event>, ticks: seq<Tick>, held: int, n: int) {
    forall c: nat {:trigger Count(events, Called(c))} {:trigger Waits(ticks, c)} ::
      Count(events, Called(c)) + Waits(ticks, c) + (if held == c then 1 else 0) == if c < n then 1 else 0
  }

  ghost predicate NoneFinishing(ticks: seq<Tick>) {
    forall t | t in ticks && t.AfterWrite? :: !t.finished
  }

  // prefinish was emitted once if prefinished, and finish once, as the last event, if finished.
  ghost predicate Ordered(events: seq<Event>, prefinished: bool, finished: bool) {
    && Count(events, Prefinish) == (if prefinished then 1 else 0)
    && Count(events, Finish) == (if finished then 1 else 0)
    && (finished ==> prefinished && |events| > 0 && events[|events| - 1] == Finish)
  }

  lemma OnceEvent(events: seq<Event>, e: Event, ticks: seq<Tick>, held: int, n: int)
    requires CalledOnce(events, ticks, held, n) && (e.Called? ==> e.callback == held)
    ensures CalledOnce(events + [e], ticks, if e.Called? then -1 else held, n)
  {
    EventAdded(events, e);
  }

  lemma OnceTick(events: seq<Event>, ticks: seq<Tick>, t: Tick, held: int, n: int)
    requires CalledOnce(events, ticks, held, n)
    requires t.AfterWrite? ==> t.callback == n
    ensures CalledOnce(events, ticks + [t], held, if t.AfterWrite? then n + 1 else n)
    ensures Waiting(ticks + [t]) == Waiting(ticks) + (if t.AfterWrite? then 1 else 0)
    ensures Finals(ticks + [t]) == Finals(ticks) + (if t.CallFinal? then 1 else 0)
    ensures NoneFinishing(ticks) && (t.AfterWrite? ==> !t.finished) ==> NoneFinishing(ticks + [t])
  {
    TickAdded(ticks, t);
  }

  // The oldest tick is taken from the queue.
  lemma TickTaken(events: seq<Event>, ticks: seq<Tick>, n: int)
    requires CalledOnce(events, ticks, -1, n) && ticks != []
    ensures CalledOnce(events, ticks[1..], if ticks[0].AfterWrite? then ticks[0].callback else -1, n)
    ensures Waiting(ticks) == Waiting(ticks[1..]) + (if ticks[0].AfterWrite? then 1 else 0)
    ensures Finals(ticks) == Finals(ticks[1..]) + (if ticks[0].CallFinal? then 1 else 0)
    ensures NoneFinishing(ticks) ==> NoneFinishing(ticks[1..]) && (ticks[0].AfterWrite? ==> !ticks[0].finished)
  {
    assert ticks[0] in ticks;
  }

  lemma OrderedMore(events: seq<Event>, prefinished: bool, e: Event)
    requires Ordered(events, prefinished, false)
    requires if e == Prefinish then !prefinished else e == Finish ==> prefinished
    ensures Ordered(events + [e], prefinished || e == Prefinish, e == Finish)
  {
    EventAdded(events, e);
  }

  class Writable {
    const objectMode: bool
    const highWaterMark: nat
    const hasFinal: bool
    const atOnce: nat -> bool   // whether the n-th call of _write calls back before it returns
    const finalAtOnce: bool     // the same of _final

    var length: int
    var writing: bool
    var writelen: int
    var writecb: nat
    var corked: nat
    var sync: bool
    var bufferProcessing: bool
    var buffered: seq<Request>   // from bufferedRequest to lastBufferedRequest
    var writes: nat              // how many writes were taken; the next callback's number
    var bufferedRequestCount: int
    var pendingcb: int
    var needDrain: bool
    var ending: bool
    var ended: bool
    var finished: bool
    var prefinished: bool
    var finalCalled: bool
    var finalRunning: bool
    var ticks: seq<Tick>
    ghost var accepted: seq<Chunk>   // the chunks that write took
    ghost var delivered: seq<Chunk>  // the chunks passed to _write, in order
    ghost var events: seq<Event>

    function Size(c: Chunk): nat {
      if objectMode then 1 else c.length
    }

    ghost function Total(rest: seq<Request>): nat {
      if |rest| == 0 then 0 else Size(rest[0].chunk) + Total(rest[1..])
    }

    // needFinish
    predicate NeedFinish()
      reads `ending, `length, `buffered, `finished, `writing
    {
      ending && length == 0 && buffered == [] && !finished && !writing
    }

    // Of what is delivered and what waits, and what is out.
    ghost predicate Delivery(rest: seq<Request>)
      reads `accepted, `delivered, `writes, `writing, `writelen, `writecb, `length
    {
      && InOrder(accepted, delivered, rest) && writes == |accepted|
      && (writing ==> |delivered| > 0 && writelen == Size(delivered[|delivered| - 1]) && writecb == |delivered| - 1)
      && length == Total(rest) + (if writing then writelen else 0)
    }

    // How many calls of _write were answered.
    ghost function Answered(): nat
      reads `writing, `delivered
    {
      if writing && |delivered| > 0 then |delivered| - 1 else |delivered|
    }

    // Of the callbacks; held is one on its way to a tick or a call, -1 for none.
    ghost predicate Callbacks(rest: seq<Request>, held: int)
      reads `events, `ticks, `delivered, `writing, `pendingcb, `finalCalled, `prefinished
    {
      && CalledOnce(events, ticks, held, Answered())
      && pendingcb == |rest| + (if writing then 1 else 0) + Waiting(ticks) + (if held >= 0 then 1 else 0)
                      + (if finalCalled && !prefinished then 1 else 0)
    }

    // The way to finish.
    ghost predicate Finishing(rest: seq<Request>)
      reads `ticks, `events, `finalRunning, `finalCalled, `prefinished, `finished, `ending, `writing, `pendingcb
    {
      && Finals(ticks) + (if finalRunning then 1 else 0) == (if finalCalled && !prefinished then 1 else 0)
      && (finalCalled ==> hasFinal)
      && (prefinished ==> hasFinal ==> finalCalled)
      && (finalCalled || prefinished ==> ending && rest == [] && !writing)
      && (finished ==> prefinished && pendingcb == 0)
      && (!ending ==> NoneFinishing(ticks))
      && Ordered(events, prefinished, finished)
    }

    // What holds at every moment.
    ghost predicate Accounts(rest: seq<Request>, held: int)
      reads `accepted, `delivered, `writes, `writing, `writelen, `writecb, `length, `events, `ticks, `pendingcb
      reads `finalCalled, `prefinished, `finalRunning, `finished, `ending
    {
      Delivery(rest) && Callbacks(rest, held) && Finishing(rest)
    }

    /** What holds between two steps. */
    ghost predicate Valid()
      reads this
    {
      && Accounts(buffered, -1)
      && bufferedRequestCount == |buffered| && !bufferProcessing
      && (writing ==> !sync)
      && (buffered != [] ==> writing || corked > 0)
      && (NeedFinish() ==> pendingcb > 0)
      && (needDrain && !ending ==> pendingcb > 0)
    }

    constructor (objectMode: bool, highWaterMark: nat, hasFinal: bool, atOnce: nat -> bool, finalAtOnce: bool)
      ensures Valid() && accepted == [] && events == [] && ticks == [] && corked == 0 && !ending
      ensures this.objectMode == objectMode && this.highWaterMark == highWaterMark && this.hasFinal == hasFinal
      ensures this.atOnce == atOnce && this.finalAtOnce == finalAtOnce && !needDrain && !writing
    {
      this.objectMode, this.highWaterMark, this.hasFinal := objectMode, highWaterMark, hasFinal;
      this.atOnce, this.finalAtOnce := atOnce, finalAtOnce;
      length, writing, writelen, writecb, corked, sync := 0, false, 0, 0, 0, true;
      bufferProcessing, buffered, bufferedRequestCount, pendingcb := false, [], 0, 0;
      needDrain, ending, ended, finished := false, false, false, false;
      prefinished, finalCalled, finalRunning := false, false, false;
      ticks, writes := [], 0;
      accepted, delivered, events := [], [], [];
    }

    // ---------------------------------------------------------------------
    // Towards finish
    // ---------------------------------------------------------------------

    ghost method Emit(e: Event, held: int)
      requires Ordered(events, prefinished && e != Prefinish, false) && (e == Finish ==> prefinished)
      requires CalledOnce(events, ticks, held, Answered()) && (e.Called? ==> e.callback == held)
      modifies this`events
      ensures events == old(events) + [e] && Ordered(events, prefinished || e == Prefinish, e == Finish)
      ensures CalledOnce(events, ticks, if e.Called? then -1 else held, Answered())
    {
      hide CalledOnce, Ordered;
      OnceEvent(events, e, ticks, held, Answered());
      OrderedMore(events, prefinished && e != Prefinish, e);
      events := events + [e];
    }

    // prefinish
    method PrefinishStep()
      requires Accounts(buffered, -1) && NeedFinish()
      modifies this`finalCalled, this`pendingcb, this`ticks, this`prefinished, this`events
      ensures Accounts(buffered, -1)
      ensures if hasFinal && !old(finalCalled)
        then ticks == old(ticks) + [CallFinal] && events == old(events) && finalCalled
          && pendingcb == old(pendingcb) + 1 && !prefinished
        else
          && ticks == old(ticks) && finalCalled == old(finalCalled) && pendingcb == old(pendingcb)
          && events == (if hasFinal || old(prefinished) then old(events) else old(events) + [Prefinish])
          && prefinished == (old(prefinished) || !hasFinal)
    {
      hide InOrder, CalledOnce, Ordered, Count, Waits, Waiting, Finals, NoneFinishing;
      if !prefinished && !finalCalled {
        if hasFinal {
          OnceTick(events, ticks, CallFinal, -1, Answered());
          pendingcb, finalCalled, ticks := pendingcb + 1, true, ticks + [CallFinal];
        } else {
          prefinished := true;
          Emit(Prefinish, -1);
        }
      }
    }

    // finishMaybe
    method FinishMaybe() returns (need: bool)
      requires Accounts(buffered, -1)
      modifies this`finalCalled, this`pendingcb, this`ticks, this`prefinished, this`finished, this`events
      ensures Accounts(buffered, -1) && (NeedFinish() ==> pendingcb > 0)
      ensures need == old(NeedFinish()) && old(events) <= events && old(ticks) <= ticks
      ensures need && (old(prefinished) || !hasFinal) && old(pendingcb) == 0 ==> finished
      ensures old(prefinished) || old(finalCalled) ==> prefinished == old(prefinished) && ticks == old(ticks)
      ensures !need ==> unchanged(this)
    {
      hide InOrder, CalledOnce, Ordered, Count, Waits, Waiting, Finals, NoneFinishing;
      need := NeedFinish();
      if need {
        PrefinishStep();
        if pendingcb == 0 {
          finished := true;
          Emit(Finish, -1);
        }
      }
    }

    // onwriteDrain
    method DrainMaybe(ghost held: int)
      requires Accounts(buffered, held) && !finished
      modifies this`needDrain, this`events
      ensures Accounts(buffered, held)
      ensures var drains := length == 0 && old(needDrain);
        events == old(events) + (if drains then [Drain] else []) && needDrain == (old(needDrain) && !drains)
    {
      hide InOrder, CalledOnce, Ordered, Count, Waits, Waiting, Finals, NoneFinishing;
      if length == 0 && needDrain {
        needDrain := false;
        Emit(Drain, held);
      }
    }

    method CallBack(callback: nat)
      requires Accounts(buffered, callback)
      modifies this`pendingcb, this`events
      ensures Accounts(buffered, -1) && events == old(events) + [Called(callback)] && pendingcb == old(pendingcb) - 1
    {
      hide InOrder, CalledOnce, Ordered, Count, Waits, Waiting, Finals, NoneFinishing;
      pendingcb := pendingcb - 1;
      Emit(Called(callback), callback);
    }

    // afterWrite
    method AfterWriteNow(flag: bool, callback: nat)
      requires Accounts(buffered, callback) && (flag ==> ending)
      modifies this`needDrain, this`finalCalled, this`pendingcb, this`ticks, this`prefinished, this`finished
      modifies this`events
      ensures Accounts(buffered, -1) && (NeedFinish() ==> pendingcb > 0) && (needDrain && !ending ==> pendingcb > 0)
      ensures var drains := !flag && length == 0 && old(needDrain);
        old(events) + (if drains then [Drain] else []) + [Called(callback)] <= events
          && needDrain == (old(needDrain) && !drains)
    {
      hide InOrder, CalledOnce, Ordered, Count, Waits, Waiting, Finals, NoneFinishing;
      if !flag { DrainMaybe(callback); }
      CallBack(callback);
      var _ := FinishMaybe();
    }

    // ---------------------------------------------------------------------
    // Delivery
    // ---------------------------------------------------------------------

    // The calls from..to of _write in a row: each but an unanswered last one was answered at once.
    ghost predicate Burst(from: nat, to: nat, out: bool) {
      && from < to && (forall k | from <= k < to - 1 :: atOnce(k)) && out == !atOnce(to - 1)
    }

    // doWrite: chunk goes to _write, which may call back at once.
    method Deliver(chunk: Chunk, callback: nat, ghost rest: seq<Request>, ghost held: int)
      requires Accounts([Request(chunk, callback)] + rest, held) && !writing
      requires if bufferProcessing then buffered != [] else rest == buffered == []
      modifies this`length, this`writing, this`writelen, this`writecb, this`sync, this`ticks, this`delivered
      ensures Accounts(rest, held) && !sync
      ensures delivered == old(delivered) + [chunk] && writing == !atOnce(|old(delivered)|)
      ensures ticks == old(ticks) + (if writing then [] else [AfterWrite(NeedFinish(), callback)])
      ensures Waiting(ticks) == Waiting(old(ticks)) + (if writing then 0 else 1)
    {
      hide InOrder, CalledOnce, Ordered, Count, Waits, Waiting, Finals, NoneFinishing;
      Send(chunk, callback, rest, held);
      if atOnce(callback) {
        AnswerAtOnce(rest, held);
      }
      sync := false;
    }

    method Send(chunk: Chunk, callback: nat, ghost rest: seq<Request>, ghost held: int)
      requires Accounts([Request(chunk, callback)] + rest, held) && !writing
      modifies this`writing, this`writelen, this`writecb, this`sync, this`delivered
      ensures Accounts(rest, held) && writing && sync
      ensures delivered == old(delivered) + [chunk] && callback == |old(delivered)|
    {
      hide CalledOnce, Ordered, Count, Waits, Waiting, Finals, NoneFinishing;
      TakeFirst(Request(chunk, callback), rest);
      assert ([Request(chunk, callback)] + rest)[0] == Request(chunk, callback);
      writelen, writecb, writing, sync := Size(chunk), callback, true, true;
      delivered := delivered + [chunk];
    }

    lemma TakeFirst(r: Request, rest: seq<Request>)
      ensures Total([r] + rest) == Size(r.chunk) + Total(rest)
    {
      assert ([r] + rest)[1..] == rest;
    }

    // onwriteStateUpdate
    method Settle()
      modifies this`length, this`writing, this`writelen, this`writecb
      ensures length == old(length) - old(writelen) && !writing && writelen == 0
    {
      writing, writecb := false, 0;
      length, writelen := length - writelen, 0;
    }

    // onwrite, called from inside _write
    method AnswerAtOnce(ghost rest: seq<Request>, ghost held: int)
      requires Accounts(rest, held) && writing && sync
      requires if bufferProcessing then buffered != [] else rest == buffered == []
      modifies this`length, this`writing, this`writelen, this`writecb, this`ticks
      ensures Accounts(rest, held) && !writing
      ensures ticks == old(ticks) + [AfterWrite(NeedFinish(), old(writecb))]
      ensures Waiting(ticks) == Waiting(old(ticks)) + 1
    {
      hide InOrder, CalledOnce, Ordered, Count, Waits, Waiting, Finals, NoneFinishing;
      var callback := writecb;
      Settle();
      var flag := NeedFinish();
      assert !(!flag && corked == 0 && !bufferProcessing && buffered != []);
      OnceTick(events, ticks, AfterWrite(flag, callback), held, callback);
      ticks := ticks + [AfterWrite(flag, callback)];
    }

    // In the loop of clearBuffer, with n requests delivered; bufferedRequest still is the first of all.
    ghost predicate Clearing(n: nat, held: int, first: nat, queued: seq<Tick>)
      reads this
    {
      && n <= |buffered| && bufferProcessing && buffered != [] && bufferedRequestCount == |buffered| - n
      && Accounts(buffered[n..], held) && |delivered| == first + n
      && (if n == 0 then !writing else !sync && Burst(first, first + n, writing))
      && queued <= ticks && Waiting(ticks) == Waiting(queued) + Answered() - first
    }

    method DeliverNext(n: nat, ghost held: int, ghost first: nat, ghost queued: seq<Tick>)
      requires Clearing(n, held, first, queued) && n < |buffered| && !writing
      modifies this`length, this`writing, this`writelen, this`writecb, this`sync, this`ticks, this`delivered
      modifies this`bufferedRequestCount
      ensures Clearing(n + 1, held, first, queued)
    {
      hide InOrder, CalledOnce, Ordered, Count, Waits, Waiting, Finals, NoneFinishing;
      var r := buffered[n];
      assert buffered[n..] == [r] + buffered[n + 1..];
      assert r == buffered[n..][0];
      Deliver(r.chunk, r.callback, buffered[n + 1..], held);
      bufferedRequestCount := bufferedRequestCount - 1;
    }

    // clearBuffer
    method ClearBuffer(ghost held: int)
      requires Accounts(buffered, held) && !writing && !bufferProcessing && buffered != []
        && bufferedRequestCount == |buffered|
      modifies this`length, this`writing, this`writelen, this`writecb, this`sync, this`ticks, this`delivered
      modifies this`bufferProcessing, this`buffered, this`bufferedRequestCount
      ensures Accounts(buffered, held) && !bufferProcessing && bufferedRequestCount == |buffered| && !sync
      ensures Burst(|old(delivered)|, |delivered|, writing) && (buffered != [] ==> writing)
      ensures old(ticks) <= ticks && Waiting(ticks) == Waiting(old(ticks)) + Answered() - |old(delivered)|
      ensures writing || Waiting(ticks) > 0
    {
      hide InOrder, CalledOnce, Ordered, Count, Waits, Waiting, Finals, NoneFinishing;
      ghost var first, queued := |delivered|, ticks;
      assert buffered[0..] == buffered;
      bufferProcessing := true;
      var n := 0;
      var going := true;
      while going
        invariant Clearing(n, held, first, queued)
        invariant going == (n < |buffered| && !writing) && (going || n > 0)
        decreases |buffered| - n
      {
        DeliverNext(n, held, first, queued);
        n := n + 1;
        going := n < |buffered| && !writing;
      }
      buffered, bufferProcessing := buffered[n..], false;
    }

    // onwrite, called after _write has returned
    method AnswerLater()
      requires Valid() && writing
      modifies this`length, this`writing, this`writelen, this`writecb, this`sync, this`ticks, this`delivered
      modifies this`bufferProcessing, this`buffered, this`bufferedRequestCount, this`pendingcb, this`needDrain
      modifies this`finalCalled, this`prefinished, this`finished, this`events
      ensures Valid()
      ensures var drains := old(needDrain) && length == 0
          && !(old(ending) && old(length) == old(writelen) && old(buffered) == []);
        old(events) + (if drains then [Drain] else []) + [Called(old(writecb))] <= events
      ensures if old(corked) > 0 || old(buffered) == []
        then !writing && delivered == old(delivered)
        else Burst(|old(delivered)|, |delivered|, writing) && (buffered != [] ==> writing)
    {
      hide InOrder, NeedFinish, Count, Ordered, CalledOnce, Waits, Waiting, Finals, NoneFinishing, Total;
      NotFinishedYet();
      hide Accounts, Burst;
      var callback, flag := SettleAndResume();
      AfterWriteNow(flag, callback);
    }

    method SettleAndResume() returns (callback: nat, flag: bool)
      requires Valid() && writing && !finished
      modifies this`length, this`writing, this`writelen, this`writecb, this`sync, this`ticks, this`delivered
      modifies this`bufferProcessing, this`buffered, this`bufferedRequestCount
      ensures callback == old(writecb) && Accounts(buffered, callback)
      ensures !bufferProcessing && bufferedRequestCount == |buffered| && (writing ==> !sync)
      ensures flag == (ending && old(length) == old(writelen) && old(buffered) == [])
      ensures buffered != [] ==> writing || corked > 0
      ensures if corked > 0 || old(buffered) == []
        then !writing && delivered == old(delivered)
        else Burst(|old(delivered)|, |delivered|, writing)
    {
      hide Accounts, Burst;
      callback, flag := SettleLater();
      Resume(flag, callback);
    }

    lemma NotFinishedYet()
      requires Accounts(buffered, -1) && writing
      ensures !finished && writecb == |delivered| - 1
    {
    }

    // Once nothing is out, what is buffered goes on unless it is corked.
    method Resume(flag: bool, ghost held: int)
      requires Accounts(buffered, held) && !writing && !bufferProcessing && bufferedRequestCount == |buffered|
        && (flag ==> buffered == [])
      modifies this`length, this`writing, this`writelen, this`writecb, this`sync, this`ticks, this`delivered
      modifies this`bufferProcessing, this`buffered, this`bufferedRequestCount
      ensures Accounts(buffered, held) && !bufferProcessing && bufferedRequestCount == |buffered| && (writing ==> !sync)
      ensures buffered != [] ==> writing || corked > 0
      ensures if corked > 0 || old(buffered) == []
        then !writing && delivered == old(delivered) && buffered == old(buffered)
        else Burst(|old(delivered)|, |delivered|, writing) && (writing || Waiting(ticks) > Waiting(old(ticks)))
    {
      hide Accounts, Waiting;
      if !flag && corked == 0 && !bufferProcessing && buffered != [] {
        ClearBuffer(held);
      }
    }

    method SettleLater() returns (callback: nat, flag: bool)
      requires Accounts(buffered, -1) && writing
      modifies this`length, this`writing, this`writelen, this`writecb
      ensures Accounts(buffered, callback) && !writing && callback == old(writecb) && flag == NeedFinish()
      ensures length == old(length) - old(writelen)
    {
      callback := writecb;
      Settle();
      flag := NeedFinish();
    }

    // ---------------------------------------------------------------------
    // The user's calls
    // ---------------------------------------------------------------------

    // write, for which false also says that the stream had ended
    method Write(chunk: Chunk) returns (more: bool)
      requires Valid()
      modifies this
      ensures Valid() && events == old(events) && corked == old(corked) && ending == old(ending) && ended == old(ended)
      ensures old(ending) ==> !more && unchanged(this)
      ensures !old(ending) ==> var first := |old(delivered)| - if old(writing) then 1 else 0;
        0 <= first <= |accepted|
          && more == ((if objectMode then |accepted| - first else Lengths(accepted[first..])) < highWaterMark)
      ensures !old(ending) ==> accepted == old(accepted) + [chunk] && needDrain == (old(needDrain) || !more)
      ensures !old(ending) ==> if old(writing) || old(corked) > 0
        then delivered == old(delivered) && ticks == old(ticks) && writing == old(writing)
        else delivered == accepted && writing == !atOnce(|old(delivered)|)
    {
      hide Accounts, InOrder, CalledOnce, Ordered, Count, Waits, Waiting, Finals, NoneFinishing, Total, Size, Lengths;
      if ending {
        return false;
      }
      var callback;
      LengthWith(chunk);
      more, callback := Take(chunk);
      if writing || corked > 0 {
        buffered := buffered + [Request(chunk, callback)];
        bufferedRequestCount := bufferedRequestCount + 1;
      } else {
        assert buffered + [Request(chunk, callback)] == [Request(chunk, callback)] + [];
        Deliver(chunk, callback, [], -1);
        AllDelivered();
      }
    }

    lemma AllDelivered()
      requires Accounts([], -1)
      ensures delivered == accepted
    {
    }

    // The accounts of one more chunk.
    method Take(chunk: Chunk) returns (more: bool, callback: nat)
      requires Accounts(buffered, -1) && !ending
      modifies this`pendingcb, this`length, this`needDrain, this`writes, this`accepted
      ensures Accounts(buffered + [Request(chunk, callback)], -1)
      ensures pendingcb == old(pendingcb) + 1 > 0 && accepted == old(accepted) + [chunk]
      ensures more == (old(length) + Size(chunk) < highWaterMark) && needDrain == (old(needDrain) || !more)
    {
      hide CalledOnce, Ordered, Count, Waits, Waiting, Finals, NoneFinishing, Total;
      TotalMore(buffered, Request(chunk, writes));
      pendingcb, length := pendingcb + 1, length + Size(chunk);
      more := length < highWaterMark;
      if !more { needDrain := true; }
      callback := writes;
      writes, accepted := writes + 1, accepted + [chunk];
    }

    lemma {:induction false} TotalMore(rest: seq<Request>, r: Request)
      ensures Total(rest + [r]) == Total(rest) + Size(r.chunk)
    {
      if |rest| > 0 {
        TotalMore(rest[1..], r);
        assert (rest + [r])[1..] == rest[1..] + [r];
      } else {
        assert (rest + [r])[1..] == [];
      }
    }

    // cork
    method Cork()
      requires Valid()
      modifies this`corked
      ensures Valid() && corked == old(corked) + 1
    {
      corked := corked + 1;
    }

    // uncork
    method Uncork()
      requires Valid()
      modifies this`length, this`writing, this`writelen, this`writecb, this`sync, this`ticks, this`delivered
      modifies this`bufferProcessing, this`buffered, this`bufferedRequestCount, this`corked
      ensures Valid() && corked == (if old(corked) == 0 then 0 else old(corked) - 1)
      ensures if old(corked) == 1 && !old(writing) && old(buffered) != []
        then Burst(|old(delivered)|, |delivered|, writing)
        else delivered == old(delivered) && writing == old(writing) && ticks == old(ticks)
    {
      hide Accounts, Burst;
      if corked > 0 {
        corked := corked - 1;
        if !writing && corked == 0 && !bufferProcessing && buffered != [] {
          ClearBuffer(-1);
        }
        Counted();
      }
    }

    // Something out, or waiting for its callback, counts.
    lemma Counted()
      requires Accounts(buffered, -1)
      ensures writing || Waiting(ticks) > 0 ==> pendingcb > 0
    {
    }

    // end without a chunk
    method End()
      requires Valid()
      modifies this`length, this`writing, this`writelen, this`writecb, this`sync, this`ticks, this`delivered
      modifies this`bufferProcessing, this`buffered, this`bufferedRequestCount, this`corked
      modifies this`ending, this`ended, this`pendingcb, this`finalCalled, this`prefinished, this`finished, this`events
      ensures Valid() && corked == 0 && ending && (old(ended) || !old(ending) ==> ended)
      ensures old(corked) == 0 || old(writing) ==> delivered == old(delivered)
      ensures old(corked) > 0 && !old(writing) && old(buffered) != [] ==> Burst(|old(delivered)|, |delivered|, writing)
      ensures old(events) <= events
    {
      hide Accounts, Burst;
      if corked > 0 {
        corked := 1;
        Uncork();
      }
      if !ending {
        EndWritable();
      }
    }

    // endWritable
    method EndWritable()
      requires Valid() && !ending && corked == 0
      modifies this`ending, this`ended, this`pendingcb, this`finalCalled, this`prefinished, this`finished
      modifies this`events, this`ticks
      ensures Valid() && ending && ended && old(events) <= events
    {
      hide InOrder, CalledOnce, Ordered, Count, Waits, Waiting, Finals, NoneFinishing, Total;
      ending := true;
      var _ := FinishMaybe();
      ended := true;
    }

    // ---------------------------------------------------------------------
    // Ticks and the end
    // ---------------------------------------------------------------------

    // The oldest tick.
    method NextTick()
      requires Valid() && ticks != []
      modifies this`ticks, this`needDrain, this`finalCalled, this`pendingcb, this`prefinished, this`finished
      modifies this`finalRunning, this`events
      ensures Valid()
      ensures var t := old(ticks[0]);
        if t.AfterWrite? then
          var drains := !t.finished && length == 0 && old(needDrain);
          old(events) + (if drains then [Drain] else []) + [Called(t.callback)] <= events
        else if finalAtOnce then prefinished && old(events) + [Prefinish] <= events
        else finalRunning && events == old(events)
    {
      hide Accounts;
      var t := ticks[0];
      TakeTick();
      match t
      case AfterWrite(flag, callback) => AfterWriteNow(flag, callback);
      case CallFinal =>
        if finalAtOnce {
          FinalAnswer();
        }
    }

    method TakeTick()
      requires Valid() && ticks != []
      modifies this`ticks, this`finalRunning
      ensures ticks == old(ticks)[1..] && finalRunning == (old(finalRunning) || old(ticks)[0].CallFinal?)
      ensures if old(ticks)[0].AfterWrite?
        then Accounts(buffered, old(ticks)[0].callback) && (old(ticks)[0].finished ==> ending)
        else Accounts(buffered, -1) && pendingcb > 0 && ending
    {
      hide InOrder, CalledOnce, Ordered, Count, Waits, Waiting, Finals, NoneFinishing, Total;
      TickTaken(events, ticks, Answered());
      if ticks[0].CallFinal? { finalRunning := true; }
      ticks := ticks[1..];
    }

    // The callback of _final.
    method FinalAnswer()
      requires Accounts(buffered, -1) && finalRunning
      modifies this`ticks, this`finalCalled, this`pendingcb, this`prefinished, this`finished, this`finalRunning
      modifies this`events
      ensures Accounts(buffered, -1) && (NeedFinish() ==> pendingcb > 0) && ending
      ensures prefinished && old(events) + [Prefinish] <= events && !finalRunning
    {
      hide InOrder, CalledOnce, Ordered, Count, Waits, Waiting, Finals, NoneFinishing, Total;
      finalRunning := false;
      pendingcb := pendingcb - 1;
      prefinished := true;
      Emit(Prefinish, -1);
      var _ := FinishMaybe();
    }

    // The same as a step of its own.
    method FinalLater()
      requires Valid() && finalRunning
      modifies this`ticks, this`finalCalled, this`pendingcb, this`prefinished, this`finished, this`finalRunning
      modifies this`events
      ensures Valid() && prefinished && old(events) + [Prefinish] <= events && !finalRunning
    {
      hide Accounts;
      FinalAnswer();
    }

    // ---------------------------------------------------------------------
    // Runs
    // ---------------------------------------------------------------------

    method EndWith(chunk: Chunk)
      requires Valid()
      modifies this
      ensures Valid() && accepted == old(accepted) + (if old(ending) then [] else [chunk]) && ending
      ensures old(events) <= events
    {
      hide Valid, Burst;
      var _ := Write(chunk);
      End();
    }

    method Do(step: Step)
      requires Valid()
      modifies this
      ensures Valid() && accepted == old(accepted) + Taken([step], old(ending))
      ensures ending == (old(ending) || step.End? || step.EndWith?)
      ensures old(events) <= events
    {
      hide Valid, Burst;
      match step
      case Write(chunk) => var _ := Write(chunk);
      case Cork => Cork();
      case Uncork => Uncork();
      case EndWith(chunk) =>
        EndWith(chunk);
      case End => End();
      case Answer => if writing { AnswerLater(); }
      case NextTick => if ticks != [] { NextTick(); }
      case FinalAnswer => if finalRunning { FinalLater(); }
    }

    /** Any run: what the stream took are the chunks written before its end, in order. */
    method Run(steps: seq<Step>)
      requires Valid()
      modifies this
      ensures Valid() && accepted == old(accepted) + Taken(steps, old(ending))
      ensures old(events) <= events
      ensures ending == (old(ending) || exists n :: 0 <= n < |steps| && (steps[n].End? || steps[n].EndWith?))
    {
      hide Valid, Taken;
      var n := 0;
      assert steps[0..] == steps;
      while n < |steps|
        invariant n <= |steps| && Valid() && old(events) <= events
        invariant accepted + Taken(steps[n..], ending) == old(accepted) + Taken(steps, old(ending))
        invariant ending == (old(ending) || exists m :: 0 <= m < n && (steps[m].End? || steps[m].EndWith?))
      {
        assert steps[n..] == [steps[n]] + steps[n + 1..];
        TakenSplits(steps[n], steps[n + 1..], ending);
        Do(steps[n]);
        n := n + 1;
      }
      assert steps[n..] == [];
      TakenNone(ending);
    }

    /**
     At every moment length is the sum of what chunk.length says, or in object mode the number, of the
     chunks not yet delivered and the one that is out.
     */
    lemma LengthIs()
      requires Valid()
      ensures var first := |delivered| - if writing then 1 else 0;
        0 <= first <= |accepted|
          && length == if objectMode then |accepted| - first else Lengths(accepted[first..])
    {
      TotalIs(buffered, |delivered|);
      if writing {
        var first := |delivered| - 1;
        assert accepted[first..] == [accepted[first]] + accepted[|delivered|..];
        LengthsFirst(accepted[first], accepted[|delivered|..]);
      }
    }

    // The same with one more chunk.
    lemma LengthWith(chunk: Chunk)
      requires Valid()
      ensures var first := |delivered| - if writing then 1 else 0;
        0 <= first <= |accepted|
          && length + Size(chunk) ==
             if objectMode then |accepted| + 1 - first else Lengths((accepted + [chunk])[first..])
    {
      LengthIs();
      hide Valid;
      var first := |delivered| - if writing then 1 else 0;
      assert (accepted + [chunk])[first..] == accepted[first..] + [chunk];
      LengthsMore(accepted[first..], chunk);
    }

    lemma {:induction false} TotalIs(rest: seq<Request>, n: nat)
      requires n + |rest| == |accepted| && forall i | 0 <= i < |rest| :: rest[i].chunk == accepted[n + i]
      ensures Total(rest) == if objectMode then |rest| else Lengths(accepted[n..])
      decreases |rest|
    {
      if |rest| > 0 {
        forall i | 0 <= i < |rest| - 1
          ensures rest[1..][i].chunk == accepted[n + 1 + i]
        {
          assert rest[i + 1].chunk == accepted[n + (i + 1)];
        }
        TotalIs(rest[1..], n + 1);
        assert rest[0].chunk == accepted[n + 0];
        assert accepted[n..] == [accepted[n]] + accepted[n + 1..];
        LengthsFirst(accepted[n], accepted[n + 1..]);
      }
    }

    /** At every moment: each chunk taken went to _write once, in order, or waits in the buffer. */
    lemma Conserved()
      requires Valid()
      ensures |accepted| == |delivered| + |buffered|
      ensures forall i | 0 <= i < |accepted| ::
        accepted[i] == if i < |delivered| then delivered[i] else buffered[i - |delivered|].chunk
      ensures length == Total(buffered) + (if writing then Size(delivered[|delivered| - 1]) else 0)
    {
    }

    /** Finish was emitted only if the stream ended and every callback had been called, and as the last event. */
    lemma FinishIsLast()
      requires Valid() && Finish in events
      ensures ending && prefinished && events[|events| - 1] == Finish && Count(events, Finish) == 1
        && Count(events, Prefinish) == 1
      ensures delivered == accepted && buffered == [] && !writing && length == 0 && Waiting(ticks) == 0
      ensures pendingcb == 0
      ensures forall c: nat :: Count(events, Called(c)) == if c < |accepted| then 1 else 0
    {
      Occurs(events, Finish);
    }

    /** When nothing is under way: all is delivered, each callback was called once, and an ended stream has finished. */
    lemma Quiet()
      requires Valid() && ticks == [] && !writing && !finalRunning && corked == 0
      ensures delivered == accepted && length == 0 && pendingcb == 0
      ensures forall c: nat :: Count(events, Called(c)) == if c < |accepted| then 1 else 0
      ensures ending ==> finished && Count(events, Finish) == 1
      ensures !ending ==> !needDrain
    {
    }
  }

  // What chunk.length says of them all.
  ghost function Lengths(chunks: seq<Chunk>): nat {
    if |chunks| == 0 then 0 else chunks[0].length + Lengths(chunks[1..])
  }

  lemma LengthsFirst(c: Chunk, chunks: seq<Chunk>)
    ensures Lengths([c] + chunks) == c.length + Lengths(chunks)
  {
    assert ([c] + chunks)[1..] == chunks;
  }

  lemma {:induction false} LengthsMore(chunks: seq<Chunk>, c: Chunk)
    ensures Lengths(chunks + [c]) == Lengths(chunks) + c.length
    decreases |chunks|
  {
    var all := chunks + [c];
    if |chunks| > 0 {
      LengthsMore(chunks[1..], c);
      assert all[1..] == chunks[1..] + [c];
    } else {
      assert all[1..] == [];
    }
  }

  // The chunks of the steps that a stream takes: those before its end.
  ghost function Taken(steps: seq<Step>, ended: bool): seq<Chunk> {
    if |steps| == 0 then []
    else
      var s := steps[0];
      (if !ended && (s.Write? || s.EndWith?) then [s.chunk] else []) + Taken(steps[1..], ended || s.End? || s.EndWith?)
  }

  lemma TakenNone(ended: bool)
    ensures Taken([], ended) == []
  {
  }

  lemma TakenSplits(s: Step, rest: seq<Step>, ended: bool)
    ensures Taken([s] + rest, ended) == Taken([s], ended) + Taken(rest, ended || s.End? || s.EndWith?)
  {
    assert ([s] + rest)[1..] == rest && [s][1..] == [];
    assert Taken([], ended || s.End? || s.EndWith?) == [];
  }

  lemma {:induction false} Occurs(events: seq<Event>, e: Event)
    ensures Count(events, e) > 0 <==> e in events
  {
    if |events| > 0 {
      var m := |events| - 1;
      Occurs(events[..m], e);
      assert events == events[..m] + [events[m]];
    }
  }
}
