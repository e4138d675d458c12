/** One tail and its watcher: polling an append-only observation list with a cursor, and a
    bounded queue drained by the socket's write loop, interleaved with appends, read errors
    and stopping at any moment. */
module Tail {

  /** A list entry: an observation, or bytes that do not decode to one. */
  datatype Item = Good(obs: int) | Undecodable

  const MAX_PER_POLL: nat := 64
  const BUFFER_LENGTH: nat := 500

  function Decoded(items: seq<Item>): (obs: seq<int>)
    ensures |obs| <= |items|
  {
    if items == [] then []
    else if items[|items| - 1].Good? then Decoded(items[..|items| - 1]) + [items[|items| - 1].obs]
    else Decoded(items[..|items| - 1])
  }

  lemma {:induction false} DecodedConcat(a: seq<Item>, b: seq<Item>)
    ensures Decoded(a + b) == Decoded(a) + Decoded(b)
  {
    if b == [] {
      assert a + b == a;
    } else {
      assert (a + b)[..|a + b| - 1] == a + b[..|b| - 1];
      DecodedConcat(a, b[..|b| - 1]);
    }
  }

  /** Every decodable entry is kept, behind those before it; the others leave no trace. */
  lemma {:induction false} DecodedMeaning(items: seq<Item>, i: nat)
    requires i < |items|
    ensures var k := |Decoded(items[..i])|;
            if items[i].Good? then k < |Decoded(items)| && Decoded(items)[k] == items[i].obs
            else Decoded(items[..i + 1]) == Decoded(items[..i])
  {
    var n := |items| - 1;
    assert items[..i + 1][..i] == items[..i];
    if i == n {
      assert items[..i + 1] == items;
    } else {
      DecodedMeaning(items[..n], i);
      assert items[..n][..i] == items[..i];
    }
  }

  function Min(a: nat, b: nat): nat {
    if a < b then a else b
  }

  /** `LRANGE cursor cursor+63`. */
  function Range(list: seq<Item>, cursor: nat): (vals: seq<Item>)
    ensures |vals| <= MAX_PER_POLL
  {
    if cursor >= |list| then [] else list[cursor..Min(cursor + MAX_PER_POLL, |list|)]
  }

  /** The decoding loop of one fetch: the observations, and how many entries were consumed. */
  method Fetch(list: seq<Item>, cursor: nat) returns (out: seq<int>, consumed: nat)
    ensures out == Decoded(Range(list, cursor)) && consumed == |Range(list, cursor)|
  {
    var vals := Range(list, cursor);
    out := [];
    for i := 0 to |vals|
      invariant out == Decoded(vals[..i])
    {
      assert vals[..i + 1][..i] == vals[..i];
      if vals[i].Undecodable? {
        continue;
      }
      out := out + [vals[i].obs];
    }
    assert vals[..|vals|] == vals;
    consumed := |vals|;
  }

  // ----- The watcher's queue

  datatype Watcher = Watcher(queue: seq<int>, written: seq<int>, done: bool)

  /** A full queue, or a finished write loop, drops the message. */
  function Offer(w: Watcher, msg: int): Watcher {
    if w.done || |w.queue| >= BUFFER_LENGTH then w else w.(queue := w.queue + [msg])
  }

  function Drain(w: Watcher): Watcher
    requires w.queue != []
  {
    w.(queue := w.queue[1..], written := w.written + [w.queue[0]])
  }

  class WebsocketWatcher {
    var queue: seq<int>
    var written: seq<int>
    var done: bool

    constructor ()
      ensures State() == Watcher([], [], false)
    {
      queue, written, done := [], [], false;
    }

    function State(): Watcher
      reads this
    {
      Watcher(queue, written, done)
    }

    method Send(msg: int)
      modifies this
      ensures State() == Offer(old(State()), msg)
    {
      if !done && |queue| < BUFFER_LENGTH {
        queue := queue + [msg];
      }
    }

    method WriteNext()
      requires queue != []
      modifies this
      ensures State() == Drain(old(State()))
    {
      written := written + [queue[0]];
      queue := queue[1..];
    }

    method Finish()
      modifies this
      ensures State() == old(State()).(done := true)
    {
      done := true;
    }
  }

  // ----- Every interleaving

  /** Where the tail is: at the stop check, in a read, sending a batch, at the check after an
      error, in the final wait, or gone. */
  datatype Pc = Checking | Reading | Sending(rest: seq<int>, consumed: nat) | Failed | Waiting | Exited

  datatype State = State(list: seq<Item>, cursor: nat, pc: Pc, stopped: bool, sent: seq<int>, watcher: Watcher)

  datatype Action =
    | Append(item: Item)    // the probe plugin appends to the list
    | Close                 // the hub closes the stop channel
    | CheckStop
    | ReadOk
    | ReadError
    | SendNext
    | EndPoll
    | AfterError
    | StopWait
    | Tick                  // the ticker wins the final wait, even against a closed stop channel
    | WriteNext
    | WriterDone

  const INIT := State([], 0, Checking, false, [], Watcher([], [], false))

  predicate Enabled(s: State, a: Action) {
    match a
    case Append(_) => true
    case Close => !s.stopped
    case CheckStop => s.pc == Checking
    case ReadOk => s.pc == Reading
    case ReadError => s.pc == Reading
    case SendNext => s.pc.Sending? && s.pc.rest != []
    case EndPoll => s.pc.Sending? && s.pc.rest == []
    case AfterError => s.pc == Failed
    case StopWait => s.pc == Waiting && s.stopped
    case Tick => s.pc == Waiting
    case WriteNext => !s.watcher.done && s.watcher.queue != []
    case WriterDone => !s.watcher.done
  }

  function Next(s: State, a: Action): State
    requires Enabled(s, a)
  {
    match a
    case Append(item) => s.(list := s.list + [item])
    case Close => s.(stopped := true)
    case CheckStop => s.(pc := if s.stopped then Exited else Reading)
    case ReadOk => s.(pc := Sending(Decoded(Range(s.list, s.cursor)), |Range(s.list, s.cursor)|))
    case ReadError => s.(pc := Failed)
    case SendNext =>
      s.(pc := s.pc.(rest := s.pc.rest[1..]), sent := s.sent + [s.pc.rest[0]],
        watcher := Offer(s.watcher, s.pc.rest[0]))
    case EndPoll => s.(pc := Waiting, cursor := s.cursor + s.pc.consumed)
    case AfterError => s.(pc := if s.stopped then Exited else Waiting)
    case StopWait => s.(pc := Exited)
    case Tick => s.(pc := Checking)
    case WriteNext => s.(watcher := Drain(s.watcher))
    case WriterDone => s.(watcher := s.watcher.(done := true))
  }

  predicate IsRun(s: State, actions: seq<Action>)
    decreases |actions|
  {
    actions != [] ==> Enabled(s, actions[0]) && IsRun(Next(s, actions[0]), actions[1..])
  }

  function After(s: State, actions: seq<Action>): State
    requires IsRun(s, actions)
    decreases |actions|
  {
    if actions == [] then s else After(Next(s, actions[0]), actions[1..])
  }

  /** a can be read off b from left to right, leaving some of b out. */
  predicate Subsequence(a: seq<int>, b: seq<int>) {
    if a == [] then true
    else if b == [] then false
    else if a[|a| - 1] == b[|b| - 1] && Subsequence(a[..|a| - 1], b[..|b| - 1]) then true
    else Subsequence(a, b[..|b| - 1])
  }

  lemma {:induction false} SubsequenceSnoc(a: seq<int>, b: seq<int>, x: int)
    requires Subsequence(a, b)
    ensures Subsequence(a, b + [x]) && Subsequence(a + [x], b + [x])
  {
    assert (b + [x])[..|b|] == b && (a + [x])[..|a|] == a;
  }

  lemma {:induction false} SubsequencePrefix(a: seq<int>, c: seq<int>, b: seq<int>)
    requires Subsequence(a + c, b)
    ensures Subsequence(a, b)
    decreases |b|
  {
    if c == [] {
      assert a + c == a;
    } else if a != [] {
      var s := a + c;
      var c' := c[..|c| - 1];
      assert s[..|s| - 1] == a + c';
      if s[|s| - 1] == b[|b| - 1] && Subsequence(s[..|s| - 1], b[..|b| - 1]) {
        SubsequencePrefix(a, c', b[..|b| - 1]);
      } else {
        SubsequencePrefix(a, c, b[..|b| - 1]);
      }
      SubsequenceSnoc(a, b[..|b| - 1], b[|b| - 1]);
      assert b[..|b| - 1] + [b[|b| - 1]] == b;
    } else {
    }
  }

  /** What has been sent, and in the middle of a poll what is about to be. */
  predicate Delivered(s: State) {
    match s.pc
    case Sending(rest, consumed) =>
      && consumed <= MAX_PER_POLL && |rest| <= consumed && s.cursor + consumed <= |s.list|
      && s.sent + rest == Decoded(s.list[..s.cursor + consumed])
    case _ => s.cursor <= |s.list| && s.sent == Decoded(s.list[..s.cursor])
  }

  predicate Queued(s: State) {
    |s.watcher.queue| <= BUFFER_LENGTH && Subsequence(s.watcher.written + s.watcher.queue, s.sent)
  }

  lemma RangeFollows(list: seq<Item>, cursor: nat)
    requires cursor <= |list|
    ensures var n := |Range(list, cursor)|;
            n == Min(MAX_PER_POLL, |list| - cursor) && list[..cursor] + Range(list, cursor) == list[..cursor + n]
  {
  }

  lemma ReadDelivers(s: State)
    requires Delivered(s) && s.pc == Reading
    ensures Delivered(Next(s, ReadOk))
    ensures Next(s, ReadOk).pc.consumed == Min(MAX_PER_POLL, |s.list| - s.cursor)
  {
    RangeFollows(s.list, s.cursor);
    DecodedConcat(s.list[..s.cursor], Range(s.list, s.cursor));
  }

  lemma StepDelivers(s: State, a: Action)
    requires Delivered(s) && Enabled(s, a)
    ensures Delivered(Next(s, a))
  {
    match a
    case ReadOk => ReadDelivers(s);
    case Append(item) =>
      var n := if s.pc.Sending? then s.cursor + s.pc.consumed else s.cursor;
      assert (s.list + [item])[..n] == s.list[..n];
    case SendNext =>
      assert s.sent + s.pc.rest == s.sent + [s.pc.rest[0]] + s.pc.rest[1..];
    case EndPoll =>
      assert s.sent + [] == s.sent;
    case _ =>
  }

  lemma StepQueues(s: State, a: Action)
    requires Queued(s) && Enabled(s, a)
    ensures Queued(Next(s, a))
  {
    var w := s.watcher;
    match a
    case SendNext =>
      var x := s.pc.rest[0];
      SubsequenceSnoc(w.written + w.queue, s.sent, x);
      assert w.written + (w.queue + [x]) == w.written + w.queue + [x];
    case WriteNext =>
      assert w.written + w.queue == w.written + [w.queue[0]] + w.queue[1..];
    case _ =>
  }

  lemma {:induction false} RunDelivers(s: State, actions: seq<Action>)
    requires Delivered(s) && Queued(s) && IsRun(s, actions)
    ensures Delivered(After(s, actions)) && Queued(After(s, actions))
    decreases |actions|
  {
    if actions == [] {
    } else {
      StepDelivers(s, actions[0]);
      StepQueues(s, actions[0]);
      RunDelivers(Next(s, actions[0]), actions[1..]);
    }
  }

  /** Whenever the tail is not in the middle of a batch, the messages sent are, in order and
      each once, the decodable entries of the list up to the cursor; what reached the socket
      is an in-order subsequence of them, and at most 500 messages wait. */
  lemma TailDelivery(actions: seq<Action>)
    requires IsRun(INIT, actions)
    ensures var s := After(INIT, actions);
            && s.cursor <= |s.list|
            && (!s.pc.Sending? ==> s.sent == Decoded(s.list[..s.cursor]))
            && Subsequence(s.watcher.written, s.sent) && |s.watcher.queue| <= 500
  {
    assert INIT.list[..0] == [];
    RunDelivers(INIT, actions);
    var s := After(INIT, actions);
    SubsequencePrefix(s.watcher.written, s.watcher.queue, s.sent);
  }

  // ----- What is lost

  /** The message is dropped: the queue is full or the writer is done. */
  predicate DropsMessage(s: State, a: Action) {
    a == SendNext && (s.watcher.done || |s.watcher.queue| >= 500)
  }

  predicate NoneDropped(s: State, actions: seq<Action>)
    requires IsRun(s, actions)
    decreases |actions|
  {
    actions == [] || (!DropsMessage(s, actions[0]) && NoneDropped(Next(s, actions[0]), actions[1..]))
  }

  predicate Complete(s: State) {
    s.watcher.written + s.watcher.queue == s.sent
  }

  /** Fewer messages are written or waiting than were sent. */
  predicate Short(s: State) {
    |s.watcher.written| + |s.watcher.queue| < |s.sent|
  }

  lemma StepCompletes(s: State, a: Action)
    requires Complete(s) && Enabled(s, a)
    ensures Complete(Next(s, a)) <==> !DropsMessage(s, a)
    ensures DropsMessage(s, a) ==> Short(Next(s, a))
  {
    var w := s.watcher;
    match a
    case SendNext =>
      var x := s.pc.rest[0];
      assert w.written + (w.queue + [x]) == w.written + w.queue + [x];
      assert |w.written + w.queue| < |s.sent + [x]|;
    case WriteNext =>
      assert w.written + w.queue == w.written + [w.queue[0]] + w.queue[1..];
    case _ =>
  }

  lemma {:induction false} LossIsForever(s: State, actions: seq<Action>)
    requires Short(s) && IsRun(s, actions)
    ensures Short(After(s, actions))
    decreases |actions|
  {
    if actions == [] {
    } else {
      LossIsForever(Next(s, actions[0]), actions[1..]);
    }
  }

  lemma {:induction false} CompleteExactly(s: State, actions: seq<Action>)
    requires Complete(s) && IsRun(s, actions)
    ensures Complete(After(s, actions)) <==> NoneDropped(s, actions)
    decreases |actions|
  {
    if actions == [] {
    } else {
      StepCompletes(s, actions[0]);
      if DropsMessage(s, actions[0]) {
        LossIsForever(Next(s, actions[0]), actions[1..]);
      } else {
        CompleteExactly(Next(s, actions[0]), actions[1..]);
      }
    }
  }

  /** What was written and what waits is everything sent, in order, if and only if no message
      was sent to a full queue or after the writer was done. */
  lemma DeliveryIsCompleteExactly(actions: seq<Action>)
    requires IsRun(INIT, actions)
    ensures var s := After(INIT, actions);
            s.watcher.written + s.watcher.queue == s.sent <==> NoneDropped(INIT, actions)
  {
    CompleteExactly(INIT, actions);
  }

  // ----- One poll

  predicate MidPoll(s: State, actions: seq<Action>)
    requires IsRun(s, actions)
    decreases |actions|
  {
    actions == [] || (actions[0] != EndPoll && MidPoll(Next(s, actions[0]), actions[1..]))
  }

  lemma {:induction false} BatchIsFixed(s: State, actions: seq<Action>)
    requires s.pc.Sending? && IsRun(s, actions) && MidPoll(s, actions)
    ensures var t := After(s, actions); t.pc.Sending? && t.cursor == s.cursor && t.pc.consumed == s.pc.consumed
    decreases |actions|
  {
    if actions == [] {
    } else {
      BatchIsFixed(Next(s, actions[0]), actions[1..]);
    }
  }

  /** However appends, stopping and the writer interleave with its sends, a poll that read at
      s advances the cursor by the smaller of 64 and the backlog at s. */
  lemma PollShrinksBacklog(s: State, actions: seq<Action>)
    requires Delivered(s) && Enabled(s, ReadOk)
    requires IsRun(Next(s, ReadOk), actions) && MidPoll(Next(s, ReadOk), actions)
    requires Enabled(After(Next(s, ReadOk), actions), EndPoll)
    ensures Next(After(Next(s, ReadOk), actions), EndPoll).cursor ==
            if |s.list| - s.cursor < 64 then |s.list| else s.cursor + 64
  {
    ReadDelivers(s);
    BatchIsFixed(Next(s, ReadOk), actions);
  }

  // ----- Stopping

  predicate IsTailAction(a: Action) {
    !a.Append? && !a.Close? && !a.WriteNext? && !a.WriterDone?
  }

  /** How many steps of its own a stopped tail can still take. */
  function StepsLeft(pc: Pc): nat {
    match pc
    case Reading => MAX_PER_POLL + 5
    case Sending(rest, _) => 4 + |rest|
    case Failed => 4
    case Waiting => 2
    case Checking => 1
    case Exited => 0
  }

  lemma StoppedStep(s: State, a: Action)
    requires s.stopped && Enabled(s, a)
    ensures Next(s, a).stopped
    ensures IsTailAction(a) ==> StepsLeft(Next(s, a).pc) < StepsLeft(s.pc)
    ensures !IsTailAction(a) ==> Next(s, a).pc == s.pc
    ensures Next(s, a).pc == Reading ==> s.pc == Reading && !IsTailAction(a)
  {
  }

  function TailSteps(actions: seq<Action>): nat {
    if actions == [] then 0 else (if IsTailAction(actions[0]) then 1 else 0) + TailSteps(actions[1..])
  }

  /** Once stopped, a tail takes boundedly many more steps, starts no further read, and can
      always take one more step until it has exited. */
  lemma {:induction false} StoppedTailExits(s: State, actions: seq<Action>)
    requires s.stopped && IsRun(s, actions)
    ensures TailSteps(actions) + StepsLeft(After(s,
              actions).pc) <= StepsLeft(s.pc) <= 69 + (if s.pc.Sending? then |s.pc.rest| else 0)
    ensures After(s, actions).pc == Reading ==> s.pc == Reading
    decreases |actions|
  {
    if actions == [] {
    } else {
      StoppedStep(s, actions[0]);
      StoppedTailExits(Next(s, actions[0]), actions[1..]);
    }
  }

  /** A tail that has not exited is never stuck. */
  lemma TailCanStep(s: State) returns (a: Action)
    requires s.pc != Exited
    ensures IsTailAction(a) && Enabled(s, a)
  {
    match s.pc
    case Checking => a := CheckStop;
    case Reading => a := ReadOk;
    case Sending(rest, _) => a := if rest == [] then EndPoll else SendNext;
    case Failed => a := AfterError;
    case Waiting => a := Tick;
  }

  // ----- Reads are spaced

  function Reads(actions: seq<Action>): nat {
    if actions == [] then 0 else (if actions[0].ReadOk? || actions[0].ReadError? then 1 else 0) + Reads(actions[1..])
  }

  function Ticks(actions: seq<Action>): nat {
    if actions == [] then 0 else (if actions[0].Tick? then 1 else 0) + Ticks(actions[1..])
  }

  /** A read is ahead without another tick. */
  function ReadDue(pc: Pc): nat {
    if pc == Checking || pc == Reading then 1 else 0
  }

  lemma {:induction false} ReadsNeedTicks(s: State, actions: seq<Action>)
    requires IsRun(s, actions)
    ensures Reads(actions) + ReadDue(After(s, actions).pc) <= Ticks(actions) + ReadDue(s.pc)
    decreases |actions|
  {
    if actions == [] {
    } else {
      ReadsNeedTicks(Next(s, actions[0]), actions[1..]);
    }
  }

  /** Whatever happens, a tail reads once at the start and then at most once a tick: neither an
      error nor an empty or a full batch makes it read again sooner. */
  lemma OneReadPerTick(actions: seq<Action>)
    requires IsRun(INIT, actions)
    ensures Reads(actions) <= 1 + Ticks(actions)
  {
    ReadsNeedTicks(INIT, actions);
  }
}
