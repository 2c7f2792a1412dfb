/**
 * The two loops that run on an accepted WebSocket: the write loop, which
 * sends one text frame per cadence while the socket is open, and the read
 * loop, which keeps receiving so that the socket's state is updated.
 *
 * Each loop is modelled on its own, against an abstract socket: what the
 * loop would read at each `_cancellationToken.IsCancellationRequested`,
 * `ws.State` and clock access comes from an environment sequence, one
 * record per iteration, and the loop produces a trace of what it observed
 * and did. The sequence is the part of the run being looked at: a loop
 * that has used every record is cut off there, whatever it would do next.
 *
 * The three copies of the loops differ only in what `Variant` says: the
 * clock handler (1000 ms, timestamp text), the ping handler (5000 ms,
 * "Pong!") and the middleware (1000 ms, timestamp text, no cancellation).
 */
module Pump {
  import opened Strings

  /** `System.Net.WebSockets.WebSocketState`, without `None`, which an
      accepted socket never reports. */
  datatype WebSocketState = Connecting | Open | CloseSent | CloseReceived | Closed | Aborted

  datatype MessageType = Text | Binary | Close

  /** The arguments of one `SendAsync` call. */
  datatype Frame = Frame(messageType: MessageType, endOfMessage: bool, payload: seq<byte>)

  /** Which copy of the loops runs. */
  datatype Variant = Clock | Ping | Middleware {

    /** Milliseconds the write loop waits after a send. */
    function Cadence(): (ms: nat) {
      if Ping? then 5000 else 1000
    }

    /** Whether the loop heads test the cancellation token. */
    predicate HonoursCancellation() {
      !Middleware?
    }

    /** The text one write iteration sends when the clock reads `now`. */
    function PayloadText(now: string): (text: string) {
      if Ping? then "Pong!" else now
    }

    /** `SendAsync(UTF8.GetBytes(text), WebSocketMessageType.Text, true, ...)`. */
    function FrameFor(now: string): (f: Frame) {
      Frame(Text, true, Utf8(PayloadText(now)))
    }
  }

  /** What a loop observes or does, in order. */
  datatype Event =
    | CancelCheck(cancelled: bool)      // the loop head reads the token
    | StateCheck(state: WebSocketState) // the loop reads `ws.State`
    | Send(frame: Frame)
    | Delay(ms: nat)                    // `Task.Delay(ms)`
    | Receive                           // `ReceiveAsync`

  /** What one write iteration would read: the token at the loop head, the
      clock formatted as "MMM dd yyyy HH:mm:ss.fff UTC", and the socket state
      before and after the send. */
  datatype WriteRound = WriteRound(cancelled: bool, now: string, beforeSend: WebSocketState, afterSend: WebSocketState)

  /** What one read iteration would read: the token at the loop head and the
      socket state after the receive. */
  datatype ReadRound = ReadRound(cancelled: bool, afterReceive: WebSocketState)

  // ---------------------------------------------------------------------
  // Properties of traces
  // ---------------------------------------------------------------------

  /** An observation after which a loop must not go on. */
  predicate Terminal(e: Event) {
    e == CancelCheck(true) || (e.StateCheck? && e.state != Open)
  }

  predicate NoTerminal(t: seq<Event>) {
    forall k :: 0 <= k < |t| ==> !Terminal(t[k])
  }

  /** Nothing follows the first cancellation or non-Open state observed. */
  predicate StopsAtFirstTerminal(t: seq<Event>) {
    forall k :: 0 <= k < |t| && Terminal(t[k]) ==> k == |t| - 1
  }

  /** The trace ends with a terminal observation. */
  predicate Stopped(t: seq<Event>) {
    t != [] && Terminal(t[|t| - 1])
  }

  /** Every send comes right after an Open state observation and, where the
      loop honours cancellation, right after a loop head that saw none; and
      it is followed by a state observation. */
  predicate GuardedSends(t: seq<Event>, honours: bool) {
    forall k {:trigger t[k]} :: 0 <= k < |t| && t[k].Send? ==>
      1 <= k && t[k - 1] == StateCheck(Open) && (honours ==> 2 <= k && t[k - 2] == CancelCheck(false))
      && k + 1 < |t| && t[k + 1].StateCheck?
  }

  /** Every receive is followed by a state observation and, where the loop
      honours cancellation, comes right after a loop head that saw none. */
  predicate GuardedReceives(t: seq<Event>, honours: bool) {
    forall k {:trigger t[k]} :: 0 <= k < |t| && t[k].Receive? ==>
      k + 1 < |t| && t[k + 1].StateCheck? && (honours ==> 1 <= k && t[k - 1] == CancelCheck(false))
  }

  predicate NoCancelChecks(t: seq<Event>) {
    forall k :: 0 <= k < |t| ==> !t[k].CancelCheck?
  }

  /** The sends and delays of a trace, in order. */
  function Actions(t: seq<Event>): (r: seq<Event>) {
    if t == [] then []
    else (if t[0].Send? || t[0].Delay? then [t[0]] else []) + Actions(t[1..])
  }

  /** The frames a trace sends, in order. */
  function Sends(t: seq<Event>): (r: seq<Frame>) {
    if t == [] then []
    else (if t[0].Send? then [t[0].frame] else []) + Sends(t[1..])
  }

  /** Send, Delay(cadence), Send, Delay(cadence), ...: one delay of the
      cadence between any two sends, and never two delays in a row. */
  predicate Alternates(a: seq<Event>, cadence: nat) {
    forall k :: 0 <= k < |a| ==> if k % 2 == 0 then a[k].Send? else a[k] == Delay(cadence)
  }

  // ---------------------------------------------------------------------
  // Trace algebra
  // ---------------------------------------------------------------------

  lemma {:induction false} ActionsAppend(a: seq<Event>, b: seq<Event>)
    ensures Actions(a + b) == Actions(a) + Actions(b)
  {
    if a != [] {
      assert (a + b)[1..] == a[1..] + b;
      ActionsAppend(a[1..], b);
    } else {
      assert a + b == b;
    }
  }

  lemma {:induction false} SendsAppend(a: seq<Event>, b: seq<Event>)
    ensures Sends(a + b) == Sends(a) + Sends(b)
  {
    if a != [] {
      assert (a + b)[1..] == a[1..] + b;
      SendsAppend(a[1..], b);
    } else {
      assert a + b == b;
    }
  }

  lemma StopsAppend(a: seq<Event>, b: seq<Event>)
    requires NoTerminal(a) && StopsAtFirstTerminal(b)
    ensures StopsAtFirstTerminal(a + b)
  {
    forall k | 0 <= k < |a + b| && Terminal((a + b)[k]) ensures k == |a + b| - 1 {
      if k >= |a| { assert (a + b)[k] == b[k - |a|]; }
    }
  }

  lemma GuardedSendsAppend(a: seq<Event>, b: seq<Event>, honours: bool)
    requires GuardedSends(a, honours) && GuardedSends(b, honours)
    ensures GuardedSends(a + b, honours)
  {
    var t := a + b;
    forall k | 0 <= k < |t| && t[k].Send?
      ensures 1 <= k && t[k - 1] == StateCheck(Open)
      ensures honours ==> 2 <= k && t[k - 2] == CancelCheck(false)
      ensures k + 1 < |t| && t[k + 1].StateCheck?
    {
      if k >= |a| {
        var j := k - |a|;
        assert t[k] == b[j];
        assert 1 <= j && b[j - 1] == StateCheck(Open);
        assert t[k - 1] == b[j - 1];
        assert j + 1 < |b| && b[j + 1].StateCheck?;
        assert t[k + 1] == b[j + 1];
        if honours {
          assert 2 <= j && b[j - 2] == CancelCheck(false);
          assert t[k - 2] == b[j - 2];
        }
      } else {
        assert t[k] == a[k];
        assert 1 <= k && a[k - 1] == StateCheck(Open);
        assert t[k - 1] == a[k - 1];
        assert k + 1 < |a| && a[k + 1].StateCheck?;
        assert t[k + 1] == a[k + 1];
        if honours {
          assert 2 <= k && a[k - 2] == CancelCheck(false);
          assert t[k - 2] == a[k - 2];
        }
      }
    }
  }

  lemma GuardedReceivesAppend(a: seq<Event>, b: seq<Event>, honours: bool)
    requires GuardedReceives(a, honours) && GuardedReceives(b, honours)
    ensures GuardedReceives(a + b, honours)
  {
    var t := a + b;
    forall k | 0 <= k < |t| && t[k].Receive?
      ensures k + 1 < |t| && t[k + 1].StateCheck?
      ensures honours ==> 1 <= k && t[k - 1] == CancelCheck(false)
    {
      if k >= |a| {
        var j := k - |a|;
        assert t[k] == b[j];
        assert j + 1 < |b| && b[j + 1].StateCheck?;
        assert t[k + 1] == b[j + 1];
        if honours {
          assert 1 <= j && b[j - 1] == CancelCheck(false);
          assert t[k - 1] == b[j - 1];
        }
      } else {
        assert t[k] == a[k];
        assert k + 1 < |a| && a[k + 1].StateCheck?;
        assert t[k + 1] == a[k + 1];
        if honours {
          assert 1 <= k && a[k - 1] == CancelCheck(false);
          assert t[k - 1] == a[k - 1];
        }
      }
    }
  }

  /** A trace covering the iterations before `here`, extended by the events
      `b` of the next iteration, covers the iterations up to `tail`, or the
      whole run when the loop stops after `b`. */
  lemma StepAppend(trace: seq<Event>, whole: seq<Event>, here: seq<Event>, b: seq<Event>,
                   tail: seq<Event>, continues: bool)
    requires trace + here == whole
    requires here == b + (if continues then tail else [])
    ensures continues ==> (trace + b) + tail == whole
    ensures !continues ==> trace + b == whole
  {
    if continues {
      assert (trace + b) + tail == trace + (b + tail);
    } else {
      assert b + [] == b;
    }
  }

  /** An iteration followed, if it lets the loop go on, by the rest of the
      trace ends in a terminal observation exactly when the iteration stops
      the loop or the rest does. */
  lemma StoppedStep(b: seq<Event>, rest: seq<Event>, continues: bool)
    requires b != []
    requires continues ==> NoTerminal(b)
    requires !continues ==> Stopped(b)
    ensures Stopped(b + (if continues then rest else [])) <==> !continues || Stopped(rest)
  {
    if !continues {
      assert b + [] == b;
    } else if rest == [] {
      assert b + rest == b;
      assert !Terminal(b[|b| - 1]);
    } else {
      assert (b + rest)[|b + rest| - 1] == rest[|rest| - 1];
    }
  }

  lemma NoCancelChecksAppend(a: seq<Event>, b: seq<Event>)
    requires NoCancelChecks(a) && NoCancelChecks(b)
    ensures NoCancelChecks(a + b)
  {
    var t := a + b;
    forall k | 0 <= k < |t| ensures !t[k].CancelCheck? {
      if k < |a| { assert t[k] == a[k]; } else { assert t[k] == b[k - |a|]; }
    }
  }

  lemma AlternatesAppend(a: seq<Event>, b: seq<Event>, cadence: nat)
    requires |a| == 2 && a[0].Send? && a[1] == Delay(cadence) && Alternates(b, cadence)
    ensures Alternates(a + b, cadence)
  {
    forall k | 0 <= k < |a + b|
      ensures if k % 2 == 0 then (a + b)[k].Send? else (a + b)[k] == Delay(cadence)
    {
      if k >= 2 { assert (a + b)[k] == b[k - 2]; assert (k - 2) % 2 == k % 2; }
    }
  }

  // ---------------------------------------------------------------------
  // The write loop
  // ---------------------------------------------------------------------

  /** The loop head's observation when it lets the body run: in the
      handlers, a token that is not cancelled; in the middleware, nothing. */
  function LoopHead(honours: bool): (r: seq<Event>) {
    if honours then [CancelCheck(false)] else []
  }

  /** One iteration of the write loop's body after the loop head, for a
      loop that sends `frame` and then waits `cadence` milliseconds. */
  function SendAttempt(r: WriteRound, frame: Frame, cadence: nat): (s: seq<Event>) {
    if r.beforeSend != Open then [StateCheck(r.beforeSend)]
    else if r.afterSend != Open then [StateCheck(Open), Send(frame), StateCheck(r.afterSend)]
    else [StateCheck(Open), Send(frame), StateCheck(Open), Delay(cadence)]
  }

  /** One iteration of the write loop, loop head included, for a loop that
      does (`honours`) or does not test the token. */
  function WriteIterationOf(honours: bool, r: WriteRound, frame: Frame, cadence: nat): (b: seq<Event>) {
    if honours && r.cancelled then [CancelCheck(true)]
    else LoopHead(honours) + SendAttempt(r, frame, cadence)
  }

  /** One iteration of the write loop of variant `v`. */
  function WriteIteration(v: Variant, r: WriteRound): (b: seq<Event>) {
    WriteIterationOf(v.HonoursCancellation(), r, v.FrameFor(r.now), v.Cadence())
  }

  /** Whether the write loop goes round again after an iteration. */
  predicate WriteContinues(v: Variant, r: WriteRound) {
    !(v.HonoursCancellation() && r.cancelled) && r.beforeSend == Open && r.afterSend == Open
  }

  /** The trace of the write loop over the iterations in `env`. */
  function WriteSpec(v: Variant, env: seq<WriteRound>): (t: seq<Event>)
    decreases |env|
  {
    if env == [] then []
    else WriteIteration(v, env[0]) + (if WriteContinues(v, env[0]) then WriteSpec(v, env[1..]) else [])
  }

  /** A write iteration sends only right after an Open observation (and,
      where cancellation is honoured, a loop head that saw none) and right
      before a state observation, and nothing in it follows a terminal
      observation. */
  lemma WriteIterationGuarded(honours: bool, r: WriteRound, frame: Frame, cadence: nat)
    ensures GuardedSends(WriteIterationOf(honours, r, frame, cadence), honours)
    ensures StopsAtFirstTerminal(WriteIterationOf(honours, r, frame, cadence))
  {
    if !(honours && r.cancelled) {
      var s := SendAttempt(r, frame, cadence);
      AttemptGuarded(r, frame, cadence);
      if honours {
        var b := [CancelCheck(false)] + s;
        assert WriteIterationOf(honours, r, frame, cadence) == b;
        forall k | 1 <= k < |b| ensures b[k] == s[k - 1] { }
      } else {
        assert WriteIterationOf(honours, r, frame, cadence) == s;
      }
    }
  }

  /** The body after the loop head sends only as its second event, right
      after it saw the socket Open and right before it looks again, and ends
      at its first terminal event. */
  lemma AttemptGuarded(r: WriteRound, frame: Frame, cadence: nat)
    ensures var s := SendAttempt(r, frame, cadence);
      && s != [] && s[0].StateCheck?
      && (forall k :: 0 <= k < |s| && s[k].Send? ==> k == 1 && s[0] == StateCheck(Open) && 2 < |s| && s[2].StateCheck?)
      && (forall k :: 0 <= k < |s| && Terminal(s[k]) ==> k == |s| - 1)
  {
  }


  /** A write iteration is followed by another exactly when it observed
      nothing terminal; otherwise its last event is the terminal one. */
  lemma WriteIterationEnds(honours: bool, r: WriteRound, frame: Frame, cadence: nat)
    ensures WriteIterationOf(honours, r, frame, cadence) != []
    ensures var continues := !(honours && r.cancelled) && r.beforeSend == Open && r.afterSend == Open;
      && (continues <==> NoTerminal(WriteIterationOf(honours, r, frame, cadence)))
      && (!continues <==> Stopped(WriteIterationOf(honours, r, frame, cadence)))
  {
    var b := WriteIterationOf(honours, r, frame, cadence);
    if !(honours && r.cancelled) {
      assert b == LoopHead(honours) + SendAttempt(r, frame, cadence);
      assert !Terminal(CancelCheck(false));
      if r.beforeSend != Open || r.afterSend != Open {
        assert Terminal(b[|b| - 1]);
      }
    } else {
      assert Terminal(b[0]);
    }
  }

  /** What a write iteration sends and waits for: its frame when the socket
      was Open before the send, followed by a delay of the cadence when it
      was still Open after it. */
  lemma WriteIterationActions(honours: bool, r: WriteRound, frame: Frame, cadence: nat)
    ensures var sends := !(honours && r.cancelled) && r.beforeSend == Open;
      && Actions(WriteIterationOf(honours, r, frame, cadence)) ==
           (if sends && r.afterSend == Open then [Send(frame), Delay(cadence)]
            else if sends then [Send(frame)] else [])
      && Sends(WriteIterationOf(honours, r, frame, cadence)) == (if sends then [frame] else [])
  {
    if !(honours && r.cancelled) {
      var s := SendAttempt(r, frame, cadence);
      ActionsAppend(LoopHead(honours), s);
      SendsAppend(LoopHead(honours), s);
      assert Actions(LoopHead(honours)) == [] && Sends(LoopHead(honours)) == [];
      AttemptActions(r, frame, cadence);
    }
  }

  /** The sends and delays of the body after the loop head. */
  lemma AttemptActions(r: WriteRound, frame: Frame, cadence: nat)
    ensures Actions(SendAttempt(r, frame, cadence)) ==
              (if r.beforeSend == Open && r.afterSend == Open then [Send(frame), Delay(cadence)]
               else if r.beforeSend == Open then [Send(frame)] else [])
    ensures Sends(SendAttempt(r, frame, cadence)) == (if r.beforeSend == Open then [frame] else [])
  {
    var s := SendAttempt(r, frame, cadence);
    if r.beforeSend == Open {
      assert Actions(s) == [Send(frame)] + Actions(s[2..]);
      assert Sends(s) == [frame] + Sends(s[2..]);
      assert s[2..][1..] == s[3..];
      if r.afterSend == Open {
        assert s[3..][1..] == [];
        assert Actions(s[3..]) == [Delay(cadence)] && Sends(s[3..]) == [];
      } else {
        assert s[3..] == [];
      }
    }
  }


  /** The write loop never sends unless the state it read just before was
      Open (and, in the handlers, the loop head saw no cancellation), reads
      the state again right after every send, and stops at the first
      cancellation or non-Open state it observes. So a send after which the
      socket was not Open is the last send, with no delay after it. */
  lemma {:induction false} WriteIsGuarded(v: Variant, env: seq<WriteRound>)
    ensures GuardedSends(WriteSpec(v, env), v.HonoursCancellation())
    ensures StopsAtFirstTerminal(WriteSpec(v, env))
    decreases |env|
  {
    if env != [] {
      var b := WriteIteration(v, env[0]);
      WriteIterationGuarded(v.HonoursCancellation(), env[0], v.FrameFor(env[0].now), v.Cadence());
      if WriteContinues(v, env[0]) {
        WriteIterationEnds(v.HonoursCancellation(), env[0], v.FrameFor(env[0].now), v.Cadence());
        WriteIsGuarded(v, env[1..]);
        GuardedSendsAppend(b, WriteSpec(v, env[1..]), v.HonoursCancellation());
        StopsAppend(b, WriteSpec(v, env[1..]));
      } else {
        assert WriteSpec(v, env) == b + [] == b;
      }
    }
  }

  /** A send after which the socket is seen not Open ends the loop: the
      state observation right after it is the last event, so no delay and
      no further send follow. */
  lemma WriteStopsAfterClosedSend(v: Variant, env: seq<WriteRound>)
    ensures var t := WriteSpec(v, env);
      forall k :: 0 <= k < |t| && t[k].Send? ==>
        k + 1 < |t| && t[k + 1].StateCheck? && (t[k + 1].state != Open ==> k + 1 == |t| - 1)
  {
    WriteIsGuarded(v, env);
    var t := WriteSpec(v, env);
    forall k | 0 <= k < |t| && t[k].Send?
      ensures k + 1 < |t| && t[k + 1].StateCheck? && (t[k + 1].state != Open ==> k + 1 == |t| - 1)
    {
      assert k + 1 < |t| && t[k + 1].StateCheck?;
      if t[k + 1].state != Open { assert Terminal(t[k + 1]); }
    }
  }

  /** Sends and delays alternate, starting with a send: exactly one delay of
      the variant's cadence separates two consecutive sends, every delay is
      of that cadence. `WriteStopsAfterClosedSend` adds that no delay follows
      a send after which the socket was not Open. */
  lemma {:induction false} WriteAlternates(v: Variant, env: seq<WriteRound>)
    ensures Alternates(Actions(WriteSpec(v, env)), v.Cadence())
    decreases |env|
  {
    if env != [] {
      var b := WriteIteration(v, env[0]);
      WriteIterationActions(v.HonoursCancellation(), env[0], v.FrameFor(env[0].now), v.Cadence());
      if WriteContinues(v, env[0]) {
        WriteAlternates(v, env[1..]);
        ActionsAppend(b, WriteSpec(v, env[1..]));
        AlternatesAppend(Actions(b), Actions(WriteSpec(v, env[1..])), v.Cadence());
      } else {
        assert WriteSpec(v, env) == b + [] == b;
      }
    }
  }

  /** The n-th frame sent is the one built in the n-th iteration: Text, end
      of message set, and the UTF-8 of that iteration's payload text. */
  lemma {:induction false} WriteFrames(v: Variant, env: seq<WriteRound>)
    ensures |Sends(WriteSpec(v, env))| <= |env|
    ensures forall n :: 0 <= n < |Sends(WriteSpec(v, env))| ==>
              Sends(WriteSpec(v, env))[n] == v.FrameFor(env[n].now)
    decreases |env|
  {
    if env != [] {
      var b := WriteIteration(v, env[0]);
      WriteIterationActions(v.HonoursCancellation(), env[0], v.FrameFor(env[0].now), v.Cadence());
      if WriteContinues(v, env[0]) {
        var rest := WriteSpec(v, env[1..]);
        WriteFrames(v, env[1..]);
        SendsAppend(b, rest);
        FramesShift(v, env, Sends(rest));
      } else {
        assert WriteSpec(v, env) == b + [] == b;
      }
    }
  }

  /** Frames built from the iterations after the first, preceded by the
      first iteration's frame, are the frames built from all of them. */
  lemma FramesShift(v: Variant, env: seq<WriteRound>, frames: seq<Frame>)
    requires env != [] && |frames| <= |env| - 1
    requires forall n :: 0 <= n < |frames| ==> frames[n] == v.FrameFor(env[1..][n].now)
    ensures |[v.FrameFor(env[0].now)] + frames| <= |env|
    ensures forall n :: 0 <= n < |[v.FrameFor(env[0].now)] + frames| ==>
              ([v.FrameFor(env[0].now)] + frames)[n] == v.FrameFor(env[n].now)
  {
    var all := [v.FrameFor(env[0].now)] + frames;
    forall n | 0 < n < |all| ensures all[n] == v.FrameFor(env[n].now) {
      assert all[n] == frames[n - 1] && env[1..][n - 1] == env[n];
    }
  }


  /** The loop ends with a terminal observation exactly when some iteration
      in `env` saw cancellation or a non-Open state. */
  lemma {:induction false} WriteStopsIff(v: Variant, env: seq<WriteRound>)
    ensures Stopped(WriteSpec(v, env)) <==> exists i :: 0 <= i < |env| && !WriteContinues(v, env[i])
    decreases |env|
  {
    if env != [] {
      WriteIterationEnds(v.HonoursCancellation(), env[0], v.FrameFor(env[0].now), v.Cadence());
      StoppedStep(WriteIteration(v, env[0]), WriteSpec(v, env[1..]), WriteContinues(v, env[0]));
      if WriteContinues(v, env[0]) {
        WriteStopsIff(v, env[1..]);
        WriteAnyStopsFromSecond(v, env);
      } else {
        assert !WriteContinues(v, env[0]);
      }
    }
  }


  /** When the first iteration continues, a stopping iteration exists in
      `env` exactly when one exists in the rest of it. */
  lemma WriteAnyStopsFromSecond(v: Variant, env: seq<WriteRound>)
    requires env != [] && WriteContinues(v, env[0])
    ensures (exists i :: 0 <= i < |env| && !WriteContinues(v, env[i]))
            <==> exists i :: 0 <= i < |env[1..]| && !WriteContinues(v, env[1..][i])
  {
    if exists i :: 0 <= i < |env| && !WriteContinues(v, env[i]) {
      var i :| 0 <= i < |env| && !WriteContinues(v, env[i]);
      assert env[1..][i - 1] == env[i];
    }
    if exists i :: 0 <= i < |env[1..]| && !WriteContinues(v, env[1..][i]) {
      var i :| 0 <= i < |env[1..]| && !WriteContinues(v, env[1..][i]);
      assert env[i + 1] == env[1..][i];
    }
  }

  /** While no iteration stops the loop, every iteration sends one frame. */
  lemma {:induction false} WriteSendsEveryRound(v: Variant, env: seq<WriteRound>)
    requires forall i :: 0 <= i < |env| ==> WriteContinues(v, env[i])
    ensures |Sends(WriteSpec(v, env))| == |env|
    decreases |env|
  {
    if env != [] {
      assert forall i :: 0 <= i < |env[1..]| ==> env[1..][i] == env[i + 1];
      WriteSendsEveryRound(v, env[1..]);
      WriteIterationActions(v.HonoursCancellation(), env[0], v.FrameFor(env[0].now), v.Cadence());
      SendsAppend(WriteIteration(v, env[0]), WriteSpec(v, env[1..]));
    }
  }

  /** Every iteration leaves at least one event. */
  lemma WriteSpecEmpty(v: Variant, env: seq<WriteRound>)
    ensures WriteSpec(v, env) == [] <==> env == []
  {
    if env != [] { assert |WriteIteration(v, env[0])| > 0; }
  }

  /** The middleware's write loop never tests cancellation: no trace of it
      holds a token check. */
  lemma {:induction false} MiddlewareWriteNeverChecksToken(env: seq<WriteRound>)
    ensures NoCancelChecks(WriteSpec(Middleware, env))
    decreases |env|
  {
    if env != [] {
      var b := WriteIteration(Middleware, env[0]);
      assert b == SendAttempt(env[0], Middleware.FrameFor(env[0].now), 1000);
      assert NoCancelChecks(b);
      if WriteContinues(Middleware, env[0]) {
        MiddlewareWriteNeverChecksToken(env[1..]);
        NoCancelChecksAppend(b, WriteSpec(Middleware, env[1..]));
      } else {
        assert WriteSpec(Middleware, env) == b + [] == b;
      }
    }
  }

  /** The middleware's trace does not depend on the token at all: two runs
      that differ only in it produce the same trace. */
  lemma {:induction false} MiddlewareWriteIgnoresCancellation(env: seq<WriteRound>, env': seq<WriteRound>)
    requires |env| == |env'|
    requires forall i :: 0 <= i < |env| ==> env[i].(cancelled := env'[i].cancelled) == env'[i]
    ensures WriteSpec(Middleware, env) == WriteSpec(Middleware, env')
    decreases |env|
  {
    if env != [] {
      assert env[0].(cancelled := env'[0].cancelled) == env'[0];
      assert WriteIteration(Middleware, env[0]) == WriteIteration(Middleware, env'[0]);
      if WriteContinues(Middleware, env[0]) {
        forall i | 0 <= i < |env[1..]| ensures env[1..][i].(cancelled := env'[1..][i].cancelled) == env'[1..][i] {
          assert env[1..][i] == env[i + 1] && env'[1..][i] == env'[i + 1];
        }
        MiddlewareWriteIgnoresCancellation(env[1..], env'[1..]);
      }
    }
  }


  /** One step of `WriteSpec`, taken from position `i` of `env`: adding the
      events of iteration `i` to a trace that covers iterations `0..i`
      gives a trace that covers `0..i+1`, or the whole trace if the loop
      stops there. */
  lemma WriteSpecFrom(v: Variant, env: seq<WriteRound>, i: nat, trace: seq<Event>)
    requires i < |env| && trace + WriteSpec(v, env[i..]) == WriteSpec(v, env)
    ensures WriteContinues(v, env[i]) ==> (trace + WriteIteration(v, env[i])) + WriteSpec(v, env[i + 1..]) == WriteSpec(v, env)
    ensures !WriteContinues(v, env[i]) ==> trace + WriteIteration(v, env[i]) == WriteSpec(v, env)
  {
    assert env[i..][0] == env[i] && env[i..][1..] == env[i + 1..];
    StepAppend(trace, WriteSpec(v, env), WriteSpec(v, env[i..]), WriteIteration(v, env[i]),
               WriteSpec(v, env[i + 1..]), WriteContinues(v, env[i]));
  }



  /** The body of `WriteTask`'s loop, loop head included: the events of one
      iteration, and whether the loop goes round again. */
  method WriteStep(v: Variant, r: WriteRound) returns (events: seq<Event>, again: bool)
    ensures events == WriteIteration(v, r)
    ensures again <==> WriteContinues(v, r)
  {
    if v.HonoursCancellation() && r.cancelled {
      return [CancelCheck(true)], false;
    }
    events := if v.HonoursCancellation() then [CancelCheck(false)] else [];
    var buffer := Utf8(v.PayloadText(r.now));
    events := events + [StateCheck(r.beforeSend)];
    if r.beforeSend != Open {
      return events, false;
    }
    events := events + [Send(Frame(Text, true, buffer)), StateCheck(r.afterSend)];
    if r.afterSend != Open {
      return events, false;
    }
    events := events + [Delay(v.Cadence())];
    again := true;
  }

  /** `WriteTask`: the `while` loop of the handlers (`while (!cancelled)`) and
      of the middleware (`while (true)`), run over the iterations in `env`. */
  method WriteTask(v: Variant, env: seq<WriteRound>) returns (trace: seq<Event>)
    ensures trace == WriteSpec(v, env)
    ensures GuardedSends(trace, v.HonoursCancellation())
    ensures Alternates(Actions(trace), v.Cadence())
  {
    trace := [];
    var i := 0;
    while i < |env|
      invariant 0 <= i <= |env|
      invariant trace + WriteSpec(v, env[i..]) == WriteSpec(v, env)
    {
      WriteSpecFrom(v, env, i, trace);
      var events, again := WriteStep(v, env[i]);
      trace := trace + events;
      if !again {
        break;
      }
      i := i + 1;
    }
    assert i == |env| ==> env[i..] == [] && trace + [] == trace;
    assert GuardedSends(trace, v.HonoursCancellation()) by { WriteIsGuarded(v, env); }
    assert Alternates(Actions(trace), v.Cadence()) by { WriteAlternates(v, env); }
  }

  // ---------------------------------------------------------------------
  // The read loop
  // ---------------------------------------------------------------------

  /** One iteration of the read loop, loop head included. */
  function ReadIteration(v: Variant, r: ReadRound): (b: seq<Event>) {
    if v.HonoursCancellation() && r.cancelled then [CancelCheck(true)]
    else LoopHead(v.HonoursCancellation()) + [Receive, StateCheck(r.afterReceive)]
  }

  /** Whether the read loop goes round again after an iteration. */
  predicate ReadContinues(v: Variant, r: ReadRound) {
    !(v.HonoursCancellation() && r.cancelled) && r.afterReceive == Open
  }

  /** The trace of the read loop over the iterations in `env`. */
  function ReadSpec(v: Variant, env: seq<ReadRound>): (t: seq<Event>)
    decreases |env|
  {
    if env == [] then []
    else ReadIteration(v, env[0]) + (if ReadContinues(v, env[0]) then ReadSpec(v, env[1..]) else [])
  }

  /** The shape of one read iteration. */
  lemma ReadIterationShape(v: Variant, r: ReadRound)
    ensures var b := ReadIteration(v, r);
      && b != []
      && GuardedReceives(b, v.HonoursCancellation())
      && StopsAtFirstTerminal(b)
      && (ReadContinues(v, r) <==> NoTerminal(b))
      && (!ReadContinues(v, r) <==> Stopped(b))
      && Actions(b) == []
  {
    var b := ReadIteration(v, r);
    if !(v.HonoursCancellation() && r.cancelled) {
      var s := [Receive, StateCheck(r.afterReceive)];
      assert b == LoopHead(v.HonoursCancellation()) + s;
      ActionsAppend(LoopHead(v.HonoursCancellation()), s);
      assert Actions(s) == Actions(s[1..]) == Actions(s[2..]);
      assert Actions(LoopHead(v.HonoursCancellation())) == [];
    }
  }

  /** The read loop receives only after a loop head that saw no cancellation
      (in the handlers), reads the state after every receive, stops at the
      first cancellation or non-Open state, and never sends or waits. */
  lemma {:induction false} ReadIsGuarded(v: Variant, env: seq<ReadRound>)
    ensures GuardedReceives(ReadSpec(v, env), v.HonoursCancellation())
    ensures StopsAtFirstTerminal(ReadSpec(v, env))
    ensures Actions(ReadSpec(v, env)) == []
    decreases |env|
  {
    if env != [] {
      ReadIterationShape(v, env[0]);
      var b := ReadIteration(v, env[0]);
      if ReadContinues(v, env[0]) {
        var rest := ReadSpec(v, env[1..]);
        ReadIsGuarded(v, env[1..]);
        GuardedReceivesAppend(b, rest, v.HonoursCancellation());
        StopsAppend(b, rest);
        ActionsAppend(b, rest);
      } else {
        assert ReadSpec(v, env) == b + [] == b;
      }
    }
  }

  /** The read loop ends with a terminal observation exactly when some
      iteration in `env` saw cancellation or a non-Open state after receiving. */
  lemma {:induction false} ReadStopsIff(v: Variant, env: seq<ReadRound>)
    ensures Stopped(ReadSpec(v, env)) <==> exists i :: 0 <= i < |env| && !ReadContinues(v, env[i])
    decreases |env|
  {
    if env != [] {
      ReadIterationShape(v, env[0]);
      StoppedStep(ReadIteration(v, env[0]), ReadSpec(v, env[1..]), ReadContinues(v, env[0]));
      if ReadContinues(v, env[0]) {
        ReadStopsIff(v, env[1..]);
        ReadAnyStopsFromSecond(v, env);
      } else {
        assert !ReadContinues(v, env[0]);
      }
    }
  }

  /** When the first iteration continues, a stopping iteration exists in
      `env` exactly when one exists in the rest of it. */
  lemma ReadAnyStopsFromSecond(v: Variant, env: seq<ReadRound>)
    requires env != [] && ReadContinues(v, env[0])
    ensures (exists i :: 0 <= i < |env| && !ReadContinues(v, env[i]))
            <==> exists i :: 0 <= i < |env[1..]| && !ReadContinues(v, env[1..][i])
  {
    if exists i :: 0 <= i < |env| && !ReadContinues(v, env[i]) {
      var i :| 0 <= i < |env| && !ReadContinues(v, env[i]);
      assert env[1..][i - 1] == env[i];
    }
    if exists i :: 0 <= i < |env[1..]| && !ReadContinues(v, env[1..][i]) {
      var i :| 0 <= i < |env[1..]| && !ReadContinues(v, env[1..][i]);
      assert env[i + 1] == env[1..][i];
    }
  }


  /** Every iteration leaves at least one event. */
  lemma ReadSpecEmpty(v: Variant, env: seq<ReadRound>)
    ensures ReadSpec(v, env) == [] <==> env == []
  {
    if env != [] { assert |ReadIteration(v, env[0])| > 0; }
  }

  /** The middleware's read loop never tests cancellation: no trace of it
      holds a token check. */
  lemma {:induction false} MiddlewareReadNeverChecksToken(env: seq<ReadRound>)
    ensures NoCancelChecks(ReadSpec(Middleware, env))
    decreases |env|
  {
    if env != [] {
      var b := ReadIteration(Middleware, env[0]);
      assert b == [Receive, StateCheck(env[0].afterReceive)];
      assert NoCancelChecks(b);
      if ReadContinues(Middleware, env[0]) {
        MiddlewareReadNeverChecksToken(env[1..]);
        NoCancelChecksAppend(b, ReadSpec(Middleware, env[1..]));
      } else {
        assert ReadSpec(Middleware, env) == b + [] == b;
      }
    }
  }

  /** The middleware's read trace does not depend on the token at all, so
      it ends only on a non-Open state. */
  lemma {:induction false} MiddlewareReadIgnoresCancellation(env: seq<ReadRound>, env': seq<ReadRound>)
    requires |env| == |env'|
    requires forall i :: 0 <= i < |env| ==> env[i].(cancelled := env'[i].cancelled) == env'[i]
    ensures ReadSpec(Middleware, env) == ReadSpec(Middleware, env')
    decreases |env|
  {
    if env != [] {
      assert env[0].(cancelled := env'[0].cancelled) == env'[0];
      assert ReadIteration(Middleware, env[0]) == ReadIteration(Middleware, env'[0]);
      if ReadContinues(Middleware, env[0]) {
        forall i | 0 <= i < |env[1..]| ensures env[1..][i].(cancelled := env'[1..][i].cancelled) == env'[1..][i] {
          assert env[1..][i] == env[i + 1] && env'[1..][i] == env'[i + 1];
        }
        MiddlewareReadIgnoresCancellation(env[1..], env'[1..]);
      }
    }
  }


  /** One step of `ReadSpec`, taken from position `i` of `env`. */
  lemma ReadSpecFrom(v: Variant, env: seq<ReadRound>, i: nat, trace: seq<Event>)
    requires i < |env| && trace + ReadSpec(v, env[i..]) == ReadSpec(v, env)
    ensures ReadContinues(v, env[i]) ==> (trace + ReadIteration(v, env[i])) + ReadSpec(v, env[i + 1..]) == ReadSpec(v, env)
    ensures !ReadContinues(v, env[i]) ==> trace + ReadIteration(v, env[i]) == ReadSpec(v, env)
  {
    assert env[i..][0] == env[i] && env[i..][1..] == env[i + 1..];
    StepAppend(trace, ReadSpec(v, env), ReadSpec(v, env[i..]), ReadIteration(v, env[i]),
               ReadSpec(v, env[i + 1..]), ReadContinues(v, env[i]));
  }



  /** The body of `ReadTask`'s loop, loop head included. */
  method ReadStep(v: Variant, r: ReadRound) returns (events: seq<Event>, again: bool)
    ensures events == ReadIteration(v, r)
    ensures again <==> ReadContinues(v, r)
  {
    if v.HonoursCancellation() && r.cancelled {
      return [CancelCheck(true)], false;
    }
    events := if v.HonoursCancellation() then [CancelCheck(false)] else [];
    events := events + [Receive, StateCheck(r.afterReceive)];
    again := r.afterReceive == Open;
  }

  /** `ReadTask`: receive until cancelled (handlers only) or not Open. */
  method ReadTask(v: Variant, env: seq<ReadRound>) returns (trace: seq<Event>)
    ensures trace == ReadSpec(v, env)
    ensures GuardedReceives(trace, v.HonoursCancellation())
    ensures Actions(trace) == []
  {
    trace := [];
    var i := 0;
    while i < |env|
      invariant 0 <= i <= |env|
      invariant trace + ReadSpec(v, env[i..]) == ReadSpec(v, env)
    {
      ReadSpecFrom(v, env, i, trace);
      var events, again := ReadStep(v, env[i]);
      trace := trace + events;
      if !again {
        break;
      }
      i := i + 1;
    }
    assert i == |env| ==> env[i..] == [] && trace + [] == trace;
    assert GuardedReceives(trace, v.HonoursCancellation()) && Actions(trace) == [] by { ReadIsGuarded(v, env); }
  }

  // ---------------------------------------------------------------------
  // The three variants
  // ---------------------------------------------------------------------

  /** The ping handler sends "Pong!" (bytes 50 6F 6E 67 21) as a complete
      text frame every time, 5000 ms apart. */
  lemma PingFrames(env: seq<WriteRound>)
    ensures |Sends(WriteSpec(Ping, env))| <= |env|
    ensures forall n :: 0 <= n < |Sends(WriteSpec(Ping, env))| ==>
              Sends(WriteSpec(Ping, env))[n] == Frame(Text, true, [0x50, 0x6F, 0x6E, 0x67, 0x21])
    ensures Alternates(Actions(WriteSpec(Ping, env)), 5000)
  {
    WriteFrames(Ping, env);
    WriteAlternates(Ping, env);
    assert Utf8("Pong!") == [0x50, 0x6F, 0x6E, 0x67, 0x21];
  }

  /** The clock handler and the middleware send, as a complete text frame,
      the UTF-8 of the time read in the same iteration, 1000 ms apart. */
  lemma ClockFrames(v: Variant, env: seq<WriteRound>)
    requires v == Clock || v == Middleware
    ensures |Sends(WriteSpec(v, env))| <= |env|
    ensures forall n :: 0 <= n < |Sends(WriteSpec(v, env))| ==>
              Sends(WriteSpec(v, env))[n] == Frame(Text, true, Utf8(env[n].now))
    ensures Alternates(Actions(WriteSpec(v, env)), 1000)
  {
    WriteFrames(v, env);
    WriteAlternates(v, env);
  }
}
