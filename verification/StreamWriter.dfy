/**
 The streaming response writers. A guest sends chunks into a bounded channel, its
 executor resolves a one-shot completion signal, and a writer turns both into frames.
 Guest, executor and writer interleave freely; the writer's polls of the channel and
 of the signal are separate steps.
 */
module StreamWriter {
  type Chunk = seq<int>

  const CHANNEL_BUFFER: nat := 32

  datatype Outcome = Finished | Failed(kind: string)

  /** The one-shot completion signal. */
  datatype Signal = Pending | Sent(outcome: Outcome) | Dropped

  datatype Frame = Data(chunk: Chunk) | Terminal(outcome: Outcome) | DoneMarker

  /** The native writer of `/invoke-stream`, and the OpenAI-compatible one. */
  datatype Flavour = Native | OpenAi

  /**
   Where the writer is. `Polling`, `PolledEmpty`, `AwaitingSignal` and `Completing` are
   the points inside the streaming state at which another task may run.
   */
  datatype Writer =
    | Polling                        // about to poll the channel
    | PolledEmpty                    // the channel was empty and open; about to poll the signal
    | AwaitingSignal                 // the channel was closed and drained; waiting for the signal
    | Completing(terminal: Outcome)  // the signal fired; about to try the channel once more
    | DrainOnly(terminal: Outcome)
    | EmitDone
    | Closing
    | Ended

  datatype State = State(
    sent: seq<Chunk>,       // every chunk the guest sent so far
    channel: seq<Chunk>,
    senderAlive: bool,
    signal: Signal,
    writer: Writer,
    frames: seq<Frame>)     // every frame the writer emitted so far

  const INITIAL := State([], [], true, Pending, Polling, [])

  /** A signal that was dropped is a failure to the native writer, and a success to the OpenAI one. */
  function TerminalOf(fl: Flavour, s: Signal): Outcome
    requires !s.Pending?
  {
    match s
    case Sent(o) => o
    case Dropped => if fl == Native then Failed("wasm_error") else Finished
  }

  // ------------------------------------------------------------------
  // Steps
  // ------------------------------------------------------------------

  datatype Action = Send(chunk: Chunk) | DropSender | Resolve(signal: Signal) | Write

  predicate CanSend(st: State) {
    st.senderAlive && st.signal.Pending?
  }

  predicate Enabled(st: State, a: Action) {
    match a
    case Send(_) => CanSend(st) && |st.channel| < CHANNEL_BUFFER
    case DropSender => st.senderAlive
    case Resolve(s) => st.signal.Pending? && !s.Pending?
    case Write => !st.writer.Ended? && !(st.writer.AwaitingSignal? && st.signal.Pending?)
  }

  function AfterTerminal(fl: Flavour): Writer {
    if fl == Native then Closing else EmitDone
  }

  function Emit(st: State, f: Frame, w: Writer): State {
    st.(frames := st.frames + [f], writer := w)
  }

  /** Pops a chunk if there is one, otherwise emits the terminal frame. */
  function TryReceive(fl: Flavour, st: State, terminal: Outcome): State {
    if st.channel != [] then Emit(st.(channel := st.channel[1..]), Data(st.channel[0]), DrainOnly(terminal))
    else Emit(st, Terminal(terminal), AfterTerminal(fl))
  }

  function WriterStep(fl: Flavour, st: State): State
    requires Enabled(st, Write)
  {
    match st.writer
    case Polling =>
      if st.channel != [] then Emit(st.(channel := st.channel[1..]), Data(st.channel[0]), Polling)
      else st.(writer := if st.senderAlive then PolledEmpty else AwaitingSignal)
    case PolledEmpty =>
      st.(writer := if st.signal.Pending? then Polling else Completing(TerminalOf(fl, st.signal)))
    case AwaitingSignal => Emit(st, Terminal(TerminalOf(fl, st.signal)), AfterTerminal(fl))
    case Completing(t) => TryReceive(fl, st, t)
    case DrainOnly(t) => TryReceive(fl, st, t)
    case EmitDone => Emit(st, DoneMarker, Closing)
    case Closing => st.(writer := Ended)
  }

  function Apply(fl: Flavour, st: State, a: Action): State
    requires Enabled(st, a)
  {
    match a
    case Send(c) => st.(sent := st.sent + [c], channel := st.channel + [c])
    case DropSender => st.(senderAlive := false)
    case Resolve(s) => st.(signal := s)
    case Write => WriterStep(fl, st)
  }

  ghost predicate Possible(fl: Flavour, st: State, run: seq<Action>)
    decreases |run|
  {
    run != [] ==> Enabled(st, run[0]) && Possible(fl, Apply(fl, st, run[0]), run[1..])
  }

  ghost function After(fl: Flavour, st: State, run: seq<Action>): State
    requires Possible(fl, st, run)
    decreases |run|
  {
    if run == [] then st else After(fl, Apply(fl, st, run[0]), run[1..])
  }

  // ------------------------------------------------------------------
  // What the client is owed
  // ------------------------------------------------------------------

  function DataFrames(chunks: seq<Chunk>): seq<Frame> {
    seq(|chunks|, i requires 0 <= i < |chunks| => Data(chunks[i]))
  }

  function Trailer(fl: Flavour): seq<Frame> {
    if fl == Native then [] else [DoneMarker]
  }

  /** The whole response of a completed invocation. */
  function Response(fl: Flavour, sent: seq<Chunk>, s: Signal): seq<Frame>
    requires !s.Pending?
  {
    var status := if s.Sent? then s.outcome else if fl == OpenAi then Finished else Failed("wasm_error");
    DataFrames(sent) + [Terminal(status)] + Trailer(fl)
  }

  predicate Streaming(w: Writer) {
    w.Polling? || w.PolledEmpty? || w.AwaitingSignal? || w.Completing? || w.DrainOnly?
  }

  // ------------------------------------------------------------------
  // The invariant
  // ------------------------------------------------------------------

  /** What was delivered and what is still buffered are together what was sent, and the terminal frame comes last. */
  predicate Inv(fl: Flavour, st: State) {
    && |st.channel| <= CHANNEL_BUFFER
    && |st.channel| <= |st.sent| && st.sent[|st.sent| - |st.channel|..] == st.channel
    && (st.writer.AwaitingSignal? ==> st.channel == [] && !st.senderAlive)
    && (st.writer.Completing? || st.writer.DrainOnly? ==> !st.signal.Pending? && st.writer.terminal == TerminalOf(fl, st.signal))
    && (Streaming(st.writer) ==> st.frames == DataFrames(st.sent[..|st.sent| - |st.channel|]))
    && (!Streaming(st.writer) ==>
          && st.channel == [] && !st.signal.Pending?
          && Response(fl, st.sent, st.signal) == st.frames + (if st.writer.EmitDone? then [DoneMarker] else [])
          && (st.writer.EmitDone? ==> fl == OpenAi))
  }

  lemma DataFramesAppend(chunks: seq<Chunk>, c: Chunk)
    ensures DataFrames(chunks + [c]) == DataFrames(chunks) + [Data(c)]
  {
  }

  /** Popping the channel delivers the next chunk that was sent. */
  lemma PopDelivers(fl: Flavour, st: State)
    requires Inv(fl, st) && Streaming(st.writer) && st.channel != []
    ensures var n := |st.sent| - |st.channel|;
            && st.frames + [Data(st.channel[0])] == DataFrames(st.sent[..n + 1])
            && st.sent[n + 1..] == st.channel[1..]
  {
    var n := |st.sent| - |st.channel|;
    assert st.sent[n..] == st.channel;
    assert st.sent[n] == st.sent[n..][0];
    assert st.sent[..n + 1] == st.sent[..n] + [st.channel[0]];
    DataFramesAppend(st.sent[..n], st.channel[0]);
    assert st.sent[n + 1..] == st.sent[n..][1..];
  }

  lemma InvWrite(fl: Flavour, st: State)
    requires Inv(fl, st) && Enabled(st, Write)
    ensures Inv(fl, WriterStep(fl, st))
  {
    hide DataFrames;
    var n := |st.sent| - |st.channel|;
    if Streaming(st.writer) {
      if st.channel != [] {
        PopDelivers(fl, st);
      } else {
        assert st.sent[..n] == st.sent && st.sent[n..] == [];
      }
    }
  }

  lemma InvSend(fl: Flavour, st: State, c: Chunk)
    requires Inv(fl, st) && Enabled(st, Send(c))
    ensures Inv(fl, Apply(fl, st, Send(c)))
  {
    var n := |st.sent| - |st.channel|;
    var sent' := st.sent + [c];
    assert sent'[..n] == st.sent[..n];
    assert sent'[n..] == st.sent[n..] + [c];
    assert st.sent[n..] == st.channel;
  }

  lemma InvStep(fl: Flavour, st: State, a: Action)
    requires Inv(fl, st) && Enabled(st, a)
    ensures Inv(fl, Apply(fl, st, a))
  {
    match a
    case Send(c) => InvSend(fl, st, c);
    case DropSender =>
    case Resolve(s) =>
    case Write => InvWrite(fl, st);
  }

  lemma {:induction false} InvRun(fl: Flavour, st: State, run: seq<Action>)
    requires Inv(fl, st) && Possible(fl, st, run)
    ensures Inv(fl, After(fl, st, run))
    decreases |run|
  {
    if run != [] {
      InvStep(fl, st, run[0]);
      InvRun(fl, Apply(fl, st, run[0]), run[1..]);
    }
  }

  // ------------------------------------------------------------------
  // Delivery
  // ------------------------------------------------------------------

  function Delivered(frames: seq<Frame>): seq<Chunk> {
    if frames == [] then []
    else
      var rest := Delivered(frames[..|frames| - 1]);
      if frames[|frames| - 1].Data? then rest + [frames[|frames| - 1].chunk] else rest
  }

  lemma {:induction false} DeliveredData(chunks: seq<Chunk>)
    ensures Delivered(DataFrames(chunks)) == chunks
    decreases |chunks|
  {
    if chunks != [] {
      var n := |chunks| - 1;
      assert DataFrames(chunks)[..n] == DataFrames(chunks[..n]);
      DeliveredData(chunks[..n]);
      assert chunks == chunks[..n] + [chunks[n]];
    }
  }

  /** What a client has seen in state `st`, against what the guest sent. */
  predicate DeliveredSoFar(fl: Flavour, st: State) {
    && |st.channel| <= CHANNEL_BUFFER
    && (Streaming(st.writer) ==> Delivered(st.frames) + st.channel == st.sent && st.frames == DataFrames(Delivered(st.frames)))
    && (!Streaming(st.writer) ==> !st.signal.Pending? && st.channel == [])
    && (st.writer.EmitDone? ==> fl == OpenAi && st.frames + [DoneMarker] == Response(fl, st.sent, st.signal))
    && (st.writer.Closing? || st.writer.Ended? ==> st.frames == Response(fl, st.sent, st.signal))
  }

  lemma InvDelivers(fl: Flavour, st: State)
    requires Inv(fl, st)
    ensures DeliveredSoFar(fl, st)
  {
    if Streaming(st.writer) {
      var n := |st.sent| - |st.channel|;
      DeliveredData(st.sent[..n]);
      assert st.sent[..n] + st.sent[n..] == st.sent;
    }
    hide DataFrames, Delivered, Response;
  }

  lemma InvInitially(fl: Flavour)
    ensures Inv(fl, INITIAL)
  {
  }

  /**
   Delivery, in every interleaving. At any moment the chunks delivered so far and the
   chunks still buffered are together exactly the chunks sent, in order. From the
   terminal frame on, every chunk is out and nothing is buffered. A stream that has
   ended delivered every chunk exactly once and in order, then exactly one terminal
   frame carrying the completion status, then the end marker of its flavour, and
   nothing else.
   */
  lemma StreamDelivery(fl: Flavour, run: seq<Action>)
    requires Possible(fl, INITIAL, run)
    ensures DeliveredSoFar(fl, After(fl, INITIAL, run))
  {
    hide *;
    InvInitially(fl);
    InvRun(fl, INITIAL, run);
    InvDelivers(fl, After(fl, INITIAL, run));
  }

  // ------------------------------------------------------------------
  // Progress
  // ------------------------------------------------------------------

  /** The frames still owed once the completion status is known. */
  function FramesLeft(fl: Flavour, st: State): int
    requires !st.signal.Pending?
  {
    |Response(fl, st.sent, st.signal)| - |st.frames|
  }

  /** Steps the writer may take before its next frame, once the completion status is known. */
  function SilentSteps(w: Writer): nat {
    match w
    case Polling => 3
    case PolledEmpty => 2
    case Closing => 1
    case _ => 0
  }

  /** After completion the guest can send nothing more, the writer is never blocked, and each of its steps emits an owed frame or brings it closer to doing so. */
  lemma CompletionDrains(fl: Flavour, st: State)
    requires Inv(fl, st) && !st.signal.Pending? && !st.writer.Ended?
    ensures forall c :: !Enabled(st, Send(c))
    ensures Enabled(st, Write) && FramesLeft(fl, st) >= 0
    ensures var st' := WriterStep(fl, st);
            || (|st'.frames| == |st.frames| + 1 && FramesLeft(fl, st') == FramesLeft(fl, st) - 1)
            || (st'.frames == st.frames && SilentSteps(st'.writer) < SilentSteps(st.writer))
  {
  }

  /** Before completion a full channel never blocks the writer: back-pressure falls on the guest alone. */
  lemma WriterNeverBlockedByChunks(fl: Flavour, st: State)
    requires Inv(fl, st) && st.channel != []
    ensures Enabled(st, Write)
    ensures st.writer.Polling? ==> WriterStep(fl, st).channel == st.channel[1..]
  {
  }

  lemma SignalStays(fl: Flavour, st: State)
    requires Enabled(st, Write)
    ensures WriterStep(fl, st).signal == st.signal && WriterStep(fl, st).sent == st.sent
  {
  }

  /** The frames still owed run out: after completion, enough writer steps end the stream. */
  lemma {:induction false} CompletionEnds(fl: Flavour, st: State) returns (run: seq<Action>)
    requires Inv(fl, st) && !st.signal.Pending?
    ensures Possible(fl, st, run) && After(fl, st, run).writer.Ended?
    ensures forall a :: a in run ==> a == Write
    decreases FramesLeft(fl, st), SilentSteps(st.writer)
  {
    hide Inv, Response, WriterStep, Enabled;
    if st.writer.Ended? {
      run := [];
    } else {
      CompletionDrains(fl, st);
      InvWrite(fl, st);
      SignalStays(fl, st);
      var rest := CompletionEnds(fl, WriterStep(fl, st));
      run := [Write] + rest;
      assert run[1..] == rest;
    }
  }

  // ------------------------------------------------------------------
  // What the guest may do, and that every response arises
  // ------------------------------------------------------------------

  /** The chunks sent in a run. */
  function SentIn(run: seq<Action>): seq<Chunk> {
    if run == [] then []
    else if run[0].Send? then [run[0].chunk] + SentIn(run[1..])
    else SentIn(run[1..])
  }

  predicate Resolves(run: seq<Action>) {
    exists i :: 0 <= i < |run| && run[i].Resolve?
  }

  lemma ResolvesCons(run: seq<Action>)
    requires run != []
    ensures Resolves(run) <==> run[0].Resolve? || Resolves(run[1..])
    ensures DropSender in run <==> run[0] == DropSender || DropSender in run[1..]
  {
    var rest := run[1..];
    if j :| 0 <= j < |rest| && rest[j].Resolve? {
      assert run[j + 1].Resolve?;
    }
    if i :| 0 <= i < |run| && run[i].Resolve? {
      assert i > 0 ==> rest[i - 1].Resolve?;
    }
    assert run == [run[0]] + rest;
  }

  lemma HistoryStep(fl: Flavour, st: State, a: Action)
    requires Enabled(st, a)
    ensures var next := Apply(fl, st, a);
            && next.sent == st.sent + (if a.Send? then [a.chunk] else [])
            && (next.senderAlive <==> st.senderAlive && a != DropSender)
            && (next.signal.Pending? <==> st.signal.Pending? && !a.Resolve?)
  {
  }

  lemma {:induction false} History(fl: Flavour, st: State, run: seq<Action>)
    requires Possible(fl, st, run)
    ensures var st' := After(fl, st, run);
            && st'.sent == st.sent + SentIn(run)
            && (st'.senderAlive <==> st.senderAlive && DropSender !in run)
            && (st'.signal.Pending? <==> st.signal.Pending? && !Resolves(run))
    decreases |run|
  {
    if run != [] {
      HistoryStep(fl, st, run[0]);
      ResolvesCons(run);
      History(fl, Apply(fl, st, run[0]), run[1..]);
      hide Apply, Resolves;
    }
  }

  /**
   After any run the guest may send if and only if it has not let go of the channel, the
   completion has not been signalled, and fewer chunks than the buffer holds are sent but
   not delivered; and what was sent is what the guest's sends say, in their order.
   */
  lemma GuestMaySendIff(fl: Flavour, run: seq<Action>, c: Chunk)
    requires Possible(fl, INITIAL, run)
    ensures var st := After(fl, INITIAL, run);
            && st.sent == SentIn(run)
            && (Enabled(st, Send(c)) <==> DropSender !in run && !Resolves(run) && |SentIn(run)| < |Delivered(st.frames)| + CHANNEL_BUFFER)
  {
    History(fl, INITIAL, run);
    StreamDelivery(fl, run);
    hide After, Possible, SentIn, Resolves, Delivered, DataFrames, Response;
  }

  /** With the channel drained and let go of, the writer's next poll parks it: it does not poll again, but waits for the signal. */
  lemma WriterParks(fl: Flavour, st: State)
    requires st.writer.Polling? && st.channel == [] && st.signal.Pending?
    ensures Enabled(st, Write)
    ensures !st.senderAlive ==> !Enabled(WriterStep(fl, st), Write) && forall s: Signal :: !s.Pending? ==> Enabled(WriterStep(fl, st), Resolve(s))
    ensures st.senderAlive ==> Enabled(WriterStep(fl, st), Write) && WriterStep(fl, WriterStep(fl, st)) == st
  {
  }

  lemma {:induction false} RunOn(fl: Flavour, st: State, run: seq<Action>, more: seq<Action>)
    requires Possible(fl, st, run) && Possible(fl, After(fl, st, run), more)
    ensures Possible(fl, st, run + more) && After(fl, st, run + more) == After(fl, After(fl, st, run), more)
    decreases |run|
  {
    if run == [] {
      assert run + more == more;
    } else {
      assert (run + more)[1..] == run[1..] + more;
      RunOn(fl, Apply(fl, st, run[0]), run[1..], more);
    }
  }

  lemma OneStep(fl: Flavour, st: State, a: Action)
    requires Enabled(st, a)
    ensures Possible(fl, st, [a]) && After(fl, st, [a]) == Apply(fl, st, a)
  {
    assert [a][1..] == [];
    hide Apply, Enabled;
  }

  /** A guest that waits for each chunk to be written can send any number of them. */
  lemma {:induction false} ChunkByChunk(fl: Flavour, chunks: seq<Chunk>) returns (run: seq<Action>)
    ensures Possible(fl, INITIAL, run) && After(fl, INITIAL, run) == State(chunks, [], true, Pending, Polling, DataFrames(chunks))
    decreases |chunks|
  {
    run := [];
    if chunks == [] {
      assert DataFrames(chunks) == [];
    } else {
      var n := |chunks| - 1;
      var c := chunks[n];
      var front := ChunkByChunk(fl, chunks[..n]);
      var s0 := State(chunks[..n], [], true, Pending, Polling, DataFrames(chunks[..n]));
      var s1 := Apply(fl, s0, Send(c));
      assert chunks == chunks[..n] + [c] && s1.channel == [c] && [c][1..] == [];
      DataFramesAppend(chunks[..n], c);
      assert Apply(fl, s1, Write) == State(chunks, [], true, Pending, Polling, DataFrames(chunks));
      hide After, Possible, Apply, DataFrames;
      OneStep(fl, s0, Send(c));
      OneStep(fl, s1, Write);
      RunOn(fl, INITIAL, front, [Send(c)]);
      RunOn(fl, INITIAL, front + [Send(c)], [Write]);
      run := front + [Send(c)] + [Write];
    }
  }

  /** Nothing is promised in vain: for any chunks and any completion there is a run whose response is just that. */
  lemma EveryResponseArises(fl: Flavour, chunks: seq<Chunk>, s: Signal) returns (run: seq<Action>)
    requires !s.Pending?
    ensures Possible(fl, INITIAL, run) && After(fl, INITIAL, run).writer.Ended? && SentIn(run) == chunks
    ensures After(fl, INITIAL, run).frames == Response(fl, chunks, s)
  {
    hide After, Possible, DataFrames, Response, SentIn, Inv;
    var front := ChunkByChunk(fl, chunks);
    var st := After(fl, INITIAL, front);
    OneStep(fl, st, Resolve(s));
    RunOn(fl, INITIAL, front, [Resolve(s)]);
    var mid := front + [Resolve(s)];
    var st' := After(fl, INITIAL, mid);
    InvInitially(fl);
    InvRun(fl, INITIAL, mid);
    var tail := CompletionEnds(fl, st');
    RunOn(fl, INITIAL, mid, tail);
    run := mid + tail;
    History(fl, INITIAL, run);
    WritesOnly(fl, st', tail);
    StreamDelivery(fl, run);
  }

  lemma {:induction false} WritesOnly(fl: Flavour, st: State, run: seq<Action>)
    requires Possible(fl, st, run) && forall a :: a in run ==> a == Write
    ensures After(fl, st, run).sent == st.sent && After(fl, st, run).signal == st.signal
    decreases |run|
  {
    if run != [] {
      assert run[0] in run;
      assert forall a :: a in run[1..] ==> a in run;
      SignalStays(fl, st);
      WritesOnly(fl, WriterStep(fl, st), run[1..]);
    }
    hide WriterStep;
  }
}
