/**
 Fetchers that wait for data while appends go on. An append makes its batch readable, then swaps in
 a new channel, then closes the old one; a fetcher takes the channel, reads, and waits on the channel
 when the read was empty. Every step is its own event, so the events of one append and of any number
 of fetchers interleave freely. Appends themselves are serial, as Raft applies one command at a time.
 */
module LongPoll {
  import opened Bytes
  import opened Batch
  import opened Framing
  import opened LogModel
  import opened LogReads

  /** Channels are numbered in the order they were made. */
  type Channel = nat

  datatype Writer = Idle | Publishing | Closing(previous: Channel)

  datatype Phase =
    | Polling                      // about to take the channel
    | Holding(ch: Channel)         // about to read
    | Waiting(ch: Channel)         // the read was empty
    | Answered(result: ReadOutcome)
    | SawNothing                   // only when reading first: about to take the channel and wait

  datatype Fetcher = Fetcher(offset: int, maxBytes: int, phase: Phase)

  datatype State = State(
    log: Log, next: int, current: Channel, closed: set<Channel>, writer: Writer, fetchers: seq<Fetcher>)

  datatype Event =
    | Publish(batch: Frame)
    | Swap
    | Close
    | Fetch(f: nat, offset: int, maxBytes: int)
    | Snapshot(f: nat)
    | Read(f: nat)
    | Wake(f: nat)
    | GiveUp(f: nat) // out of time, cancelled, or no longer the leader

  /** Whether a fetcher takes the channel before it reads, as it does, or after. */
  datatype Order = SnapshotFirst | ReadFirst

  function Outcome(s: State, f: nat): ReadOutcome
    requires |s.log| > 0 && f < |s.fetchers|
  {
    ReadLog(s.log, s.next, s.fetchers[f].offset, s.fetchers[f].maxBytes)
  }

  predicate Enabled(c: Config, o: Order, s: State, e: Event) {
    match e
    case Publish(b) => s.writer.Idle? && |s.log| > 0 && WellFormed(c.crc, b) && s.next + CountOf(b) < TWO_63
    case Swap => s.writer.Publishing?
    case Close => s.writer.Closing?
    case Fetch(f, _, _) => f < |s.fetchers| && s.fetchers[f].phase.Answered?
    case Snapshot(f) => f < |s.fetchers| && s.fetchers[f].phase == if o.SnapshotFirst? then Polling else SawNothing
    case Read(f) =>
      && f < |s.fetchers| && |s.log| > 0
      && if o.SnapshotFirst? then s.fetchers[f].phase.Holding? else s.fetchers[f].phase.Polling?
    case Wake(f) => f < |s.fetchers| && s.fetchers[f].phase.Waiting? && s.fetchers[f].phase.ch in s.closed
    case GiveUp(f) => f < |s.fetchers| && !s.fetchers[f].phase.Answered?
  }

  function Move(s: State, f: nat, p: Phase): State
    requires f < |s.fetchers|
  {
    s.(fetchers := s.fetchers[f := s.fetchers[f].(phase := p)])
  }

  function Step(c: Config, o: Order, s: State, e: Event): State
    requires Enabled(c, o, s, e)
  {
    match e
    case Publish(b) => s.(log := Appended(c, s.log, WrapInt64(s.next), b), next := s.next + CountOf(b),
                          writer := Publishing)
    case Swap => s.(current := s.current + 1, writer := Closing(s.current))
    case Close => s.(closed := s.closed + {s.writer.previous}, writer := Idle)
    case Fetch(f, offset, maxBytes) => s.(fetchers := s.fetchers[f := Fetcher(offset, maxBytes, Polling)])
    case Snapshot(f) => Move(s, f, if o.SnapshotFirst? then Holding(s.current) else Waiting(s.current))
    case Read(f) =>
      if !Empty(Outcome(s, f)) then Move(s, f, Answered(Outcome(s, f)))
      else Move(s, f, if o.SnapshotFirst? then Waiting(s.fetchers[f].phase.ch) else SawNothing)
    case Wake(f) => Move(s, f, Polling)
    case GiveUp(f) => Move(s, f, Answered(Records([], 0)))
  }

  predicate IsRun(c: Config, o: Order, states: seq<State>, es: seq<Event>) {
    && |states| == |es| + 1
    && forall i | 0 <= i < |es| :: Enabled(c, o, states[i], es[i]) && states[i + 1] == Step(c, o, states[i], es[i])
  }

  predicate Start(c: Config, s: State) {
    && ValidLog(c, s.log, s.next) && Roomy(c, s.log) && s.current == 0 && s.closed == {} && s.writer.Idle?
    && forall f | 0 <= f < |s.fetchers| :: s.fetchers[f].phase.Answered?
  }

  /** The closed channels are the ones before the current one, but for the one the writer is about to close. */
  predicate ClosedBehind(s: State) {
    && (forall ch | ch in s.closed :: ch < s.current)
    && (s.writer.Closing? ==> s.writer.previous < s.current)
    && forall ch: Channel | ch < s.current :: ch in s.closed || s.writer == Closing(ch)
  }

  /** The fetcher has nothing to read yet, or its channel is, or is about to be, behind the current one. */
  predicate WillHear(s: State, f: Fetcher) {
    match f.phase
    case Holding(ch) => ch <= s.current
    case Waiting(ch) => ch <= s.current && (f.offset >= s.next || ch < s.current || s.writer.Publishing?)
    case SawNothing => false
    case _ => true
  }

  predicate Inv(c: Config, s: State) {
    && ValidLog(c, s.log, s.next) && Roomy(c, s.log) && ClosedBehind(s)
    && forall f | 0 <= f < |s.fetchers| :: WillHear(s, s.fetchers[f])
  }

  lemma StepKeepsInv(c: Config, s: State, e: Event)
    requires ValidConfig(c) && Inv(c, s) && Enabled(c, SnapshotFirst, s, e)
    ensures Inv(c, Step(c, SnapshotFirst, s, e))
  {
    hide ValidLog, ReadLog, Appended, WellFormed, CountOf;
    match e
    case Publish(b) =>
      NextInRange(c, s.log, s.next);
      WrapIdentity(s.next);
      RoomyIsAppendable(c, s.log, s.next);
      AppendRefines(c, s.log, s.next, b);
    case Swap =>
    case Close =>
    case Read(f) => EmptyIffAtEnd(c, s.log, s.next, s.fetchers[f].offset, s.fetchers[f].maxBytes);
    case Fetch(f, _, _) =>
    case Snapshot(f) =>
    case Wake(f) =>
    case GiveUp(f) =>
  }

  lemma {:induction false} RunKeepsInv(c: Config, states: seq<State>, es: seq<Event>, i: nat)
    requires ValidConfig(c) && IsRun(c, SnapshotFirst, states, es) && Start(c, states[0]) && i < |states|
    ensures Inv(c, states[i])
  {
    hide Inv, Start, Step, Enabled;
    if i == 0 {
      StartInv(c, states[0]);
    } else {
      RunKeepsInv(c, states, es, i - 1);
      StepKeepsInv(c, states[i - 1], es[i - 1]);
    }
  }

  lemma StartInv(c: Config, s: State)
    requires Start(c, s)
    ensures Inv(c, s)
  {
    hide ValidLog;
  }

  /**
   A fetcher is answered by a read that found something or that is out of range, and with what it read; or
   by giving up, and then with nothing and no offset to go on from.
   */
  lemma AnsweredByRead(c: Config, s: State, e: Event, f: nat, r: ReadOutcome)
    requires Inv(c, s) && Enabled(c, SnapshotFirst, s, e) && f < |s.fetchers| && !s.fetchers[f].phase.Answered?
    requires AnswerIn(Step(c, SnapshotFirst, s, e), f) == Some(r)
    ensures e == Read(f) || (e == GiveUp(f) && r == Records([], 0))
    ensures e == Read(f) ==>
      && |s.log| > 0 && r == ReadLog(s.log, s.next, s.fetchers[f].offset, s.fetchers[f].maxBytes)
      && (r.Records? ==> r.records != [] && r.next > s.fetchers[f].offset)
  {
    hide ValidLog, ReadLog, Appended, WellFormed, CountOf, ClosedBehind, WillHear, WrapInt64;
    match e
    case Read(g) => ReadGoesOn(c, s.log, s.next, s.fetchers[f].offset, s.fetchers[f].maxBytes);
    case Publish(_) =>
    case Swap =>
    case Close =>
    case Fetch(g, _, _) =>
    case Snapshot(g) =>
    case Wake(g) =>
    case GiveUp(g) =>
  }

  function AnswerIn(s: State, f: nat): Option<ReadOutcome> {
    if f < |s.fetchers| && s.fetchers[f].phase.Answered? then Some(s.fetchers[f].phase.result) else None
  }

  // --- No fetcher sleeps through its data -------------------------------------------------------

  /** The rest of an append that has made its batch readable. */
  function FinishAppend(s: State): seq<Event> {
    match s.writer
    case Idle => []
    case Publishing => [Swap, Close]
    case Closing(_) => [Close]
  }

  /** The events from `s`, if each is enabled in turn. */
  function After(c: Config, s: State, es: seq<Event>): (r: Option<State>)
    decreases |es|
  {
    if |es| == 0 then Some(s)
    else if !Enabled(c, SnapshotFirst, s, es[0]) then None
    else After(c, Step(c, SnapshotFirst, s, es[0]), es[1..])
  }

  /**
   In every reachable state, a fetcher that waits although there is data for it is woken by the end of
   the append that is under way, and then reads the data. No further append is needed.
   */
  lemma NoLostWakeup(c: Config, states: seq<State>, es: seq<Event>, i: nat, f: nat)
    requires ValidConfig(c) && IsRun(c, SnapshotFirst, states, es) && Start(c, states[0])
    requires i < |states| && f < |states[i].fetchers|
    requires states[i].fetchers[f].phase.Waiting? && states[i].fetchers[f].offset < states[i].next
    ensures var s := states[i];
            var r := After(c, s, FinishAppend(s) + [Wake(f), Snapshot(f), Read(f)]);
            && r.Some? && f < |r.value.fetchers| && r.value.log == s.log && |s.log| > 0
            && r.value.fetchers[f].phase == Answered(Outcome(s, f)) && !Empty(Outcome(s, f))
  {
    hide IsRun, Start, ValidLog, ReadLog;
    RunKeepsInv(c, states, es, i);
    FinishThenRead(c, states[i], f);
  }

  lemma FinishThenRead(c: Config, s: State, f: nat)
    requires ValidConfig(c) && Inv(c, s) && f < |s.fetchers|
    requires s.fetchers[f].phase.Waiting? && s.fetchers[f].offset < s.next
    ensures var r := After(c, s, FinishAppend(s) + [Wake(f), Snapshot(f), Read(f)]);
            && r.Some? && f < |r.value.fetchers| && r.value.log == s.log && |s.log| > 0
            && r.value.fetchers[f].phase == Answered(Outcome(s, f)) && !Empty(Outcome(s, f))
    decreases |FinishAppend(s)|
  {
    hide ValidLog, ReadLog;
    match s.writer
    case Idle =>
      assert [] + [Wake(f), Snapshot(f), Read(f)] == [Wake(f), Snapshot(f), Read(f)];
      WakeThenRead(c, s, f);
    case Closing(_) =>
      var t := Step(c, SnapshotFirst, s, Close);
      assert ([Close] + [Wake(f), Snapshot(f), Read(f)])[1..] == [Wake(f), Snapshot(f), Read(f)];
      WakeThenRead(c, t, f);
    case Publishing =>
      var t := Step(c, SnapshotFirst, s, Swap);
      assert ([Swap, Close] + [Wake(f), Snapshot(f), Read(f)])[1..] == [Close] + [Wake(f), Snapshot(f), Read(f)];
      StepKeepsInv(c, s, Swap);
      FinishThenRead(c, t, f);
  }

  lemma WakeThenRead(c: Config, s: State, f: nat)
    requires ValidLog(c, s.log, s.next) && f < |s.fetchers| && s.fetchers[f].offset < s.next
    requires s.fetchers[f].phase.Waiting? && s.fetchers[f].phase.ch in s.closed
    ensures var r := After(c, s, [Wake(f), Snapshot(f), Read(f)]);
            && r.Some? && f < |r.value.fetchers| && r.value.log == s.log && |s.log| > 0
            && r.value.fetchers[f].phase == Answered(Outcome(s, f)) && !Empty(Outcome(s, f))
  {
    hide ValidLog, ReadLog;
    EmptyIffAtEnd(c, s.log, s.next, s.fetchers[f].offset, s.fetchers[f].maxBytes);
    var s1 := Step(c, SnapshotFirst, s, Wake(f));
    var s2 := Step(c, SnapshotFirst, s1, Snapshot(f));
    var s3 := Step(c, SnapshotFirst, s2, Read(f));
    assert [Wake(f), Snapshot(f), Read(f)][1..] == [Snapshot(f), Read(f)];
    assert [Snapshot(f), Read(f)][1..] == [Read(f)];
    assert [Read(f)][1..] == [];
    assert After(c, s2, [Read(f)]) == Some(s3);
  }

  /**
   Were the channel taken after the read, an append that falls between the two would go unheard:
   nothing is under way, the fetcher has data, and it waits on a channel that is still open.
   */
  lemma ReadFirstLosesWakeup(c: Config, b: Frame) returns (states: seq<State>, es: seq<Event>)
    requires ValidConfig(c) && WellFormed(c.crc, b)
    ensures IsRun(c, ReadFirst, states, es) && Start(c, states[0])
    ensures var s := states[|es|];
            && |s.fetchers| == 1 && s.writer.Idle? && s.fetchers[0].phase == Waiting(s.current)
            && s.current !in s.closed && s.fetchers[0].offset < s.next
  {
    hide ValidLog, Appended, WellFormed;
    FreshLogValid(c);
    CountFits(c, b);
    var s0 := State([Fresh(0)], 0, 0, {}, Idle, [Fetcher(0, 0, Answered(Records([], 0)))]);
    es := [Fetch(0, 0, 1), Read(0), Publish(b), Swap, Close, Snapshot(0)];
    var s1 := Step(c, ReadFirst, s0, es[0]);
    var s2 := Step(c, ReadFirst, s1, es[1]);
    var s3 := Step(c, ReadFirst, s2, es[2]);
    var s4 := Step(c, ReadFirst, s3, es[3]);
    var s5 := Step(c, ReadFirst, s4, es[4]);
    var s6 := Step(c, ReadFirst, s5, es[5]);
    states := [s0, s1, s2, s3, s4, s5, s6];
  }

  lemma CountFits(c: Config, b: Frame)
    requires WellFormed(c.crc, b)
    ensures 0 < CountOf(b) < TWO_63
  {
  }
}
