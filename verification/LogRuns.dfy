/** Every run of appends, boundary truncations and retention is a run on one flat list of batches. */
module LogRuns {
  import opened Bytes
  import opened Batch
  import opened Framing
  import opened LogModel
  import opened LogReads
  import opened LogTruncation

  /** The specification: the offset of the first batch still there, and the batches. */
  datatype FlatLog = FlatLog(first: int, batches: seq<Frame>)

  datatype Op = Append(batch: Frame) | TruncateTo(offset: int) | DropBelow(offset: int)

  function Abstract(log: Log): FlatLog
    requires |log| > 0
  {
    FlatLog(log[0].base, All(log))
  }

  // --- The specification ----------------------------------------------------------------------

  /** The batches that begin before `offset`. */
  function TakeBelow(bs: seq<Frame>, offset: int): seq<Frame> {
    if |bs| == 0 then []
    else if BaseOf(bs[|bs| - 1]) < offset then bs
    else TakeBelow(bs[..|bs| - 1], offset)
  }

  /** The batches that do not begin before `offset`. */
  function SkipBelow(bs: seq<Frame>, offset: int): seq<Frame> {
    if |bs| == 0 || BaseOf(bs[0]) >= offset then bs else SkipBelow(bs[1..], offset)
  }

  function FlatStep(f: FlatLog, op: Op): FlatLog {
    match op
    case Append(b) => FlatLog(f.first, f.batches + [Stamp(b, WrapInt64(f.first + Count(f.batches)))])
    case TruncateTo(offset) => FlatLog(f.first, TakeBelow(f.batches, offset))
    case DropBelow(offset) => FlatLog(offset, SkipBelow(f.batches, offset))
  }

  function FlatRun(f: FlatLog, ops: seq<Op>): FlatLog {
    if |ops| == 0 then f else FlatStep(FlatRun(f, ops[..|ops| - 1]), ops[|ops| - 1])
  }

  // --- The segmented log ----------------------------------------------------------------------

  datatype State = State(log: Log, next: int)

  /** What the callers of storage promise: well-formed batches, batch boundaries, segment bases. */
  ghost predicate Allowed(c: Config, s: State, op: Op) {
    match op
    case Append(b) => WellFormed(c.crc, b) && s.next + CountOf(b) < TWO_63
    case TruncateTo(offset) => IsBoundary(s.log, offset)
    case DropBelow(offset) => exists k: nat | k < |s.log| :: s.log[k].base == offset
  }

  function Step(c: Config, s: State, op: Op): (r: State)
    requires |s.log| > 0
    ensures |r.log| > 0
  {
    match op
    case Append(b) => State(Appended(c, s.log, WrapInt64(s.next), b), s.next + CountOf(b))
    case TruncateTo(offset) => State(Truncated(s.log, offset), offset)
    case DropBelow(offset) => State(s.log[SegmentOf(s.log, offset)..], s.next)
  }

  function Run(c: Config, s: State, ops: seq<Op>): (r: State)
    requires |s.log| > 0
    ensures |r.log| > 0
  {
    if |ops| == 0 then s else Step(c, Run(c, s, ops[..|ops| - 1]), ops[|ops| - 1])
  }

  ghost predicate AllowedRun(c: Config, s: State, ops: seq<Op>)
    requires |s.log| > 0
  {
    forall i | 0 <= i < |ops| :: Allowed(c, Run(c, s, ops[..i]), ops[i])
  }

  // --- Refinement -----------------------------------------------------------------------------

  lemma {:induction false} TakeBelowBoundary(crc: Checksum, base: int, bs: seq<Frame>, k: nat)
    requires AllWellFormed(crc, bs) && Consecutive(base, bs) && k <= |bs|
    ensures TakeBelow(bs, base + Count(bs[..k])) == bs[..k]
    decreases |bs|
  {
    hide WellFormed, Count, BaseOf;
    var n := |bs| - 1;
    if k == |bs| {
      assert bs[..k] == bs;
      if k > 0 {
        CountStrict(crc, bs, n, k);
      }
    } else {
      ConsecutiveTake(base, bs, n);
      TakeMonotone(bs, k, n);
      assert bs[..n][..k] == bs[..k];
      TakeBelowBoundary(crc, base, bs[..n], k);
    }
  }

  lemma {:induction false} SkipBelowBoundary(crc: Checksum, base: int, bs: seq<Frame>, k: nat, j: nat)
    requires AllWellFormed(crc, bs) && Consecutive(base, bs) && j <= k <= |bs|
    ensures SkipBelow(bs[j..], base + Count(bs[..k])) == bs[k..]
    decreases k - j
  {
    hide WellFormed, Count, BaseOf;
    if j < k {
      CountStrict(crc, bs, j, k);
      assert bs[j..][0] == bs[j] && bs[j..][1..] == bs[j + 1..];
      SkipBelowBoundary(crc, base, bs, k, j + 1);
    }
  }

  lemma StepRefines(c: Config, s: State, op: Op)
    requires ValidConfig(c) && ValidLog(c, s.log, s.next) && Roomy(c, s.log) && Allowed(c, s, op)
    ensures ValidLog(c, Step(c, s, op).log, Step(c, s, op).next) && Roomy(c, Step(c, s, op).log)
    ensures Abstract(Step(c, s, op).log) == FlatStep(Abstract(s.log), op)
  {
    hide ValidLog, All, Count, WellFormed, TakeBelow, SkipBelow, Truncated, Appended, Before, SegmentOf;
    var log := s.log;
    LogIsConsecutive(c, log, s.next);
    match op
    case Append(b) =>
      NextInRange(c, log, s.next);
      WrapIdentity(s.next);
      RoomyIsAppendable(c, log, s.next);
      AppendRefines(c, log, s.next, b);
    case TruncateTo(offset) =>
      var k: nat :| IsBoundaryAt(log, offset, k);
      TruncateKeepsPrefix(c, log, s.next, k);
      TruncateMakesRoom(c, log, s.next, k);
      TakeBelowBoundary(c.crc, log[0].base, All(log), k);
    case DropBelow(offset) =>
      var k: nat :| k < |log| && log[k].base == offset;
      LookupOfBase(c, log, s.next, k);
      DropRefines(c, log, s.next, k);
  }

  lemma DropRefines(c: Config, log: Log, next: int, k: nat)
    requires ValidConfig(c) && ValidLog(c, log, next) && k < |log|
    ensures ValidLog(c, log[k..], next) && All(log[k..]) == SkipBelow(All(log), log[k].base)
  {
    hide ValidLog, All, Count, AllWellFormed, Consecutive, SkipBelow, Before;
    var bs, n := All(log), Before(log, k);
    LogIsConsecutive(c, log, next);
    RetainRefines(c, log, next, k);
    SkipWhole(c.crc, log[0].base, bs, n);
  }

  lemma SkipWhole(crc: Checksum, base: int, bs: seq<Frame>, k: nat)
    requires AllWellFormed(crc, bs) && Consecutive(base, bs) && k <= |bs|
    ensures SkipBelow(bs, base + Count(bs[..k])) == bs[k..]
  {
    hide AllWellFormed, Consecutive, SkipBelow, Count;
    SkipBelowBoundary(crc, base, bs, k, 0);
    assert bs[0..] == bs;
  }

  lemma LookupOfBase(c: Config, log: Log, next: int, k: nat)
    requires ValidConfig(c) && ValidLog(c, log, next) && k < |log|
    ensures SegmentOf(log, log[k].base) == k
  {
    hide ValidLog;
    forall j | k < j < |log| ensures log[k].base < log[j].base {
      BasesIncrease(c, log, next, k, j);
    }
    SegmentOfIsUnique(log, log[k].base, k);
  }

  /** Along every allowed run the segments stay a valid log and stand for the flat list of the specification. */
  lemma {:induction false} RunRefinesFlatLog(c: Config, s: State, ops: seq<Op>)
    requires ValidConfig(c) && ValidLog(c, s.log, s.next) && Roomy(c, s.log) && AllowedRun(c, s, ops)
    ensures ValidLog(c, Run(c, s, ops).log, Run(c, s, ops).next) && Roomy(c, Run(c, s, ops).log)
    ensures Abstract(Run(c, s, ops).log) == FlatRun(Abstract(s.log), ops)
    decreases |ops|
  {
    if |ops| > 0 {
      AllowedPrefix(c, s, ops);
      RunRefinesFlatLog(c, s, ops[..|ops| - 1]);
      hide Step, FlatStep, ValidLog, Allowed, Abstract;
      StepRefines(c, Run(c, s, ops[..|ops| - 1]), ops[|ops| - 1]);
    }
  }

  lemma AllowedPrefix(c: Config, s: State, ops: seq<Op>)
    requires |s.log| > 0 && |ops| > 0 && AllowedRun(c, s, ops)
    ensures AllowedRun(c, s, ops[..|ops| - 1])
    ensures Allowed(c, Run(c, s, ops[..|ops| - 1]), ops[|ops| - 1])
  {
    hide Allowed, Run;
    var init := ops[..|ops| - 1];
    forall i | 0 <= i < |init| ensures Allowed(c, Run(c, s, init[..i]), init[i]) {
      assert init[..i] == ops[..i];
      assert Allowed(c, Run(c, s, ops[..i]), ops[i]);
    }
  }
}
