/** The consumer's decoder, and what a consumer gets of what producers sent. */
module EndToEnd {
  import opened Bytes
  import opened Varint
  import opened Batch
  import opened Framing
  import opened LogModel
  import opened LogReads
  import opened PartitionModel
  import Scans
  import CrashSafety

  /** A record as the consumer sees it; of two headers with one key the later one stays. */
  datatype DecodedRecord = DecodedRecord(
    offset: int64, timestampMs: int64, key: Option<Bytes>, value: Bytes, headers: map<Bytes, Bytes>)

  datatype DecodeResult = DecodeResult(records: seq<DecodedRecord>, error: Option<DecodeError>)

  function HeaderMap(hs: seq<Header>): map<Bytes, Bytes> {
    if |hs| == 0 then map[] else HeaderMap(hs[..|hs| - 1])[hs[|hs| - 1].key := hs[|hs| - 1].value]
  }

  function View(base: int64, rs: seq<Record>, i: nat): DecodedRecord
    requires i < |rs|
  {
    DecodedRecord(WrapInt64(base + i), rs[i].timestampMs, rs[i].key, rs[i].value, HeaderMap(rs[i].headers))
  }

  /** The records of a batch, each at the batch's base offset plus its index. */
  function Views(base: int64, rs: seq<Record>): (r: seq<DecodedRecord>)
    ensures |r| == |rs|
  {
    seq(|rs|, i requires 0 <= i < |rs| => View(base, rs, i))
  }

  /** Batch after batch; on the first bad one, the records before it and the error. */
  function Decoding(crc: Checksum, data: Bytes): (r: DecodeResult) {
    if |data| == 0 then DecodeResult([], None)
    else
      match Parsed(crc, data)
      case Fail(e) => DecodeResult([], Some(e))
      case Ok(batch, next) =>
        var rest := Decoding(crc, data[next..]);
        DecodeResult(Views(batch.header.baseOffset, batch.records) + rest.records, rest.error)
  }

  /** The batch at `pos`. */
  method DecodeNext(crc: Checksum, data: Bytes, pos: nat) returns (r: Decoded<Batch>)
    requires pos <= |data|
    ensures r == Parsed(crc, data[pos..])
  {
    r := DecodeBatch(crc, data[pos..]);
  }

  method Decode(crc: Checksum, data: Bytes) returns (r: DecodeResult)
    ensures r == Decoding(crc, data)
  {
    hide Parsed, Views, Decoding;
    var out: seq<DecodedRecord> := [];
    assert data[0..] == data;
    var pos := 0;
    while pos < |data|
      invariant 0 <= pos <= |data|
      invariant var rest := Decoding(crc, data[pos..]);
        Decoding(crc, data) == DecodeResult(out + rest.records, rest.error)
    {
      DecodingStep(crc, data[pos..]);
      var d := DecodeNext(crc, data, pos);
      if d.Fail? {
        return DecodeResult(out, Some(d.error));
      }
      var more := DecodeRecords(d.value.header.baseOffset, d.value.records);
      assert data[pos..][d.next..] == data[pos + d.next..];
      out := out + more;
      pos := pos + d.next;
    }
    NothingToDecode(crc, data[pos..]);
    return DecodeResult(out, None);
  }

  lemma NothingToDecode(crc: Checksum, data: Bytes)
    requires |data| == 0
    ensures Decoding(crc, data) == DecodeResult([], None)
  {
  }

  lemma DecodingStep(crc: Checksum, data: Bytes)
    requires |data| > 0
    ensures Decoding(crc, data)
         == var p := Parsed(crc, data);
            if p.Fail? then DecodeResult([], Some(p.error))
            else DecodeResult(Views(p.value.header.baseOffset, p.value.records) + Decoding(crc, data[p.next..]).records,
                              Decoding(crc, data[p.next..]).error)
  {
  }

  method DecodeRecords(base: int64, rs: seq<Record>) returns (out: seq<DecodedRecord>)
    ensures out == Views(base, rs)
  {
    out := [];
    for i := 0 to |rs|
      invariant |out| == i && forall j | 0 <= j < i :: out[j] == View(base, rs, j)
    {
      var headers := MapHeaders(rs[i].headers);
      out := out + [DecodedRecord(WrapInt64(base + i), rs[i].timestampMs, rs[i].key, rs[i].value, headers)];
    }
  }

  method MapHeaders(hs: seq<Header>) returns (m: map<Bytes, Bytes>)
    ensures m == HeaderMap(hs)
  {
    m := map[];
    for i := 0 to |hs|
      invariant m == HeaderMap(hs[..i])
    {
      assert hs[..i + 1][..i] == hs[..i];
      m := m[hs[i].key := hs[i].value];
    }
    assert hs[..|hs|] == hs;
  }

  // --- From producer to consumer -----------------------------------------------------------------

  function Total(rss: seq<seq<Record>>): nat {
    if |rss| == 0 then 0 else Total(rss[..|rss| - 1]) + |rss[|rss| - 1]|
  }

  /** What producers send: non-empty lists of records whose batches stay below 2 GiB, fewer than 2^63 records in all. */
  predicate Sendable(rss: seq<seq<Record>>) {
    && (forall i | 0 <= i < |rss| :: |rss[i]| > 0 && HEADER + |RecordsBytes(rss[i])| < TWO_31)
    && Total(rss) < TWO_63
  }

  /** The batches that a command sequence appends. */
  function Batches(cmds: seq<Command>): seq<Frame> {
    if |cmds| == 0 then []
    else
      var before := Batches(cmds[..|cmds| - 1]);
      match cmds[|cmds| - 1]
      case AppendBatch(b) => before + [b]
      case RetentionConfig(_, _) => before
  }

  /** The commands append the batches of these sends, in order; in between they may set retention policies. */
  predicate Carries(crc: Checksum, cmds: seq<Command>, rss: seq<seq<Record>>)
    requires Sendable(rss)
  {
    |Batches(cmds)| == |rss| && forall i | 0 <= i < |rss| :: Batches(cmds)[i] == Encoded(crc, rss[i])
  }

  /** The records of the sends from `i` up to `j` at their offsets. */
  function Delivered(rss: seq<seq<Record>>, i: nat, j: nat): seq<DecodedRecord>
    requires i <= j <= |rss|
    decreases j - i
  {
    if i == j then [] else Views(WrapInt64(Total(rss[..i])), rss[i]) + Delivered(rss, i + 1, j)
  }

  /** The stored batch of send `i`. */
  function Stored(crc: Checksum, rss: seq<seq<Record>>, i: nat): Frame
    requires Sendable(rss) && i < |rss|
  {
    Stamp(Encoded(crc, rss[i]), WrapInt64(Total(rss[..i])))
  }

  lemma {:induction false} TotalMonotone(rss: seq<seq<Record>>, i: nat, j: nat)
    requires i <= j <= |rss|
    ensures Total(rss[..i]) <= Total(rss[..j])
    decreases j
  {
    if i < j {
      TotalMonotone(rss, i, j - 1);
      assert rss[..j][..j - 1] == rss[..j - 1];
    }
  }

  lemma BatchesStep(cmds: seq<Command>, k: nat)
    requires k < |cmds|
    ensures Batches(cmds[..k + 1]) == Batches(cmds[..k]) + (if cmds[k].AppendBatch? then [cmds[k].batch] else [])
  {
    assert cmds[..k + 1][..k] == cmds[..k];
  }

  lemma {:induction false} BatchesGrow(cmds: seq<Command>, i: nat, j: nat)
    requires i <= j <= |cmds|
    ensures Batches(cmds[..i]) <= Batches(cmds[..j])
    decreases j
  {
    hide Batches;
    if i < j {
      BatchesGrow(cmds, i, j - 1);
      BatchesStep(cmds, j - 1);
    }
  }

  /** The first batches of the sends, as they are stored. */
  predicate StoredPrefix(crc: Checksum, rss: seq<seq<Record>>, bs: seq<Frame>)
    requires Sendable(rss)
  {
    |bs| <= |rss| && forall i | 0 <= i < |bs| :: bs[i] == Stored(crc, rss, i)
  }

  /** As many offsets are taken as records were sent. */
  lemma {:induction false} StoredCount(crc: Checksum, rss: seq<seq<Record>>, bs: seq<Frame>)
    requires Sendable(rss) && StoredPrefix(crc, rss, bs)
    ensures Count(bs) == Total(rss[..|bs|])
  {
    hide Sendable, Stamp, Encoded, CountOf, Total, RecordsBytes;
    if |bs| == 0 {
      NothingStored(rss);
    } else {
      var m := |bs| - 1;
      StoredCount(crc, rss, bs[..m]);
      TotalStep(rss, m);
      SendFacts(rss, m);
      EncodedWellFormed(crc, rss[m]);
      StampKeepsCount(Encoded(crc, rss[m]), WrapInt64(Total(rss[..m])));
    }
  }

  lemma NothingStored(rss: seq<seq<Record>>)
    ensures Count([]) == 0 == Total(rss[..0])
  {
  }

  lemma SendFacts(rss: seq<seq<Record>>, i: nat)
    requires Sendable(rss) && i < |rss|
    ensures |rss[i]| > 0 && HEADER + |RecordsBytes(rss[i])| < TWO_31
  {
  }

  /** The batches that the log is expected to hold are those of the sends, in order. */
  lemma {:induction false} ExpectedIsStored(crc: Checksum, cmds: seq<Command>, rss: seq<seq<Record>>, k: nat)
    requires Sendable(rss) && Carries(crc, cmds, rss) && k <= |cmds|
    ensures |Expected(cmds[..k])| == |Batches(cmds[..k])| <= |rss|
    ensures StoredPrefix(crc, rss, Expected(cmds[..k]))
  {
    hide Expected, Batches, Total, Count, RecordsBytes, Sendable, Stamp, Encoded;
    if k == 0 {
      NothingExpected(cmds);
    } else {
      ExpectedIsStored(crc, cmds, rss, k - 1);
      StoredCount(crc, rss, Expected(cmds[..k - 1]));
      ExpectedStep(cmds, k - 1);
      BatchesStep(cmds, k - 1);
      BatchesGrow(cmds, k, |cmds|);
      assert cmds[..|cmds|] == cmds;
    }
  }

  lemma NothingExpected(cmds: seq<Command>)
    ensures Expected(cmds[..0]) == [] && Batches(cmds[..0]) == []
  {
  }

  lemma TotalStep(rss: seq<seq<Record>>, k: nat)
    requires k < |rss|
    ensures Total(rss[..k + 1]) == Total(rss[..k]) + |rss[k]|
  {
    assert rss[..k + 1][..k] == rss[..k];
  }

  lemma StampKeepsCount(b: Frame, offset: int64)
    ensures |Stamp(b, offset)| >= HEADER && CountOf(Stamp(b, offset)) == CountOf(b)
  {
    StampFields(b, offset);
  }

  lemma CommandsAreGood(c: Config, cmds: seq<Command>, rss: seq<seq<Record>>)
    requires Sendable(rss) && Carries(c.crc, cmds, rss)
    ensures GoodCommands(c, cmds)
  {
    hide Encoded, Expected, WellFormed, Batches, Total, Count, RecordsBytes, Stored;
    ExpectedIsStored(c.crc, cmds, rss, |cmds|);
    assert cmds[..|cmds|] == cmds;
    StoredCount(c.crc, rss, Expected(cmds));
    assert rss[..|rss|] == rss;
    forall i | 0 <= i < |cmds| && cmds[i].AppendBatch?
      ensures WellFormed(c.crc, cmds[i].batch)
    {
      BatchesStep(cmds, i);
      BatchesGrow(cmds, i + 1, |cmds|);
      var m := |Batches(cmds[..i])|;
      assert cmds[i].batch == Batches(cmds)[m];
      EncodedWellFormed(c.crc, rss[m]);
    }
  }

  lemma NothingFlat(bs: seq<Frame>, tail: Bytes)
    requires |bs| == 0
    ensures Flat(bs) + tail == tail
  {
  }

  lemma FlatHead(bs: seq<Frame>)
    requires |bs| > 0
    ensures Flat(bs) == bs[0] + Flat(bs[1..])
  {
    hide Flat, Count;
    Scans.FlatOne(bs, 0);
    assert bs == bs[0..1] + bs[1..];
    FlatConcat(bs[0..1], bs[1..]);
  }

  /** Whole stored batches decode to the records that were sent; what follows them decodes as it would alone. */
  lemma {:induction false} DecodingThen(crc: Checksum, rss: seq<seq<Record>>, bs: seq<Frame>,
      i: nat, j: nat, tail: Bytes)
    requires Sendable(rss) && i <= j <= |rss| && |bs| == j - i
    requires forall k | 0 <= k < |bs| :: bs[k] == Stored(crc, rss, i + k)
    ensures Decoding(crc, Flat(bs) + tail)
         == DecodeResult(Delivered(rss, i, j) + Decoding(crc, tail).records, Decoding(crc, tail).error)
    decreases j - i
  {
    hide Decoding, Views, RecordsBytes, Total, Encoded, Stamp, Flat, Sendable;
    if i == j {
      NothingFlat(bs, tail);
    } else {
      var rest := bs[1..];
      FlatHead(bs);
      SendFacts(rss, i);
      Associative(bs[0], Flat(rest), tail);
      DecodeOne(crc, rss[i], WrapInt64(Total(rss[..i])), Flat(rest) + tail);
      DecodingThen(crc, rss, rest, i + 1, j, tail);
    }
  }

  /** Decoding whole stored batches gives the records that were sent, at their offsets, without error. */
  lemma DecodingStored(crc: Checksum, rss: seq<seq<Record>>, bs: seq<Frame>, i: nat, j: nat)
    requires Sendable(rss) && i <= j <= |rss| && |bs| == j - i
    requires forall k | 0 <= k < |bs| :: bs[k] == Stored(crc, rss, i + k)
    ensures Decoding(crc, Flat(bs)) == DecodeResult(Delivered(rss, i, j), None)
  {
    hide Parsed, Views, RecordsBytes, Total, Stored, Flat, Delivered;
    DecodingThen(crc, rss, bs, i, j, []);
    assert Flat(bs) + [] == Flat(bs);
  }

  /** A batch with a wrong checksum ends the decoding with that error and exactly the records before it. */
  lemma CorruptionIsReported(crc: Checksum, rss: seq<seq<Record>>, bs: seq<Frame>, i: nat, j: nat, bad: Bytes)
    requires Sendable(rss) && i <= j <= |rss| && |bs| == j - i
    requires forall k | 0 <= k < |bs| :: bs[k] == Stored(crc, rss, i + k)
    requires HasFrame(bad) && !ChecksumHolds(crc, bad)
    ensures Decoding(crc, Flat(bs) + bad) == DecodeResult(Delivered(rss, i, j), Some(CrcMismatch))
  {
    hide ParseRecords, Views, RecordsBytes, Total, Stored, Flat, Delivered;
    DecodingThen(crc, rss, bs, i, j, bad);
  }

  /** The data are batches one after the other, each with the checksum in its header. */
  predicate AllChecked(crc: Checksum, data: Bytes) {
    |data| == 0 || (HasFrame(data) && ChecksumHolds(crc, data) && AllChecked(crc, data[LengthOf(data)..]))
  }

  /** Nothing is decoded without error unless every checksum holds. */
  lemma {:induction false} NoErrorMeansChecked(crc: Checksum, data: Bytes)
    requires Decoding(crc, data).error.None?
    ensures AllChecked(crc, data)
    decreases |data|
  {
    hide ParseRecords, Views;
    if |data| > 0 {
      NoErrorMeansChecked(crc, data[LengthOf(data)..]);
    }
  }

  /** So does a batch that is cut short, with the error for that. */
  lemma TornBatchIsReported(crc: Checksum, rss: seq<seq<Record>>, bs: seq<Frame>, i: nat, j: nat, bad: Bytes)
    requires Sendable(rss) && i <= j <= |rss| && |bs| == j - i
    requires forall k | 0 <= k < |bs| :: bs[k] == Stored(crc, rss, i + k)
    requires |bad| > 0 && !HasFrame(bad)
    ensures Decoding(crc, Flat(bs) + bad)
         == DecodeResult(Delivered(rss, i, j), Some(if |bad| < HEADER then TooShort else Truncated))
  {
    hide ParseRecords, Views, RecordsBytes, Total, Stored, Flat, Delivered;
    DecodingThen(crc, rss, bs, i, j, bad);
  }

  lemma DecodeOne(crc: Checksum, rs: seq<Record>, offset: int64, rest: Bytes)
    requires |rs| > 0 && HEADER + |RecordsBytes(rs)| < TWO_31
    ensures Decoding(crc, Stamp(Encoded(crc, rs), offset) + rest)
         == DecodeResult(Views(offset, rs) + Decoding(crc, rest).records, Decoding(crc, rest).error)
  {
    hide Encoded, Stamp, Parsed, Views, RecordsBytes;
    BatchRoundTrip(crc, rs, offset, rest);
    StampFields(Encoded(crc, rs), offset);
    assert (Stamp(Encoded(crc, rs), offset) + rest)[|Encoded(crc, rs)|..] == rest;
  }

  /**
   Whatever crashes a node went through, a read at any offset that it holds decodes, without error, to
   the records that were sent: whole sends in order, the first of them the one that holds the offset,
   every record at the offset it was given when it was sent.
   */
  lemma RecordsArriveAsSent(c: Config, cmds: seq<Command>, rss: seq<seq<Record>>, n: Node,
      offset: int, maxBytes: int)
    returns (i: nat, j: nat)
    requires Sendable(rss) && Carries(c.crc, cmds, rss) && Inv(c, cmds, n) && n.log[0].base <= offset < n.next
    ensures n.applied <= |cmds| && i < j <= |Batches(cmds[..n.applied])| <= |rss|
    ensures Total(rss[..i]) <= offset < Total(rss[..i + 1])
    ensures ReadLog(n.log, n.next, offset, maxBytes).Records?
    ensures Decoding(c.crc, ReadLog(n.log, n.next, offset, maxBytes).records)
         == DecodeResult(Delivered(rss, i, j), None)
    ensures ReadLog(n.log, n.next, offset, maxBytes).next == Total(rss[..j])
  {
    hide ValidLog, All, Expected, Count, Decoding, Delivered, Total, ReadLog, BaseOf, EndOf, Stored, Flat;
    hide Sendable, Batches, Carries, Consecutive, AllWellFormed, Inv, StoredPrefix;
    var d := HeldFrom(c, cmds, n);
    var all := Expected(cmds[..n.applied]);
    var x, y := ReadMeaning(c, n.log, n.next, offset, maxBytes);
    i, j := d + x, d + y;
    ExpectedIsStored(c.crc, cmds, rss, n.applied);
    HeldSlice(n.log, all, d, x, y);
    PrefixSlice(c.crc, rss, all, i, j);
    DecodingStored(c.crc, rss, all[i..j], i, j);
    PrefixCounts(c.crc, rss, n.log, all, d, x);
    PrefixCounts(c.crc, rss, n.log, all, d, x + 1);
    PrefixCounts(c.crc, rss, n.log, all, d, y);
    LogIsConsecutive(c, n.log, n.next);
    EndOfBatch(n.log[0].base, All(n.log), x);
  }

  lemma HeldFrom(c: Config, cmds: seq<Command>, n: Node) returns (d: nat)
    requires Inv(c, cmds, n)
    ensures n.applied <= |cmds| && ValidLog(c, n.log, n.next) && HoldsFrom(n.log, Expected(cmds[..n.applied]), d)
  {
    hide ValidLog, Expected, All, SidecarSound, Roomy, HoldsFrom;
    d :| HoldsFrom(n.log, Expected(cmds[..n.applied]), d);
  }

  lemma HeldSlice(log: Log, all: seq<Frame>, d: nat, x: nat, y: nat)
    requires HoldsFrom(log, all, d) && x <= y <= |All(log)|
    ensures d + y <= |all| && All(log)[x..y] == all[d + x..d + y]
  {
    hide All, Count;
    assert all[d..][x..y] == all[d + x..d + y];
  }

  lemma PrefixSlice(crc: Checksum, rss: seq<seq<Record>>, all: seq<Frame>, i: nat, j: nat)
    requires Sendable(rss) && StoredPrefix(crc, rss, all) && i <= j <= |all|
    ensures j <= |rss| && forall k | 0 <= k < j - i :: all[i..j][k] == Stored(crc, rss, i + k)
  {
    hide Sendable, Stored;
  }

  lemma PrefixCounts(crc: Checksum, rss: seq<seq<Record>>, log: Log, all: seq<Frame>, d: nat, x: nat)
    requires Sendable(rss) && StoredPrefix(crc, rss, all)
    requires |log| > 0 && HoldsFrom(log, all, d) && x <= |All(log)|
    ensures d + x <= |all| && log[0].base + Count(All(log)[..x]) == Total(rss[..d + x])
  {
    hide Sendable, All, Count, Total, Stored;
    StoredCount(crc, rss, all[..d + x]);
    SplitAt(all[..d + x], d);
    assert all[..d + x][..d] == all[..d] && all[..d + x][d..] == All(log)[..x];
  }

  /** The records arrive at consecutive offsets, from the first send's base offset on. */
  lemma {:induction false} DeliveredAtOffsets(rss: seq<seq<Record>>, i: nat, j: nat, k: nat)
    requires Sendable(rss) && i <= j <= |rss|
    ensures |Delivered(rss, i, j)| == Total(rss[..j]) - Total(rss[..i])
    ensures k < |Delivered(rss, i, j)| ==> Delivered(rss, i, j)[k].offset == Total(rss[..i]) + k
    decreases j - i
  {
    hide Total, RecordsBytes;
    if i < j {
      TotalStep(rss, i);
      TotalMonotone(rss, i + 1, |rss|);
      assert rss[..|rss|] == rss;
      var n := |rss[i]|;
      DeliveredAtOffsets(rss, i + 1, j, if k < n then 0 else k - n);
      if k < n {
        WrapIdentity(Total(rss[..i]));
        WrapIdentity(Total(rss[..i]) + k);
      }
    }
  }

  /** The sent records, send after send. */
  function Sent(rss: seq<seq<Record>>, i: nat, j: nat): seq<Record>
    requires i <= j <= |rss|
    decreases j - i
  {
    if i == j then [] else rss[i] + Sent(rss, i + 1, j)
  }

  /** Every record arrives once, in the order sent, with its timestamp, key and value. */
  lemma {:induction false} DeliveredAsSent(rss: seq<seq<Record>>, i: nat, j: nat, k: nat)
    requires i <= j <= |rss|
    ensures |Delivered(rss, i, j)| == |Sent(rss, i, j)|
    ensures k < |Sent(rss, i, j)| ==>
      var d, r := Delivered(rss, i, j)[k], Sent(rss, i, j)[k];
      d.timestampMs == r.timestampMs && d.key == r.key && d.value == r.value && d.headers == HeaderMap(r.headers)
    decreases j - i
  {
    hide Total, HeaderMap;
    if i < j {
      DeliveredAsSent(rss, i + 1, j, if k < |rss[i]| then 0 else k - |rss[i]|);
    }
  }

  /** A header key is present if and only if it was sent, with the value that was sent last. */
  lemma {:induction false} LastHeaderStays(hs: seq<Header>, key: Bytes)
    ensures key in HeaderMap(hs) <==> exists i :: 0 <= i < |hs| && hs[i].key == key
    ensures forall i | 0 <= i < |hs| && hs[i].key == key && (forall j | i < j < |hs| :: hs[j].key != key) ::
      HeaderMap(hs)[key] == hs[i].value
  {
    if |hs| > 0 {
      var init := hs[..|hs| - 1];
      LastHeaderStays(init, key);
      assert forall i | 0 <= i < |init| :: init[i] == hs[i];
    }
  }

  /** The same in every run of a partition that starts empty, with appends, syncs, retention and crashes. */
  lemma RunsDeliver(c: Config, cmds: seq<Command>, rss: seq<seq<Record>>, states: seq<Node>, es: seq<Event>,
      m: nat, offset: int, maxBytes: int)
    returns (i: nat, j: nat)
    requires ValidConfig(c) && Sendable(rss) && Carries(c.crc, cmds, rss)
    requires CrashSafety.IsRun(c, cmds, states, es) && m < |states|
    requires states[0] == Node([Fresh(0)], 0, None, 0)
    requires |states[m].log| > 0 && states[m].log[0].base <= offset < states[m].next
    ensures i < j <= |rss| && Total(rss[..i]) <= offset < Total(rss[..i + 1])
    ensures var r := ReadLog(states[m].log, states[m].next, offset, maxBytes);
            && r.Records? && Decoding(c.crc, r.records) == DecodeResult(Delivered(rss, i, j), None)
            && r.next == Total(rss[..j])
  {
    hide CrashSafety.IsRun, Inv, Carries, Sendable, GoodCommands, Decoding, Delivered, Total, ReadLog;
    CommandsAreGood(c, cmds, rss);
    InitialInv(c, cmds);
    CrashSafety.RunKeepsInv(c, cmds, states, es, m);
    i, j := RecordsArriveAsSent(c, cmds, rss, states[m], offset, maxBytes);
  }
}
