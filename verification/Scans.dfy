/**
 The two walks over a log file that decide what a reader or a restarted node sees:
 the checksum scan of the active log, and the callback scan behind Read.
 */
module Scans {
  import opened Bytes
  import opened Batch
  import opened Framing

  // --- The recovery scan -----------------------------------------------------------------

  datatype ScanResult = ScanResult(validPos: nat, nextOffset: int, crcErrors: nat)

  /** A whole batch with a matching checksum starts at the front of `log`. */
  predicate StartsValid(crc: Checksum, log: Bytes) {
    && |log| >= HEADER
    && HEADER <= LengthOf(log) <= |log|
    && crc(log[HEADER..LengthOf(log)]) == CrcOf(log)
  }

  /** The front of `log` is cut short rather than corrupt. */
  predicate CutShort(log: Bytes) {
    |log| < HEADER || LengthOf(log) < HEADER || LengthOf(log) > |log|
  }

  /** The scan from `pos` on, with `curr` the offset after the last batch accepted. */
  function ScanFrom(crc: Checksum, log: Bytes, pos: nat, curr: int): (r: ScanResult)
    requires pos <= |log|
    ensures pos <= r.validPos <= |log|
    decreases |log| - pos
  {
    var rest := log[pos..];
    if CutShort(rest) then ScanResult(pos, curr, 0)
    else if !StartsValid(crc, rest) then ScanResult(pos, curr, 1)
    else ScanFrom(crc, log, pos + LengthOf(rest), BaseOf(rest) + CountOf(rest))
  }

  method ScanActiveLog(crc: Checksum, log: Bytes, baseOffset: int) returns (r: ScanResult)
    ensures r == ScanFrom(crc, log, 0, baseOffset)
  {
    hide LengthOf, BaseOf, CountOf, CrcOf;
    var pos, curr, crcErrors := 0, baseOffset, 0;
    while pos < |log|
      invariant pos <= |log|
      invariant crcErrors == 0
      invariant ScanFrom(crc, log, 0, baseOffset) == ScanFrom(crc, log, pos, curr)
    {
      if pos + HEADER > |log| {
        break;
      }
      var hdr := log[pos..pos + HEADER];
      HeaderOfRest(log, pos);
      var length := LengthOf(hdr);
      if length < HEADER || pos + length > |log| {
        break;
      }
      var records := log[pos + HEADER..pos + length];
      assert records == log[pos..][HEADER..length];
      if crc(records) != CrcOf(hdr) {
        crcErrors := crcErrors + 1;
        break;
      }
      curr := BaseOf(hdr) + CountOf(hdr);
      pos := pos + length;
    }
    r := ScanResult(pos, curr, crcErrors);
  }

  lemma HeaderOfRest(log: Bytes, pos: nat)
    requires pos + HEADER <= |log|
    ensures LengthOf(log[pos..pos + HEADER]) == LengthOf(log[pos..])
    ensures BaseOf(log[pos..pos + HEADER]) == BaseOf(log[pos..])
    ensures CountOf(log[pos..pos + HEADER]) == CountOf(log[pos..])
    ensures CrcOf(log[pos..pos + HEADER]) == CrcOf(log[pos..])
  {
    var r := log[pos..];
    assert r[..HEADER] == log[pos..pos + HEADER];
    FieldsInSlice(r, 0, r, HEADER);
  }

  lemma BatchStartsValid(crc: Checksum, b: Frame, tail: Bytes)
    requires WellFormed(crc, b)
    ensures StartsValid(crc, b + tail) && !CutShort(b + tail)
    ensures LengthOf(b + tail) == |b| && BaseOf(b + tail) + CountOf(b + tail) == EndOf(b)
  {
    FieldsThroughTail(b, tail);
  }

  /**
   Whole batches followed by bytes that do not start with a checksum-valid batch: the scan
   stops exactly at the end of the last batch and returns the offset after it.
   */
  lemma {:induction false} ScanStopsAtEnd(crc: Checksum, base: int, bs: seq<Frame>, tail: Bytes, k: nat)
    requires AllWellFormed(crc, bs) && Consecutive(base, bs) && k <= |bs|
    requires !StartsValid(crc, tail)
    ensures |Flat(bs[..k])| <= |Flat(bs) + tail|
    ensures ScanFrom(crc, Flat(bs) + tail, |Flat(bs[..k])|, base + Count(bs[..k]))
         == ScanResult(|Flat(bs)|, base + Count(bs), if CutShort(tail) then 0 else 1)
    decreases |bs| - k
  {
    hide CutShort, StartsValid, LengthOf, BaseOf, CountOf, EndOf, WellFormed, Consecutive, Flat, Count;
    SplitAt(bs, k);
    var log := Flat(bs) + tail;
    var pos := |Flat(bs[..k])|;
    assert log[pos..] == Flat(bs[k..]) + tail;
    if k == |bs| {
      assert bs[..k] == bs;
      assert log[pos..] == tail;
    } else {
      NextBatch(crc, bs, tail, k);
      EndOfBatch(base, bs, k);
      ScanStopsAtEnd(crc, base, bs, tail, k + 1);
    }
  }

  /** Whatever follows a batch with a wrong checksum, recovery keeps nothing of it. */
  lemma CorruptionStopsScan(crc: Checksum, base: int, bs: seq<Frame>, bad: Bytes)
    requires AllWellFormed(crc, bs) && Consecutive(base, bs)
    requires |bad| >= HEADER && HEADER <= LengthOf(bad) <= |bad|
    requires crc(bad[HEADER..LengthOf(bad)]) != CrcOf(bad)
    ensures ScanFrom(crc, Flat(bs) + bad, 0, base) == ScanResult(|Flat(bs)|, base + Count(bs), 1)
  {
    hide LengthOf, Flat, Count, ScanFrom, Consecutive, WellFormed;
    ScanStopsAtEnd(crc, base, bs, bad, 0);
    EmptyList(bs);
  }

  /** The same for the beginning of a batch, which is not an error. */
  lemma TornTailStopsScan(crc: Checksum, base: int, bs: seq<Frame>, torn: Bytes)
    requires AllWellFormed(crc, bs) && Consecutive(base, bs)
    requires |torn| < HEADER || LengthOf(torn) < HEADER || LengthOf(torn) > |torn|
    ensures ScanFrom(crc, Flat(bs) + torn, 0, base) == ScanResult(|Flat(bs)|, base + Count(bs), 0)
  {
    hide LengthOf, Flat, Count, ScanFrom, Consecutive, WellFormed;
    ScanStopsAtEnd(crc, base, bs, torn, 0);
    EmptyList(bs);
  }

  /** At the start of batch `k` the scan accepts that batch and moves past it. */
  lemma NextBatch(crc: Checksum, bs: seq<Frame>, tail: Bytes, k: nat)
    requires k < |bs| && WellFormed(crc, bs[k])
    ensures var rest := Flat(bs[k..]) + tail;
      && StartsValid(crc, rest) && !CutShort(rest)
      && LengthOf(rest) == |bs[k]| && BaseOf(rest) + CountOf(rest) == EndOf(bs[k])
    ensures |Flat(bs[..k + 1])| == |Flat(bs[..k])| + |bs[k]|
  {
    hide CutShort, StartsValid, LengthOf, BaseOf, CountOf, EndOf, WellFormed;
    TakeStep(bs, k);
    FlatConcat([bs[k]], bs[k + 1..]);
    assert bs[k..] == [bs[k]] + bs[k + 1..];
    assert Flat([bs[k]]) == bs[k] by {
      FlatSnoc([], bs[k]);
      assert [] + [bs[k]] == [bs[k]];
    }
    assert Flat(bs[k..]) + tail == bs[k] + (Flat(bs[k + 1..]) + tail);
    BatchStartsValid(crc, bs[k], Flat(bs[k + 1..]) + tail);
  }

  // --- Torn writes -------------------------------------------------------------------------

  /** How many whole batches the first `n` bytes of a log hold. */
  function Whole(bs: seq<Frame>, n: nat): (k: nat)
    ensures k <= |bs|
  {
    if |bs| == 0 then 0
    else if |Flat(bs)| <= n then |bs|
    else Whole(bs[..|bs| - 1], n)
  }

  lemma {:induction false} WholeBounds(bs: seq<Frame>, n: nat)
    ensures |Flat(bs[..Whole(bs, n)])| <= n
    ensures Whole(bs, n) < |bs| ==> n < |Flat(bs[..Whole(bs, n) + 1])|
    decreases |bs|
  {
    if |bs| > 0 {
      if |Flat(bs)| <= n {
        assert bs[..|bs|] == bs;
      } else {
        var init := bs[..|bs| - 1];
        WholeBounds(init, n);
        var k := Whole(init, n);
        assert init[..k] == bs[..k];
        if k < |init| {
          assert init[..k + 1] == bs[..k + 1];
        } else {
          assert bs[..k + 1] == bs;
        }
      }
    }
  }

  /** The first `n` bytes of a log: whole batches, then the beginning of the next one. */
  lemma TornSplit(crc: Checksum, bs: seq<Frame>, n: nat)
    requires AllWellFormed(crc, bs) && n <= |Flat(bs)|
    ensures var k := Whole(bs, n);
      && |Flat(bs[..k])| <= n
      && Flat(bs)[..n] == Flat(bs[..k]) + Flat(bs)[|Flat(bs[..k])|..n]
      && CutShort(Flat(bs)[|Flat(bs[..k])|..n])
  {
    hide LengthOf, CutShort, Flat, Whole, WellFormed;
    var k := Whole(bs, n);
    var p := |Flat(bs[..k])|;
    WholeBounds(bs, n);
    SplitAt(bs, k);
    assert Flat(bs)[..n] == Flat(bs[..k]) + Flat(bs)[p..n];
    if k < |bs| {
      FrameInside(bs, [], k);
      assert Flat(bs) + [] == Flat(bs);
      StartOfSlice(Flat(bs), p, n, p + |bs[k]|);
      TornBatch(crc, bs[k], n - p);
    } else {
      assert bs[..k] == bs;
      NothingLeft(Flat(bs)[p..n]);
    }
  }

  lemma StartOfSlice(s: Bytes, p: nat, n: nat, q: nat)
    requires p <= n <= q <= |s|
    ensures s[p..n] == s[p..q][..n - p]
  {
  }

  lemma TornBatch(crc: Checksum, b: Frame, n: nat)
    requires WellFormed(crc, b) && n < |b|
    ensures CutShort(b[..n])
  {
    if n >= HEADER {
      FieldsInSlice(b, 0, b, n);
    }
  }

  lemma NothingLeft(t: Bytes)
    requires |t| == 0
    ensures CutShort(t)
  {
  }

  /** For every byte prefix of a well-formed log, the scan recovers exactly the whole batches in it. */
  lemma ScanRecoversWholeBatches(crc: Checksum, base: int, bs: seq<Frame>, n: nat)
    requires AllWellFormed(crc, bs) && Consecutive(base, bs) && n <= |Flat(bs)|
    ensures var kept := bs[..Whole(bs, n)];
      ScanFrom(crc, Flat(bs)[..n], 0, base) == ScanResult(|Flat(kept)|, base + Count(kept), 0)
  {
    hide LengthOf, Flat, Count, Whole, WellFormed, Consecutive, ScanFrom;
    TornSplit(crc, bs, n);
    var kept := bs[..Whole(bs, n)];
    ConsecutiveTake(base, bs, |kept|);
    var tail := Flat(bs)[|Flat(kept)|..n];
    ScanStopsAtEnd(crc, base, kept, tail, 0);
    EmptyList(kept);
  }

  lemma EmptyList(bs: seq<Frame>)
    ensures Flat(bs[..0]) == [] && Count(bs[..0]) == 0
  {
  }

  // --- The scan behind Read ----------------------------------------------------------------

  datatype ReadResult = ReadResult(records: Bytes, next: int)

  /**
   The read callback applied to a list of batches in order: batches that end at or before
   `offset` are passed over, the first one after that is always taken, and later ones only
   while the total stays within `maxBytes`.
   */
  function Visit(bs: seq<Frame>, offset: int, maxBytes: int, acc: ReadResult): (r: ReadResult)
    decreases |bs|
  {
    if |bs| == 0 then acc
    else if EndOf(bs[0]) <= offset then Visit(bs[1..], offset, maxBytes, acc)
    else if |acc.records| > 0 && |acc.records| + |bs[0]| > maxBytes then acc
    else Visit(bs[1..], offset, maxBytes, ReadResult(acc.records + bs[0], EndOf(bs[0])))
  }

  lemma VisitStep(bs: seq<Frame>, k: nat, offset: int, maxBytes: int, acc: ReadResult)
    requires k < |bs|
    ensures Visit(bs[k..], offset, maxBytes, acc)
         == if EndOf(bs[k]) <= offset then Visit(bs[k + 1..], offset, maxBytes, acc)
            else if |acc.records| > 0 && |acc.records| + |bs[k]| > maxBytes then acc
            else Visit(bs[k + 1..], offset, maxBytes, ReadResult(acc.records + bs[k], EndOf(bs[k])))
  {
    assert bs[k..][0] == bs[k] && bs[k..][1..] == bs[k + 1..];
  }

  lemma VisitEnd(bs: seq<Frame>, offset: int, maxBytes: int, acc: ReadResult)
    ensures Visit(bs[|bs|..], offset, maxBytes, acc) == acc
  {
  }

  /** A read by scanning the whole log from its first byte. */
  function FullScan(bs: seq<Frame>, offset: int, maxBytes: int): (r: ReadResult) {
    Visit(bs, offset, maxBytes, ReadResult([], offset))
  }

  /** Starting the scan at any batch that begins at or before `offset` changes nothing. */
  lemma {:induction false} SkipPreservesRead(base: int, bs: seq<Frame>, k: nat, offset: int, maxBytes: int)
    requires Consecutive(base, bs) && k <= |bs| && base + Count(bs[..k]) <= offset
    ensures Visit(bs[k..], offset, maxBytes, ReadResult([], offset)) == FullScan(bs, offset, maxBytes)
    decreases k
  {
    if k == 0 {
      assert bs[0..] == bs;
    } else {
      EndOfBatch(base, bs, k - 1);
      TakeStep(bs, k - 1);
      VisitStep(bs, k - 1, offset, maxBytes, ReadResult([], offset));
      SkipPreservesRead(base, bs, k - 1, offset, maxBytes);
    }
  }

  /**
   What a read returns, said without a scan: the batches from `i` up to `j`, where `i` is the
   first one that ends after `offset`, and as many as fit in `maxBytes` but at least one.
   */
  ghost predicate IsWindow(bs: seq<Frame>, offset: int, maxBytes: int, i: nat, j: nat) {
    && i <= j <= |bs|
    && (forall k | 0 <= k < i :: EndOf(bs[k]) <= offset)
    && (i < |bs| ==> EndOf(bs[i]) > offset && i < j)
    && (j - i >= 2 ==> |Flat(bs[i..j])| <= maxBytes)
    && (j < |bs| ==> |Flat(bs[i..j])| + |bs[j]| > maxBytes)
  }

  ghost function WindowResult(base: int, bs: seq<Frame>, offset: int, i: nat, j: nat): ReadResult
    requires i <= j <= |bs|
  {
    ReadResult(Flat(bs[i..j]), if i == j then offset else base + Count(bs[..j]))
  }

  /** A scan returns whole consecutive batches: the window of its offset and byte limit. */
  lemma ReadIsWindow(base: int, bs: seq<Frame>, offset: int, maxBytes: int)
    returns (i: nat, j: nat)
    requires Consecutive(base, bs)
    ensures IsWindow(bs, offset, maxBytes, i, j)
    ensures FullScan(bs, offset, maxBytes) == WindowResult(base, bs, offset, i, j)
    ensures i < |bs| && base <= offset ==> BaseOf(bs[i]) <= offset < EndOf(bs[i])
  {
    assert bs[0..] == bs;
    i := SkipPhase(bs, offset, maxBytes, 0);
    if i == |bs| {
      j := i;
      assert bs[i..] == [] && bs[i..j] == [];
    } else {
      j := TakeFirst(base, bs, offset, maxBytes, i);
      if i > 0 {
        EndOfBatch(base, bs, i - 1);
      } else {
        assert bs[..0] == [];
      }
    }
  }

  lemma {:induction false} SkipPhase(bs: seq<Frame>, offset: int, maxBytes: int, k: nat) returns (i: nat)
    requires k <= |bs| && forall m | 0 <= m < k :: EndOf(bs[m]) <= offset
    ensures k <= i <= |bs| && forall m | 0 <= m < i :: EndOf(bs[m]) <= offset
    ensures i < |bs| ==> EndOf(bs[i]) > offset
    ensures Visit(bs[k..], offset, maxBytes, ReadResult([], offset))
         == Visit(bs[i..], offset, maxBytes, ReadResult([], offset))
    decreases |bs| - k
  {
    if k == |bs| || EndOf(bs[k]) > offset {
      i := k;
    } else {
      VisitStep(bs, k, offset, maxBytes, ReadResult([], offset));
      i := SkipPhase(bs, offset, maxBytes, k + 1);
    }
  }

  lemma TakeFirst(base: int, bs: seq<Frame>, offset: int, maxBytes: int, i: nat) returns (j: nat)
    requires Consecutive(base, bs) && i < |bs| && EndOf(bs[i]) > offset
    ensures i < j <= |bs|
    ensures j - i >= 2 ==> |Flat(bs[i..j])| <= maxBytes
    ensures j < |bs| ==> |Flat(bs[i..j])| + |bs[j]| > maxBytes
    ensures Visit(bs[i..], offset, maxBytes, ReadResult([], offset)) == WindowResult(base, bs, offset, i, j)
  {
    hide Visit, EndOf, Consecutive, Flat, Count;
    VisitStep(bs, i, offset, maxBytes, ReadResult([], offset));
    assert [] + bs[i] == bs[i];
    FlatOne(bs, i);
    EndOfBatch(base, bs, i);
    j := TakePhase(base, bs, offset, maxBytes, i, i + 1);
  }

  lemma FlatOne(bs: seq<Frame>, i: nat)
    requires i < |bs|
    ensures Flat(bs[i..i + 1]) == bs[i]
  {
    assert bs[i..i + 1] == [bs[i]];
    assert [bs[i]][..0] == [];
    hide Count;
  }

  lemma {:induction false} TakePhase(base: int, bs: seq<Frame>, offset: int, maxBytes: int, i: nat, k: nat)
    returns (j: nat)
    requires Consecutive(base, bs) && i < k <= |bs| && EndOf(bs[i]) > offset
    requires k - i >= 2 ==> |Flat(bs[i..k])| <= maxBytes
    ensures k <= j <= |bs|
    ensures j - i >= 2 ==> |Flat(bs[i..j])| <= maxBytes
    ensures j < |bs| ==> |Flat(bs[i..j])| + |bs[j]| > maxBytes
    ensures Visit(bs[k..], offset, maxBytes, WindowResult(base, bs, offset, i, k))
         == WindowResult(base, bs, offset, i, j)
    decreases |bs| - k
  {
    hide Flat, Count, EndOf, Consecutive, Visit, WindowResult;
    if k == |bs| {
      j := k;
      VisitEnd(bs, offset, maxBytes, WindowResult(base, bs, offset, i, k));
    } else {
      WindowStep(base, bs, offset, maxBytes, i, k);
      if |Flat(bs[i..k])| + |bs[k]| > maxBytes {
        j := k;
      } else {
        j := TakePhase(base, bs, offset, maxBytes, i, k + 1);
      }
    }
  }

  /** A window either ends before batch `k` because it would not fit, or grows by it. */
  lemma WindowStep(base: int, bs: seq<Frame>, offset: int, maxBytes: int, i: nat, k: nat)
    requires Consecutive(base, bs) && i < k < |bs| && EndOf(bs[i]) > offset
    ensures |Flat(bs[i..k + 1])| == |Flat(bs[i..k])| + |bs[k]|
    ensures Visit(bs[k..], offset, maxBytes, WindowResult(base, bs, offset, i, k))
         == if |Flat(bs[i..k])| + |bs[k]| > maxBytes then WindowResult(base, bs, offset, i, k)
            else Visit(bs[k + 1..], offset, maxBytes, WindowResult(base, bs, offset, i, k + 1))
  {
    hide Flat, Count, EndOf, Consecutive, Visit;
    FlatNonEmpty(bs[i..k]);
    FlatSnoc(bs[i..k], bs[k]);
    assert bs[i..k + 1] == bs[i..k] + [bs[k]];
    VisitStep(bs, k, offset, maxBytes, WindowResult(base, bs, offset, i, k));
    EndAfter(base, bs, offset, i, k);
    EndOfBatch(base, bs, k);
  }

  lemma EndAfter(base: int, bs: seq<Frame>, offset: int, i: nat, k: nat)
    requires Consecutive(base, bs) && i <= k < |bs| && EndOf(bs[i]) > offset
    ensures EndOf(bs[k]) > offset
  {
    EndOfBatch(base, bs, i);
    EndOfBatch(base, bs, k);
    TakeMonotone(bs, i + 1, k + 1);
  }
}
