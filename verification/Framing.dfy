/**
 A log file is the concatenation of its batches. Everything that walks a log finds the
 batches by their length fields; the lemmas here say what such a walk sees.
 */
module Framing {
  import opened Bytes
  import opened Batch

  /** A byte string long enough to hold a batch header. */
  type Frame = b: Bytes | |b| >= 38 witness seq(38, i => 0)

  /** What storage relies on in a batch it is given to append. */
  predicate WellFormed(crc: Checksum, b: Frame) {
    && LengthOf(b) == |b|
    && 1 <= CountOf(b) <= |b| - HEADER
    && CrcOf(b) == crc(b[HEADER..])
  }

  lemma StampWellFormed(crc: Checksum, b: Frame, offset: int64)
    requires WellFormed(crc, b)
    ensures WellFormed(crc, Stamp(b, offset))
    ensures BaseOf(Stamp(b, offset)) == offset && CountOf(Stamp(b, offset)) == CountOf(b)
  {
    StampFields(b, offset);
  }

  /** What the encoder produces is well formed. */
  lemma EncodedWellFormed(crc: Checksum, rs: seq<Record>)
    requires |rs| > 0 && HEADER + |RecordsBytes(rs)| < TWO_31
    ensures WellFormed(crc, Encoded(crc, rs)) && CountOf(Encoded(crc, rs)) == |rs|
  {
    EncodedFields(crc, rs);
  }

  /** The smallest well-formed batch with a given timestamp. */
  function TinyBatch(crc: Checksum, timestamp: int64): Frame {
    Assembled(HEADER + 1, 1, crc([0]), timestamp, timestamp, [0])
  }

  lemma TinyBatchFacts(crc: Checksum, timestamp: int64)
    ensures WellFormed(crc, TinyBatch(crc, timestamp))
    ensures |TinyBatch(crc, timestamp)| == HEADER + 1
    ensures CountOf(TinyBatch(crc, timestamp)) == 1 && BaseTimestampOf(TinyBatch(crc, timestamp)) == timestamp
  {
    hide Assembled;
    AssembledFields(HEADER + 1, 1, crc([0]), timestamp, timestamp, [0]);
  }

  function EndOf(b: Frame): int {
    BaseOf(b) + CountOf(b)
  }

  // --- Lists of batches ----------------------------------------------------------------

  function Flat(bs: seq<Frame>): (r: Bytes) {
    if |bs| == 0 then [] else Flat(bs[..|bs| - 1]) + bs[|bs| - 1]
  }

  /** The number of records. */
  function Count(bs: seq<Frame>): (n: nat) {
    if |bs| == 0 then 0 else Count(bs[..|bs| - 1]) + CountOf(bs[|bs| - 1])
  }

  /** Base offsets follow one another without gap or overlap, from `base` on. */
  predicate Consecutive(base: int, bs: seq<Frame>) {
    forall k | 0 <= k < |bs| :: BaseOf(bs[k]) == base + Count(bs[..k])
  }

  predicate AllWellFormed(crc: Checksum, bs: seq<Frame>) {
    forall k | 0 <= k < |bs| :: WellFormed(crc, bs[k])
  }

  lemma FlatSnoc(bs: seq<Frame>, b: Frame)
    ensures Flat(bs + [b]) == Flat(bs) + b && Count(bs + [b]) == Count(bs) + CountOf(b)
  {
    assert (bs + [b])[..|bs|] == bs;
  }

  lemma TakeStep(bs: seq<Frame>, k: nat)
    requires k < |bs|
    ensures Flat(bs[..k + 1]) == Flat(bs[..k]) + bs[k]
    ensures Count(bs[..k + 1]) == Count(bs[..k]) + CountOf(bs[k])
  {
    FlatSnoc(bs[..k], bs[k]);
    assert bs[..k + 1] == bs[..k] + [bs[k]];
  }

  lemma {:induction false} FlatConcat(xs: seq<Frame>, ys: seq<Frame>)
    ensures Flat(xs + ys) == Flat(xs) + Flat(ys) && Count(xs + ys) == Count(xs) + Count(ys)
    decreases |ys|
  {
    if |ys| == 0 {
      assert xs + ys == xs;
    } else {
      var init, last := ys[..|ys| - 1], ys[|ys| - 1];
      FlatConcat(xs, init);
      assert xs + ys == xs + init + [last];
      FlatSnoc(xs + init, last);
    }
  }

  lemma SplitAt(bs: seq<Frame>, k: nat)
    requires k <= |bs|
    ensures Flat(bs) == Flat(bs[..k]) + Flat(bs[k..]) && Count(bs) == Count(bs[..k]) + Count(bs[k..])
  {
    assert bs == bs[..k] + bs[k..];
    FlatConcat(bs[..k], bs[k..]);
  }

  lemma TakeMonotone(bs: seq<Frame>, i: nat, j: nat)
    requires i <= j <= |bs|
    ensures |Flat(bs[..i])| <= |Flat(bs[..j])| && Count(bs[..i]) <= Count(bs[..j])
    ensures i < j ==> |Flat(bs[..i])| < |Flat(bs[..j])|
  {
    SplitAt(bs[..j], i);
    assert bs[..j][..i] == bs[..i];
    if i < j {
      FlatNonEmpty(bs[..j][i..]);
    }
  }

  lemma FlatNonEmpty(bs: seq<Frame>)
    requires |bs| > 0
    ensures |Flat(bs)| >= HEADER
  {
  }

  lemma {:induction false} CountStrict(crc: Checksum, bs: seq<Frame>, i: nat, j: nat)
    requires AllWellFormed(crc, bs) && i < j <= |bs|
    ensures Count(bs[..i]) < Count(bs[..j])
  {
    TakeStep(bs, i);
    TakeMonotone(bs, i + 1, j);
  }

  lemma WellFormedSnoc(crc: Checksum, bs: seq<Frame>, b: Frame)
    requires AllWellFormed(crc, bs) && WellFormed(crc, b)
    ensures AllWellFormed(crc, bs + [b])
  {
    hide WellFormed;
  }

  lemma ConsecutiveSnoc(base: int, bs: seq<Frame>, b: Frame)
    requires Consecutive(base, bs) && BaseOf(b) == base + Count(bs)
    ensures Consecutive(base, bs + [b])
  {
    hide BaseOf, Count;
    var cs := bs + [b];
    forall k | 0 <= k < |cs| ensures BaseOf(cs[k]) == base + Count(cs[..k]) {
      assert cs[..k] == bs[..k];
      assert bs[..|bs|] == bs;
    }
  }

  lemma ConsecutiveTake(base: int, bs: seq<Frame>, k: nat)
    requires Consecutive(base, bs) && k <= |bs|
    ensures Consecutive(base, bs[..k])
  {
    forall j | 0 <= j < k ensures BaseOf(bs[..k][j]) == base + Count(bs[..k][..j]) {
      assert bs[..k][..j] == bs[..j];
    }
  }

  lemma ConsecutiveConcat(base: int, xs: seq<Frame>, ys: seq<Frame>)
    requires Consecutive(base, xs) && Consecutive(base + Count(xs), ys)
    ensures Consecutive(base, xs + ys)
  {
    hide BaseOf, Count, Flat, Consecutive;
    var cs := xs + ys;
    forall k | 0 <= k < |cs| ensures BaseOf(cs[k]) == base + Count(cs[..k]) {
      ConcatAt(base, xs, ys, k);
    }
    IsConsecutive(base, cs);
  }

  lemma ConcatAt(base: int, xs: seq<Frame>, ys: seq<Frame>, k: nat)
    requires Consecutive(base, xs) && Consecutive(base + Count(xs), ys) && k < |xs + ys|
    ensures BaseOf((xs + ys)[k]) == base + Count((xs + ys)[..k])
  {
    hide BaseOf, Count, Flat, Consecutive;
    if k < |xs| {
      ConsecutiveAt(base, xs, k);
      assert (xs + ys)[..k] == xs[..k];
    } else {
      ConsecutiveAt(base + Count(xs), ys, k - |xs|);
      assert (xs + ys)[..k] == xs + ys[..k - |xs|];
      FlatConcat(xs, ys[..k - |xs|]);
    }
  }

  lemma IsConsecutive(base: int, bs: seq<Frame>)
    requires forall k | 0 <= k < |bs| :: BaseOf(bs[k]) == base + Count(bs[..k])
    ensures Consecutive(base, bs)
  {
  }

  lemma ConsecutiveAt(base: int, bs: seq<Frame>, k: nat)
    requires Consecutive(base, bs) && k < |bs|
    ensures BaseOf(bs[k]) == base + Count(bs[..k])
  {
  }

  lemma EndOfBatch(base: int, bs: seq<Frame>, k: nat)
    requires Consecutive(base, bs) && k < |bs|
    ensures EndOf(bs[k]) == base + Count(bs[..k + 1])
  {
    TakeStep(bs, k);
  }

  // --- Finding batches in the bytes ------------------------------------------------------

  /** Batch `k` sits at the end of the batches before it, whatever follows the list. */
  lemma FrameInside(bs: seq<Frame>, tail: Bytes, k: nat)
    requires k < |bs|
    ensures var p := |Flat(bs[..k])|;
      && p + |bs[k]| == |Flat(bs[..k + 1])| <= |Flat(bs)|
      && (Flat(bs) + tail)[p..p + |bs[k]|] == bs[k]
  {
    TakeStep(bs, k);
    SplitAt(bs, k + 1);
    var p := |Flat(bs[..k])|;
    assert (Flat(bs) + tail)[p..p + |bs[k]|] == (Flat(bs[..k]) + bs[k])[p..] == bs[k];
  }

  /**
   One turn of the log scan: the batch that starts at `pos`, or nothing when fewer than 12
   bytes are left, the length field is under 12, or the batch would run past the end.
   */
  function FrameAt(log: Bytes, pos: nat): (r: Option<Bytes>)
    ensures r.Some? ==> |r.value| >= 12 && pos + |r.value| <= |log|
  {
    if pos + 12 > |log| then None
    else
      var length := LengthOf(log[pos..pos + 12]);
      if length < 12 || pos + length > |log| then None
      else Some(log[pos..pos + length])
  }

  lemma FieldsInSlice(log: Bytes, pos: nat, b: Frame, n: nat)
    requires 12 <= n <= |b| && pos + |b| <= |log| && log[pos..pos + |b|] == b
    ensures LengthOf(log[pos..pos + n]) == LengthOf(b) && BaseOf(log[pos..pos + n]) == BaseOf(b)
    ensures n >= HEADER ==> CountOf(log[pos..pos + n]) == CountOf(b) && CrcOf(log[pos..pos + n]) == CrcOf(b)
  {
    var h := log[pos..pos + n];
    assert h == b[..n];
    assert h[0..8] == b[0..8] && h[8..12] == b[8..12];
    if n >= HEADER {
      assert h[12..16] == b[12..16] && h[16..20] == b[16..20];
    }
  }

  lemma ScanSeesBatch(crc: Checksum, bs: seq<Frame>, tail: Bytes, k: nat)
    requires k < |bs| && WellFormed(crc, bs[k])
    ensures FrameAt(Flat(bs) + tail, |Flat(bs[..k])|) == Some(bs[k])
  {
    hide Flat, LengthOf, CountOf, CrcOf;
    FrameInside(bs, tail, k);
    FieldsInSlice(Flat(bs) + tail, |Flat(bs[..k])|, bs[k], 12);
  }

  /** Past the last batch the scan sees nothing. */
  lemma ScanEnds(bs: seq<Frame>)
    ensures FrameAt(Flat(bs), |Flat(bs)|) == None
  {
  }
}
