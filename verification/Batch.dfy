/**
 The batch wire format: a 38-byte header followed by length-prefixed records.

   [0,8) base offset   [8,12) length   [12,16) record count   [16,20) checksum
   [20,22) attributes  [22,30) base timestamp   [30,38) max timestamp   [38,..) records

 The checksum covers the record bytes only. CRC-32C is a parameter: everything here
 holds for every checksum function.
 */
module Batch {
  import opened Bytes
  import opened Varint

  type Checksum = Bytes -> uint32

  const HEADER: nat := 38

  datatype Header = Header(key: Bytes, value: Bytes)

  /** A record; a record without a key is not the same as one with an empty key. */
  datatype Record = Record(timestampMs: int64, key: Option<Bytes>, value: Bytes, headers: seq<Header>)

  datatype BatchHeader = BatchHeader(
    baseOffset: int64, batchLength: int32, recordCount: int32, crc: uint32,
    attributes: nat, baseTimestamp: int64, maxTimestamp: int64)

  datatype Batch = Batch(header: BatchHeader, records: seq<Record>)

  // --- Header fields of a serialised batch ---------------------------------------

  function BaseOf(b: Bytes): int64
    requires |b| >= 12
  {
    GetI64(b, 0)
  }

  function LengthOf(b: Bytes): uint32
    requires |b| >= 12
  {
    GetU32(b, 8)
  }

  function CountOf(b: Bytes): uint32
    requires |b| >= 16
  {
    GetU32(b, 12)
  }

  function CrcOf(b: Bytes): uint32
    requires |b| >= HEADER
  {
    GetU32(b, 16)
  }

  function BaseTimestampOf(b: Bytes): int64
    requires |b| >= HEADER
  {
    GetI64(b, 22)
  }

  function MaxTimestampOf(b: Bytes): int64
    requires |b| >= HEADER
  {
    GetI64(b, 30)
  }

  /** What storage does to an incoming batch: bytes 0 to 8 become the assigned base offset. */
  function Stamp(b: Bytes, offset: int64): (r: Bytes)
    requires |b| >= 8
    ensures |r| == |b|
  {
    PutI64(offset) + b[8..]
  }

  /** Stamping sets the base offset and leaves every other field and the checksum range alone. */
  lemma StampFields(b: Bytes, offset: int64)
    requires |b| >= HEADER
    ensures BaseOf(Stamp(b, offset)) == offset
    ensures LengthOf(Stamp(b, offset)) == LengthOf(b) && CountOf(Stamp(b, offset)) == CountOf(b)
    ensures CrcOf(Stamp(b, offset)) == CrcOf(b)
    ensures MaxTimestampOf(Stamp(b, offset)) == MaxTimestampOf(b)
    ensures BaseTimestampOf(Stamp(b, offset)) == BaseTimestampOf(b)
    ensures Stamp(b, offset)[HEADER..] == b[HEADER..]
  {
    var s := Stamp(b, offset);
    GetPutI64(offset);
    assert s[0..8] == PutI64(offset);
    assert s[8..12] == b[8..12] && s[12..16] == b[12..16] && s[16..20] == b[16..20];
    assert s[22..30] == b[22..30] && s[30..38] == b[30..38];
  }

  // --- Encoding -------------------------------------------------------------------

  /** `appendUvarint(b, uint64(len(x)))`: the length prefix of a byte string or a list. */
  function LengthPrefix(n: nat): (r: Bytes)
    ensures |r| >= 1
  {
    Uvarint(n % TWO_64)
  }

  function StringBytes(s: Bytes): (r: Bytes)
    ensures |r| > |s|
  {
    LengthPrefix(|s|) + s
  }

  function HeadersBytes(hs: seq<Header>): (r: Bytes)
    ensures |r| >= |hs|
  {
    if |hs| == 0 then [] else StringBytes(hs[0].key) + (StringBytes(hs[0].value) + HeadersBytes(hs[1..]))
  }

  /** Length -1 stands for "no key". */
  function KeyBytes(key: Option<Bytes>): (r: Bytes) {
    if key.None? then ZigzagVarint(-1)
    else ZigzagVarint(WrapInt64(|key.value|)) + key.value
  }

  function RecordBody(rec: Record, baseTimestamp: int64, offsetDelta: int64): (r: Bytes)
    ensures |r| >= 1
  {
    [0] + (ZigzagVarint(WrapInt64(rec.timestampMs - baseTimestamp))
           + (ZigzagVarint(offsetDelta)
              + (KeyBytes(rec.key)
                 + RecordTail(rec))))
  }

  /** Value, header count and headers: the tail of a record. */
  function RecordTail(rec: Record): (r: Bytes) {
    StringBytes(rec.value) + (LengthPrefix(|rec.headers|) + HeadersBytes(rec.headers))
  }

  function RecordBytes(rec: Record, baseTimestamp: int64, offsetDelta: int64): (r: Bytes)
    ensures |r| >= 2
  {
    LengthPrefix(|RecordBody(rec, baseTimestamp, offsetDelta)|) + RecordBody(rec, baseTimestamp, offsetDelta)
  }

  /** The records from index `i` on, each with its index as offset delta. */
  function RecordsFrom(rs: seq<Record>, baseTimestamp: int64, i: nat): (r: Bytes)
    requires i <= |rs|
    ensures |r| >= |rs| - i
    decreases |rs| - i
  {
    if i == |rs| then []
    else RecordBytes(rs[i], baseTimestamp, WrapInt64(i)) + RecordsFrom(rs, baseTimestamp, i + 1)
  }

  function RecordsBytes(rs: seq<Record>): (r: Bytes)
    requires |rs| > 0
    ensures |r| >= |rs|
  {
    RecordsFrom(rs, rs[0].timestampMs, 0)
  }

  /** Header and record bytes put together, with base offset zero. */
  function Assembled(length: uint32, count: uint32, crc: uint32, baseTimestamp: int64, maxTimestamp: int64,
      recs: Bytes): (b: Bytes)
    ensures |b| == HEADER + |recs|
  {
    PutI64(0)
    + (PutU32(length)
       + (PutU32(count)
          + (PutU32(crc)
             + (Put(0, 2)
                + (PutI64(baseTimestamp)
                   + (PutI64(maxTimestamp)
                      + recs))))))
  }

  /** The serialised batch of a non-empty list of records. */
  function Encoded(crc: Checksum, rs: seq<Record>): (b: Bytes)
    requires |rs| > 0
    ensures |b| == HEADER + |RecordsBytes(rs)|
  {
    var recs := RecordsBytes(rs);
    Assembled((HEADER + |recs|) % TWO_32, |rs| % TWO_32, crc(recs), rs[0].timestampMs, rs[|rs| - 1].timestampMs, recs)
  }

  method EncodeBatch(crc: Checksum, rs: seq<Record>) returns (b: Option<Bytes>)
    ensures |rs| == 0 ==> b == None
    ensures |rs| > 0 ==> b == Some(Encoded(crc, rs))
  {
    hide Assembled, RecordsFrom;
    if |rs| == 0 {
      return None;
    }
    var recs := EncodeRecords(rs, rs[0].timestampMs);
    b := Some(Assembled((HEADER + |recs|) % TWO_32, |rs| % TWO_32, crc(recs),
                        rs[0].timestampMs, rs[|rs| - 1].timestampMs, recs));
  }

  method EncodeRecords(rs: seq<Record>, baseTimestamp: int64) returns (recs: Bytes)
    ensures recs == RecordsFrom(rs, baseTimestamp, 0)
  {
    hide RecordBytes, RecordBody;
    recs := [];
    for i := 0 to |rs|
      invariant recs + RecordsFrom(rs, baseTimestamp, i) == RecordsFrom(rs, baseTimestamp, 0)
    {
      ghost var before := recs;
      recs := AppendRecord(recs, rs[i], baseTimestamp, WrapInt64(i));
      Associative(before, RecordBytes(rs[i], baseTimestamp, WrapInt64(i)), RecordsFrom(rs, baseTimestamp, i + 1));
    }
    assert recs + [] == recs;
  }

  method AppendRecord(buf: Bytes, rec: Record, baseTimestamp: int64, offsetDelta: int64) returns (r: Bytes)
    ensures r == buf + RecordBytes(rec, baseTimestamp, offsetDelta)
  {
    hide Uvarint, ZigzagVarint, KeyBytes, RecordTail, WrapInt64;
    var delta := WrapInt64(rec.timestampMs - baseTimestamp);
    var body: Bytes := [0];
    body := AppendZigzagVarint(body, delta);
    body := AppendZigzagVarint(body, offsetDelta);
    body := AppendKey(body, rec.key);
    body := AppendTail(body, rec);
    BodyInSteps(ZigzagVarint(delta), ZigzagVarint(offsetDelta), KeyBytes(rec.key), RecordTail(rec));
    r := AppendUvarint(buf, |body| % TWO_64);
    Associative(buf, LengthPrefix(|body|), body);
    r := r + body;
  }

  lemma BodyInSteps(a: Bytes, b: Bytes, c: Bytes, d: Bytes)
    ensures [0] + (a + (b + (c + d))) == [0] + a + b + c + d
  {
  }

  method AppendZigzagVarint(b: Bytes, n: int64) returns (r: Bytes)
    ensures r == b + ZigzagVarint(n)
  {
    r := AppendUvarint(b, Zigzag(n));
  }

  method AppendKey(b: Bytes, key: Option<Bytes>) returns (r: Bytes)
    ensures r == b + KeyBytes(key)
  {
    hide ZigzagVarint, WrapInt64;
    if key.None? {
      r := AppendZigzagVarint(b, -1);
    } else {
      r := AppendZigzagVarint(b, WrapInt64(|key.value|));
      Associative(b, ZigzagVarint(WrapInt64(|key.value|)), key.value);
      r := r + key.value;
    }
  }

  method AppendString(b: Bytes, s: Bytes) returns (r: Bytes)
    ensures r == b + StringBytes(s)
  {
    hide Uvarint;
    r := AppendUvarint(b, |s| % TWO_64);
    Associative(b, LengthPrefix(|s|), s);
    r := r + s;
  }

  /** Value, header count and headers. */
  method AppendTail(b: Bytes, rec: Record) returns (r: Bytes)
    ensures r == b + RecordTail(rec)
  {
    hide Uvarint, StringBytes, HeadersBytes;
    r := AppendString(b, rec.value);
    r := AppendUvarint(r, |rec.headers| % TWO_64);
    Associative(b, StringBytes(rec.value), LengthPrefix(|rec.headers|) + HeadersBytes(rec.headers));
    Associative(b + StringBytes(rec.value), LengthPrefix(|rec.headers|), HeadersBytes(rec.headers));
    r := AppendHeaders(r, rec.headers);
  }

  method AppendHeaders(b: Bytes, hs: seq<Header>) returns (r: Bytes)
    ensures r == b + HeadersBytes(hs)
  {
    hide StringBytes;
    r := b;
    assert hs[0..] == hs;
    for i := 0 to |hs|
      invariant r + HeadersBytes(hs[i..]) == b + HeadersBytes(hs)
    {
      ghost var before, rest := r, HeadersBytes(hs[i + 1..]);
      assert hs[i..][1..] == hs[i + 1..];
      r := AppendString(r, hs[i].key);
      r := AppendString(r, hs[i].value);
      Associative(before, StringBytes(hs[i].key), StringBytes(hs[i].value) + rest);
      Associative(before + StringBytes(hs[i].key), StringBytes(hs[i].value), rest);
    }
    assert r + [] == r;
  }

  lemma Associative(a: Bytes, b: Bytes, c: Bytes)
    ensures a + (b + c) == (a + b) + c
  {
  }

  lemma AssembledFields(length: uint32, count: uint32, crc: uint32, baseTimestamp: int64,
      maxTimestamp: int64, recs: Bytes)
    ensures var b := Assembled(length, count, crc, baseTimestamp, maxTimestamp, recs);
      && BaseOf(b) == 0 && LengthOf(b) == length && CountOf(b) == count && CrcOf(b) == crc
      && BaseTimestampOf(b) == baseTimestamp && MaxTimestampOf(b) == maxTimestamp
      && b[20..22] == Put(0, 2)
      && b[HEADER..] == recs
  {
    hide Put, Get;
    var f0, f1, f2, f3, f4, f5, f6 := PutI64(0), PutU32(length), PutU32(count), PutU32(crc), Put(0, 2),
                                      PutI64(baseTimestamp), PutI64(maxTimestamp);
    var b := Assembled(length, count, crc, baseTimestamp, maxTimestamp, recs);
    AtSplit(b, 0, f0, f1 + (f2 + (f3 + (f4 + (f5 + (f6 + recs))))));
    AtSplit(b, 8, f1, f2 + (f3 + (f4 + (f5 + (f6 + recs)))));
    AtSplit(b, 12, f2, f3 + (f4 + (f5 + (f6 + recs))));
    AtSplit(b, 16, f3, f4 + (f5 + (f6 + recs)));
    AtSplit(b, 20, f4, f5 + (f6 + recs));
    AtSplit(b, 22, f5, f6 + recs);
    AtSplit(b, 30, f6, recs);
    GetPutI64(0);
    GetPutU32(length);
    GetPutU32(count);
    GetPutU32(crc);
    GetPutI64(baseTimestamp);
    GetPutI64(maxTimestamp);
  }

  lemma TwoZeros()
    ensures Put(0, 2) == [0, 0]
  {
    assert Put(0, 1) == [0];
  }

  /** Every header field of an encoded batch, read back from its bytes. */
  lemma EncodedFields(crc: Checksum, rs: seq<Record>)
    requires |rs| > 0 && HEADER + |RecordsBytes(rs)| < TWO_32
    ensures var b := Encoded(crc, rs);
      && BaseOf(b) == 0
      && LengthOf(b) == |b|
      && CountOf(b) == |rs|
      && CrcOf(b) == crc(b[HEADER..])
      && b[20] == 0 == b[21]
      && BaseTimestampOf(b) == rs[0].timestampMs
      && MaxTimestampOf(b) == rs[|rs| - 1].timestampMs
      && b[HEADER..] == RecordsBytes(rs)
  {
    hide Put, Get, RecordsFrom;
    var recs := RecordsBytes(rs);
    TwoZeros();
    AssembledFields(HEADER + |recs|, |rs|, crc(recs), rs[0].timestampMs, rs[|rs| - 1].timestampMs, recs);
  }

  // --- Decoding -------------------------------------------------------------------

  /**
   `n` bytes at `pos` of a record that ends at `end`. The bound check adds in 64 bits, so a
   length that wraps, or a negative one, passes it and then panics in the allocation.
   */
  function TakeBytes(data: Bytes, pos: nat, end: nat, n: int64): (r: Decoded<Bytes>)
    requires end <= |data|
    ensures r.Ok? ==> r.next <= end && r.next >= pos
    ensures r.Fail? ==> r.error != CrcMismatch && r.error != TooShort
  {
    if WrapInt64(pos + n) > end then Fail(Truncated)
    else if n < 0 || pos + n > end then Fail(Panics)
    else Ok(data[pos..pos + n], pos + n)
  }

  function ParseString(data: Bytes, pos: nat, end: nat): (r: Decoded<Bytes>)
    requires end <= |data|
    ensures r.Fail? ==> r.error != CrcMismatch && r.error != TooShort
  {
    var (n, p) :- ParseUvarint(data, pos);
    TakeBytes(data, p, end, ToInt64(n))
  }

  function ParseKey(data: Bytes, pos: nat, end: nat): (r: Decoded<Option<Bytes>>)
    requires end <= |data|
    ensures r.Fail? ==> r.error != CrcMismatch && r.error != TooShort
  {
    var (raw, p) :- ParseUvarint(data, pos);
    if Unzigzag(raw) < 0 then Ok(None, p)
    else
      var (key, q) :- TakeBytes(data, p, end, Unzigzag(raw));
      Ok(Some(key), q)
  }

  function ParseHeaders(data: Bytes, pos: nat, end: nat, n: nat): (r: Decoded<seq<Header>>)
    requires end <= |data|
    ensures r.Fail? ==> r.error != CrcMismatch && r.error != TooShort
    decreases n
  {
    if n == 0 then Ok([], pos)
    else
      var (key, p) :- ParseString(data, pos, end);
      var (value, q) :- ParseString(data, p, end);
      var (rest, e) :- ParseHeaders(data, q, end, n - 1);
      Ok([Header(key, value)] + rest, e)
  }

  method DecodeString(data: Bytes, pos: nat, end: nat) returns (r: Decoded<Bytes>)
    requires end <= |data|
    ensures r == ParseString(data, pos, end)
  {
    hide ParseUvarint, TakeBytes;
    var n := DecodeUvarint(data, pos);
    if n.Fail? {
      return Fail(n.error);
    }
    r := TakeBytes(data, n.next, end, ToInt64(n.value));
  }

  method DecodeKey(data: Bytes, pos: nat, end: nat) returns (r: Decoded<Option<Bytes>>)
    requires end <= |data|
    ensures r == ParseKey(data, pos, end)
  {
    hide ParseUvarint, TakeBytes;
    var n := DecodeUvarint(data, pos);
    if n.Fail? {
      return Fail(n.error);
    }
    if Unzigzag(n.value) < 0 {
      return Ok(None, n.next);
    }
    var key := TakeBytes(data, n.next, end, Unzigzag(n.value));
    if key.Fail? {
      return Fail(key.error);
    }
    r := Ok(Some(key.value), key.next);
  }

  method DecodeHeaders(data: Bytes, pos: nat, end: nat, n: nat) returns (r: Decoded<seq<Header>>)
    requires end <= |data|
    ensures r == ParseHeaders(data, pos, end, n)
  {
    var headers: seq<Header> := [];
    var p := pos;
    PrependNothing(ParseHeaders(data, pos, end, n));
    for i := 0 to n
      invariant ParseHeaders(data, pos, end, n)
             == Prepend(headers, ParseHeaders(data, p, end, n - i))
    {
      var key := DecodeString(data, p, end);
      if key.Fail? {
        return Fail(key.error);
      }
      var value := DecodeString(data, key.next, end);
      if value.Fail? {
        return Fail(value.error);
      }
      PrependAssoc(headers, Header(key.value, value.value), ParseHeaders(data, value.next, end, n - i - 1));
      headers := headers + [Header(key.value, value.value)];
      p := value.next;
    }
    assert headers + [] == headers;
    r := Ok(headers, p);
  }

  ghost function Prepend<T>(xs: seq<T>, r: Decoded<seq<T>>): Decoded<seq<T>> {
    if r.Ok? then Ok(xs + r.value, r.next) else r
  }

  lemma PrependNothing<T>(r: Decoded<seq<T>>)
    ensures Prepend([], r) == r
  {
    if r.Ok? {
      assert [] + r.value == r.value;
    }
  }

  lemma PrependAssoc<T>(xs: seq<T>, x: T, r: Decoded<seq<T>>)
    ensures Prepend(xs, Prepend([x], r)) == Prepend(xs + [x], r)
  {
    if r.Ok? {
      assert xs + ([x] + r.value) == xs + [x] + r.value;
    }
  }

  /** The fields after the attributes byte of a record that ends at `end`. */
  function ParseFields(data: Bytes, pos: nat, end: nat, baseTimestamp: int64): (r: Decoded<Record>)
    requires end <= |data|
    ensures r.Fail? ==> r.error != CrcMismatch && r.error != TooShort
  {
    var (ts, p1) :- ParseUvarint(data, pos);
    var (_, p2) :- ParseUvarint(data, p1);
    var (key, p3) :- ParseKey(data, p2, end);
    var (value, p4) :- ParseString(data, p3, end);
    var (n, p5) :- ParseUvarint(data, p4);
    var (headers, _) :- ParseHeaders(data, p5, end, n);
    Ok(Record(WrapInt64(baseTimestamp + Unzigzag(ts)), key, value, headers), end)
  }

  function ParseRecord(data: Bytes, pos: nat, baseTimestamp: int64): (r: Decoded<Record>)
    ensures r.Ok? ==> pos < r.next <= |data|
    ensures r.Fail? ==> r.error != CrcMismatch && r.error != TooShort
  {
    var (length, p) :- ParseUvarint(data, pos);
    var end := WrapInt64(p + ToInt64(length));
    if end > |data| then Fail(Truncated)
    else if p >= end then Fail(Truncated)
    else ParseFields(data, p + 1, end, baseTimestamp)
  }

  function ParseRecords(data: Bytes, pos: nat, baseTimestamp: int64): (r: Decoded<seq<Record>>)
    ensures r.Fail? ==> r.error != CrcMismatch && r.error != TooShort
    decreases |data| - pos
  {
    if pos >= |data| then Ok([], pos)
    else
      var (rec, p) :- ParseRecord(data, pos, baseTimestamp);
      var (rest, e) :- ParseRecords(data, p, baseTimestamp);
      Ok([rec] + rest, e)
  }

  function HeaderOf(data: Bytes): BatchHeader
    requires |data| >= HEADER
  {
    Pow256Widths();
    BatchHeader(BaseOf(data), ToInt32(LengthOf(data)), ToInt32(CountOf(data)), CrcOf(data),
                Get(data[20..22]), BaseTimestampOf(data), MaxTimestampOf(data))
  }

  /** The batch at the start of `data`; `next` is the number of bytes it takes. */
  function Parsed(crc: Checksum, data: Bytes): (r: Decoded<Batch>)
    ensures r.Ok? ==> r.value.header.batchLength == r.next && HEADER <= r.next <= |data|
  {
    if |data| < HEADER then Fail(TooShort)
    else
      var bh := HeaderOf(data);
      if bh.batchLength < HEADER || bh.batchLength > |data| then Fail(Truncated)
      else
        var recs := data[HEADER..bh.batchLength];
        if crc(recs) != bh.crc then Fail(CrcMismatch)
        else if bh.recordCount < 0 then Fail(Panics)
        else
          var (records, _) :- ParseRecords(recs, 0, bh.baseTimestamp);
          Ok(Batch(bh, records), bh.batchLength)
  }

  lemma TwoBytes(b: Bytes)
    requires |b| == 2
    ensures Get(b) == (b[0] as int) * 256 + (b[1] as int)
  {
    assert b[..1][..0] == [];
    assert Get(b[..1]) == b[0];
  }

  /** `data` begins with a header whose length field says how much of it is the batch. */
  predicate HasFrame(data: Bytes) {
    |data| >= HEADER && HEADER <= ToInt32(LengthOf(data)) <= |data|
  }

  /** The record bytes have the checksum in the header. */
  predicate ChecksumHolds(crc: Checksum, data: Bytes)
    requires HasFrame(data)
  {
    crc(data[HEADER..LengthOf(data)]) == CrcOf(data)
  }

  /** The header says what is in the first 38 bytes. */
  predicate HeaderSays(data: Bytes, h: BatchHeader)
    requires |data| >= HEADER
  {
    && h.baseOffset == GetI64(data, 0)
    && h.batchLength == ToInt32(GetU32(data, 8))
    && h.recordCount == ToInt32(GetU32(data, 12))
    && h.crc == GetU32(data, 16)
    && h.attributes == (data[20] as int) * 256 + (data[21] as int)
    && h.baseTimestamp == GetI64(data, 22)
    && h.maxTimestamp == GetI64(data, 30)
  }

  /** The batch has the records that its record bytes hold, however many its header counts, or their error. */
  predicate DecodedAs(records: Decoded<seq<Record>>, r: Decoded<Batch>) {
    match records
    case Fail(e) => r == Fail(e)
    case Ok(rs, _) => r.Ok? && r.value.records == rs
  }

  lemma HeaderIsRead(data: Bytes)
    requires |data| >= HEADER
    ensures HeaderSays(data, HeaderOf(data))
  {
    hide GetI64, GetU32;
    TwoBytes(data[20..22]);
  }

  /**
   Decodes one batch. A batch whose record bytes do not have the checksum in its header is refused,
   whatever else is in it, and nothing else is refused for its checksum.
   */
  method DecodeBatch(crc: Checksum, data: Bytes) returns (r: Decoded<Batch>)
    ensures r == Parsed(crc, data)
    ensures r == Fail(TooShort) <==> |data| < HEADER
    ensures |data| >= HEADER && !HasFrame(data) ==> r == Fail(Truncated)
    ensures r == Fail(CrcMismatch) <==> HasFrame(data) && !ChecksumHolds(crc, data)
    ensures r.Ok? ==> HasFrame(data) && ChecksumHolds(crc, data)
    ensures r.Ok? ==> r.next == LengthOf(data) && HeaderSays(data, r.value.header)
    ensures HasFrame(data) && ChecksumHolds(crc, data) ==>
      if ToInt32(CountOf(data)) < 0 then r == Fail(Panics)
      else DecodedAs(ParseRecords(data[HEADER..LengthOf(data)], 0, BaseTimestampOf(data)), r)
  {
    hide ParseRecords, GetI64, GetU32;
    if |data| < HEADER {
      return Fail(TooShort);
    }
    var bh := HeaderOf(data);
    HeaderIsRead(data);
    if bh.batchLength < HEADER || bh.batchLength > |data| {
      return Fail(Truncated);
    }
    var recs := data[HEADER..bh.batchLength];
    if crc(recs) != bh.crc {
      return Fail(CrcMismatch);
    }
    if bh.recordCount < 0 {
      return Fail(Panics);
    }
    var records := DecodeRecords(recs, bh.baseTimestamp);
    if records.Fail? {
      return Fail(records.error);
    }
    r := Ok(Batch(bh, records.value), bh.batchLength);
  }

  method DecodeRecord(data: Bytes, pos: nat, baseTimestamp: int64) returns (r: Decoded<Record>)
    ensures r == ParseRecord(data, pos, baseTimestamp)
  {
    hide ParseUvarint, ParseFields;
    var length := DecodeUvarint(data, pos);
    if length.Fail? {
      return Fail(length.error);
    }
    var end := WrapInt64(length.next + ToInt64(length.value));
    if end > |data| {
      return Fail(Truncated);
    }
    if length.next >= end {
      return Fail(Truncated);
    }
    r := DecodeFields(data, length.next + 1, end, baseTimestamp);
  }

  method DecodeFields(data: Bytes, pos: nat, end: nat, baseTimestamp: int64) returns (r: Decoded<Record>)
    requires end <= |data|
    ensures r == ParseFields(data, pos, end, baseTimestamp)
  {
    hide ParseUvarint, ParseKey, ParseString, ParseHeaders, Unzigzag, WrapInt64;
    var delta := DecodeUvarint(data, pos);
    if delta.Fail? {
      return Fail(delta.error);
    }
    var index := DecodeUvarint(data, delta.next);
    if index.Fail? {
      return Fail(index.error);
    }
    var key := DecodeKey(data, index.next, end);
    if key.Fail? {
      return Fail(key.error);
    }
    var value := DecodeString(data, key.next, end);
    if value.Fail? {
      return Fail(value.error);
    }
    var count := DecodeUvarint(data, value.next);
    if count.Fail? {
      return Fail(count.error);
    }
    var headers := DecodeHeaders(data, count.next, end, count.value);
    if headers.Fail? {
      return Fail(headers.error);
    }
    r := Ok(Record(WrapInt64(baseTimestamp + Unzigzag(delta.value)), key.value, value.value, headers.value), end);
  }

  method DecodeRecords(recs: Bytes, baseTimestamp: int64) returns (r: Decoded<seq<Record>>)
    ensures r == ParseRecords(recs, 0, baseTimestamp)
  {
    var records: seq<Record> := [];
    var pos := 0;
    PrependNothing(ParseRecords(recs, 0, baseTimestamp));
    while pos < |recs|
      invariant pos <= |recs|
      invariant ParseRecords(recs, 0, baseTimestamp) == Prepend(records, ParseRecords(recs, pos, baseTimestamp))
    {
      var rec := DecodeRecord(recs, pos, baseTimestamp);
      if rec.Fail? {
        return Fail(rec.error);
      }
      PrependAssoc(records, rec.value, ParseRecords(recs, rec.next, baseTimestamp));
      records := records + [rec.value];
      pos := rec.next;
    }
    assert records + [] == records;
    r := Ok(records, pos);
  }

  // --- What is refused -----------------------------------------------------------------

  /** A string that would run past the end of its record is refused. */
  lemma TornStringIsRefused(data: Bytes, pos: nat, end: nat, n: nat)
    requires end <= |data| < TWO_63 && At(data, pos, LengthPrefix(n)) && n < TWO_63 - |data|
    requires pos + |LengthPrefix(n)| + n > end
    ensures ParseString(data, pos, end) == Fail(Truncated)
  {
    hide Uvarint, ParseUvarint, At;
    UvarintRoundTrip(data, pos, n);
    WrapIdentity(pos + |LengthPrefix(n)| + n);
  }

  /** So is a record that would run past the end of the batch, or that has no byte of its own. */
  lemma TornRecordIsRefused(data: Bytes, pos: nat, n: nat, baseTimestamp: int64)
    requires |data| < TWO_63 && At(data, pos, LengthPrefix(n)) && n < TWO_63 - |data|
    requires n == 0 || pos + |LengthPrefix(n)| + n > |data|
    ensures ParseRecord(data, pos, baseTimestamp) == Fail(Truncated)
  {
    hide Uvarint, ParseUvarint, At, ParseFields;
    UvarintRoundTrip(data, pos, n);
    WrapIdentity(pos + |LengthPrefix(n)| + n);
  }

  /** Any negative length stands for a missing key. */
  lemma NegativeLengthIsNoKey(data: Bytes, pos: nat, end: nat, n: int64)
    requires end <= |data| && At(data, pos, ZigzagVarint(n)) && n < 0
    ensures ParseKey(data, pos, end) == Ok(None, pos + |ZigzagVarint(n)|)
  {
    hide Uvarint, ParseUvarint, At, Zigzag, Unzigzag;
    UvarintRoundTrip(data, pos, Zigzag(n));
    ZigzagBijection(n, Zigzag(n));
  }

  lemma SmallNumbers(n: nat)
    requires n < 0x40
    ensures LengthPrefix(n) == [n] && ZigzagVarint(n) == [2 * n] && ZigzagVarint(-1) == [1] && WrapInt64(n) == n
  {
    WrapIdentity(n);
    ZigzagValue(n);
    ZigzagValue(-1);
  }

  lemma OneHeader(h: byte)
    ensures HeadersBytes([Header([h], [h, h])]) == [1, h, 2, h, h]
  {
    hide LengthPrefix;
    SmallNumbers(1); SmallNumbers(2);
    var hs := [Header([h], [h, h])];
    assert HeadersBytes(hs[1..]) == [];
    assert StringBytes([h]) == [1, h] && StringBytes([h, h]) == [2, h, h];
  }

  lemma SampleTail(rec: Record, value: byte, h: byte)
    requires rec.value == [value] && rec.headers == [Header([h], [h, h])]
    ensures RecordTail(rec) == [1, value, 1, 1, h, 2, h, h]
  {
    hide LengthPrefix, HeadersBytes;
    OneHeader(h);
    SmallNumbers(1);
    assert StringBytes([value]) == [1, value];
    assert LengthPrefix(1) + [1, h, 2, h, h] == [1, 1, h, 2, h, h];
  }

  /** A record byte for byte: length, attributes, deltas, key, value, header count, headers. */
  lemma RecordByteForByte(value: byte, k: byte, h: byte)
    ensures RecordBytes(Record(1005, Some([k, k]), [value], [Header([h], [h, h])]), 1000, 3)
         == [14, 0, 10, 6, 4, k, k, 1, value, 1, 1, h, 2, h, h]
  {
    var rec := Record(1005, Some([k, k]), [value], [Header([h], [h, h])]);
    hide LengthPrefix, ZigzagVarint, WrapInt64, RecordTail;
    SampleTail(rec, value, h);
    SmallNumbers(2); SmallNumbers(3); SmallNumbers(5); SmallNumbers(14);
    assert KeyBytes(rec.key) == [4, k, k];
    hide KeyBytes;
    var tail := [1, value, 1, 1, h, 2, h, h];
    assert RecordBody(rec, 1000, 3) == [0] + ([10] + ([6] + ([4, k, k] + tail)));
    hide RecordBody;
    assert [0] + ([10] + ([6] + ([4, k, k] + tail))) == [0, 10, 6, 4, k, k] + tail;
    assert [14] + ([0, 10, 6, 4, k, k] + tail) == [14, 0, 10, 6, 4, k, k] + tail;
  }

  /** A record that has none of the optional parts. */
  lemma BareRecordByteForByte()
    ensures RecordBytes(Record(1005, None, [], []), 1000, 0) == [6, 0, 10, 0, 1, 0, 0]
  {
    var rec := Record(1005, None, [], []);
    hide LengthPrefix, ZigzagVarint, WrapInt64;
    SmallNumbers(0); SmallNumbers(5); SmallNumbers(6);
    assert RecordTail(rec) == [0, 0];
    assert RecordBody(rec, 1000, 0) == [0, 10, 0, 1, 0, 0];
  }

  // --- Round trip -------------------------------------------------------------------

  lemma TakeExact(data: Bytes, pos: nat, end: nat, s: Bytes)
    requires At(data, pos, s) && pos + |s| <= end <= |data| < TWO_63
    ensures TakeBytes(data, pos, end, |s|) == Ok(s, pos + |s|)
  {
    WrapIdentity(pos + |s|);
  }

  lemma StringRoundTrip(data: Bytes, pos: nat, end: nat, s: Bytes)
    requires At(data, pos, StringBytes(s)) && pos + |StringBytes(s)| <= end <= |data| < TWO_63
    ensures ParseString(data, pos, end) == Ok(s, pos + |StringBytes(s)|)
  {
    hide At, LengthPrefix, ParseUvarint;
    AtSplit(data, pos, LengthPrefix(|s|), s);
    PrefixRoundTrip(data, pos, |s|);
    TakeExact(data, pos + |LengthPrefix(|s|)|, end, s);
  }

  /** An absent key stays absent and an empty one stays empty. */
  lemma KeyRoundTrip(data: Bytes, pos: nat, end: nat, key: Option<Bytes>)
    requires At(data, pos, KeyBytes(key)) && pos + |KeyBytes(key)| <= end <= |data| < TWO_63
    ensures ParseKey(data, pos, end) == Ok(key, pos + |KeyBytes(key)|)
  {
    if key.None? {
      UvarintRoundTrip(data, pos, Zigzag(-1));
      ZigzagBijection(-1, 0);
    } else {
      var n := |key.value|;
      WrapIdentity(n);
      ZigzagBijection(n, 0);
      AtSplit(data, pos, ZigzagVarint(n), key.value);
      UvarintRoundTrip(data, pos, Zigzag(n));
      TakeExact(data, pos + |ZigzagVarint(n)|, end, key.value);
    }
  }

  lemma {:induction false} HeadersRoundTrip(data: Bytes, pos: nat, end: nat, hs: seq<Header>)
    requires At(data, pos, HeadersBytes(hs)) && pos + |HeadersBytes(hs)| <= end <= |data| < TWO_63
    ensures ParseHeaders(data, pos, end, |hs|) == Ok(hs, pos + |HeadersBytes(hs)|)
    decreases |hs|
  {
    hide At, StringBytes, ParseString;
    if |hs| > 0 {
      var h := hs[0];
      var k, v, rest := StringBytes(h.key), StringBytes(h.value), HeadersBytes(hs[1..]);
      AtSplit(data, pos, k, v + rest);
      AtSplit(data, pos + |k|, v, rest);
      StringRoundTrip(data, pos, end, h.key);
      StringRoundTrip(data, pos + |k|, end, h.value);
      HeadersRoundTrip(data, pos + |k| + |v|, end, hs[1..]);
      assert [h] + hs[1..] == hs;
    }
  }

  lemma FieldsTail(data: Bytes, pos: nat, end: nat, rec: Record)
    requires At(data, pos, RecordTail(rec)) && end == pos + |RecordTail(rec)| && |data| < TWO_63
    ensures var p := pos + |StringBytes(rec.value)|;
      && ParseString(data, pos, end) == Ok(rec.value, p)
      && ParseUvarint(data, p) == Ok(|rec.headers|, p + |LengthPrefix(|rec.headers|)|)
      && ParseHeaders(data, p + |LengthPrefix(|rec.headers|)|, end, |rec.headers|) == Ok(rec.headers, end)
  {
    hide At, StringBytes, LengthPrefix, HeadersBytes, ParseHeaders, ParseString, ParseUvarint;
    var v, n, h := StringBytes(rec.value), LengthPrefix(|rec.headers|), HeadersBytes(rec.headers);
    assert end == pos + |v| + |n| + |h|;
    AtSplit(data, pos, v, n + h);
    AtSplit(data, pos + |v|, n, h);
    assert |rec.headers| < TWO_64;
    StringRoundTrip(data, pos, end, rec.value);
    PrefixRoundTrip(data, pos + |v|, |rec.headers|);
    HeadersRoundTrip(data, pos + |v| + |n|, end, rec.headers);
  }

  lemma PrefixRoundTrip(data: Bytes, pos: nat, n: nat)
    requires At(data, pos, LengthPrefix(n)) && n < TWO_64
    ensures ParseUvarint(data, pos) == Ok(n, pos + |LengthPrefix(n)|)
  {
    UvarintRoundTrip(data, pos, n);
  }

  /** Timestamp delta, offset delta and key: the head of a record after its attributes byte. */
  lemma FieldsRoundTrip(data: Bytes, pos: nat, rec: Record, base: int64, delta: int64)
    requires At(data, pos, RecordBody(rec, base, delta)) && |data| < TWO_63
    ensures ParseFields(data, pos + 1, pos + |RecordBody(rec, base, delta)|, base)
         == Ok(rec, pos + |RecordBody(rec, base, delta)|)
  {
    hide At, RecordTail, KeyBytes, ZigzagVarint, Zigzag, Unzigzag, WrapInt64,
         ParseHeaders, ParseString, ParseUvarint, ParseKey;
    var end := pos + |RecordBody(rec, base, delta)|;
    var ts := WrapInt64(rec.timestampMs - base);
    var t, d, k, tail := ZigzagVarint(ts), ZigzagVarint(delta), KeyBytes(rec.key), RecordTail(rec);
    AtSplit(data, pos, [0], t + (d + (k + tail)));
    AtSplit(data, pos + 1, t, d + (k + tail));
    AtSplit(data, pos + 1 + |t|, d, k + tail);
    AtSplit(data, pos + 1 + |t| + |d|, k, tail);
    ZigzagRoundTrip(data, pos + 1, ts);
    ZigzagRoundTrip(data, pos + 1 + |t|, delta);
    KeyRoundTrip(data, pos + 1 + |t| + |d|, end, rec.key);
    FieldsTail(data, pos + 1 + |t| + |d| + |k|, end, rec);
    WrapDeltaRestores(base, rec.timestampMs);
  }

  lemma ZigzagRoundTrip(data: Bytes, pos: nat, n: int64)
    requires At(data, pos, ZigzagVarint(n))
    ensures ParseUvarint(data, pos) == Ok(Zigzag(n), pos + |ZigzagVarint(n)|)
    ensures Unzigzag(Zigzag(n)) == n
  {
    UvarintRoundTrip(data, pos, Zigzag(n));
    ZigzagBijection(n, 0);
  }

  lemma RecordRoundTrip(data: Bytes, pos: nat, rec: Record, base: int64, delta: int64)
    requires At(data, pos, RecordBytes(rec, base, delta)) && |data| < TWO_63
    ensures ParseRecord(data, pos, base) == Ok(rec, pos + |RecordBytes(rec, base, delta)|)
  {
    hide At, LengthPrefix, RecordBody, ParseFields, ParseUvarint;
    var body := RecordBody(rec, base, delta);
    var prefix := LengthPrefix(|body|);
    AtSplit(data, pos, prefix, body);
    PrefixRoundTrip(data, pos, |body|);
    WrapIdentity(pos + |prefix| + |body|);
    FieldsRoundTrip(data, pos + |prefix|, rec, base, delta);
  }

  lemma {:induction false} RecordsRoundTrip(data: Bytes, pos: nat, rs: seq<Record>, base: int64, i: nat)
    requires i <= |rs| && |data| < TWO_63
    requires At(data, pos, RecordsFrom(rs, base, i)) && pos + |RecordsFrom(rs, base, i)| == |data|
    ensures ParseRecords(data, pos, base) == Ok(rs[i..], |data|)
    decreases |rs| - i
  {
    hide At, RecordBytes, ParseRecord;
    if i == |rs| {
      assert rs[i..] == [];
    } else {
      var r := RecordBytes(rs[i], base, WrapInt64(i));
      AtSplit(data, pos, r, RecordsFrom(rs, base, i + 1));
      RecordRoundTrip(data, pos, rs[i], base, WrapInt64(i));
      RecordsRoundTrip(data, pos + |r|, rs, base, i + 1);
      assert [rs[i]] + rs[i + 1..] == rs[i..];
    }
  }

  /** Header fields and record bytes are found through whatever follows the batch. */
  lemma FieldsThroughTail(b: Bytes, tail: Bytes)
    requires |b| >= HEADER
    ensures BaseOf(b + tail) == BaseOf(b) && LengthOf(b + tail) == LengthOf(b)
    ensures CountOf(b + tail) == CountOf(b) && CrcOf(b + tail) == CrcOf(b)
    ensures BaseTimestampOf(b + tail) == BaseTimestampOf(b) && MaxTimestampOf(b + tail) == MaxTimestampOf(b)
    ensures (b + tail)[HEADER..|b|] == b[HEADER..]
  {
    var d := b + tail;
    assert d[0..8] == b[0..8] && d[8..12] == b[8..12] && d[12..16] == b[12..16] && d[16..20] == b[16..20];
    assert d[22..30] == b[22..30] && d[30..38] == b[30..38];
  }

  /**
   Decoding an encoded batch, stamped with any base offset and followed by any bytes, gives back
   exactly the records that were encoded, and the position just after the batch.
   */
  lemma BatchRoundTrip(crc: Checksum, rs: seq<Record>, offset: int64, tail: Bytes)
    requires |rs| > 0 && HEADER + |RecordsBytes(rs)| < TWO_31
    ensures var r := Parsed(crc, Stamp(Encoded(crc, rs), offset) + tail);
      && r.Ok?
      && r.value.records == rs
      && r.next == |Encoded(crc, rs)|
      && r.value.header.baseOffset == offset
      && r.value.header.recordCount == |rs|
      && r.value.header.maxTimestamp == rs[|rs| - 1].timestampMs
  {
    hide Encoded, Stamp, RecordsFrom, ParseRecords, BaseOf, LengthOf, CountOf, CrcOf, BaseTimestampOf, MaxTimestampOf;
    var b := Stamp(Encoded(crc, rs), offset);
    EncodedFields(crc, rs);
    StampFields(Encoded(crc, rs), offset);
    FieldsThroughTail(b, tail);
    var recs := RecordsBytes(rs);
    assert (b + tail)[HEADER..|b|] == recs;
    RecordsRoundTrip(recs, 0, rs, rs[0].timestampMs, 0);
    assert rs[0..] == rs;
  }
}
