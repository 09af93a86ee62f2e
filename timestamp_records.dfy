/**
 * TimestampRecord: a value (possibly absent) stamped with the time of the
 * write that produced it. The kind of a record is derived from its value:
 * an absent value is a tombstone (TYPE_DELETED), a zero-length one is
 * TYPE_EMPTY and any other is TYPE_VALUE. On disk and on the wire a record is
 * a 4-byte big-endian kind tag, an 8-byte big-endian timestamp, then the
 * value bytes. Conflicting replica answers are resolved newest-wins, the
 * first of equally new records winning.
 */
module TimestampRecords {
  import opened JavaTypes
  import opened ByteBuffers

  const TYPE_EMPTY: Int32 := 0
  const TYPE_DELETED: Int32 := 1
  const TYPE_VALUE: Int32 := 2

  /** `Long.BYTES + Integer.BYTES`: the fixed header of a serialised record. */
  const HEADER_BYTES: nat := LONG_BYTES + INTEGER_BYTES

  /**
   * `new TimestampRecord(value, timestamp)`. The Java class stores the kind
   * in a field that only its constructor sets, from the value; here it is
   * the member function Type().
   */
  datatype TimestampRecord = TimestampRecord(value: Option<Bytes>, timestamp: Int64)
  {
    /** The kind the constructor derives from the value alone. */
    function Type(): (t: Int32)
      ensures t == TYPE_DELETED <==> value.None?
      ensures t == TYPE_EMPTY <==> value == Some([])
      ensures t == TYPE_VALUE <==> value.Some? && |value.value| > 0
    {
      if value.None? then TYPE_DELETED
      else if |value.value| == 0 then TYPE_EMPTY
      else TYPE_VALUE
    }

    /** The value bytes that follow the header: none for a tombstone. */
    function Payload(): Bytes
    {
      if value.None? then [] else value.value
    }
  }

  /** The bytes `toByteArray` produces for a record. */
  function Encode(record: TimestampRecord): (bytes: Bytes)
    ensures |bytes| == HEADER_BYTES + |record.Payload()|
    ensures DecodeInt(bytes[..INTEGER_BYTES]) == record.Type()
    ensures DecodeLong(bytes[INTEGER_BYTES..HEADER_BYTES]) == record.timestamp
    ensures bytes[HEADER_BYTES..] == record.Payload()
  {
    var tag, stamp := EncodeInt(record.Type()), EncodeLong(record.timestamp);
    var bytes := tag + stamp + record.Payload();
    assert bytes[..INTEGER_BYTES] == tag && bytes[INTEGER_BYTES..HEADER_BYTES] == stamp;
    IntRoundTrip(record.Type());
    LongRoundTrip(record.timestamp);
    bytes
  }

  /**
   * `toByteArray()`: allocates a buffer of exactly the header size plus the
   * value length and fills it with putInt, putLong and put.
   */
  method ToByteArray(record: TimestampRecord) returns (result: array<Byte>)
    ensures fresh(result) && result[..] == Encode(record)
  {
    var buffer: ByteBuffer;
    var tag, stamp := EncodeInt(record.Type()), EncodeLong(record.timestamp);
    if record.value.None? {
      buffer := new ByteBuffer.Allocate(LONG_BYTES + INTEGER_BYTES);
      buffer.PutInt(record.Type());
      assert buffer.hb[..INTEGER_BYTES] == tag;
      buffer.PutLong(record.timestamp);
      assert buffer.hb[..] == tag + stamp;
    } else {
      var payload := record.value.value;
      buffer := new ByteBuffer.Allocate(LONG_BYTES + INTEGER_BYTES + |payload|);
      buffer.PutInt(record.Type());
      assert buffer.hb[..INTEGER_BYTES] == tag;
      buffer.PutLong(record.timestamp);
      assert buffer.hb[..HEADER_BYTES] == tag + stamp;
      buffer.Put(payload);
      assert buffer.hb[..] == tag + stamp + payload;
    }
    result := buffer.hb;
  }

  /** The kind tag stored in the first four bytes of a serialised record. */
  function Tag(bytes: Bytes): Int32
    requires |bytes| >= HEADER_BYTES
  {
    DecodeInt(bytes[..INTEGER_BYTES])
  }

  /**
   * `fromByteArray(bytes)`: null for a null or short input and for an
   * unknown tag; otherwise the record is rebuilt through the constructor,
   * so its kind is derived again from the value read.
   */
  function FromByteArray(bytes: Option<Bytes>): (r: Option<TimestampRecord>)
    ensures r.None? <==> (bytes.None? || |bytes.value| < HEADER_BYTES
                          || Tag(bytes.value) !in {TYPE_EMPTY, TYPE_DELETED, TYPE_VALUE})
    ensures r.Some? ==> r.value.timestamp == DecodeLong(bytes.value[INTEGER_BYTES..HEADER_BYTES])
  {
    if bytes.None? || |bytes.value| < LONG_BYTES + INTEGER_BYTES then None
    else
      var b := bytes.value;
      var tag := DecodeInt(b[..INTEGER_BYTES]);
      var timestamp := DecodeLong(b[INTEGER_BYTES..HEADER_BYTES]);
      if tag == TYPE_VALUE then Some(TimestampRecord(Some(b[HEADER_BYTES..]), timestamp))
      else if tag == TYPE_EMPTY then Some(TimestampRecord(Some([]), timestamp))
      else if tag == TYPE_DELETED then Some(TimestampRecord(None, timestamp))
      else None
  }

  /** Every record survives serialisation: kind, timestamp and value, for all three kinds. */
  lemma RoundTrip(record: TimestampRecord)
    ensures FromByteArray(Some(Encode(record))) == Some(record)
  {
    var bytes := Encode(record);
    assert bytes[HEADER_BYTES..] == record.Payload();
  }

  /** What the parser reads from each tag; the bytes after the header matter only under tag 2. */
  lemma FromByteArrayByTag(bytes: Bytes)
    requires |bytes| >= HEADER_BYTES
    ensures var ts := DecodeLong(bytes[INTEGER_BYTES..HEADER_BYTES]);
            && (Tag(bytes) == TYPE_DELETED ==> FromByteArray(Some(bytes)) == Some(TimestampRecord(None, ts)))
            && (Tag(bytes) == TYPE_EMPTY ==> FromByteArray(Some(bytes)) == Some(TimestampRecord(Some([]), ts)))
            && (Tag(bytes) == TYPE_VALUE ==>
                  FromByteArray(Some(bytes)) == Some(TimestampRecord(Some(bytes[HEADER_BYTES..]), ts)))
    ensures Tag(bytes) != TYPE_VALUE ==>
              forall extra: Bytes {:trigger bytes + extra} ::
                FromByteArray(Some(bytes + extra)) == FromByteArray(Some(bytes))
  {
    forall extra: Bytes
      ensures Tag(bytes) != TYPE_VALUE ==> FromByteArray(Some(bytes + extra)) == FromByteArray(Some(bytes))
    {
      var longer := bytes + extra;
      assert longer[..INTEGER_BYTES] == bytes[..INTEGER_BYTES];
      assert longer[INTEGER_BYTES..HEADER_BYTES] == bytes[INTEGER_BYTES..HEADER_BYTES];
    }
  }

  /**
   * A tag-2 buffer with nothing after the header does not come back as a
   * VALUE record: the constructor sees a zero-length value and makes it EMPTY.
   */
  lemma ValueTagWithoutPayloadIsEmpty(bytes: Bytes)
    requires |bytes| == HEADER_BYTES && Tag(bytes) == TYPE_VALUE
    ensures FromByteArray(Some(bytes)).Some?
    ensures FromByteArray(Some(bytes)).value.Type() == TYPE_EMPTY
  {
  }

  /**
   * Re-serialising a parsed record gives back the input exactly when the
   * input was canonical: a VALUE tag with a payload, or another tag with
   * nothing after the header.
   */
  lemma EncodeOfParsed(bytes: Bytes)
    requires FromByteArray(Some(bytes)).Some?
    ensures Encode(FromByteArray(Some(bytes)).value) == bytes <==>
              (if Tag(bytes) == TYPE_VALUE then |bytes| > HEADER_BYTES else |bytes| == HEADER_BYTES)
  {
    var r := FromByteArray(Some(bytes)).value;
    var e := Encode(r);
    var tag, stamp := bytes[..INTEGER_BYTES], bytes[INTEGER_BYTES..HEADER_BYTES];
    assert bytes == tag + stamp + bytes[HEADER_BYTES..];
    IntBytesRoundTrip(tag);
    LongBytesRoundTrip(stamp);
    assert e == EncodeInt(r.Type()) + EncodeLong(r.timestamp) + r.Payload();
    assert EncodeLong(r.timestamp) == stamp;
    if Tag(bytes) == TYPE_VALUE && |bytes| > HEADER_BYTES {
      assert r.Type() == TYPE_VALUE;
    } else if Tag(bytes) == TYPE_VALUE {
      assert r.Type() == TYPE_EMPTY;
      assert e[..INTEGER_BYTES] != tag;
    } else {
      assert r.Type() == Tag(bytes);
      assert |e| == HEADER_BYTES;
    }
  }

  // Newest-wins resolution.

  /** One step of `latestOf`: a non-null record replaces the current pick only if strictly newer. */
  function Newer(pick: Option<TimestampRecord>, record: Option<TimestampRecord>): Option<TimestampRecord>
  {
    if record.None? then pick
    else if pick.None? then record
    else if record.value.timestamp > pick.value.timestamp then record
    else pick
  }

  /** The record `latestOf` picks from a list, scanning it from the front. */
  function Latest(records: seq<Option<TimestampRecord>>): Option<TimestampRecord>
  {
    if |records| == 0 then None
    else Newer(Latest(records[..|records| - 1]), records[|records| - 1])
  }

  /** `latestOf(records)`: one pass, keeping the newest non-null record seen so far. */
  method LatestOf(records: seq<Option<TimestampRecord>>) returns (result: Option<TimestampRecord>)
    ensures result == Latest(records)
  {
    result := None;
    for i := 0 to |records|
      invariant result == Latest(records[..i])
    {
      assert records[..i + 1][..i] == records[..i];
      var record := records[i];
      if record.Some? {
        if result.None? {
          result := record;
        } else if record.value.timestamp > result.value.timestamp {
          result := record;
        }
      }
    }
    assert records[..|records|] == records;
  }

  /**
   * Position k holds the record newest-wins resolution must pick: it is
   * non-null, no non-null record is newer, and every non-null record before
   * it is strictly older.
   */
  ghost predicate FirstNewestAt(records: seq<Option<TimestampRecord>>, k: int)
  {
    && 0 <= k < |records|
    && records[k].Some?
    && (forall j :: 0 <= j < |records| && records[j].Some? ==>
          records[j].value.timestamp <= records[k].value.timestamp)
    && (forall j :: 0 <= j < k && records[j].Some? ==>
          records[j].value.timestamp < records[k].value.timestamp)
  }

  /** latestOf returns null exactly when every entry is null (in particular for an empty list). */
  lemma {:induction false} LatestNoneIff(records: seq<Option<TimestampRecord>>)
    ensures Latest(records).None? <==> forall i :: 0 <= i < |records| ==> records[i].None?
  {
    if |records| > 0 {
      var n := |records| - 1;
      var prefix := records[..n];
      LatestNoneIff(prefix);
      assert forall i :: 0 <= i < n ==> prefix[i] == records[i];
    }
  }

  /** A non-null answer of latestOf is the first of the newest non-null records. */
  lemma {:induction false} LatestIsFirstNewest(records: seq<Option<TimestampRecord>>)
    ensures Latest(records).Some? ==>
              exists k :: FirstNewestAt(records, k) && records[k] == Latest(records)
  {
    if |records| > 0 {
      var n := |records| - 1;
      var prefix := records[..n];
      assert forall i :: 0 <= i < n ==> prefix[i] == records[i];
      LatestIsFirstNewest(prefix);
      var last := records[n];
      if Latest(prefix).None? {
        LatestNoneIff(prefix);
        if last.Some? {
          assert FirstNewestAt(records, n);
        }
      } else {
        var k0 :| FirstNewestAt(prefix, k0) && prefix[k0] == Latest(prefix);
        if last.Some? && last.value.timestamp > Latest(prefix).value.timestamp {
          assert FirstNewestAt(records, n);
        } else {
          assert FirstNewestAt(records, k0);
        }
      }
    }
  }

  /** Conversely, whenever position k holds the first newest record, latestOf returns it. */
  lemma FirstNewestIsLatest(records: seq<Option<TimestampRecord>>, k: int)
    requires FirstNewestAt(records, k)
    ensures Latest(records) == records[k]
  {
    LatestIsFirstNewest(records);
    LatestNoneIff(records);
  }

  /**
   * The order in which answers were collected does not matter unless two
   * different records carry the same timestamp: any rearrangement of the
   * same answers resolves to the same record.
   */
  lemma LatestIgnoresOrder(xs: seq<Option<TimestampRecord>>, ys: seq<Option<TimestampRecord>>)
    requires multiset(xs) == multiset(ys)
    requires forall i, j :: (0 <= i < |xs| && 0 <= j < |xs| && xs[i].Some? && xs[j].Some? &&
               xs[i].value.timestamp == xs[j].value.timestamp) ==> xs[i] == xs[j]
    ensures Latest(xs) == Latest(ys)
  {
    LatestNoneIff(xs);
    LatestNoneIff(ys);
    LatestIsFirstNewest(xs);
    LatestIsFirstNewest(ys);
    if Latest(xs).None? {
      forall j | 0 <= j < |ys| ensures ys[j].None? {
        assert ys[j] in multiset(xs);
      }
    } else {
      var kx :| FirstNewestAt(xs, kx) && xs[kx] == Latest(xs);
      assert xs[kx] in multiset(ys);
      var ky :| FirstNewestAt(ys, ky) && ys[ky] == Latest(ys);
      assert ys[ky] in multiset(xs);
      var jx :| 0 <= jx < |xs| && xs[jx] == ys[ky];
      var jy :| 0 <= jy < |ys| && ys[jy] == xs[kx];
      assert xs[jx].value.timestamp == xs[kx].value.timestamp;
    }
  }
}
