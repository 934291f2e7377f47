/**
 * `generate_analytics_cache_key`: the cache key of an analytics query is
 * `analytics:` followed by the MD5 hex digest of a canonical JSON payload
 * (ISO dates, sorted dimension and metric lists, sorted member names).
 * MD5 itself (RFC 1321) is not modelled: the digest function is a parameter.
 */
module CacheKey {
  import opened Wrappers
  import opened Hex
  import opened IsoDate
  import opened Sorting
  import opened Json
  import Utf8

  const Prefix: string := "analytics:"

  /** A message digest: bytes in, digest bytes out (MD5 gives 16 of them). */
  type Digest = seq<byte> -> seq<byte>

  /** The payload the key is computed from, before serialisation. */
  function CanonicalPayload(dateFrom: Date, dateTo: Date, dimensions: seq<string>, metrics: seq<string>): (p: Payload)
    requires ValidDate(dateFrom) && ValidDate(dateTo)
    ensures Sorted(p.dimensions) && multiset(p.dimensions) == multiset(dimensions)
    ensures Sorted(p.metrics) && multiset(p.metrics) == multiset(metrics)
    ensures ParseIso(p.dateFrom) == Some(dateFrom) && ParseIso(p.dateTo) == Some(dateTo)
  {
    IsoRoundTrip(dateFrom);
    IsoRoundTrip(dateTo);
    Payload(IsoFormat(dateFrom), IsoFormat(dateTo), Sort(dimensions), Sort(metrics))
  }

  /** The bytes handed to the digest: the UTF-8 encoding of the JSON payload. */
  function PayloadBytes(p: Payload): seq<byte> {
    Utf8.Encode(Dumps(p))
  }

  /** The serialised payload is printable ASCII, so its UTF-8 bytes are its code points, one per character. */
  lemma PayloadBytesAscii(p: Payload)
    ensures |PayloadBytes(p)| == |Dumps(p)|
    ensures forall i :: 0 <= i < |Dumps(p)| ==> PayloadBytes(p)[i] == Dumps(p)[i] as int
  {
    Utf8.AsciiBytes(Dumps(p));
  }

  /**
   * `generate_analytics_cache_key(date_from, date_to, dimensions, metrics)`
   * with `md5` standing for `hashlib.md5(...).digest()`.
   */
  function GenerateAnalyticsCacheKey(md5: Digest, dateFrom: Date, dateTo: Date,
                                     dimensions: seq<string>, metrics: seq<string>): (key: string)
    requires ValidDate(dateFrom) && ValidDate(dateTo)
    ensures |key| == |Prefix| + 2 * |md5(PayloadBytes(CanonicalPayload(dateFrom, dateTo, dimensions, metrics)))|
    ensures key[..|Prefix|] == Prefix
    ensures ParseHex(key[|Prefix|..]) == Some(md5(PayloadBytes(CanonicalPayload(dateFrom, dateTo, dimensions, metrics))))
    ensures forall i :: |Prefix| <= i < |key| ==> IsHexChar(key[i])
  {
    var digest := md5(PayloadBytes(CanonicalPayload(dateFrom, dateTo, dimensions, metrics)));
    var key := Prefix + HexDigest(digest);
    assert key[|Prefix|..] == HexDigest(digest);
    HexDigestRoundTrip(digest);
    key
  }

  /**
   * The canonical payload identifies exactly the query's semantic inputs: the
   * two dates and the dimension and metric lists up to reordering.
   */
  lemma CanonicalPayloadIdentifiesQuery(df1: Date, dt1: Date, dims1: seq<string>, mets1: seq<string>,
                                        df2: Date, dt2: Date, dims2: seq<string>, mets2: seq<string>)
    requires ValidDate(df1) && ValidDate(dt1) && ValidDate(df2) && ValidDate(dt2)
    ensures CanonicalPayload(df1, dt1, dims1, mets1) == CanonicalPayload(df2, dt2, dims2, mets2)
            <==> df1 == df2 && dt1 == dt2 && multiset(dims1) == multiset(dims2) && multiset(mets1) == multiset(mets2)
  {
    if df1 == df2 && dt1 == dt2 && multiset(dims1) == multiset(dims2) && multiset(mets1) == multiset(mets2) {
      SortPermutationInvariant(dims1, dims2);
      SortPermutationInvariant(mets1, mets2);
    }
  }

  /**
   * The bytes handed to the digest identify the query just as the payload
   * does: the UTF-8 encoding and the JSON text both lose nothing.
   */
  lemma PayloadBytesIdentifyQuery(df1: Date, dt1: Date, dims1: seq<string>, mets1: seq<string>,
                                  df2: Date, dt2: Date, dims2: seq<string>, mets2: seq<string>)
    requires ValidDate(df1) && ValidDate(dt1) && ValidDate(df2) && ValidDate(dt2)
    ensures PayloadBytes(CanonicalPayload(df1, dt1, dims1, mets1)) == PayloadBytes(CanonicalPayload(df2, dt2, dims2, mets2))
            <==> df1 == df2 && dt1 == dt2 && multiset(dims1) == multiset(dims2) && multiset(mets1) == multiset(mets2)
  {
    var p, q := CanonicalPayload(df1, dt1, dims1, mets1), CanonicalPayload(df2, dt2, dims2, mets2);
    Utf8.Injective(Dumps(p), Dumps(q));
    DumpsInjective(p, q);
    CanonicalPayloadIdentifiesQuery(df1, dt1, dims1, mets1, df2, dt2, dims2, mets2);
  }

  /** Reordering the requested dimensions does not change the key. */
  lemma DimensionOrderIrrelevant(md5: Digest, dateFrom: Date, dateTo: Date,
                                 dims1: seq<string>, dims2: seq<string>, metrics: seq<string>)
    requires ValidDate(dateFrom) && ValidDate(dateTo)
    requires multiset(dims1) == multiset(dims2)
    ensures GenerateAnalyticsCacheKey(md5, dateFrom, dateTo, dims1, metrics)
            == GenerateAnalyticsCacheKey(md5, dateFrom, dateTo, dims2, metrics)
  {
    SortPermutationInvariant(dims1, dims2);
  }

  /** Reordering the requested metrics does not change the key. */
  lemma MetricOrderIrrelevant(md5: Digest, dateFrom: Date, dateTo: Date,
                              dimensions: seq<string>, mets1: seq<string>, mets2: seq<string>)
    requires ValidDate(dateFrom) && ValidDate(dateTo)
    requires multiset(mets1) == multiset(mets2)
    ensures GenerateAnalyticsCacheKey(md5, dateFrom, dateTo, dimensions, mets1)
            == GenerateAnalyticsCacheKey(md5, dateFrom, dateTo, dimensions, mets2)
  {
    SortPermutationInvariant(mets1, mets2);
  }

  /** The example of a dimension swap: `["a", "b"]` and `["b", "a"]` give one key. */
  lemma SwappedDimensionsSameKey(md5: Digest, dateFrom: Date, dateTo: Date, metrics: seq<string>)
    requires ValidDate(dateFrom) && ValidDate(dateTo)
    ensures GenerateAnalyticsCacheKey(md5, dateFrom, dateTo, ["a", "b"], metrics)
            == GenerateAnalyticsCacheKey(md5, dateFrom, dateTo, ["b", "a"], metrics)
  {
    assert multiset(["a", "b"]) == multiset(["b", "a"]);
    DimensionOrderIrrelevant(md5, dateFrom, dateTo, ["a", "b"], ["b", "a"], metrics);
  }
}
