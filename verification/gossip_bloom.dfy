/**
 * The gossip bloom filter of kitsune_p2p and its byte serialisation: a
 * 44-byte little-endian header (bit count, hash-function count, four sip
 * keys) followed by the filter's bitmap.
 */
module GossipBloom {
  import opened Wrappers
  import opened LittleEndian

  /** Kitsune hashes, opaque here: their bytes. */
  type KitsuneOpHash = seq<byte>
  type KitsuneAgent = seq<byte>

  /** The key under which an item is entered in a bloom filter. */
  datatype MetaOpKey =
    | Op(op: KitsuneOpHash)
    | Agent(agent: KitsuneAgent, timestamp: u64)

  /** The data entered in a bloom filter; the signed agent info is a parameter. */
  datatype MetaOpData<AgentInfoSigned> =
    | Op(op: KitsuneOpHash, chunk: seq<byte>)
    | Agent(info: AgentInfoSigned)

  /** The two pairs of sip-hash keys of a filter, `[(k1, k2), (k3, k4)]`. */
  datatype SipKeys = SipKeys(first: (u64, u64), second: (u64, u64))

  /**
   * A bloom filter, as its four components: the bitmap bytes, the number of
   * bits, the number of hash functions (`k_num`) and the sip keys.
   */
  datatype BloomFilter = BloomFilter(bitmap: seq<byte>, numberOfBits: u64, numberOfHashFunctions: u32, sipKeys: SipKeys)

  /** The length of the fixed header in front of the bitmap. */
  const HeaderLength: nat := 8 + 4 + 8 * 4

  /** `PartialEq for BloomFilter`: the four components compared one by one. */
  function Eq(a: BloomFilter, b: BloomFilter): (r: bool)
    ensures r <==> a == b
  {
    && a.bitmap == b.bitmap
    && a.numberOfBits == b.numberOfBits
    && a.numberOfHashFunctions == b.numberOfHashFunctions
    && a.sipKeys == b.sipKeys
  }

  /** The comparison is an equivalence, so `Eq for BloomFilter` is sound. */
  lemma EqIsEquivalence(a: BloomFilter, b: BloomFilter, c: BloomFilter)
    ensures Eq(a, a)
    ensures Eq(a, b) == Eq(b, a)
    ensures Eq(a, b) && Eq(b, c) ==> Eq(a, c)
  {
  }

  /** The bytes a filter serialises to. */
  function Encoding(f: BloomFilter): (r: seq<byte>)
    ensures |r| == |f.bitmap| + HeaderLength
  {
    var SipKeys((k1, k2), (k3, k4)) := f.sipKeys;
    U64ToLe(f.numberOfBits) + U32ToLe(f.numberOfHashFunctions)
    + U64ToLe(k1) + U64ToLe(k2) + U64ToLe(k3) + U64ToLe(k4)
    + f.bitmap
  }

  /**
   * `encode_bloom_filter`: the buffer is built by appending the header
   * fields and then the bitmap.
   */
  method EncodeBloomFilter(f: BloomFilter) returns (buf: seq<byte>)
    ensures buf == Encoding(f)
    ensures |buf| == |f.bitmap| + 8 + 4 + 8 * 4
  {
    var bitmap := f.bitmap;
    var bitmapBits := f.numberOfBits;
    var kNum := f.numberOfHashFunctions;
    var SipKeys((k1, k2), (k3, k4)) := f.sipKeys;
    buf := [];
    buf := buf + U64ToLe(bitmapBits);
    buf := buf + U32ToLe(kNum);
    buf := buf + U64ToLe(k1);
    buf := buf + U64ToLe(k2);
    buf := buf + U64ToLe(k3);
    buf := buf + U64ToLe(k4);
    buf := buf + bitmap;
  }

  /** Where each field of the header sits in an encoding. */
  lemma EncodingLayout(f: BloomFilter)
    ensures var b := Encoding(f);
      && b[0..8] == U64ToLe(f.numberOfBits)
      && b[8..12] == U32ToLe(f.numberOfHashFunctions)
      && b[12..20] == U64ToLe(f.sipKeys.first.0)
      && b[20..28] == U64ToLe(f.sipKeys.first.1)
      && b[28..36] == U64ToLe(f.sipKeys.second.0)
      && b[36..44] == U64ToLe(f.sipKeys.second.1)
      && b[44..] == f.bitmap
  {
    var b := Encoding(f);
    var SipKeys((k1, k2), (k3, k4)) := f.sipKeys;
    var parts := [U64ToLe(f.numberOfBits), U32ToLe(f.numberOfHashFunctions),
                  U64ToLe(k1), U64ToLe(k2), U64ToLe(k3), U64ToLe(k4)];
    var header := parts[0] + parts[1] + parts[2] + parts[3] + parts[4] + parts[5];
    assert b == header + f.bitmap;
    assert header[0..8] == parts[0];
    assert header[8..12] == parts[1];
    assert header[12..20] == parts[2];
    assert header[20..28] == parts[3];
    assert header[28..36] == parts[4];
    assert header[36..44] == parts[5];
  }

  /** What can go wrong when reading a filter back. */
  datatype DecodeError = TooShort(length: nat)

  /** The header and bitmap read back from their fixed offsets. */
  function ReadFilter(b: seq<byte>): (r: BloomFilter)
    requires |b| >= HeaderLength
  {
    var bitmapBits := U64FromLe(b[0..8]);
    var kNum := U32FromLe(b[8..12]);
    var k1 := U64FromLe(b[12..20]);
    var k2 := U64FromLe(b[20..28]);
    var k3 := U64FromLe(b[28..36]);
    var k4 := U64FromLe(b[36..44]);
    BloomFilter(b[44..], bitmapBits, kNum, SipKeys((k1, k2), (k3, k4)))
  }

  /**
   * `BloomBytesVisitor::visit_bytes` with the length check it needs: fewer
   * bytes than the header is an error; otherwise every input is the
   * encoding of the filter it decodes to.
   */
  function VisitBytes(b: seq<byte>): (r: Result<BloomFilter, DecodeError>)
    ensures r.Err? <==> |b| < HeaderLength
    ensures r.Err? ==> r.error == TooShort(|b|)
    ensures r.Ok? ==> Encoding(r.value) == b
  {
    if |b| < HeaderLength then Err(TooShort(|b|))
    else
      var f := ReadFilter(b);
      EncodingLayout(f);
      assert b == b[0..8] + b[8..12] + b[12..20] + b[20..28] + b[28..36] + b[36..44] + b[44..];
      Ok(f)
  }

  /** Decoding an encoding gives back the filter. */
  lemma DecodeEncode(f: BloomFilter)
    ensures VisitBytes(Encoding(f)) == Ok(f)
  {
    var b := Encoding(f);
    EncodingLayout(f);
    var g := VisitBytes(b).value;
    assert Encoding(g) == b;
    EncodingLayout(g);
    var SipKeys((k1, k2), (k3, k4)) := f.sipKeys;
    var SipKeys((l1, l2), (l3, l4)) := g.sipKeys;
    U64Injective(f.numberOfBits, g.numberOfBits);
    U32Injective(f.numberOfHashFunctions, g.numberOfHashFunctions);
    U64Injective(k1, l1);
    U64Injective(k2, l2);
    U64Injective(k3, l3);
    U64Injective(k4, l4);
  }

  /** Two filters with the same encoding are the same filter. */
  lemma EncodingInjective(f: BloomFilter, g: BloomFilter)
    requires Encoding(f) == Encoding(g)
    ensures f == g
  {
    DecodeEncode(f);
    DecodeEncode(g);
  }

  lemma U64Injective(x: u64, y: u64)
    requires U64ToLe(x) == U64ToLe(y)
    ensures x == y
  {
  }

  lemma U32Injective(x: u32, y: u32)
    requires U32ToLe(x) == U32ToLe(y)
    ensures x == y
  {
  }

  // ---------------------------------------------------------------------
  // The visitor as it is written
  // ---------------------------------------------------------------------

  /** What the visitor as written does: it returns a filter, or it panics. */
  datatype Visited = Returned(filter: BloomFilter) | Panicked

  /**
   * `visit_bytes` as written: the fixed-offset reads and the bitmap slice
   * `[44..]` panic on an input shorter than the header; no error is
   * returned.
   */
  function VisitBytesAsWritten(b: seq<byte>): (r: Visited)
    ensures r.Panicked? <==> |b| < HeaderLength
    ensures r.Returned? ==> VisitBytes(b) == Ok(r.filter)
  {
    if |b| < 8 || |b| < 12 || |b| < 20 || |b| < 28 || |b| < 36 || |b| < 44 then Panicked
    else Returned(ReadFilter(b))
  }

  /** A 43-byte payload makes the visitor as written panic, where an error is due. */
  lemma ShortPayloadPanics()
    ensures var b: seq<byte> := seq(43, _ => 0);
      VisitBytesAsWritten(b) == Panicked && VisitBytes(b) == Err(TooShort(43))
  {
  }
}
