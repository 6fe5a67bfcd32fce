/** The packets that the unique-IP rewrite edits, written out field by field: IPv4 headers as in
    section 3.1 of RFC 791 and IPv6 headers as in section 3 of RFC 8200. */
module IpHeaders {
  import CText
  import opened UniqueIp

  type Nibble = x: int | 0 <= x < 16
  type Word16 = x: int | 0 <= x < 0x1_0000

  function Two(x: Word16): (s: seq<Byte>)
    ensures |s| == 2
  {
    [x / 256, x % 256]
  }

  function Four(x: Addr): (s: seq<Byte>)
    ensures |s| == 4
  {
    [x / 0x100_0000, x / 0x1_0000 % 256, x / 256 % 256, x % 256]
  }

  lemma {:induction false} FourIsBe32(x: Addr)
    ensures Four(x) == Be32(x)
  {
    var hi, lo := x / 65536, x % 65536;
    assert x / 256 == 256 * hi + lo / 256;
    assert x / 0x100_0000 == hi / 256;
  }

  // ---------- headers ----------

  datatype V4 = V4(ihl: Nibble, tos: Byte, length: Word16, id: Word16, flags: Byte, fragment: Word16,
                   ttl: Byte, protocol: Byte, checksum: Word16, src: Addr, dst: Addr)

  predicate V4Ok(h: V4) {
    h.flags < 8 && h.fragment < 8192
  }

  /** What precedes the addresses: version, header length, type of service, total length,
      identification, flags and fragment offset, time to live, protocol and checksum. */
  function V4Front(h: V4): (s: seq<Byte>)
    requires V4Ok(h)
    ensures |s| == 12
  {
    [4 * 16 + h.ihl, h.tos] + Two(h.length) + Two(h.id) + Two(h.flags * 8192 + h.fragment) + [h.ttl, h.protocol] + Two(h.checksum)
  }

  function V4Header(h: V4): (s: seq<Byte>)
    requires V4Ok(h)
    ensures |s| == 20
  {
    V4Front(h) + Four(h.src) + Four(h.dst)
  }

  /** The upper three words of an IPv6 address. */
  type High = s: seq<Byte> | |s| == 12 witness [0, 0, 0, 0, 0, 0, 0, 0, 0, 0, 0, 0]

  datatype V6 = V6(trafficClass: Byte, flow: nat, length: Word16, nextHeader: Byte, hopLimit: Byte,
                   srcHigh: High, src: Addr, dstHigh: High, dst: Addr)

  predicate V6Ok(h: V6) {
    h.flow < 0x10_0000
  }

  /** What precedes the addresses: version, traffic class and flow label, payload length, next
      header and hop limit. */
  function V6Front(h: V6): (s: seq<Byte>)
    requires V6Ok(h)
    ensures |s| == 8
  {
    Four((6 * 256 + h.trafficClass) * 0x10_0000 + h.flow) + Two(h.length) + [h.nextHeader, h.hopLimit]
  }

  function V6Header(h: V6): (s: seq<Byte>)
    requires V6Ok(h)
    ensures |s| == 40
  {
    V6Front(h) + (h.srcHigh + Four(h.src)) + (h.dstHigh + Four(h.dst))
  }

  // ---------- the edit ----------

  lemma {:induction false} AreaOf(pre: seq<Byte>, mid: seq<Byte>, post: seq<Byte>, p: Pair)
    ensures Area(pre, mid, post, p) == pre + (Four(p.src) + (mid + (Four(p.dst) + post)))
  {
    FourIsBe32(p.src);
    FourIsBe32(p.dst);
  }

  /** A packet as an area: what precedes, separates and follows the two addresses. */
  lemma {:induction false} V4Area(l2: seq<Byte>, h: V4, payload: seq<Byte>)
    requires V4Ok(h)
    ensures l2 + V4Header(h) + payload == Area(l2 + V4Front(h), [], payload, Pair(h.src, h.dst))
  {
    AreaOf(l2 + V4Front(h), [], payload, Pair(h.src, h.dst));
  }

  lemma {:induction false} V6Area(l2: seq<Byte>, h: V6, payload: seq<Byte>)
    requires V6Ok(h)
    ensures l2 + V6Header(h) + payload == Area(l2 + V6Front(h) + h.srcHigh, h.dstHigh, payload, Pair(h.src, h.dst))
  {
    AreaOf(l2 + V6Front(h) + h.srcHigh, h.dstHigh, payload, Pair(h.src, h.dst));
  }

  /** The fields of an area are where it was put together. */
  lemma {:induction false} AreaFields(pre: seq<Byte>, mid: seq<Byte>, post: seq<Byte>, p: Pair, i: nat, j: nat)
    requires i == |pre| && j == i + 4 + |mid|
    ensures
      var s := Area(pre, mid, post, p);
      && |s| == j + 4 + |post|
      && s[..i] == pre && s[i + 4..j] == mid && s[j + 4..] == post
      && FromBe32(s[i..i + 4]) == p.src && FromBe32(s[j..j + 4]) == p.dst
  {
    var s := Area(pre, mid, post, p);
    Be32RoundTrip(p.src);
    Be32RoundTrip(p.dst);
    assert s[i..i + 4] == Be32(p.src);
    assert s[j..j + 4] == Be32(p.dst);
  }

  /** What the edit writes, for the packet seen as an area. */
  lemma {:induction false} AreaEdited(pre: seq<Byte>, mid: seq<Byte>, post: seq<Byte>, p: Pair, l2: Layer2, iteration: Counter, cached: bool)
    requires l2.Layer2? && (l2.etherType == 0x0800 || l2.etherType == 0x86DD)
    requires |pre| == l2.l2len + (if l2.etherType == 0x0800 then 12 else 20)
    requires |mid| == if l2.etherType == 0x0800 then 0 else 12
    ensures
      var s := Area(pre, mid, post, p);
      && Editable(l2, |s|) && ReadPair(s, l2) == p && Around(s, l2) == (pre, mid, post)
  {
    AreaFields(pre, mid, post, p, |pre|, |pre| + 4 + |mid|);
  }

  /** An edit of an IPv4 packet changes its two addresses and nothing else. */
  method EditV4(packet: array<Byte>, ghost l2: seq<Byte>, l2len: nat, ghost h: V4, ghost payload: seq<Byte>, iteration: Counter, cached: bool)
    returns (res: int)
    requires V4Ok(h) && l2len == |l2| && packet[..] == l2 + V4Header(h) + payload
    modifies packet
    ensures res == 0
    ensures
      var q := Edit(Pair(h.src, h.dst), iteration, cached);
      packet[..] == l2 + V4Header(h.(src := q.src, dst := q.dst)) + payload
  {
    ghost var p := Pair(h.src, h.dst);
    ghost var q := Edit(p, iteration, cached);
    V4Area(l2, h, payload);
    V4Area(l2, h.(src := q.src, dst := q.dst), payload);
    AreaEdited(l2 + V4Front(h), [], payload, p, Layer2(0x0800, l2len), iteration, cached);
    res := FastEditPacket(packet, packet.Length, Layer2(0x0800, l2len), iteration, cached);
  }

  /** The same for IPv6, whose addresses are edited in their last four bytes. */
  method EditV6(packet: array<Byte>, ghost l2: seq<Byte>, l2len: nat, ghost h: V6, ghost payload: seq<Byte>, iteration: Counter, cached: bool)
    returns (res: int)
    requires V6Ok(h) && l2len == |l2| && packet[..] == l2 + V6Header(h) + payload
    modifies packet
    ensures res == 0
    ensures
      var q := Edit(Pair(h.src, h.dst), iteration, cached);
      packet[..] == l2 + V6Header(h.(src := q.src, dst := q.dst)) + payload
  {
    ghost var p := Pair(h.src, h.dst);
    ghost var q := Edit(p, iteration, cached);
    V6Area(l2, h, payload);
    V6Area(l2, h.(src := q.src, dst := q.dst), payload);
    AreaEdited(l2 + V6Front(h) + h.srcHigh, h.dstHigh, payload, p, Layer2(0x86DD, l2len), iteration, cached);
    res := FastEditPacket(packet, packet.Length, Layer2(0x86DD, l2len), iteration, cached);
  }

  /** A packet that ends before the fixed part of its header does is refused and left alone,
      and so is one that is neither IPv4 nor IPv6. */
  method EditOther(packet: array<Byte>, etherType: nat, l2len: nat, iteration: Counter, cached: bool) returns (res: int)
    requires etherType == 0x0800 ==> packet.Length < l2len + 20
    requires etherType == 0x86DD ==> packet.Length < l2len + 40
    modifies packet
    ensures res == -1 && packet[..] == old(packet[..])
  {
    res := FastEditPacket(packet, packet.Length, Layer2(etherType, l2len), iteration, cached);
  }

  // ---------- checksums ----------

  /** The header checksum of section 3.1 of RFC 791: over the header and its options, with zero
      in the checksum field. */
  function HeaderChecksum(h: V4, options: seq<Byte>): nat
    requires V4Ok(h)
  {
    Carry(WordSum(V4Header(h.(checksum := 0)) + options))
  }

  /** The TCP or UDP checksum over the pseudo-header of section 3.1 of RFC 9293 and the segment,
      in which the checksum field is zero. */
  function V4SegmentChecksum(h: V4, segment: seq<Byte>): nat
    requires |segment| <= 65535
  {
    Carry(WordSum(Four(h.src) + Four(h.dst) + [0, h.protocol] + Two(|segment|) + segment))
  }

  /** The same with the pseudo-header of section 8.1 of RFC 8200. */
  function V6SegmentChecksum(h: V6, protocol: Byte, segment: seq<Byte>): nat
    requires |segment| <= 65535
  {
    Carry(WordSum(h.srcHigh + Four(h.src) + (h.dstHigh + Four(h.dst)) + Four(|segment|) + [0, 0, 0, protocol] + segment))
  }

  /** An IPv4 packet with a right header checksum and a right segment checksum still has them
      after any edit. */
  lemma {:induction false} V4ChecksumsKept(h: V4, options: seq<Byte>, segment: seq<Byte>, iteration: Counter, cached: bool)
    requires V4Ok(h) && |options| <= 40 && 0 < |segment| <= 65515
    ensures
      var q := Edit(Pair(h.src, h.dst), iteration, cached);
      var h' := h.(src := q.src, dst := q.dst);
      && HeaderChecksum(h', options) == HeaderChecksum(h, options)
      && V4SegmentChecksum(h', segment) == V4SegmentChecksum(h, segment)
  {
    var p := Pair(h.src, h.dst);
    var q := Edit(p, iteration, cached);
    SumKept(p, iteration, cached);
    V4HeaderKept(h.(checksum := 0), options, q);
    V4SegmentKept(h, segment, q);
  }

  lemma {:induction false} V4HeaderKept(h: V4, options: seq<Byte>, q: Pair)
    requires V4Ok(h) && |options| <= 40 && (h.src + h.dst) % ONES == (q.src + q.dst) % ONES
    ensures Carry(WordSum(V4Header(h.(src := q.src, dst := q.dst)) + options)) == Carry(WordSum(V4Header(h) + options))
  {
    V4Bare(h, V4Front(h), options);
    V4Bare(h.(src := q.src, dst := q.dst), V4Front(h), options);
    FrontNotZero(h);
    AreaKept(V4Front(h), [], options, Pair(h.src, h.dst), q);
  }

  lemma {:induction false} AreaKept(pre: seq<Byte>, mid: seq<Byte>, post: seq<Byte>, p: Pair, q: Pair)
    requires |pre| % 2 == 0 && |mid| % 2 == 0 && |pre| + |mid| + |post| <= 66000
    requires WordSum(pre) > 0 || WordSum(post) > 0
    requires (p.src + p.dst) % ONES == (q.src + q.dst) % ONES
    ensures Carry(WordSum(Area(pre, mid, post, q))) == Carry(WordSum(Area(pre, mid, post, p)))
  {
    assert |Area(pre, mid, post, p)| <= 66008;
    ChecksumSame(pre, mid, post, 0, p, q);
  }

  lemma {:induction false} V4Bare(h: V4, front: seq<Byte>, options: seq<Byte>)
    requires V4Ok(h) && front == V4Front(h)
    ensures V4Header(h) + options == Area(front, [], options, Pair(h.src, h.dst))
  {
    V4Area([], h, options);
    assert [] + V4Header(h) == V4Header(h) && [] + front == front;
  }

  /** The version is not zero. */
  lemma {:induction false} FrontNotZero(h: V4)
    requires V4Ok(h)
    ensures WordSum(V4Front(h)) > 0
  {
    var s := V4Front(h);
    assert s[0] == 64 + h.ihl;
    assert WordSum(s) == s[0] * 256 + s[1] + WordSum(s[2..]);
  }

  /** The length of a segment is not zero. */
  lemma {:induction false} LengthNotZero(a: seq<Byte>, n: nat, b: seq<Byte>)
    requires |a| % 2 == 0 && 0 < n <= 65535
    ensures WordSum(a + (Two(n) + b)) > 0
  {
    WordSumConcat(a, Two(n) + b);
    WordSumConcat(Two(n), b);
    assert Two(n)[2..] == [];
  }

  lemma {:induction false} V4SegmentKept(h: V4, segment: seq<Byte>, q: Pair)
    requires 0 < |segment| <= 65515 && (h.src + h.dst) % ONES == (q.src + q.dst) % ONES
    ensures V4SegmentChecksum(h.(src := q.src, dst := q.dst), segment) == V4SegmentChecksum(h, segment)
  {
    var post := [0, h.protocol] + (Two(|segment|) + segment);
    var p := Pair(h.src, h.dst);
    LengthNotZero([0, h.protocol], |segment|, segment);
    AreaOf([], [], post, p);
    AreaOf([], [], post, q);
    assert Four(h.src) + Four(h.dst) + [0, h.protocol] + Two(|segment|) + segment == Area([], [], post, p);
    assert Four(q.src) + Four(q.dst) + [0, h.protocol] + Two(|segment|) + segment == Area([], [], post, q);
    ChecksumSame([], [], post, 0, p, q);
  }

  /** And so has an IPv6 packet. */
  lemma {:induction false} V6ChecksumKept(h: V6, protocol: Byte, segment: seq<Byte>, iteration: Counter, cached: bool)
    requires 0 < |segment| <= 65535
    ensures
      var q := Edit(Pair(h.src, h.dst), iteration, cached);
      V6SegmentChecksum(h.(src := q.src, dst := q.dst), protocol, segment) == V6SegmentChecksum(h, protocol, segment)
  {
    var p := Pair(h.src, h.dst);
    var q := Edit(p, iteration, cached);
    SumKept(p, iteration, cached);
    var tail := [0, 0, 0, protocol] + segment;
    V6SegmentKept(h.srcHigh, h.dstHigh, |segment|, tail, p, q);
    CText.Shift(V6Addresses(h.srcHigh, h.dstHigh, p) + Four(|segment|), [0, 0, 0, protocol], segment);
    CText.Shift(V6Addresses(h.srcHigh, h.dstHigh, q) + Four(|segment|), [0, 0, 0, protocol], segment);
  }

  function V6Addresses(srcHigh: High, dstHigh: High, p: Pair): seq<Byte> {
    srcHigh + Four(p.src) + (dstHigh + Four(p.dst))
  }

  lemma {:induction false} V6SegmentKept(srcHigh: High, dstHigh: High, n: nat, tail: seq<Byte>, p: Pair, q: Pair)
    requires 0 < n <= 65535 && |tail| <= 65539 && (p.src + p.dst) % ONES == (q.src + q.dst) % ONES
    ensures Carry(WordSum(V6Addresses(srcHigh, dstHigh, p) + Four(n) + tail)) == Carry(WordSum(V6Addresses(srcHigh, dstHigh, q) + Four(n) + tail))
  {
    var post := LengthAndMore(n, tail);
    V6Pseudo(srcHigh, dstHigh, n, tail, p);
    V6Pseudo(srcHigh, dstHigh, n, tail, q);
    AreaKept(srcHigh, dstHigh, post, p, q);
  }

  /** A length of four bytes and what follows it. */
  function LengthAndMore(n: nat, tail: seq<Byte>): (s: seq<Byte>)
    requires 0 < n <= 65535
    ensures |s| == 4 + |tail| && WordSum(s) > 0
  {
    LengthNotZero([0, 0], n, tail);
    [0, 0] + (Two(n) + tail)
  }

  lemma {:induction false} V6Pseudo(srcHigh: High, dstHigh: High, n: nat, tail: seq<Byte>, p: Pair)
    requires 0 < n <= 65535
    ensures V6Addresses(srcHigh, dstHigh, p) + Four(n) + tail == Area(srcHigh, dstHigh, LengthAndMore(n, tail), p)
  {
    assert Four(n) == [0, 0] + Two(n);
    AreaOf(srcHigh, dstHigh, LengthAndMore(n, tail), p);
    Regrouped(srcHigh, Four(p.src), dstHigh, Four(p.dst), [0, 0], Two(n), tail);
  }

  lemma {:induction false} Regrouped(a: seq<Byte>, b: seq<Byte>, c: seq<Byte>, d: seq<Byte>, e: seq<Byte>, f: seq<Byte>, g: seq<Byte>)
    ensures a + b + (c + d) + (e + f) + g == a + (b + (c + (d + (e + (f + g)))))
  {
  }
}
