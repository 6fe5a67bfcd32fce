/** Passes over a cached file that edit the cached packets in place, to make the addresses of
    every pass unique (`src/send_packets.c`, send_packets with a preloaded file). */
module CachedEdits {
  import opened Common
  import opened PacketCache
  import opened UniqueIp

  // ---------- what a pass does to the bytes of a packet ----------

  /** The packet with the given pair in place of its own. */
  function WithPair(s: seq<Byte>, l2: Layer2, p: Pair): seq<Byte>
    requires Editable(l2, |s|)
  {
    var (pre, mid, post) := Around(s, l2);
    Area(pre, mid, post, p)
  }

  /** The bytes after one edit; a packet that cannot be edited stays as it is. */
  function Edited(s: seq<Byte>, l2: Layer2, iteration: Counter, cached: bool): seq<Byte> {
    if Editable(l2, |s|) then WithPair(s, l2, Edit(ReadPair(s, l2), iteration, cached)) else s
  }

  /** The bytes in pass `n` when every pass edits the cached packet. */
  function CachedBytes(s: seq<Byte>, l2: Layer2, n: nat): seq<Byte>
    requires n < TWO64
  {
    if Editable(l2, |s|) then WithPair(s, l2, CachedPass(ReadPair(s, l2), n)) else s
  }

  /** The bytes in pass `n` when every pass edits a packet just read from the file. */
  function FreshBytes(s: seq<Byte>, l2: Layer2, n: nat): seq<Byte>
    requires n < TWO64
  {
    if Editable(l2, |s|) then WithPair(s, l2, FreshPass(ReadPair(s, l2), n)) else s
  }

  /** The pair that was put in is the pair that is read, and all else is as before. */
  lemma WithPairRead(s: seq<Byte>, l2: Layer2, p: Pair)
    requires Editable(l2, |s|)
    ensures |WithPair(s, l2, p)| == |s| && ReadPair(WithPair(s, l2, p), l2) == p
    ensures Around(WithPair(s, l2, p), l2) == Around(s, l2)
  {
    var (a, b, _) := Offsets(l2.etherType);
    var t := WithPair(s, l2, p);
    var i, j := l2.l2len + a, l2.l2len + b;
    Be32RoundTrip(p.src);
    Be32RoundTrip(p.dst);
    assert t[i..i + 4] == Be32(p.src);
    assert t[j..j + 4] == Be32(p.dst);
    assert t[..i] == s[..i] && t[i + 4..j] == s[i + 4..j] && t[j + 4..] == s[j + 4..];
  }

  lemma WithPairSame(s: seq<Byte>, l2: Layer2)
    requires Editable(l2, |s|)
    ensures WithPair(s, l2, ReadPair(s, l2)) == s
  {
    var (a, b, _) := Offsets(l2.etherType);
    var i, j := l2.l2len + a, l2.l2len + b;
    assert s[..i] == s[0..i] && s[j + 4..] == s[j + 4..|s|] && s == s[0..|s|];
    AreaItself(s, i, j, 0, |s|);
  }

  lemma CachedStart(s: seq<Byte>, l2: Layer2)
    ensures CachedBytes(s, l2, 0) == s
  {
    if Editable(l2, |s|) {
      WithPairSame(s, l2);
    }
  }

  lemma CachedStep(s: seq<Byte>, l2: Layer2, n: nat)
    requires 0 < n < TWO64
    ensures Edited(CachedBytes(s, l2, n - 1), l2, n, true) == CachedBytes(s, l2, n)
  {
    if Editable(l2, |s|) {
      WithPairRead(s, l2, CachedPass(ReadPair(s, l2), n - 1));
    }
  }

  /** The bytes sent in all passes up to `n` are those that reading the file again would send
      if and only if `n` is within the limit of the packet's pair. */
  lemma BytesAgree(s: seq<Byte>, l2: Layer2, n: nat)
    requires Editable(l2, |s|) && n < TWO64
    ensures (forall k :: 0 <= k <= n ==> CachedBytes(s, l2, k) == FreshBytes(s, l2, k)) <==> n <= AgreeLimit(ReadPair(s, l2))
  {
    var p := ReadPair(s, l2);
    PassesAgree(p, n);
    forall k | 0 <= k <= n
      ensures CachedBytes(s, l2, k) == FreshBytes(s, l2, k) <==> SamePass(p, k)
    {
      WithPairRead(s, l2, CachedPass(p, k));
      WithPairRead(s, l2, FreshPass(p, k));
    }
  }

  // ---------- passes over the cached list ----------

  /** A layer 2 report for every packet of the file; an error is a negative number. */
  predicate Reports(l2s: seq<Layer2>, file: seq<Packet>) {
    |l2s| == |file| && forall k :: 0 <= k < |l2s| ==> l2s[k].BadLayer2? ==> l2s[k].res < 0
  }

  /** The file's packets as the cache holds them in pass `n`. */
  function PassFile(file: seq<Packet>, l2s: seq<Layer2>, n: nat): seq<Packet>
    requires Reports(l2s, file) && n < TWO64
  {
    seq(|file|, k requires 0 <= k < |file| => file[k].(data := CachedBytes(file[k].data, l2s[k], n)))
  }

  /** fast_edit_packet reports -1, and the packet is counted as failed instead of sent. */
  predicate Skipped(l2: Layer2, caplen: nat) {
    !Editable(l2, caplen) && (l2.BadLayer2? ==> l2.res == -1)
  }

  /** The packets that are sent, out of the first `m`. */
  function Sent(packets: seq<Packet>, l2s: seq<Layer2>, m: nat): seq<Packet>
    requires m <= |packets| == |l2s|
  {
    if m == 0 then []
    else Sent(packets, l2s, m - 1) + if Skipped(l2s[m - 1], |packets[m - 1].data|) then [] else [packets[m - 1]]
  }

  /** Pass `n` sends these packets, out of the first `m`, and the others fail. */
  ghost predicate Sends(file: seq<Packet>, l2s: seq<Layer2>, n: nat, m: nat, sent: seq<Packet>, failed: nat)
    requires Reports(l2s, file) && n < TWO64 && m <= |file|
  {
    sent == Sent(PassFile(file, l2s, n), l2s, m) && |sent| + failed == m
  }

  /** What becomes of packet `i` in pass `n`. */
  function Outcome(file: seq<Packet>, l2s: seq<Layer2>, n: nat, i: nat): Option<Packet>
    requires Reports(l2s, file) && n < TWO64 && i < |file|
  {
    var packet := PassFile(file, l2s, n)[i];
    if Skipped(l2s[i], |packet.data|) then None else Some(packet)
  }

  lemma SendsMore(file: seq<Packet>, l2s: seq<Layer2>, n: nat, m: nat, sent: seq<Packet>, failed: nat)
    requires Reports(l2s, file) && n < TWO64 && m < |file| && Sends(file, l2s, n, m, sent, failed)
    ensures
      var packet := Outcome(file, l2s, n, m);
      if packet.Some? then Sends(file, l2s, n, m + 1, sent + [packet.value], failed)
      else Sends(file, l2s, n, m + 1, sent, failed + 1)
  {
  }

  /** The edit of one cached packet leaves the other entries as they are. */
  method EditEntry(node: CacheNode, l2: Layer2, n: Counter, ghost chain: seq<CacheNode>,
                   ghost bufs: set<array<Byte>>, ghost packets: seq<Packet>, ghost i: nat) returns (res: int)
    requires l2.BadLayer2? ==> l2.res < 0
    requires forall k :: 0 <= k < |chain| ==> chain[k].pktdata in bufs
    requires forall k, m :: 0 <= k < m < |chain| ==> chain[k].pktdata != chain[m].pktdata
    requires i < |chain| && chain[i] == node && Holds(chain, bufs, packets)
    modifies node.pktdata
    ensures Holds(chain, bufs, packets[i := packets[i].(data := Edited(packets[i].data, l2, n, true))])
    ensures res == -1 <==> Skipped(l2, |packets[i].data|)
  {
    assert node.Held() == packets[i];
    res := FastEditPacket(node.pktdata, node.pktdata.Length, l2, n, true);
    forall k | 0 <= k < |chain| && k != i
      ensures chain[k].Held() == packets[k]
    {
      assert chain[k].pktdata != node.pktdata;
    }
  }

  /** The packets that an editing pass has done are those of this pass, the others are still
      those of the pass before. */
  function Partly(file: seq<Packet>, l2s: seq<Layer2>, n: nat, seen: nat): seq<Packet>
    requires Reports(l2s, file) && 0 < n < TWO64 && seen <= |file|
  {
    PassFile(file, l2s, n)[..seen] + PassFile(file, l2s, n - 1)[seen..]
  }

  lemma PartlyNone(file: seq<Packet>, l2s: seq<Layer2>, n: nat)
    requires Reports(l2s, file) && 0 < n < TWO64
    ensures Partly(file, l2s, n, 0) == PassFile(file, l2s, n - 1)
  {
  }

  lemma PartlyMore(file: seq<Packet>, l2s: seq<Layer2>, n: nat, i: nat)
    requires Reports(l2s, file) && 0 < n < TWO64 && i < |file|
    ensures
      var before := Partly(file, l2s, n, i);
      Partly(file, l2s, n, i + 1) == before[i := before[i].(data := Edited(before[i].data, l2s[i], n, true))]
  {
    CachedStep(file[i].data, l2s[i], n);
  }

  /** The cache is whole, its cursor is at the start, and it holds the packets of pass `n`. */
  ghost predicate InPass(source: PacketSource, l2s: seq<Layer2>, n: nat)
    reads source, source.repr, source.bufs
  {
    forall s: PacketSource {:trigger s.Sound()} :: s == source ==>
      && s.Sound() && s.preload && s.cached && s.at == 0 && Reports(l2s, s.file) && n < TWO64
      && Holds(s.chain, s.bufs, PassFile(s.file, l2s, n))
  }

  /** Pass `n` has done `i` packets, and is at the entry `node`. */
  ghost predicate Midway(source: PacketSource, node: CacheNode?, l2s: seq<Layer2>, n: nat, i: nat)
    reads source, source.repr, source.bufs
  {
    forall s: PacketSource {:trigger s.Sound()} :: s == source ==>
      && s.Sound() && s.preload && s.cached && Reports(l2s, s.file) && 0 < n < TWO64 && i <= |s.file|
      && s.at == (if node != null then i + 1 else 0)
      && node == (if i < |s.file| then s.chain[i] else null)
      && Holds(s.chain, s.bufs, Partly(s.file, l2s, n, i))
  }

  lemma PassFirst(file: seq<Packet>, l2s: seq<Layer2>)
    requires Reports(l2s, file)
    ensures PassFile(file, l2s, 0) == file
  {
    forall k | 0 <= k < |file|
      ensures PassFile(file, l2s, 0)[k] == file[k]
    {
      CachedStart(file[k].data, l2s[k]);
    }
  }

  /** A cache as the preload left it is in pass 0. */
  lemma PassStart(source: PacketSource, l2s: seq<Layer2>)
    requires source.Ready() && source.preload && source.cached && source.at == 0 && Reports(l2s, source.file)
    ensures InPass(source, l2s, 0)
  {
    assert source.Valid();
    PassFirst(source.file, l2s);
  }

  lemma MidwayEnd(source: PacketSource, l2s: seq<Layer2>, n: nat, i: nat)
    requires Midway(source, null, l2s, n, i)
    ensures i == |source.file| && InPass(source, l2s, n)
  {
    assert source.Sound();
    assert Partly(source.file, l2s, n, i) == PassFile(source.file, l2s, n);
  }

  method EditFirst(source: PacketSource, l2s: seq<Layer2>, n: Counter) returns (node: CacheNode?)
    requires n > 0 && InPass(source, l2s, n - 1)
    modifies source`prev, source`at
    ensures Midway(source, node, l2s, n, 0)
  {
    assert source.Sound();
    PartlyNone(source.file, l2s, n);
    node := source.NextNode();
  }

  /** Pass `n` has done `i` packets, the last of them in the entry `node`. */
  ghost predicate Standing(source: PacketSource, node: CacheNode, l2s: seq<Layer2>, n: nat, i: nat)
    reads source, source.repr, source.bufs
  {
    forall s: PacketSource {:trigger s.Sound()} :: s == source ==>
      && s.Sound() && s.preload && s.cached && Reports(l2s, s.file) && 0 < n < TWO64
      && 0 < i == s.at <= |s.file| && node == s.chain[i - 1]
      && Holds(s.chain, s.bufs, Partly(s.file, l2s, n, i))
  }

  /** Edits the packet of an entry. */
  method EditHere(source: PacketSource, node: CacheNode, l2s: seq<Layer2>, n: Counter, i: nat) returns (packet: Option<Packet>)
    requires n > 0 && Midway(source, node, l2s, n, i) && Reports(l2s, source.file)
    modifies source.bufs
    ensures i < |source.file| && Standing(source, node, l2s, n, i + 1) && packet == Outcome(source.file, l2s, n, i)
  {
    assert source.Sound();
    PartlyMore(source.file, l2s, n, i);
    var res := EditEntry(node, l2s[i], n, source.chain, source.bufs, Partly(source.file, l2s, n, i), i);
    assert node.Held() == PassFile(source.file, l2s, n)[i];
    packet := if res == -1 then None else Some(node.Held());
  }

  method Advance(source: PacketSource, node: CacheNode, l2s: seq<Layer2>, n: Counter, i: nat) returns (next: CacheNode?)
    requires Standing(source, node, l2s, n, i)
    modifies source`prev, source`at
    ensures Midway(source, next, l2s, n, i)
  {
    assert source.Sound();
    next := source.NextNode();
  }

  /** Edits one packet in the cache and goes on to the next. */
  method EditNext(source: PacketSource, node: CacheNode, l2s: seq<Layer2>, n: Counter, i: nat)
    returns (next: CacheNode?, packet: Option<Packet>)
    requires n > 0 && Midway(source, node, l2s, n, i) && Reports(l2s, source.file)
    modifies source`prev, source`at, source.bufs
    ensures i < |source.file| && Midway(source, next, l2s, n, i + 1)
    ensures packet == Outcome(source.file, l2s, n, i)
  {
    packet := EditHere(source, node, l2s, n, i);
    next := Advance(source, node, l2s, n, i + 1);
  }

  /** Pass `n` sends just these packets of the file. */
  ghost predicate SentIn(file: seq<Packet>, l2s: seq<Layer2>, n: nat, sent: seq<Packet>) {
    forall f: seq<Packet> {:trigger Reports(l2s, f)} :: f == file ==>
      Reports(l2s, f) && n < TWO64 && sent == Sent(PassFile(f, l2s, n), l2s, |f|)
  }

  /** Pass `k` sends the packets of the file with their pairs replaced by those of pass `k`. */
  ghost predicate AllSent(file: seq<Packet>, l2s: seq<Layer2>, passes: seq<seq<Packet>>) {
    forall k :: 0 <= k < |passes| ==> SentIn(file, l2s, k + 1, passes[k])
  }

  /** One pass over the cached file that edits every packet in place. */
  method EditPass(source: PacketSource, l2s: seq<Layer2>, n: Counter) returns (sent: seq<Packet>, failed: nat)
    requires n > 0 && InPass(source, l2s, n - 1)
    modifies source`prev, source`at, source.bufs
    ensures InPass(source, l2s, n)
    ensures SentIn(source.file, l2s, n, sent) && |sent| + failed == |source.file|
  {
    InPassReports(source, l2s, n - 1);
    sent, failed := [], 0;
    var i := 0;
    var node := EditFirst(source, l2s, n);
    while node != null
      invariant i <= |source.file| && Midway(source, node, l2s, n, i)
      invariant Sends(source.file, l2s, n, i, sent, failed)
      decreases |source.file| - i
    {
      var next, packet := EditNext(source, node, l2s, n, i);
      SendsMore(source.file, l2s, n, i, sent, failed);
      if packet.Some? {
        sent := sent + [packet.value];
      } else {
        failed := failed + 1;
      }
      node, i := next, i + 1;
    }
    MidwayEnd(source, l2s, n, i);
  }

  lemma InPassReports(source: PacketSource, l2s: seq<Layer2>, n: nat)
    requires InPass(source, l2s, n)
    ensures Reports(l2s, source.file) && n < TWO64
  {
    assert source.Sound();
  }

  /** After a preload, pass after pass edits the same buffers. */
  method EditPasses(source: PacketSource, l2s: seq<Layer2>, n: nat) returns (passes: seq<seq<Packet>>)
    requires InPass(source, l2s, 0) && n < TWO64
    modifies source`prev, source`at, source.bufs
    ensures InPass(source, l2s, n)
    ensures |passes| == n && AllSent(source.file, l2s, passes)
  {
    passes := [];
    while |passes| < n
      invariant InPass(source, l2s, |passes|) && |passes| <= n && source.bufs == old(source.bufs)
      invariant AllSent(source.file, l2s, passes)
    {
      var sent, _ := EditPass(source, l2s, |passes| + 1);
      passes := passes + [sent];
    }
  }

  /** From the file on: it is preloaded, and every pass edits the cache in place. */
  method PreloadEdits(file: seq<Packet>, l2s: seq<Layer2>, n: nat) returns (passes: seq<seq<Packet>>)
    requires Reports(l2s, file) && n < TWO64
    ensures |passes| == n && AllSent(file, l2s, passes)
  {
    var source := Open(file, true);
    PassStart(source, l2s);
    passes := EditPasses(source, l2s, n);
  }
}
