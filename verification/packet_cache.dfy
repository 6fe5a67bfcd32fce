/** The packets of a capture file, read from the file or from the cache built while it was
    read (`src/send_packets.c`, get_next_packet and preload_pcap_file). */
module PacketCache {
  import opened Common
  import CText

  type Byte = CText.Byte

  datatype Stamp = Stamp(sec: int, usec: int)

  /** timercmp with `>` */
  predicate Later(a: Stamp, b: Stamp) {
    a.sec > b.sec || (a.sec == b.sec && a.usec > b.usec)
  }

  /** A time stamp in microseconds. */
  function Micros(t: Stamp): int {
    t.sec * 1_000_000 + t.usec
  }

  /** The microseconds are less than a second. */
  predicate Normal(t: Stamp) {
    0 <= t.usec < 1_000_000
  }

  /** What is later by the comparison is later in time. */
  lemma LaterInTime(a: Stamp, b: Stamp)
    requires Normal(a) && Normal(b)
    ensures Later(a, b) <==> Micros(a) > Micros(b)
    ensures Micros(a) == Micros(b) <==> a == b
  {
  }

  /** A packet's header and its captured bytes. */
  datatype Packet = Packet(ts: Stamp, len: nat, data: seq<Byte>)

  /** One entry of the cache list: a copy of the header, and a buffer with the bytes. */
  class CacheNode {
    var next: CacheNode?
    const ts: Stamp
    const len: nat
    const pktdata: array<Byte>

    constructor (packet: Packet)
      ensures next == null && fresh(pktdata) && Held() == packet
    {
      ts, len, next := packet.ts, packet.len, null;
      pktdata := new Byte[|packet.data|](i requires 0 <= i < |packet.data| => packet.data[i]);
      new;
      assert pktdata[..] == packet.data;
    }

    /** The packet that the entry holds now. */
    function Held(): Packet
      reads pktdata
    {
      Packet(ts, len, pktdata[..])
    }
  }

  /** The nodes form one list that ends, no node occurs twice, and each has its own buffer. */
  ghost predicate Chained(first: CacheNode?, chain: seq<CacheNode>, repr: set<CacheNode>, bufs: set<array<Byte>>)
    reads repr
  {
    && first == (if chain == [] then null else chain[0])
    && (forall i :: 0 <= i < |chain| ==> chain[i] in repr && chain[i].pktdata in bufs)
    && (forall i :: 0 <= i < |chain| ==> chain[i].next == if i + 1 < |chain| then chain[i + 1] else null)
    && (forall i, j :: 0 <= i < j < |chain| ==> chain[i] != chain[j] && chain[i].pktdata != chain[j].pktdata)
  }

  lemma NextInChain(first: CacheNode?, chain: seq<CacheNode>, repr: set<CacheNode>, bufs: set<array<Byte>>, i: nat)
    requires Chained(first, chain, repr, bufs) && i < |chain|
    ensures chain[i].next == if i + 1 < |chain| then chain[i + 1] else null
  {
  }

  /** The packets of the nodes of a list. */
  ghost predicate Holds(chain: seq<CacheNode>, bufs: set<array<Byte>>, packets: seq<Packet>)
    requires forall i :: 0 <= i < |chain| ==> chain[i].pktdata in bufs
    reads bufs
  {
    |chain| == |packets| && forall i :: 0 <= i < |chain| ==> chain[i].Held() == packets[i]
  }

  /** The packets from `start` up to `seen` are taken; `packet` is the next one, if any. */
  ghost predicate Taken(file: seq<Packet>, start: nat, seen: nat, packet: Option<Packet>, packets: seq<Packet>) {
    && start <= seen <= |file| && packets == file[start..seen]
    && packet == if seen < |file| then Some(file[seen]) else None
  }

  lemma TakenMore(file: seq<Packet>, start: nat, seen: nat, packets: seq<Packet>)
    requires start < seen <= |file| && packets == file[start..seen - 1] + [file[seen - 1]]
    ensures packets == file[start..seen]
  {
  }

  lemma TakenFirst(file: seq<Packet>, start: nat)
    requires start <= |file|
    ensures Taken(file, start, start, if start < |file| then Some(file[start]) else None, [])
  {
  }

  lemma TakenAll(file: seq<Packet>, start: nat, seen: nat, packets: seq<Packet>)
    requires Taken(file, start, seen, None, packets)
    ensures packets == file[start..]
  {
  }

  lemma FrontMore(file: seq<Packet>, at: nat)
    requires at < |file|
    ensures file[..at] + [file[at]] == file[..at + 1]
  {
  }

  /** A capture file with its cache entry and the cursor of the current pass. */
  class PacketSource {
    const preload: bool
    const file: seq<Packet>
    var pos: nat
    var cached: bool
    var first: CacheNode?
    var prev: CacheNode?
    ghost var chain: seq<CacheNode>
    ghost var at: nat
    ghost var repr: set<CacheNode>
    ghost var bufs: set<array<Byte>>

    /** The list and the cursor are sound, whatever the buffers hold. */
    ghost predicate Sound()
      reads this, repr
    {
      && Chained(first, chain, repr, bufs) && pos <= |file| && at <= |file|
      && (cached ==> |chain| == |file|)
      && if !preload then !cached && chain == [] && at == pos
         else
           && (!cached ==> at == pos == |chain|)
           && prev == (if at == 0 then null else chain[at - 1])
    }

    /** The buffers hold what was read from the file. */
    ghost predicate Valid()
      reads this, repr, bufs
    {
      && Sound()
      && (cached ==> Holds(chain, bufs, file))
      && (preload && !cached ==> Holds(chain, bufs, file[..pos]))
    }

    /** The same as Valid, for callers that need not look inside. */
    ghost predicate Ready()
      reads this, repr, bufs
    {
      forall s: PacketSource :: s == this ==> s.Valid()
    }

    /** What this pass has still to return. */
    ghost function Rest(): seq<Packet>
      requires Valid()
      reads this, repr, bufs
    {
      file[at..]
    }

    constructor (file: seq<Packet>, preload: bool)
      ensures Ready() && Valid() && Rest() == file && !cached && repr == {} && bufs == {}
      ensures this.file == file && this.preload == preload
    {
      this.file, this.preload := file, preload;
      pos, cached, first, prev, chain, at, repr, bufs := 0, false, null, null, [], 0, {}, {};
    }

    /** A new pass: the cursor starts anew, and a file without a cache is opened again.
        A cache that was only partly built is dropped with it. */
    method BeginPass()
      requires Valid()
      modifies this
      ensures Valid() && at == 0 && cached == old(cached) && repr == old(repr) && bufs == old(bufs)
      ensures if cached then chain == old(chain) else chain == []
    {
      prev, at := null, 0;
      if !cached {
        pos, first, chain := 0, null, [];
      }
    }

    /** get_next_packet */
    method GetNextPacket() returns (packet: Option<Packet>)
      requires Valid()
      modifies this, repr
      ensures Valid() && cached == old(cached)
      ensures cached ==> chain == old(chain)
      ensures fresh(repr - old(repr)) && fresh(bufs - old(bufs))
      ensures packet == if old(at) < |file| then Some(file[old(at)]) else None
      ensures at == if old(at) < |file| then old(at) + 1 else if cached then 0 else |file|
    {
      if preload {
        if cached {
          packet := NextCached();
        } else {
          packet := NextStored();
        }
      } else {
        packet := PcapNext();
        if packet.Some? {
          at := at + 1;
        }
      }
    }

    /** get_next_packet, for such callers. */
    method Fetch() returns (packet: Option<Packet>)
      requires Ready() && at <= |file|
      modifies this, repr
      ensures Ready() && at <= |file| && fresh(repr - old(repr)) && fresh(bufs - old(bufs))
      ensures packet == if old(at) < |file| then Some(file[old(at)]) else None
      ensures at == if old(at) < |file| then old(at) + 1 else if cached then 0 else |file|
    {
      assert this.Valid();
      packet := GetNextPacket();
    }

    /** safe_pcap_next */
    method PcapNext() returns (packet: Option<Packet>)
      requires pos <= |file|
      modifies `pos
      ensures packet == (if old(pos) < |file| then Some(file[old(pos)]) else None)
      ensures pos == old(pos) + if old(pos) < |file| then 1 else 0
    {
      packet := None;
      if pos < |file| {
        packet, pos := Some(file[pos]), pos + 1;
      }
    }

    /** The next entry of the cache; behind the last one the cursor is back at the start. */
    method NextNode() returns (node: CacheNode?)
      requires Sound() && preload && cached
      modifies `prev, `at
      ensures Sound()
      ensures node == if old(at) < |file| then chain[old(at)] else null
      ensures at == if old(at) < |file| then old(at) + 1 else 0
    {
      if at > 0 {
        NextInChain(first, chain, repr, bufs, at - 1);
      }
      if prev == null {
        prev := first;
      } else {
        prev := prev.next;
      }
      node := prev;
      if prev != null {
        at := at + 1;
      } else {
        at := 0;
      }
    }

    /** A packet from the cache. */
    method NextCached() returns (packet: Option<Packet>)
      requires Valid() && preload && cached
      modifies `prev, `at
      ensures Valid()
      ensures packet == if old(at) < |file| then Some(file[old(at)]) else None
      ensures at == if old(at) < |file| then old(at) + 1 else 0
    {
      var node := NextNode();
      packet := if node != null then Some(node.Held()) else None;
    }

    /** A new entry at the end of the list. */
    method Append(packet: Packet, ghost packets: seq<Packet>)
      requires Chained(first, chain, repr, bufs) && Holds(chain, bufs, packets)
      requires prev == if chain == [] then null else chain[|chain| - 1]
      modifies `first, `prev, `chain, `at, `repr, `bufs, repr
      ensures Chained(first, chain, repr, bufs) && Holds(chain, bufs, packets + [packet])
      ensures prev == chain[|chain| - 1] && at == old(at) + 1
      ensures fresh(repr - old(repr)) && fresh(bufs - old(bufs))
    {
      var node := new CacheNode(packet);
      LinkLast(node);
    }

    method LinkLast(node: CacheNode)
      requires Chained(first, chain, repr, bufs) && prev == if chain == [] then null else chain[|chain| - 1]
      requires node !in repr && node.pktdata !in bufs && node.next == null
      modifies `first, `prev, `chain, `at, `repr, `bufs, repr
      ensures chain == old(chain) + [node] && repr == old(repr) + {node} && bufs == old(bufs) + {node.pktdata}
      ensures Chained(first, chain, repr, bufs) && prev == node && at == old(at) + 1
    {
      if prev == null {
        first := node;
      } else {
        prev.next := node;
      }
      prev := node;
      chain, at, repr, bufs := chain + [node], at + 1, repr + {node}, bufs + {node.pktdata};
    }

    /** A packet from the file, which is also appended to the cache. */
    method NextStored() returns (packet: Option<Packet>)
      requires Valid() && preload && !cached
      modifies this, repr
      ensures Valid() && !cached
      ensures fresh(repr - old(repr)) && fresh(bufs - old(bufs))
      ensures packet == if old(at) < |file| then Some(file[old(at)]) else None
      ensures at == old(at) + if old(at) < |file| then 1 else 0
    {
      packet := PcapNext();
      if packet.Some? {
        Store(packet.value);
      }
    }

    /** The packet just read is stored. */
    method Store(packet: Packet)
      requires preload && !cached && pos == at + 1 <= |file| && packet == file[at]
      requires Chained(first, chain, repr, bufs) && Holds(chain, bufs, file[..at])
      requires prev == if at == 0 then null else chain[at - 1]
      modifies this, repr
      ensures Valid() && !cached && at == old(at) + 1
      ensures fresh(repr - old(repr)) && fresh(bufs - old(bufs))
    {
      FrontMore(file, at);
      Append(packet, file[..at]);
    }

    /** The rest of a pass, up to the end of the packets. */
    method Drain() returns (packets: seq<Packet>)
      requires Valid()
      modifies this, repr
      ensures Valid() && cached == old(cached) && packets == file[old(at)..]
      ensures cached ==> chain == old(chain)
      ensures fresh(repr - old(repr)) && fresh(bufs - old(bufs))
      ensures at == if cached then 0 else |file|
    {
      ghost var start: nat, seen: nat := at, at;
      packets := [];
      TakenFirst(file, at);
      var packet := GetNextPacket();
      while packet.Some?
        invariant Valid() && cached == old(cached) && fresh(repr - old(repr)) && fresh(bufs - old(bufs))
        invariant cached ==> chain == old(chain)
        invariant Taken(file, start, seen, packet, packets)
        invariant at == if packet.Some? then seen + 1 else if cached then 0 else |file|
        decreases packet.Some?, |file| - seen
      {
        packets := packets + [packet.value];
        seen := seen + 1;
        TakenMore(file, start, seen, packets);
        packet := GetNextPacket();
      }
      TakenAll(file, start, seen, packets);
    }

    /** preload_pcap_file: afterwards the cache holds the whole file. */
    method Preload()
      requires Ready() && preload && !cached && at == 0
      modifies this, repr
      ensures Ready() && Valid() && cached && at == 0 && Holds(chain, bufs, file) && Rest() == file
      ensures fresh(repr - old(repr)) && fresh(bufs - old(bufs))
    {
      assert this.Valid();
      var packets := Drain();
      assert file[..pos] == file;
      cached, prev, at := true, null, 0;
    }

    /** One pass over the source. */
    method Pass() returns (packets: seq<Packet>)
      requires Valid()
      modifies this, repr
      ensures Valid() && packets == file && fresh(repr - old(repr)) && fresh(bufs - old(bufs))
      ensures cached == old(cached) && (cached ==> chain == old(chain))
    {
      BeginPass();
      packets := Drain();
    }

    /** Any number of passes over a file that was preloaded give it again and again, and the
        cache is not rebuilt. */
    method Passes(n: nat) returns (passes: seq<seq<Packet>>)
      requires Valid() && cached
      modifies this, repr
      ensures Valid() && cached && chain == old(chain)
      ensures |passes| == n && forall k :: 0 <= k < n ==> passes[k] == file
    {
      passes := [];
      while |passes| < n
        invariant Valid() && cached && chain == old(chain) && fresh(repr - old(repr)) && fresh(bufs - old(bufs))
        invariant |passes| <= n && forall k :: 0 <= k < |passes| ==> passes[k] == file
      {
        var packets := Pass();
        passes := passes + [packets];
      }
    }
  }

  /** A file at its first packet, in the cache if it is preloaded. */
  method Open(file: seq<Packet>, preload: bool) returns (source: PacketSource)
    ensures fresh(source) && fresh(source.repr) && fresh(source.bufs)
    ensures source.Ready() && source.file == file && source.at == 0
    ensures source.preload == source.cached == preload
  {
    source := new PacketSource(file, preload);
    if preload {
      source.Preload();
    }
  }

  /** A file that is preloaded and then replayed any number of times. */
  method PreloadPasses(file: seq<Packet>, n: nat) returns (passes: seq<seq<Packet>>)
    ensures |passes| == n && forall k :: 0 <= k < n ==> passes[k] == file
  {
    var source := Open(file, true);
    assert source.Valid();
    passes := source.Passes(n);
  }
}
