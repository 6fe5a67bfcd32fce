/** Batches of packets in the frames of an AF_XDP socket (`src/send_packets.c`). */
module XdpBatch {
  import opened Common
  import opened PacketCache

  // ---------- frames ----------

  /** Where the frame of packet number `k` begins in the umem. */
  function Address(k: nat, frameCount: nat, frameSize: nat): nat
    requires frameCount > 0
  {
    (k % frameCount) * frameSize
  }

  lemma SlotsDiffer(j: nat, k: nat, c: nat)
    requires j < k < j + c
    ensures j % c != k % c
  {
    if j % c == k % c {
      var p, q := j / c, k / c;
      assert k - j == c * (q - p);
      if q <= p {
        MulMono(q - p, 0, c);
        assert false;
      } else {
        MulMono(1, q - p, c);
        assert false;
      }
    }
  }

  lemma MulMono(a: int, b: int, c: nat)
    requires a <= b
    ensures a * c <= b * c && c * a <= c * b
  {
  }

  /** Packets whose numbers differ by less than the number of frames have disjoint frames. */
  lemma FramesDisjoint(j: nat, k: nat, frameCount: nat, frameSize: nat)
    requires j < k < j + frameCount
    ensures Address(j, frameCount, frameSize) + frameSize <= Address(k, frameCount, frameSize)
         || Address(k, frameCount, frameSize) + frameSize <= Address(j, frameCount, frameSize)
  {
    SlotsDiffer(j, k, frameCount);
    var s, t := j % frameCount, k % frameCount;
    if s < t {
      MulMono(s + 1, t, frameSize);
      assert (s + 1) * frameSize == s * frameSize + frameSize;
    } else {
      MulMono(t + 1, s, frameSize);
      assert (t + 1) * frameSize == t * frameSize + frameSize;
    }
  }

  /** Every frame lies inside the umem. */
  lemma FrameInside(k: nat, frameCount: nat, frameSize: nat)
    requires frameCount > 0
    ensures Address(k, frameCount, frameSize) + frameSize <= frameCount * frameSize
  {
    var s := k % frameCount;
    MulMono(s + 1, frameCount, frameSize);
    assert (s + 1) * frameSize == s * frameSize + frameSize;
  }

  // ---------- batches ----------

  /** A TX descriptor. */
  datatype Desc = Desc(addr: nat, len: nat)

  function Descriptor(k: nat, data: seq<Byte>, frameCount: nat, frameSize: nat): Desc
    requires frameCount > 0
  {
    Desc(Address(k, frameCount, frameSize), |data|)
  }

  /** The packets still in the umem: the last ones, as many as there are frames. */
  ghost predicate Intact(umem: seq<Byte>, log: seq<seq<Byte>>, frameCount: nat, frameSize: nat)
    requires frameCount > 0
  {
    forall k :: 0 <= k < |log| <= k + frameCount ==> FrameHolds(umem, k, log[k], frameCount, frameSize)
  }

  /** The frame of packet `k` holds `data`. */
  ghost predicate FrameHolds(umem: seq<Byte>, k: nat, data: seq<Byte>, frameCount: nat, frameSize: nat)
    requires frameCount > 0
  {
    var a := Address(k, frameCount, frameSize);
    |data| <= frameSize && a + frameSize <= |umem| && umem[a..a + |data|] == data
  }

  /** Writing a packet into its frame leaves the others that are still in use alone. */
  lemma FrameWritten(was: seq<Byte>, umem: seq<Byte>, log: seq<seq<Byte>>, data: seq<Byte>, frameCount: nat, frameSize: nat)
    requires frameCount > 0 && |was| == |umem| == frameCount * frameSize && |data| <= frameSize
    requires Intact(was, log, frameCount, frameSize)
    requires FrameHolds(umem, |log|, data, frameCount, frameSize)
    requires var a := Address(|log|, frameCount, frameSize);
      forall i :: 0 <= i < |umem| && (i < a || a + |data| <= i) ==> umem[i] == was[i]
    ensures Intact(umem, log + [data], frameCount, frameSize)
  {
    var n, after := |log|, log + [data];
    forall k | 0 <= k < |after| <= k + frameCount
      ensures FrameHolds(umem, k, after[k], frameCount, frameSize)
    {
      if k < n {
        FramesDisjoint(k, n, frameCount, frameSize);
        assert FrameHolds(was, k, log[k], frameCount, frameSize);
        var b := Address(k, frameCount, frameSize);
        assert umem[b..b + |log[k]|] == was[b..b + |log[k]|];
      }
    }
  }

  /** The data of packets. */
  function Datas(packets: seq<Packet>): (r: seq<seq<Byte>>)
    ensures |r| == |packets|
    ensures forall k :: 0 <= k < |packets| ==> r[k] == packets[k].data
  {
    seq(|packets|, k requires 0 <= k < |packets| => packets[k].data)
  }

  /** The bytes of all packets. */
  function Total(datas: seq<seq<Byte>>): nat {
    if datas == [] then 0 else Total(datas[..|datas| - 1]) + |datas[|datas| - 1]|
  }

  lemma DatasMore(file: seq<Packet>, n: nat)
    requires n < |file|
    ensures Datas(file[..n + 1]) == Datas(file[..n]) + [file[n].data]
    ensures Total(Datas(file[..n + 1])) == Total(Datas(file[..n])) + |file[n].data|
  {
    var before := Datas(file[..n]);
    assert Datas(file[..n + 1]) == before + [file[n].data];
    assert (before + [file[n].data])[..|before|] == before;
  }

  /** The descriptors of a log. */
  ghost function Descriptors(log: seq<seq<Byte>>, frameCount: nat, frameSize: nat): (r: seq<Desc>)
    requires frameCount > 0
    ensures |r| == |log|
    ensures forall k :: 0 <= k < |log| ==> r[k] == Descriptor(k, log[k], frameCount, frameSize)
  {
    seq(|log|, k requires 0 <= k < |log| => Descriptor(k, log[k], frameCount, frameSize))
  }

  /** One send_packets call on an AF_XDP socket. */
  class XdpSender {
    const frameCount: nat
    const frameSize: nat
    const batchSize: nat
    const umem: array<Byte>
    var packetnum: nat
    var prod: nat
    var descs: seq<Desc>
    var pktsSent: nat
    var bytesSent: nat
    ghost var log: seq<seq<Byte>>

    ghost predicate Valid()
      reads `descs, `log, umem
    {
      && frameCount > 0 && batchSize > 0 && umem.Length == frameCount * frameSize
      && descs == Descriptors(log, frameCount, frameSize)
      && Intact(umem[..], log, frameCount, frameSize)
      && forall k :: 0 <= k < |log| ==> |log[k]| <= frameSize
    }

    /** The source can be read, and its buffers are not the umem. */
    ghost predicate Apart(source: PacketSource)
      reads source, source.repr, source.bufs
    {
      source.Ready() && source.at <= |source.file| && umem !in source.bufs
    }

    constructor (frameCount: nat, frameSize: nat, batchSize: nat)
      requires frameCount > 0 && batchSize > 0
      ensures Valid() && fresh(umem) && log == [] && prod == packetnum == pktsSent == bytesSent == 0
      ensures this.frameCount == frameCount && this.frameSize == frameSize && this.batchSize == batchSize
    {
      this.frameCount, this.frameSize, this.batchSize := frameCount, frameSize, batchSize;
      umem := new Byte[frameCount * frameSize];
      packetnum, prod, pktsSent, bytesSent, descs, log := 0, 0, 0, 0, [], [];
    }

    /** A descriptor leads to its packet: the bytes of the umem that it describes are those of the
        packet, for all packets that are not overwritten yet. */
    lemma Described(k: nat)
      requires Valid() && k < |log| <= k + frameCount
      ensures |descs| == |log| && descs[k].addr + descs[k].len <= umem.Length
      ensures umem[descs[k].addr..descs[k].addr + descs[k].len] == log[k]
    {
      assert FrameHolds(umem[..], k, log[k], frameCount, frameSize);
      assert descs[k] == Descriptor(k, log[k], frameCount, frameSize);
      assert umem[..][descs[k].addr..descs[k].addr + descs[k].len] == umem[descs[k].addr..descs[k].addr + descs[k].len];
    }

    /** gen_eth_frame */
    method CopyFrame(addr: nat, data: seq<Byte>)
      requires addr + |data| <= umem.Length
      modifies umem
      ensures umem[addr..addr + |data|] == data
      ensures forall i :: 0 <= i < umem.Length && (i < addr || addr + |data| <= i) ==> umem[i] == old(umem[i])
    {
      forall i | 0 <= i < |data| {
        umem[addr + i] := data[i];
      }
    }

    /** fill_umem_with_data_and_set_xdp_desc for the next packet; not `ok` if the packet is
        larger than a frame. */
    method Fill(tx: nat, index: nat, data: seq<Byte>) returns (ok: bool)
      requires Valid() && tx == index == |log|
      modifies `descs, `log, umem
      ensures Valid()
      ensures ok <==> |data| <= frameSize
      ensures log == if ok then old(log) + [data] else old(log)
    {
      ok := |data| <= frameSize;
      if ok {
        var addr := (index % frameCount) * frameSize;
        FrameInside(index, frameCount, frameSize);
        CopyFrame(addr, data);
        FrameWritten(old(umem[..]), umem[..], log, data, frameCount, frameSize);
        log := log + [data];
        descs := descs + [Desc(addr, |data|)];
      }
    }

    /** The packets of the file up to `n` are filled, in order. */
    ghost predicate FilledTo(file: seq<Packet>, n: nat)
      reads `descs, `log, `bytesSent, umem
    {
      Valid() && n <= |file| && log == Datas(file[..n]) && bytesSent == Total(log)
    }

    /** The same, for callers that need not look inside. */
    ghost predicate Filled(file: seq<Packet>, n: nat)
      reads `descs, `log, `bytesSent, umem
    {
      n <= |file| && batchSize > 0 && forall m: nat :: m == n ==> FilledTo(file, m)
    }

    /** One more packet of the file. */
    method FillNext(tx: nat, index: nat, packet: Packet, ghost file: seq<Packet>) returns (ok: bool)
      requires Filled(file, index) && tx == index < |file| && packet == file[index]
      modifies `descs, `log, `bytesSent, umem
      ensures ok <==> |packet.data| <= frameSize
      ensures ok ==> Filled(file, index + 1)
    {
      assert FilledTo(file, index);
      DatasMore(file, index);
      ok := Fill(tx, index, packet.data);
      if ok {
        bytesSent := bytesSent + |packet.data|;
        assert FilledTo(file, index + 1);
      }
    }

    /** The next packet that the source gives, if any, is put behind the first `count` of
        the batch. */
    method FillMore(source: PacketSource, tx: nat, count: nat) returns (ok: bool, more: bool)
      requires Apart(source) && source.at == packetnum == tx + count && Filled(source.file, packetnum)
      modifies this, umem, source, source.repr
      ensures Apart(source) && fresh(source.repr - old(source.repr)) && fresh(source.bufs - old(source.bufs)) && prod == old(prod)
      ensures !more ==> ok && packetnum == old(packetnum) == |source.file|
      ensures more ==> source.at == packetnum == old(packetnum) + 1
      ensures pktsSent - packetnum == old(pktsSent - packetnum)
      ensures if ok then Filled(source.file, packetnum) else Oversized(source.file)
    {
      var next := source.Fetch();
      ok, more := true, next.Some?;
      if more {
        ok := FillNext(tx + count, packetnum, next.value, source.file);
        packetnum, pktsSent := packetnum + 1, pktsSent + 1;
      }
    }

    /** Some packet is larger than a frame. */
    ghost predicate Oversized(file: seq<Packet>) {
      exists k :: 0 <= k < |file| && |file[k].data| > frameSize
    }

    /** prepare_remaining_elements_of_batch: the batch is filled up, and the descriptors that
        were reserved but not filled are given back. */
    method FillRest(source: PacketSource, tx: nat) returns (ok: bool, more: bool, count: nat)
      requires Apart(source) && source.at == packetnum == tx + 1 && Filled(source.file, packetnum)
      requires prod == tx + batchSize
      modifies this, umem, source, source.repr
      ensures Apart(source) && fresh(source.repr - old(source.repr)) && fresh(source.bufs - old(source.bufs))
      ensures 1 <= count <= batchSize && prod + (batchSize - count) == tx + batchSize
      ensures pktsSent - packetnum == old(pktsSent - packetnum)
      ensures ok ==> Filled(source.file, packetnum) && prod == packetnum == tx + count && more == (count == batchSize)
      ensures ok ==> if more then source.at == packetnum else packetnum == |source.file|
      ensures !ok ==> Oversized(source.file)
    {
      ok, more, count := true, true, 1;
      while ok && more && count < batchSize
        invariant Apart(source) && fresh(source.repr - old(source.repr)) && fresh(source.bufs - old(source.bufs))
        invariant 1 <= count <= batchSize && packetnum == tx + count && prod == tx + batchSize
        invariant pktsSent - packetnum == old(pktsSent - packetnum)
        invariant if more then source.at == packetnum else ok && packetnum == |source.file| && count < batchSize
        invariant if ok then Filled(source.file, packetnum) else Oversized(source.file)
        decreases ok, more, batchSize - count
      {
        ok, more := FillMore(source, tx, count);
        if more {
          count := count + 1;
        }
      }
      if count < batchSize {
        prod := prod - (batchSize - count);
      }
    }

    /** One turn of the main loop: a full batch is reserved for the packet at hand and those
        behind it. */
    method Batch(source: PacketSource, first: Packet) returns (ok: bool, more: bool, count: nat)
      requires Apart(source) && prod == packetnum == pktsSent && Filled(source.file, packetnum)
      requires packetnum < |source.file| && source.at == packetnum + 1 && first == source.file[packetnum]
      modifies this, umem, source, source.repr
      ensures Apart(source) && fresh(source.repr - old(source.repr)) && fresh(source.bufs - old(source.bufs))
      ensures ok ==> Filled(source.file, packetnum) && 1 <= count <= batchSize && more == (count == batchSize)
      ensures ok ==> prod == packetnum == pktsSent == old(packetnum) + count
      ensures ok ==> if more then source.at == packetnum else packetnum == |source.file|
      ensures !ok ==> Oversized(source.file)
    {
      packetnum := packetnum + 1;
      var tx := prod;
      prod := prod + batchSize;
      more, count := true, 1;
      ok := FillNext(tx, packetnum - 1, first, source.file);
      if ok {
        ok, more, count := FillRest(source, tx);
        pktsSent := pktsSent + 1;
      }
    }

    /** The whole file: if every packet fits a frame, all of them are filled in order, and
        just as many descriptors are taken. The last short batch ends the run, whether the
        packets come from the file or from the cache. */
    method Send(source: PacketSource) returns (ok: bool)
      requires Apart(source) && source.at == 0 && Valid() && log == [] && prod == packetnum == pktsSent == bytesSent == 0
      modifies this, umem, source, source.repr
      ensures ok <==> !Oversized(source.file)
      ensures ok ==> Valid() && log == Datas(source.file) && prod == packetnum == pktsSent == |source.file|
      ensures ok ==> bytesSent == Total(log)
    {
      var more, first, count := true, None, 0;
      ok := true;
      assert FilledTo(source.file, 0);
      while more
        invariant Apart(source) && fresh(source.repr - old(source.repr)) && fresh(source.bufs - old(source.bufs))
        invariant Filled(source.file, packetnum) && prod == packetnum == pktsSent
        invariant if more then source.at == packetnum else packetnum == |source.file|
        decreases more, |source.file| - packetnum
      {
        first := source.Fetch();
        if first == None {
          break;
        }
        ok, more, count := Batch(source, first.value);
        if !ok {
          return;
        }
      }
      assert FilledTo(source.file, packetnum);
      assert source.file[..packetnum] == source.file;
      assert forall k :: 0 <= k < |log| ==> log[k] == source.file[k].data;
    }
  }

  /** A file, preloaded or not, from the file on. */
  method SendFile(file: seq<Packet>, preload: bool, frameCount: nat, frameSize: nat, batchSize: nat)
    returns (ok: bool, sender: XdpSender)
    requires frameCount > 0 && batchSize > 0
    ensures sender.frameCount == frameCount && sender.frameSize == frameSize && (ok <==> !sender.Oversized(file))
    ensures ok ==> sender.Valid() && sender.log == Datas(file) && |sender.descs| == |file|
    ensures ok ==> forall k :: 0 <= k < |file| <= k + frameCount ==> Leads(sender.umem, sender.descs[k], file[k].data)
  {
    var source := Open(file, preload);
    sender := new XdpSender(frameCount, frameSize, batchSize);
    ok := sender.Send(source);
    if ok {
      forall k | 0 <= k < |file| <= k + frameCount
        ensures Leads(sender.umem, sender.descs[k], file[k].data)
      {
        sender.Described(k);
      }
    }
  }

  /** The bytes that a descriptor tells the kernel to send. */
  ghost predicate Leads(umem: array<Byte>, d: Desc, data: seq<Byte>)
    reads umem
  {
    d.addr + d.len <= umem.Length && umem[d.addr..d.addr + d.len] == data
  }
}
