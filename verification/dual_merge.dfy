/** The replay of two files at once, each on its own interface (`src/send_packets.c`,
    send_dual_packets). */
module DualMerge {
  import opened Common
  import opened PacketCache

  datatype Intf = Intf1 | Intf2

  /** A packet and the interface it leaves by. */
  datatype Sent = Sent(intf: Intf, packet: Packet)

  // ---------- the order of the packets ----------

  /** The second file is next. */
  predicate SecondNext(p: Option<Packet>, q: Option<Packet>) {
    p == None || (q.Some? && Later(p.value.ts, q.value.ts))
  }

  function Head(s: seq<Packet>): Option<Packet> {
    if s == [] then None else Some(s[0])
  }

  function Merge(a: seq<Packet>, b: seq<Packet>): seq<Sent>
    decreases |a| + |b|
  {
    if a == [] && b == [] then []
    else if SecondNext(Head(a), Head(b)) then [Sent(Intf2, b[0])] + Merge(a, b[1..])
    else [Sent(Intf1, a[0])] + Merge(a[1..], b)
  }

  /** The packets that leave by one interface, in their order. */
  function On(intf: Intf, s: seq<Sent>): seq<Packet> {
    if s == [] then [] else (if s[0].intf == intf then [s[0].packet] else []) + On(intf, s[1..])
  }

  /** Every packet of either file is sent exactly once, in its file's order and on its
      file's interface. */
  lemma {:induction false} MergeComplete(a: seq<Packet>, b: seq<Packet>)
    ensures On(Intf1, Merge(a, b)) == a && On(Intf2, Merge(a, b)) == b
    ensures |Merge(a, b)| == |a| + |b|
    decreases |a| + |b|
  {
    if a == [] && b == [] {
    } else if SecondNext(Head(a), Head(b)) {
      MergeComplete(a, b[1..]);
      assert Merge(a, b)[1..] == Merge(a, b[1..]);
    } else {
      MergeComplete(a[1..], b);
      assert Merge(a, b)[1..] == Merge(a[1..], b);
    }
  }

  ghost predicate InOrder(s: seq<Packet>) {
    forall i, j :: 0 <= i < j < |s| ==> !Later(s[i].ts, s[j].ts)
  }

  /** `x` may be sent before `y`: it is no later, and of two packets with one time stamp that
      of the first file goes first. */
  predicate Precedes(x: Sent, y: Sent) {
    && !Later(x.packet.ts, y.packet.ts)
    && (x.packet.ts == y.packet.ts && y.intf == Intf1 ==> x.intf == Intf1)
  }

  ghost predicate Ordered(s: seq<Sent>) {
    forall i, j :: 0 <= i < j < |s| ==> Precedes(s[i], s[j])
  }

  /** All that is merged comes from one of the files. */
  lemma {:induction false} MergeFrom(a: seq<Packet>, b: seq<Packet>, k: nat)
    requires k < |Merge(a, b)|
    ensures var x := Merge(a, b)[k];
      if x.intf == Intf1 then x.packet in a else x.packet in b
    decreases |a| + |b|
  {
    if SecondNext(Head(a), Head(b)) {
      if k > 0 {
        MergeFrom(a, b[1..], k - 1);
      }
    } else if k > 0 {
      MergeFrom(a[1..], b, k - 1);
    }
  }

  lemma FirstPrecedes(a: seq<Packet>, b: seq<Packet>, k: nat)
    requires InOrder(a) && InOrder(b) && 0 < k < |Merge(a, b)|
    ensures Precedes(Merge(a, b)[0], Merge(a, b)[k])
  {
    var s := Merge(a, b);
    if SecondNext(Head(a), Head(b)) {
      MergeFrom(a, b[1..], k - 1);
      assert s[k] == Merge(a, b[1..])[k - 1];
    } else {
      MergeFrom(a[1..], b, k - 1);
      assert s[k] == Merge(a[1..], b)[k - 1];
    }
  }

  /** If both files are in the order of time, so is what is sent, and ties go to the first
      file. */
  lemma {:induction false} MergeOrdered(a: seq<Packet>, b: seq<Packet>)
    requires InOrder(a) && InOrder(b)
    ensures Ordered(Merge(a, b))
    decreases |a| + |b|
  {
    var s := Merge(a, b);
    if s != [] {
      if SecondNext(Head(a), Head(b)) {
        MergeOrdered(a, b[1..]);
        assert s[1..] == Merge(a, b[1..]);
      } else {
        MergeOrdered(a[1..], b);
        assert s[1..] == Merge(a[1..], b);
      }
      forall i, j | 0 <= i < j < |s|
        ensures Precedes(s[i], s[j])
      {
        if i == 0 {
          FirstPrecedes(a, b, j);
        } else {
          assert s[i] == s[1..][i - 1] && s[j] == s[1..][j - 1];
        }
      }
    }
  }

  /** Where the first packet of an interface is. */
  lemma {:induction false} FirstOn(intf: Intf, s: seq<Sent>) returns (k: nat)
    requires On(intf, s) != []
    ensures k < |s| && s[k] == Sent(intf, On(intf, s)[0])
  {
    if s[0].intf == intf {
      k := 0;
    } else {
      k := FirstOn(intf, s[1..]);
      k := k + 1;
    }
  }

  /** The merge is the only order with these properties. */
  lemma {:induction false} MergeUnique(s: seq<Sent>, a: seq<Packet>, b: seq<Packet>)
    requires On(Intf1, s) == a && On(Intf2, s) == b && Ordered(s)
    ensures s == Merge(a, b)
    decreases |s|
  {
    if s != [] {
      assert s == [s[0]] + s[1..];
      if s[0].intf == Intf1 {
        if b != [] {
          var k := FirstOn(Intf2, s);
          assert Precedes(s[0], s[k]);
        }
        MergeUnique(s[1..], a[1..], b);
      } else {
        if a != [] {
          var k := FirstOn(Intf1, s);
          assert Precedes(s[0], s[k]);
        }
        MergeUnique(s[1..], a, b[1..]);
      }
    }
  }

  // ---------- the order in time ----------

  /** The packets have proper time stamps, none earlier than the one before it. */
  ghost predicate InTime(s: seq<Packet>) {
    && (forall i :: 0 <= i < |s| ==> Normal(s[i].ts))
    && (forall i, j :: 0 <= i < j < |s| ==> Micros(s[i].ts) <= Micros(s[j].ts))
  }

  /** What is sent is in the order of time, and of two packets of the same microsecond that of
      the first file goes first. */
  ghost predicate ByTime(s: seq<Sent>) {
    forall i, j :: 0 <= i < j < |s| ==>
      && Micros(s[i].packet.ts) <= Micros(s[j].packet.ts)
      && (Micros(s[i].packet.ts) == Micros(s[j].packet.ts) && s[j].intf == Intf1 ==> s[i].intf == Intf1)
  }

  ghost predicate AllNormal(s: seq<Sent>) {
    forall i :: 0 <= i < |s| ==> Normal(s[i].packet.ts)
  }

  lemma OrderedByTime(s: seq<Sent>)
    requires AllNormal(s)
    ensures Ordered(s) <==> ByTime(s)
  {
    forall i, j | 0 <= i < j < |s|
      ensures Precedes(s[i], s[j]) <==>
        && Micros(s[i].packet.ts) <= Micros(s[j].packet.ts)
        && (Micros(s[i].packet.ts) == Micros(s[j].packet.ts) && s[j].intf == Intf1 ==> s[i].intf == Intf1)
    {
      LaterInTime(s[i].packet.ts, s[j].packet.ts);
    }
  }

  lemma InOrderInTime(s: seq<Packet>)
    requires InTime(s)
    ensures InOrder(s)
  {
    forall i, j | 0 <= i < j < |s|
      ensures !Later(s[i].ts, s[j].ts)
    {
      LaterInTime(s[i].ts, s[j].ts);
    }
  }

  lemma MergeNormal(a: seq<Packet>, b: seq<Packet>)
    requires InTime(a) && InTime(b)
    ensures AllNormal(Merge(a, b))
  {
    forall k | 0 <= k < |Merge(a, b)|
      ensures Normal(Merge(a, b)[k].packet.ts)
    {
      MergeFrom(a, b, k);
    }
  }

  /** If both files are in the order of time, so is the merge. */
  lemma MergeByTime(a: seq<Packet>, b: seq<Packet>)
    requires InTime(a) && InTime(b)
    ensures ByTime(Merge(a, b))
  {
    InOrderInTime(a);
    InOrderInTime(b);
    MergeOrdered(a, b);
    MergeNormal(a, b);
    OrderedByTime(Merge(a, b));
  }

  /** And it is the only way to send both files in the order of time. */
  lemma ByTimeUnique(s: seq<Sent>, a: seq<Packet>, b: seq<Packet>)
    requires On(Intf1, s) == a && On(Intf2, s) == b && AllNormal(s) && ByTime(s)
    ensures s == Merge(a, b)
  {
    OrderedByTime(s);
    MergeUnique(s, a, b);
  }

  /** Whatever the order of the files, the next packet is that of the second file if and only
      if the first file has ended or its packet is later in time. */
  lemma MergeNext(a: seq<Packet>, b: seq<Packet>)
    requires b != [] && Normal(b[0].ts) && (a != [] ==> Normal(a[0].ts))
    ensures Merge(a, b) != [] && (Merge(a, b)[0].intf == Intf2 <==> a == [] || Micros(a[0].ts) > Micros(b[0].ts))
  {
    if a != [] {
      LaterInTime(a[0].ts, b[0].ts);
    }
  }

  // ---------- the main loop ----------

  /** What one turn of the loop meets: the packet was sent, the time limit being reached or
      not, or its edit or its sending failed, the interface being lost or not. */
  datatype Event = Success(timeUp: bool) | Failure(lost: bool)

  /** How many of the turns sent a packet. The list of packet numbers left out says which
      turns do nothing; turns are counted from one. */
  function Successes(events: seq<Event>, leftOut: nat -> bool): nat {
    if events == [] then 0
    else
      var n := |events|;
      Successes(events[..n - 1], leftOut) + if !leftOut(n) && events[n - 1].Success? then 1 else 0
  }

  lemma {:induction false} SuccessesGrow(events: seq<Event>, leftOut: nat -> bool, n: nat)
    requires n <= |events|
    ensures Successes(events[..n], leftOut) <= Successes(events, leftOut)
  {
    if n < |events| {
      SuccessesGrow(events[..|events| - 1], leftOut, n);
      assert events[..|events| - 1][..n] == events[..n];
    } else {
      assert events[..n] == events;
    }
  }

  lemma NextSuccess(events: seq<Event>, leftOut: nat -> bool, n: nat)
    requires 0 < n <= |events|
    ensures Successes(events[..n], leftOut)
         == Successes(events[..n - 1], leftOut) + if !leftOut(n) && events[n - 1].Success? then 1 else 0
  {
    assert events[..n][..n - 1] == events[..n - 1];
  }

  /** `done` packets of the file are sent and `p` holds the next one. */
  ghost predicate Pending(file: seq<Packet>, done: nat, p: Option<Packet>) {
    done <= |file| && p == Head(file[done..])
  }

  /** The rest of a merge behind what is sent. */
  ghost predicate Sending(sent: seq<Sent>, a: seq<Packet>, b: seq<Packet>, whole: seq<Sent>) {
    whole == sent + Merge(a, b)
  }

  lemma SendSecond(sent: seq<Sent>, a: seq<Packet>, f: seq<Packet>, done: nat, q: Option<Packet>, whole: seq<Sent>)
    requires Pending(f, done, q) && q.Some? && SecondNext(Head(a), q)
    requires Sending(sent, a, f[done..], whole)
    ensures done < |f| && Sending(sent + [Sent(Intf2, q.value)], a, f[done + 1..], whole)
  {
    assert f[done..][1..] == f[done + 1..];
  }

  lemma SendFirst(sent: seq<Sent>, f: seq<Packet>, done: nat, p: Option<Packet>, b: seq<Packet>, whole: seq<Sent>)
    requires Pending(f, done, p) && p.Some? && !SecondNext(p, Head(b))
    requires Sending(sent, f[done..], b, whole)
    ensures done < |f| && Sending(sent + [Sent(Intf1, p.value)], f[done + 1..], b, whole)
  {
    assert f[done..][1..] == f[done + 1..];
  }

  lemma Whole(file: seq<Packet>)
    ensures file[0..] == file
  {
  }

  /** The next packet of one of the files. */
  method Fetch(source: PacketSource, ghost done: nat) returns (p: Option<Packet>)
    requires source.Ready() && source.at == done <= |source.file|
    modifies source, source.repr
    ensures source.Ready() && source.at <= |source.file| && fresh(source.repr - old(source.repr))
    ensures Pending(source.file, done, p)
    ensures p.Some? ==> source.at == done + 1
  {
    p := source.Fetch();
  }

  /** The replay of two files, as far as the turns given go. */
  class DualReplay {
    const source1: PacketSource
    const source2: PacketSource
    var pktdata1: Option<Packet>
    var pktdata2: Option<Packet>
    var sent: seq<Sent>
    var pktsSent: nat      // over all passes
    ghost var done1: nat
    ghost var done2: nat

    ghost predicate Valid()
      reads this, source1, source2, source1.repr, source2.repr, source1.bufs, source2.bufs
    {
      && source1 != source2 && source1.repr !! source2.repr
      && source1.Ready() && source2.Ready()
      && Pending(source1.file, done1, pktdata1) && (pktdata1.Some? ==> source1.at == done1 + 1)
      && Pending(source2.file, done2, pktdata2) && (pktdata2.Some? ==> source2.at == done2 + 1)
      && Sending(sent, source1.file[done1..], source2.file[done2..], Merge(source1.file, source2.file))
    }

    /** The same as Valid, for callers that need not look inside. */
    ghost predicate Ready()
      reads this, source1, source2, source1.repr, source2.repr, source1.bufs, source2.bufs
    {
      forall r: DualReplay :: r == this ==> r.Valid()
    }

    constructor (source1: PacketSource, source2: PacketSource, pktsSent: nat)
      requires source1 != source2 && source1.repr !! source2.repr
      requires source1.Ready() && source2.Ready()
      ensures Separate() && this.source1 == source1 && this.source2 == source2 && this.pktsSent == pktsSent
    {
      this.source1, this.source2, this.pktsSent := source1, source2, pktsSent;
      pktdata1, pktdata2, sent, done1, done2 := None, None, [], 0, 0;
    }

    ghost predicate Separate()
      reads this, source1, source2, source1.repr, source2.repr, source1.bufs, source2.bufs
    {
      source1 != source2 && source1.repr !! source2.repr && source1.Ready() && source2.Ready()
    }

    /** The first packets of both files are fetched. */
    method Begin()
      requires Separate() && source1.at == 0 && source2.at == 0
      modifies this, source1, source2, source1.repr, source2.repr
      ensures Valid() && sent == [] && pktsSent == old(pktsSent)
      ensures fresh(source1.repr - old(source1.repr)) && fresh(source2.repr - old(source2.repr))
    {
      sent, done1, done2 := [], 0, 0;
      Begin1();
      Begin2();
      Whole(source1.file);
      Whole(source2.file);
    }

    method Begin1()
      requires Separate() && source1.at == 0
      modifies `pktdata1, source1, source1.repr
      ensures Separate() && fresh(source1.repr - old(source1.repr))
      ensures Pending(source1.file, 0, pktdata1) && (pktdata1.Some? ==> source1.at == 1)
    {
      pktdata1 := Fetch(source1, 0);
    }

    method Begin2()
      requires Separate() && source2.at == 0
      modifies `pktdata2, source2, source2.repr
      ensures Separate() && fresh(source2.repr - old(source2.repr))
      ensures Pending(source2.file, 0, pktdata2) && (pktdata2.Some? ==> source2.at == 1)
    {
      pktdata2 := Fetch(source2, 0);
    }

    /** What is sent is a prefix of the merge, and all of it once both files have ended. */
    lemma Extent()
      requires Ready()
      ensures sent <= Merge(source1.file, source2.file)
      ensures |sent| <= |source1.file| + |source2.file|
      ensures pktdata1 == None && pktdata2 == None ==> |sent| == |source1.file| + |source2.file|
    {
      assert this.Valid();
      MergeComplete(source1.file, source2.file);
    }

    /** One packet is sent and the next one of its file is fetched. */
    method SendOne()
      requires Ready() && !(pktdata1 == None && pktdata2 == None)
      modifies this, source1, source2, source1.repr, source2.repr
      ensures Ready() && |sent| == |old(sent)| + 1 && pktsSent == old(pktsSent) + 1
      ensures fresh(source1.repr - old(source1.repr)) && fresh(source2.repr - old(source2.repr))
    {
      assert this.Valid();
      if SecondNext(pktdata1, pktdata2) {
        SendFrom2();
      } else {
        SendFrom1();
      }
    }

    method SendFrom1()
      requires Valid() && pktdata1.Some? && !SecondNext(pktdata1, pktdata2)
      modifies this, source1, source1.repr
      ensures Valid() && |sent| == |old(sent)| + 1 && pktsSent == old(pktsSent) + 1
      ensures fresh(source1.repr - old(source1.repr))
    {
      SendFirst(sent, source1.file, done1, pktdata1, source2.file[done2..], Merge(source1.file, source2.file));
      sent := sent + [Sent(Intf1, pktdata1.value)];
      pktsSent, done1 := pktsSent + 1, done1 + 1;
      pktdata1 := Fetch(source1, done1);
    }

    method SendFrom2()
      requires Valid() && pktdata2.Some? && SecondNext(pktdata1, pktdata2)
      modifies this, source2, source2.repr
      ensures Valid() && |sent| == |old(sent)| + 1 && pktsSent == old(pktsSent) + 1
      ensures fresh(source2.repr - old(source2.repr))
    {
      SendSecond(sent, source1.file[done1..], source2.file, done2, pktdata2, Merge(source1.file, source2.file));
      sent := sent + [Sent(Intf2, pktdata2.value)];
      pktsSent, done2 := pktsSent + 1, done2 + 1;
      pktdata2 := Fetch(source2, done2);
    }

    /** send_dual_packets without a list, failures or limits: it ends, and it has sent the
        whole merge. */
    method SendAll()
      requires Separate() && source1.at == 0 && source2.at == 0
      modifies this, source1, source2, source1.repr, source2.repr
      ensures sent == Merge(source1.file, source2.file)
      ensures InTime(source1.file) && InTime(source2.file) ==> ByTime(sent)
    {
      if InTime(source1.file) && InTime(source2.file) {
        MergeByTime(source1.file, source2.file);
      }
      Begin();
      Extent();
      while !(pktdata1 == None && pktdata2 == None)
        invariant Ready() && |sent| <= |source1.file| + |source2.file|
        invariant fresh(source1.repr - old(source1.repr)) && fresh(source2.repr - old(source2.repr))
        decreases |source1.file| + |source2.file| - |sent|
      {
        SendOne();
        Extent();
      }
      Extent();
      MergeComplete(source1.file, source2.file);
    }

    /** A turn of the main loop: the packet at hand is sent, or it stays where it is. The list
        may leave the packet number out. */
    method Step(event: Event, out: bool, limit: nat) returns (stop: bool)
      requires Ready() && !(pktdata1 == None && pktdata2 == None)
      modifies this, source1, source2, source1.repr, source2.repr
      ensures Ready() && |sent| == |old(sent)| + if !out && event.Success? then 1 else 0
      ensures pktsSent - |sent| == old(pktsSent - |sent|)
      ensures fresh(source1.repr - old(source1.repr)) && fresh(source2.repr - old(source2.repr))
      ensures stop == Stops(event, out, limit, pktsSent)
    {
      stop := false;
      if !out {
        if event.Failure? {
          stop := event.lost;
        } else {
          SendOne();
          stop := event.timeUp || (limit > 0 && pktsSent >= limit);
        }
      }
    }

    /** send_dual_packets, over any finite number of turns: what is sent is always a prefix
        of the merge, as long as the turns that were successful. The run ends early only by
        the last turn it took, at the first lost interface, at the end of the time or at the
        limit, which it never passes; otherwise neither a failure nor the list loses a packet. */
    method Run(events: seq<Event>, leftOut: nat -> bool, limit: nat) returns (aborted: bool, turns: nat)
      requires Separate() && source1.at == 0 && source2.at == 0
      modifies this, source1, source2, source1.repr, source2.repr
      ensures sent <= Merge(source1.file, source2.file) && pktsSent == old(pktsSent) + |sent|
      ensures turns <= |events| && Went(events, leftOut, limit, old(pktsSent), turns, aborted, |sent|)
      ensures !aborted ==> |sent| == Min(Successes(events, leftOut), |source1.file| + |source2.file|)
    {
      Begin();
      aborted, turns := false, 0;
      assert GoneSo(events, leftOut, limit, pktsSent, turns, aborted, |sent|);
      while !aborted && !(pktdata1 == None && pktdata2 == None) && turns < |events|
        invariant 0 <= turns <= |events| && Ready() && pktsSent == old(pktsSent) + |sent|
        invariant fresh(source1.repr - old(source1.repr)) && fresh(source2.repr - old(source2.repr))
        invariant GoneSo(events, leftOut, limit, old(pktsSent), turns, aborted, |sent|)
        decreases |events| - turns
      {
        ghost var before := |sent|;
        aborted := Step(events[turns], leftOut(turns + 1), limit);
        GoneOn(events, leftOut, limit, old(pktsSent), turns, before, |sent|, aborted);
        turns := turns + 1;
      }
      assert Went(events, leftOut, limit, old(pktsSent), turns, aborted, |sent|);
      Extent();
      SuccessesGrow(events, leftOut, turns);
      assert turns == |events| ==> events[..turns] == events;
    }
  }

  /** How the first turns of a run went: each successful one sent a packet. None but the last
      ended the run, the limit was not passed, and whoever reached it stopped. */
  ghost predicate Went(events: seq<Event>, leftOut: nat -> bool, limit: nat, before: nat, turns: nat, aborted: bool, count: nat)
    requires turns <= |events|
  {
    && count == Successes(events[..turns], leftOut)
    && (aborted ==> turns > 0 && Stops(events[turns - 1], leftOut(turns), limit, before + count))
    && (forall k :: 0 <= k < turns && Fatal(events[k], leftOut(k + 1)) ==> aborted && k == turns - 1)
    && (limit > 0 && before < limit ==> before + count <= limit && (before + count == limit ==> aborted))
  }

  /** The same, for callers that need not look inside. */
  ghost predicate GoneSo(events: seq<Event>, leftOut: nat -> bool, limit: nat, before: nat, turns: nat, aborted: bool, count: nat)
    requires turns <= |events|
  {
    forall c: nat {:trigger Went(events, leftOut, limit, before, turns, aborted, c)} :: c == count ==>
      Went(events, leftOut, limit, before, turns, aborted, c)
  }

  lemma GoneOn(events: seq<Event>, leftOut: nat -> bool, limit: nat, before: nat, turns: nat, count: nat, count': nat, stop: bool)
    requires turns < |events| && GoneSo(events, leftOut, limit, before, turns, false, count)
    requires count' == count + if !leftOut(turns + 1) && events[turns].Success? then 1 else 0
    requires stop == Stops(events[turns], leftOut(turns + 1), limit, before + count')
    ensures GoneSo(events, leftOut, limit, before, turns + 1, stop, count')
  {
    assert Went(events, leftOut, limit, before, turns, false, count);
    NextSuccess(events, leftOut, turns + 1);
  }

  /** A turn ends the run whatever was sent: the interface is lost, or the time is up. */
  predicate Fatal(event: Event, out: bool) {
    !out && if event.Failure? then event.lost else event.timeUp
  }

  /** A turn ends the run: the interface is lost, the time is up, or the limit is reached. */
  predicate Stops(event: Event, out: bool, limit: nat, pktsSent: nat) {
    !out && if event.Failure? then event.lost else event.timeUp || (limit > 0 && pktsSent >= limit)
  }

  /** Two files, each preloaded or not, from the files on. */
  method Replay(file1: seq<Packet>, file2: seq<Packet>, preload1: bool, preload2: bool) returns (sent: seq<Sent>)
    ensures On(Intf1, sent) == file1 && On(Intf2, sent) == file2
    ensures sent == Merge(file1, file2)
    ensures InTime(file1) && InTime(file2) ==> ByTime(sent)
  {
    MergeComplete(file1, file2);
    var source1 := Open(file1, preload1);
    var source2 := Open(file2, preload2);
    var replay := new DualReplay(source1, source2, 0);
    replay.SendAll();
    sent := replay.sent;
  }

  // ---------- when the loop ends ----------

  /** How many of the packet numbers up to `n` the list admits. */
  function Admitted(leftOut: nat -> bool, n: nat): nat {
    if n == 0 then 0 else Admitted(leftOut, n - 1) + if leftOut(n) then 0 else 1
  }

  /** No run sends more packets than numbers were admitted; without failures it sends just as
      many, as long as there are packets. */
  lemma {:induction false} SuccessesAdmitted(events: seq<Event>, leftOut: nat -> bool)
    ensures Successes(events, leftOut) <= Admitted(leftOut, |events|)
    ensures (forall k :: 0 <= k < |events| ==> events[k].Success?) ==> Successes(events, leftOut) == Admitted(leftOut, |events|)
  {
    if events != [] {
      SuccessesAdmitted(events[..|events| - 1], leftOut);
    }
  }

  lemma {:induction false} AdmittedUpTo(leftOut: nat -> bool, last: nat, n: nat)
    requires forall m :: m > last ==> leftOut(m)
    ensures Admitted(leftOut, n) <= Admitted(leftOut, last)
  {
    if n > last {
      AdmittedUpTo(leftOut, last, n - 1);
    } else if n < last {
      AdmittedGrows(leftOut, n, last);
    }
  }

  lemma {:induction false} AdmittedGrows(leftOut: nat -> bool, n: nat, m: nat)
    requires n <= m
    ensures Admitted(leftOut, n) <= Admitted(leftOut, m)
  {
    if n < m {
      AdmittedGrows(leftOut, n, m - 1);
    }
  }

  /** With a list that leaves out every number beyond `last` and admits fewer numbers than
      there are packets, no number of turns sends all of them, so that the loop does not end
      by itself. */
  lemma NeverEnds(events: seq<Event>, leftOut: nat -> bool, last: nat, packets: nat)
    requires (forall m :: m > last ==> leftOut(m)) && Admitted(leftOut, last) < packets
    ensures Successes(events, leftOut) < packets
  {
    SuccessesAdmitted(events, leftOut);
    AdmittedUpTo(leftOut, last, |events|);
  }

  /** Without failures, a number of turns sends all packets if and only if the list admits as
      many of their numbers. */
  lemma EndsWithin(events: seq<Event>, leftOut: nat -> bool, packets: nat)
    requires forall k :: 0 <= k < |events| ==> events[k].Success?
    ensures Min(Successes(events, leftOut), packets) == packets <==> Admitted(leftOut, |events|) >= packets
  {
    SuccessesAdmitted(events, leftOut);
  }
}
