/** The learning bridge (`src/bridge.c`): frames pass from one interface to the other, and a
    red-black tree remembers behind which interface each source address lives. */
module Bridge {
  import opened Common
  import opened CText
  import opened RedBlackShape
  import opened RedBlackTree

  // ---------- addresses ----------

  type Mac = m: seq<Byte> | |m| == 6 witness [0, 0, 0, 0, 0, 0]

  /** memcmp on two stretches of one length. */
  function Compare(a: seq<Byte>, b: seq<Byte>): int
    requires |a| == |b|
  {
    if a == [] then 0 else if a[0] != b[0] then a[0] as int - b[0] as int else Compare(a[1..], b[1..])
  }

  function Power256(n: nat): (r: nat)
    ensures r > 0
  {
    if n == 0 then 1 else 256 * Power256(n - 1)
  }

  /** The bytes as one number, the most significant byte first. */
  function BigEndian(s: seq<Byte>): nat {
    if s == [] then 0 else s[0] * Power256(|s| - 1) + BigEndian(s[1..])
  }

  lemma {:induction false} BigEndianBound(s: seq<Byte>)
    ensures BigEndian(s) < Power256(|s|)
  {
    if s != [] {
      BigEndianBound(s[1..]);
      MulLess(s[0], 255, Power256(|s| - 1));
    }
  }

  lemma MulLess(a: int, b: int, p: nat)
    requires a <= b
    ensures a * p <= b * p
  {
  }

  lemma LeadingLess(x: int, y: int, p: nat, u: nat, v: nat)
    requires x < y && u < p
    ensures x * p + u < y * p + v
  {
    MulLess(x + 1, y, p);
    assert (x + 1) * p == x * p + p;
  }

  /** rbmacsrc_comp orders addresses as their numbers are ordered, so that the tree may be
      keyed by the numbers. */
  lemma {:induction false} CompareIsOrder(a: seq<Byte>, b: seq<Byte>)
    requires |a| == |b|
    ensures Compare(a, b) < 0 <==> BigEndian(a) < BigEndian(b)
    ensures Compare(a, b) == 0 <==> BigEndian(a) == BigEndian(b)
    ensures Compare(a, b) == 0 <==> a == b
  {
    if a != [] {
      var p, u, v := Power256(|a| - 1), BigEndian(a[1..]), BigEndian(b[1..]);
      BigEndianBound(a[1..]);
      BigEndianBound(b[1..]);
      if a[0] < b[0] {
        LeadingLess(a[0], b[0], p, u, v);
      } else if a[0] > b[0] {
        LeadingLess(b[0], a[0], p, v, u);
      } else {
        CompareIsOrder(a[1..], b[1..]);
        assert a == [a[0]] + a[1..] && b == [b[0]] + b[1..];
      }
    }
  }

  // ---------- what one frame does ----------

  datatype Side = Int1 | Int2

  function Opposite(side: Side): Side {
    if side == Int1 then Int2 else Int1
  }

  /** A frame, the interface it came in by, what the editor makes of it, if the address filter
      and the editor let it through, and whether sending it would fail. */
  datatype Arrival = Arrival(side: Side, data: seq<Byte>, edited: Option<seq<Byte>>, fails: bool)

  const ZEROS: seq<Byte> := [0, 0, 0, 0, 0, 0, 0, 0, 0, 0, 0, 0]

  /** The source address, in the packet buffer that is zero beyond the frame. */
  function SourceMac(data: seq<Byte>): Mac {
    (data + ZEROS)[6..12]
  }

  /** The addresses of the bridge's own interfaces. */
  datatype Config = Config(mac1: Mac, mac2: Mac)

  predicate IsLocal(config: Config, mac: Mac) {
    mac == config.mac1 || mac == config.mac2
  }

  /** What is learned from a frame. */
  function Learn(config: Config, table: map<Mac, Side>, a: Arrival): map<Mac, Side> {
    var mac := SourceMac(a.data);
    if IsLocal(config, mac) || mac in table then table else table[mac := a.side]
  }

  /** The interface a frame leaves by, if it is forwarded. */
  function Forward(config: Config, table: map<Mac, Side>, a: Arrival): Option<Side> {
    var mac := SourceMac(a.data);
    if IsLocal(config, mac) || (mac in table && table[mac] != a.side) || a.edited.None? then None
    else Some(Opposite(a.side))
  }

  // ---------- whole runs ----------

  /** The table after a run. */
  function Table(config: Config, run: seq<Arrival>): map<Mac, Side> {
    if run == [] then map[] else Learn(config, Table(config, run[..|run| - 1]), run[|run| - 1])
  }

  /** What happens to frame `k` of a run. */
  function Outcome(config: Config, run: seq<Arrival>, k: nat): Option<Side>
    requires k < |run|
  {
    Forward(config, Table(config, run[..k]), run[k])
  }

  /** Sending frame `k` fails, which ends the program. */
  predicate Fatal(config: Config, run: seq<Arrival>, k: nat)
    requires k < |run|
  {
    Outcome(config, run, k).Some? && run[k].fails
  }

  /** The frames that a run has sent, in order, each with the interface it left by. */
  function Sent(config: Config, run: seq<Arrival>): seq<(Side, seq<Byte>)> {
    if run == [] then []
    else
      var k := |run| - 1;
      var out := Outcome(config, run, k);
      Sent(config, run[..k]) + if out.Some? then [(out.value, run[k].edited.value)] else []
  }

  function Total(sent: seq<(Side, seq<Byte>)>): nat {
    if sent == [] then 0 else Total(sent[..|sent| - 1]) + |sent[|sent| - 1].1|
  }

  /** A recorded side never changes. */
  lemma {:induction false} SideKept(config: Config, run: seq<Arrival>, i: nat, j: nat, mac: Mac)
    requires i <= j <= |run| && mac in Table(config, run[..i])
    ensures mac in Table(config, run[..j]) && Table(config, run[..j])[mac] == Table(config, run[..i])[mac]
    decreases j
  {
    if i < j {
      SideKept(config, run, i, j - 1, mac);
      assert run[..j][..j - 1] == run[..j - 1];
    }
  }

  /** The position of the first frame from an address, or the length of the run. */
  function FirstFrom(run: seq<Arrival>, mac: Mac): (k: nat)
    ensures k <= |run|
    ensures k < |run| ==> SourceMac(run[k].data) == mac
    ensures forall i :: 0 <= i < k ==> SourceMac(run[i].data) != mac
  {
    if run == [] || SourceMac(run[0].data) == mac then 0 else 1 + FirstFrom(run[1..], mac)
  }

  /** The table holds just the foreign addresses seen so far, each with the side on which it
      was first seen. */
  lemma {:induction false} TableMeaning(config: Config, run: seq<Arrival>, mac: Mac)
    ensures mac in Table(config, run) <==> !IsLocal(config, mac) && FirstFrom(run, mac) < |run|
    ensures mac in Table(config, run) ==> Table(config, run)[mac] == run[FirstFrom(run, mac)].side
  {
    if run != [] {
      var n := |run| - 1;
      var before, last := run[..n], run[n];
      TableMeaning(config, before, mac);
      FirstExtends(run, mac);
    }
  }

  lemma FirstExtends(run: seq<Arrival>, mac: Mac)
    requires run != []
    ensures var n := |run| - 1;
      var k := FirstFrom(run[..n], mac);
      FirstFrom(run, mac) == if k < n || SourceMac(run[n].data) == mac then k else |run|
  {
    var n := |run| - 1;
    var before := run[..n];
    var k, j := FirstFrom(before, mac), FirstFrom(run, mac);
    assert forall i :: 0 <= i < n ==> before[i] == run[i];
  }

  /** The address of frame `k` is recorded with another side just if it was first seen
      there. */
  lemma SeenElsewhere(config: Config, run: seq<Arrival>, k: nat, mac: Mac)
    requires k < |run| && mac == SourceMac(run[k].data) && !IsLocal(config, mac)
    ensures var table := Table(config, run[..k]);
      mac in table && table[mac] != run[k].side <==> run[FirstFrom(run, mac)].side != run[k].side
  {
    TableMeaning(config, run[..k], mac);
    FirstBefore(run, k, mac);
    var f := FirstFrom(run, mac);
    assert f < k ==> run[..k][f] == run[f];
  }

  /** A frame is forwarded if and only if it may pass, its source is foreign, and it came in
      by the side on which that source was first seen; it leaves by the opposite one. */
  lemma ForwardedWhen(config: Config, run: seq<Arrival>, k: nat)
    requires k < |run|
    ensures var mac := SourceMac(run[k].data);
      Outcome(config, run, k) ==
        if run[k].edited.Some? && !IsLocal(config, mac) && run[k].side == run[FirstFrom(run, mac)].side
        then Some(Opposite(run[k].side)) else None
  {
    var mac := SourceMac(run[k].data);
    if !IsLocal(config, mac) {
      SeenElsewhere(config, run, k, mac);
    }
  }

  lemma FirstBefore(run: seq<Arrival>, k: nat, mac: Mac)
    requires k < |run| && SourceMac(run[k].data) == mac
    ensures FirstFrom(run, mac) == FirstFrom(run[..k], mac) <= k
  {
    var f, g := FirstFrom(run, mac), FirstFrom(run[..k], mac);
    assert forall i :: 0 <= i < k ==> run[..k][i] == run[i];
    assert f <= k;
  }

  /** All forwarded frames of one source address come in by one interface and leave by the
      other, wherever they are in the run. */
  lemma OneWay(config: Config, run: seq<Arrival>, i: nat, j: nat)
    requires i < |run| && j < |run| && SourceMac(run[i].data) == SourceMac(run[j].data)
    requires Outcome(config, run, i).Some? && Outcome(config, run, j).Some?
    ensures Outcome(config, run, i) == Outcome(config, run, j) == Some(Opposite(run[i].side))
    ensures run[i].side == run[j].side
  {
    ForwardedWhen(config, run, i);
    ForwardedWhen(config, run, j);
  }

  /** A forwarded frame that comes back by the interface it left by, with its source address
      unchanged, is not forwarded again. */
  lemma NoEcho(config: Config, run: seq<Arrival>, i: nat, j: nat)
    requires i < |run| && j < |run| && Outcome(config, run, i).Some?
    requires SourceMac(run[j].data) == SourceMac(run[i].data) && run[j].side == Outcome(config, run, i).value
    ensures Outcome(config, run, j) == None
  {
    ForwardedWhen(config, run, i);
    ForwardedWhen(config, run, j);
  }

  // ---------- the same in terms of the fields of a frame ----------

  /** An Ethernet frame: destination, source, and what follows. */
  datatype Frame = Frame(dst: Mac, src: Mac, rest: seq<Byte>)

  function Wire(f: Frame): seq<Byte> {
    f.dst + f.src + f.rest
  }

  /** A frame that comes in, and what the editor and the network make of it. */
  datatype Incoming = Incoming(side: Side, frame: Frame, edited: Option<seq<Byte>>, fails: bool)

  function Arrivals(ins: seq<Incoming>): (run: seq<Arrival>)
    ensures |run| == |ins|
    ensures forall k :: 0 <= k < |ins| ==> run[k] == Arrival(ins[k].side, Wire(ins[k].frame), ins[k].edited, ins[k].fails)
  {
    seq(|ins|, k requires 0 <= k < |ins| => Arrival(ins[k].side, Wire(ins[k].frame), ins[k].edited, ins[k].fails))
  }

  /** The address that is learned and compared is the source of the frame, whatever its
      destination is. */
  lemma SourceIsSource(f: Frame)
    ensures SourceMac(Wire(f)) == f.src
  {
    assert (Wire(f) + ZEROS)[6..12] == f.src;
  }

  /** A frame that ends before its source does counts as padded with zeros. */
  lemma SourceOfShort(data: seq<Byte>, i: nat)
    requires i < 6
    ensures SourceMac(data)[i] == if 6 + i < |data| then data[6 + i] else 0
  {
  }

  /** Frame `k` is the first one of its source. */
  predicate First(ins: seq<Incoming>, k: nat)
    requires k < |ins|
  {
    forall i :: 0 <= i < k ==> ins[i].frame.src != ins[k].frame.src
  }

  /** A frame is forwarded if and only if it may pass, its source is no address of the bridge,
      and the first frame of that source came in by the same interface; it leaves by the other
      one. */
  lemma FrameForwarded(config: Config, ins: seq<Incoming>, k: nat, first: nat)
    requires first <= k < |ins| && ins[first].frame.src == ins[k].frame.src && First(ins, first)
    ensures Outcome(config, Arrivals(ins), k) ==
      if ins[k].edited.Some? && ins[k].frame.src != config.mac1 && ins[k].frame.src != config.mac2 && ins[first].side == ins[k].side
      then Some(if ins[k].side == Int1 then Int2 else Int1) else None
  {
    var run := Arrivals(ins);
    forall i | 0 <= i < |ins|
      ensures SourceMac(run[i].data) == ins[i].frame.src
    {
      SourceIsSource(ins[i].frame);
    }
    ForwardedWhen(config, run, k);
    assert FirstFrom(run, ins[k].frame.src) == first;
  }

  /** Every source has a first frame. */
  lemma {:induction false} FirstExists(ins: seq<Incoming>, k: nat) returns (first: nat)
    requires k < |ins|
    ensures first <= k && ins[first].frame.src == ins[k].frame.src && First(ins, first)
  {
    first := k;
    if i :| 0 <= i < k && ins[i].frame.src == ins[k].frame.src {
      first := FirstExists(ins, i);
    }
  }

  /** All forwarded frames of one source leave by the same interface, and none of them came in
      by it. */
  lemma FramesOneWay(config: Config, ins: seq<Incoming>, i: nat, j: nat)
    requires i < |ins| && j < |ins| && ins[i].frame.src == ins[j].frame.src
    requires Outcome(config, Arrivals(ins), i).Some? && Outcome(config, Arrivals(ins), j).Some?
    ensures Outcome(config, Arrivals(ins), i) == Outcome(config, Arrivals(ins), j)
    ensures ins[i].side == ins[j].side != Outcome(config, Arrivals(ins), i).value
  {
    var first := FirstExists(ins, i);
    var other := FirstExists(ins, j);
    assert first == other;
    FrameForwarded(config, ins, i, first);
    FrameForwarded(config, ins, j, first);
  }

  /** A forwarded frame that comes back by the interface it left by is not forwarded again, and
      nothing of the same source that comes in there is. */
  lemma FramesNoEcho(config: Config, ins: seq<Incoming>, i: nat, j: nat)
    requires i < |ins| && j < |ins| && ins[i].frame.src == ins[j].frame.src
    requires Outcome(config, Arrivals(ins), i) == Some(ins[j].side)
    ensures Outcome(config, Arrivals(ins), j) == None
  {
    var first := FirstExists(ins, i);
    var other := FirstExists(ins, j);
    assert first == other;
    FrameForwarded(config, ins, i, first);
    FrameForwarded(config, ins, j, first);
  }

  /** One more frame. */
  lemma SentMore(config: Config, run: seq<Arrival>, k: nat)
    requires k < |run|
    ensures
      var before, after, out := Sent(config, run[..k]), Sent(config, run[..k + 1]), Outcome(config, run, k);
      if out.Some? then |after| == |before| + 1 && Total(after) == Total(before) + |run[k].edited.value|
      else after == before
  {
    var front := run[..k + 1];
    assert front[..k] == run[..k] && front[k] == run[k];
    var out := Outcome(config, run, k);
    assert Outcome(config, front, k) == out;
    if out.Some? {
      var before, sent := Sent(config, run[..k]), (out.value, run[k].edited.value);
      assert (before + [sent])[..|before|] == before;
    }
  }

  /** The first frames of a run have these outcomes, and all of them could be sent. */
  ghost predicate Handled(config: Config, run: seq<Arrival>, outs: seq<Option<Side>>) {
    && |outs| <= |run|
    && forall k :: 0 <= k < |outs| ==> outs[k] == Outcome(config, run, k) && !Fatal(config, run, k)
  }

  /** The first frames of a run are handled, and this is what the bridge knows and has counted. */
  ghost predicate Progress(config: Config, run: seq<Arrival>, outs: seq<Option<Side>>, table: map<Mac, Side>, pkts: int, bytes: int) {
    forall c: Config {:trigger Handled(c, run, outs)} :: c == config ==>
      && Handled(c, run, outs) && table == Table(c, run[..|outs|])
      && pkts == |Sent(c, run[..|outs|])| && bytes == Total(Sent(c, run[..|outs|]))
  }

  lemma ProgressStart(config: Config, run: seq<Arrival>)
    ensures Progress(config, run, [], map[], 0, 0)
  {
    var outs: seq<Option<Side>> := [];
    assert run[..|outs|] == [];
    assert Table(config, run[..|outs|]) == map[] && Sent(config, run[..|outs|]) == [];
    assert Handled(config, run, outs);
  }

  lemma HandledMore(config: Config, run: seq<Arrival>, outs: seq<Option<Side>>)
    requires Handled(config, run, outs) && |outs| < |run| && !Fatal(config, run, |outs|)
    ensures Handled(config, run, outs + [Outcome(config, run, |outs|)])
  {
  }

  lemma ProgressFacts(config: Config, run: seq<Arrival>, outs: seq<Option<Side>>, table: map<Mac, Side>, pkts: int, bytes: int)
    requires Progress(config, run, outs, table, pkts, bytes)
    ensures Handled(config, run, outs) && table == Table(config, run[..|outs|])
    ensures pkts == |Sent(config, run[..|outs|])| && bytes == Total(Sent(config, run[..|outs|]))
  {
    assert Handled(config, run, outs);
  }

  /** One more frame. */
  lemma FrameHandled(config: Config, run: seq<Arrival>, outs: seq<Option<Side>>, table: map<Mac, Side>, pkts: int, bytes: int)
    requires Progress(config, run, outs, table, pkts, bytes) && |outs| < |run|
    ensures
      var a := run[|outs|];
      var out, known := Forward(config, table, a), Learn(config, table, a);
      && known == Table(config, run[..|outs| + 1])
      && (Fatal(config, run, |outs|) <==> out.Some? && a.fails)
      && (!(out.Some? && a.fails) ==> Progress(config, run, outs + [out], known,
                                               pkts + (if out.Some? then 1 else 0), bytes + if out.Some? then |a.edited.value| else 0))
  {
    ProgressFacts(config, run, outs, table, pkts, bytes);
    assert run[..|outs| + 1][..|outs|] == run[..|outs|];
    SentMore(config, run, |outs|);
    if !Fatal(config, run, |outs|) {
      HandledMore(config, run, outs);
    }
  }

  // ---------- the bridge ----------

  /** How the tree records a side. */
  function Code(side: Side): int {
    if side == Int1 then 1 else 2
  }

  /** The nodes of the tree are the entries of the table. */
  ghost predicate Records(nodes: set<Node>, table: map<Mac, Side>) {
    && (forall mac :: mac in table ==> !Lacks(nodes, BigEndian(mac)))
    && (forall n, mac: Mac :: n in nodes && n.key == BigEndian(mac) ==> mac in table && n.payload == Code(table[mac]))
  }

  lemma RecordNew(nodes: set<Node>, table: map<Mac, Side>, node: Node, mac: Mac, side: Side)
    requires Records(nodes, table) && Lacks(nodes, BigEndian(mac))
    requires node.key == BigEndian(mac) && node.payload == Code(side)
    ensures mac !in table && Records(nodes + {node}, table[mac := side])
  {
    forall m | m in table[mac := side]
      ensures !Lacks(nodes + {node}, BigEndian(m))
    {
      if m == mac {
        assert node in nodes + {node};
      } else {
        assert !Lacks(nodes, BigEndian(m));
      }
    }
    forall n, m: Mac | n in nodes + {node} && n.key == BigEndian(m)
      ensures m in table[mac := side] && n.payload == Code(table[mac := side][m])
    {
      CompareIsOrder(m, mac);
    }
  }

  class LiveBridge {
    const config: Config
    const macs: RbTree
    var pktsSent: nat
    var bytesSent: nat
    ghost var table: map<Mac, Side>

    ghost predicate Valid()
      reads this, macs, macs.nodes
    {
      macs.Valid() && Records(macs.nodes, table)
    }

    /** The same as Valid, for callers that need not look inside. */
    ghost predicate Ready()
      reads this, macs, macs.nodes
    {
      forall b: LiveBridge :: b == this ==> b.Valid()
    }

    constructor (config: Config)
      ensures Ready() && table == map[] && pktsSent == bytesSent == 0 && this.config == config && fresh(macs) && macs.nodes == {}
    {
      this.config := config;
      macs := new RbTree();
      pktsSent, bytesSent, table := 0, 0, map[];
    }

    /** live_callback; `exits` if the frame cannot be sent. */
    method LiveCallback(a: Arrival) returns (out: Option<Side>, exits: bool)
      requires Ready()
      modifies this, macs, macs.nodes
      ensures Ready() && fresh(macs.nodes - old(macs.nodes))
      ensures table == Learn(config, old(table), a)
      ensures out == Forward(config, old(table), a)
      ensures exits <==> out.Some? && a.fails
      ensures pktsSent == old(pktsSent) + if out.Some? && !exits then 1 else 0
      ensures bytesSent == old(bytesSent) + if out.Some? && !exits then |a.edited.value| else 0
    {
      assert this.Valid();
      out, exits := None, false;
      var mac := SourceMac(a.data);
      if mac == config.mac1 || mac == config.mac2 {
        return;
      }
      var node, _ := macs.Find(BigEndian(mac));
      if node == null {
        LearnSource(mac, a.side);
      } else if node.payload != Code(a.side) {
        return;
      }
      if a.edited.None? {
        return;
      }
      out := Some(Opposite(a.side));
      if a.fails {
        exits := true;
        return;
      }
      pktsSent, bytesSent := pktsSent + 1, bytesSent + |a.edited.value|;
    }

    /** A new entry for a source that is not in the tree. */
    method LearnSource(mac: Mac, side: Side)
      requires Valid() && Lacks(macs.nodes, BigEndian(mac))
      modifies `table, macs, macs.nodes
      ensures Valid() && fresh(macs.nodes - old(macs.nodes))
      ensures mac !in old(table) && table == old(table)[mac := side]
    {
      var node := new Node(BigEndian(mac), Code(side));
      RecordNew(macs.nodes, table, node, mac, side);
      var found, _, _ := macs.Insert(node);
      table := table[mac := side];
    }

    /** Any number of frames, each handled as the run says, up to one that cannot be sent. */
    method Loop(run: seq<Arrival>) returns (outs: seq<Option<Side>>, exits: bool)
      requires Ready() && table == map[]
      modifies this, macs, macs.nodes
      ensures Ready() && Handled(config, run, outs) && (exits <==> |outs| < |run|)
      ensures exits ==> Fatal(config, run, |outs|) && table == Table(config, run[..|outs| + 1])
      ensures !exits ==> table == Table(config, run)
      ensures pktsSent == old(pktsSent) + |Sent(config, run[..|outs|])|
      ensures bytesSent == old(bytesSent) + Total(Sent(config, run[..|outs|]))
    {
      outs, exits := [], false;
      ProgressStart(config, run);
      while |outs| < |run|
        invariant Ready() && fresh(macs.nodes - old(macs.nodes)) && |outs| <= |run|
        invariant Progress(config, run, outs, table, pktsSent - old(pktsSent), bytesSent - old(bytesSent))
      {
        FrameHandled(config, run, outs, table, pktsSent - old(pktsSent), bytesSent - old(bytesSent));
        ghost var before := table;
        var out;
        out, exits := LiveCallback(run[|outs|]);
        if exits {
          ProgressFacts(config, run, outs, before, pktsSent - old(pktsSent), bytesSent - old(bytesSent));
          return;
        }
        outs := outs + [out];
      }
      ProgressFacts(config, run, outs, table, pktsSent - old(pktsSent), bytesSent - old(bytesSent));
      assert run[..|run|] == run;
    }
  }

  /** A bridge from its start on. */
  method Bridging(config: Config, run: seq<Arrival>) returns (outs: seq<Option<Side>>, exits: bool, pkts: nat, bytes: nat)
    ensures Handled(config, run, outs) && (exits <==> |outs| < |run|) && (exits ==> Fatal(config, run, |outs|))
    ensures pkts == |Sent(config, run[..|outs|])| && bytes == Total(Sent(config, run[..|outs|]))
  {
    var bridge := new LiveBridge(config);
    outs, exits := bridge.Loop(run);
    pkts, bytes := bridge.pktsSent, bridge.bytesSent;
  }
}
