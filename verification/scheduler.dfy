/** The rate scheduler of `src/send_packets.c`: when a packet is sent, and when the
    clock is not even looked at. */
module Scheduler {
  const TWO64: nat := 0x1_0000_0000_0000_0000
  const NANO: nat := 1_000_000_000
  const HOUR_NANO: nat := 3_600_000_000_000

  datatype Mode = MbpsRate | PacketRate

  /** What the world does to one packet: its length, the time that passes before the clock is
      read, by how much a sleep overruns, and how many of its bytes are counted as sent. */
  datatype Event = Event(len: nat, wait: nat, over: nat, result: Result)

  datatype Result = Failed | Sent(bytes: nat)

  // ---------- schedule ----------

  /** Unsigned 64-bit arithmetic. */
  function Wrap(x: nat): (r: nat)
    ensures r <= x && r < TWO64
    ensures x < TWO64 ==> r == x
  {
    x % TWO64
  }

  /** The time at which `amount` units are due, as the program computes it in 64 bits,
      with a 128-bit product or with the split one. */
  function DueTime(mode: Mode, wide: bool, amount: nat, speed: nat): nat
    requires speed > 0
  {
    if wide then Wrap(amount * Scale(mode) / speed)
    else if mode.MbpsRate? then Wrap(Wrap(amount * 1000) / speed * 1_000_000)
    else Wrap(Wrap(Wrap(amount * 1_000_000) / speed * 1000) * 3600)
  }

  /** Nanoseconds of schedule per unit at speed one. */
  function Scale(mode: Mode): nat {
    if mode.MbpsRate? then NANO else HOUR_NANO
  }

  /** How coarse the computed time is. */
  function Slack(mode: Mode, wide: bool): nat {
    if wide then 1 else if mode.MbpsRate? then 1_000_000 else 3_600_000
  }

  /** Neither the products nor the result leave 64 bits. */
  predicate InWord(mode: Mode, wide: bool, amount: nat, speed: nat)
    requires speed > 0
  {
    && amount < TWO64
    && if wide then amount * Scale(mode) / speed < TWO64
    else if mode.MbpsRate? then amount * 1000 < TWO64 && amount * 1000 / speed * 1_000_000 < TWO64
    else amount * 1_000_000 < TWO64 && amount * 1_000_000 / speed * 3_600_000 < TWO64
  }

  /** The same, for callers that need not look inside. */
  ghost predicate Fits(mode: Mode, wide: bool, amount: nat, speed: nat)
    requires speed > 0
  {
    forall a: nat {:trigger InWord(mode, wide, a, speed)} :: a == amount ==> InWord(mode, wide, a, speed)
  }

  lemma DivBounds(a: nat, b: nat)
    requires b > 0
    ensures a / b >= 0 && b * (a / b) <= a < b * (a / b + 1)
  {
    BelowZero(b, a / b);
    assert a == b * (a / b) + a % b;
  }

  lemma BelowZero(b: int, q: int)
    requires b > 0
    ensures q < 0 ==> b * q <= -b
  {
  }

  lemma ScaleUp(p: nat, speed: nat, q: nat, k: nat)
    requires p < speed * (q + 1) && k > 0
    ensures p * k < speed * (q * k + k)
  {
    var s := speed * (q + 1);
    assert p * k < s * k;
    assert s * k == speed * ((q + 1) * k);
  }

  lemma FitsWord(mode: Mode, wide: bool, amount: nat, speed: nat)
    requires speed > 0 && Fits(mode, wide, amount, speed)
    ensures amount < TWO64
  {
    assert InWord(mode, wide, amount, speed);
  }

  lemma DueTimeExact(mode: Mode, wide: bool, amount: nat, speed: nat)
    requires speed > 0 && Fits(mode, wide, amount, speed)
    ensures wide ==> DueTime(mode, wide, amount, speed) == amount * Scale(mode) / speed
    ensures !wide && mode.MbpsRate? ==> DueTime(mode, wide, amount, speed) == amount * 1000 / speed * 1_000_000
    ensures !wide && mode.PacketRate? ==> DueTime(mode, wide, amount, speed) == amount * 1_000_000 / speed * 3_600_000
  {
    assert InWord(mode, wide, amount, speed);
  }

  /** The due time is never early by more than the slack. */
  lemma DueTimeBound(mode: Mode, wide: bool, amount: nat, speed: nat)
    requires speed > 0 && Fits(mode, wide, amount, speed)
    ensures amount * Scale(mode) < speed * (DueTime(mode, wide, amount, speed) + Slack(mode, wide))
  {
    DueTimeExact(mode, wide, amount, speed);
    if wide {
      DivBounds(amount * Scale(mode), speed);
    } else if mode.MbpsRate? {
      DivBounds(amount * 1000, speed);
      ScaleUp(amount * 1000, speed, amount * 1000 / speed, 1_000_000);
    } else {
      DivBounds(amount * 1_000_000, speed);
      ScaleUp(amount * 1_000_000, speed, amount * 1_000_000 / speed, 3_600_000);
    }
  }

  lemma ScaleDown(p: nat, speed: nat, q: nat, r: nat, k: nat)
    requires speed * q <= p && r <= q * k
    ensures speed * r <= p * k
  {
    assert speed * r <= speed * (q * k);
    assert speed * (q * k) == (speed * q) * k <= p * k;
  }

  /** And it is never late, wrapped or not. */
  lemma DueTimeEarly(mode: Mode, wide: bool, amount: nat, speed: nat)
    requires speed > 0
    ensures speed * DueTime(mode, wide, amount, speed) <= amount * Scale(mode)
  {
    var due := DueTime(mode, wide, amount, speed);
    if wide {
      DivBounds(amount * Scale(mode), speed);
      ScaleDown(amount * Scale(mode), speed, amount * Scale(mode) / speed, due, 1);
    } else if mode.MbpsRate? {
      var p := Wrap(amount * 1000);
      DivBounds(p, speed);
      ScaleDown(p, speed, p / speed, due, 1_000_000);
    } else {
      var p := Wrap(amount * 1_000_000);
      DivBounds(p, speed);
      ScaleDown(p, speed, p / speed, due, 3_600_000);
    }
  }

  // ---------- keeping the rate ----------

  /** The time that units take, times the speed. */
  function Worth(mode: Mode, units: nat): nat {
    units * Scale(mode)
  }

  /** `amount` units in `elapsed` nanoseconds do not exceed the speed. */
  ghost predicate Within(mode: Mode, wide: bool, speed: nat, amount: nat, elapsed: nat) {
    forall g: nat {:trigger Worth(mode, g)} :: g == amount ==> Worth(mode, g) < speed * (elapsed + Slack(mode, wide))
  }

  /** A packet left after `elapsed` nanoseconds, at most `late` after `goal` units were due. */
  ghost predicate OnTime(mode: Mode, speed: nat, goal: nat, late: nat, elapsed: int) {
    forall g: nat {:trigger Worth(mode, g)} :: g == goal ==> speed * elapsed <= Worth(mode, g) + speed * late
  }

  /** The packet behind one that left at `tx` lost at most `gap` nanoseconds: else it left when
      the last one did, or when it was due. */
  ghost predicate Prompt(mode: Mode, speed: nat, amount: nat, tx: int, gap: nat, elapsed: int) {
    forall g: nat {:trigger Worth(mode, g)} :: g == amount ==> elapsed <= tx + gap || speed * (elapsed - gap) <= Worth(mode, g)
  }

  /** The units are due after `elapsed` nanoseconds. */
  ghost predicate Due(mode: Mode, speed: nat, amount: nat, elapsed: int) {
    forall g: nat {:trigger Worth(mode, g)} :: g == amount ==> Worth(mode, g) <= speed * elapsed
  }

  lemma WithinLater(mode: Mode, wide: bool, speed: nat, amount: nat, amount': nat, elapsed: nat, elapsed': nat)
    requires Within(mode, wide, speed, amount, elapsed) && amount' <= amount && elapsed <= elapsed'
    ensures Within(mode, wide, speed, amount', elapsed')
  {
    assert Worth(mode, amount') <= Worth(mode, amount);
    assert speed * (elapsed + Slack(mode, wide)) <= speed * (elapsed' + Slack(mode, wide));
  }

  lemma WithinAtDue(mode: Mode, wide: bool, speed: nat, amount: nat, elapsed: nat)
    requires speed > 0 && Fits(mode, wide, amount, speed) && DueTime(mode, wide, amount, speed) <= elapsed
    ensures Within(mode, wide, speed, amount, elapsed)
  {
    DueTimeBound(mode, wide, amount, speed);
    assert Worth(mode, amount) == amount * Scale(mode);
    TimesMono(speed, DueTime(mode, wide, amount, speed) + Slack(mode, wide), elapsed + Slack(mode, wide));
  }

  lemma TimesMono(speed: nat, a: int, b: int)
    requires a <= b
    ensures speed * a <= speed * b
  {
  }

  /** The number of bytes that may follow without a look at the clock when the
      last packet left `late` nanoseconds after it was due. */
  function SkipBytes(late: nat, speed: nat): nat {
    Wrap(late * speed) / 8_000_000_000
  }

  lemma AddLate(bits: nat, skip: nat, speed: nat, due: nat, late: nat, slack: nat)
    requires bits * NANO < speed * (due + slack) && 8 * NANO * skip <= late * speed
    ensures (bits + 8 * skip) * NANO < speed * (due + late + slack)
  {
    assert speed * (due + slack) + late * speed == speed * (due + late + slack);
  }

  /** They are worth no more time than was lost, and one byte more would be, as long as the
      product does not wrap. */
  lemma SkipBound(late: nat, speed: nat)
    ensures 8 * NANO * SkipBytes(late, speed) <= late * speed
    ensures late * speed < TWO64 ==> late * speed < 8 * NANO * (SkipBytes(late, speed) + 1)
  {
    DivBounds(Wrap(late * speed), 8_000_000_000);
  }

  lemma AddSkip(bits: nat, speed: nat, due: nat, late: nat, slack: nat)
    requires bits * NANO < speed * (due + slack)
    ensures (bits + 8 * SkipBytes(late, speed)) * NANO < speed * (due + late + slack)
  {
    SkipBound(late, speed);
    AddLate(bits, SkipBytes(late, speed), speed, due, late, slack);
  }

  /** Those bytes are within the rate too, even when the product wraps. */
  lemma WithinSkip(wide: bool, speed: nat, bits: nat, elapsed: nat)
    requires speed > 0 && Fits(MbpsRate, wide, bits, speed) && DueTime(MbpsRate, wide, bits, speed) < elapsed
    ensures
      var late := elapsed - DueTime(MbpsRate, wide, bits, speed);
      Within(MbpsRate, wide, speed, bits + 8 * SkipBytes(late, speed), elapsed)
  {
    var due := DueTime(MbpsRate, wide, bits, speed);
    DueTimeBound(MbpsRate, wide, bits, speed);
    AddSkip(bits, speed, due, elapsed - due, Slack(MbpsRate, wide));
  }

  /** How long a packet must wait when `tx` nanoseconds were used so far. */
  function NapFor(mode: Mode, wide: bool, amount: nat, speed: nat, tx: nat): nat
    requires speed > 0
  {
    var due := DueTime(mode, wide, amount, speed);
    if due > tx then due - tx else 0
  }

  /** Nobody waits needlessly: units that are due already are not waited for, and others not
      beyond the time at which they are. */
  lemma NapPrompt(mode: Mode, wide: bool, amount: nat, speed: nat, tx: nat)
    requires speed > 0
    ensures Due(mode, speed, amount, tx) ==> NapFor(mode, wide, amount, speed, tx) == 0
    ensures NapFor(mode, wide, amount, speed, tx) > 0 ==> Prompt(mode, speed, amount, 0, 0, tx + NapFor(mode, wide, amount, speed, tx))
  {
    var due := DueTime(mode, wide, amount, speed);
    assert Worth(mode, amount) == amount * Scale(mode);
    DueTimeEarly(mode, wide, amount, speed);
    if due > tx {
      MulStep(speed, tx, due);
    }
  }

  /** How many bytes may follow it without a look at the clock. */
  function SkipFor(wide: bool, bits: nat, speed: nat, tx: nat): nat
    requires speed > 0
  {
    var due := DueTime(MbpsRate, wide, bits, speed);
    if tx > due then SkipBytes(tx - due, speed) else 0
  }

  /** And they are all that may: with one byte more the packets would be ahead of the rate. */
  lemma SkipMost(wide: bool, bits: nat, speed: nat, tx: nat)
    requires speed > 0 && tx > DueTime(MbpsRate, wide, bits, speed)
    requires (tx - DueTime(MbpsRate, wide, bits, speed)) * speed < TWO64
    ensures speed * tx < (bits + 8 * (SkipFor(wide, bits, speed, tx) + 1)) * NANO
  {
    var due := DueTime(MbpsRate, wide, bits, speed);
    SkipBound(tx - due, speed);
    DueTimeEarly(MbpsRate, wide, bits, speed);
    Distribute(speed, due, tx - due);
  }

  lemma MbpsReady(wide: bool, speed: nat, bits: nat, tx: nat, elapsed: nat)
    requires speed > 0 && Fits(MbpsRate, wide, bits, speed)
    requires tx + NapFor(MbpsRate, wide, bits, speed, tx) <= elapsed
    ensures Within(MbpsRate, wide, speed, bits + 8 * SkipFor(wide, bits, speed, tx), elapsed)
    ensures Within(MbpsRate, wide, speed, bits, elapsed)
  {
    var due := DueTime(MbpsRate, wide, bits, speed);
    WithinAtDue(MbpsRate, wide, speed, bits, elapsed);
    if tx > due {
      WithinSkip(wide, speed, bits, tx);
      var most := bits + 8 * SkipFor(wide, bits, speed, tx);
      WithinLater(MbpsRate, wide, speed, most, most, tx, elapsed);
    }
  }

  /** At most `multi + 1` packets ahead of the schedule. */
  ghost predicate Ahead(wide: bool, speed: nat, multi: nat, pkts: nat, elapsed: nat) {
    forall g: nat {:trigger Worth(PacketRate, g)} :: g == pkts ==>
      Worth(PacketRate, g) < speed * (elapsed + Slack(PacketRate, wide)) + (multi + 1) * HOUR_NANO
  }

  lemma PacketReady(wide: bool, speed: nat, multi: nat, pkts: nat, skip: nat, elapsed: nat)
    requires speed > 0 && Fits(PacketRate, wide, pkts, speed) && skip <= multi
    requires pkts != 0 ==> DueTime(PacketRate, wide, pkts, speed) <= elapsed
    ensures Ahead(wide, speed, multi, pkts + 1 + skip, elapsed)
  {
    if pkts == 0 {
      assert speed * (elapsed + Slack(PacketRate, wide)) > 0;
    } else {
      WithinAtDue(PacketRate, wide, speed, pkts, elapsed);
      assert Worth(PacketRate, pkts) == pkts * HOUR_NANO;
    }
    assert (pkts + 1 + skip) * HOUR_NANO <= pkts * HOUR_NANO + (multi + 1) * HOUR_NANO;
  }

  lemma AheadLater(wide: bool, speed: nat, multi: nat, pkts: nat, pkts': nat, elapsed: nat, elapsed': nat)
    requires Ahead(wide, speed, multi, pkts, elapsed) && pkts' <= pkts && elapsed <= elapsed'
    ensures Ahead(wide, speed, multi, pkts', elapsed')
  {
    assert Worth(PacketRate, pkts') <= Worth(PacketRate, pkts);
    assert speed * (elapsed + Slack(PacketRate, wide)) <= speed * (elapsed' + Slack(PacketRate, wide));
  }

  // ---------- reaching the rate ----------

  lemma Distribute(speed: nat, a: int, b: int)
    ensures speed * (a + b) == speed * a + speed * b
  {
  }

  lemma WorthMono(mode: Mode, a: nat, b: nat)
    requires a <= b
    ensures Worth(mode, a) <= Worth(mode, b)
  {
  }

  lemma AtOnce(mode: Mode, speed: nat, amount: nat, tx: int, gap: nat, elapsed: int)
    requires elapsed <= tx + gap
    ensures Prompt(mode, speed, amount, tx, gap, elapsed)
  {
  }

  lemma NapLater(mode: Mode, speed: nat, amount: nat, tx: int, gap: nat, nap: nat)
    requires nap > 0 ==> Prompt(mode, speed, amount, 0, 0, tx + nap)
    ensures nap > 0 && tx + nap > 0 ==> Prompt(mode, speed, amount, tx, gap, tx + gap + nap)
  {
    assert Worth(mode, amount) >= 0;
  }

  /** What is lost adds up at worst. */
  lemma LateMore(mode: Mode, speed: nat, goal: nat, goal': nat, amount: nat, late: nat, tx: int, gap: nat, elapsed: int)
    requires OnTime(mode, speed, goal, late, tx) && Prompt(mode, speed, amount, tx, gap, elapsed)
    requires goal <= goal' && amount <= goal'
    ensures OnTime(mode, speed, goal', late + gap, elapsed)
  {
    assert Worth(mode, goal) >= 0 && Worth(mode, amount) >= 0;
    Distribute(speed, late, gap);
    if elapsed <= tx + gap {
      Distribute(speed, tx, gap);
      WorthMono(mode, goal, goal');
      TimesMono(speed, elapsed, tx + gap);
    } else {
      Distribute(speed, elapsed - gap, gap);
      WorthMono(mode, amount, goal');
    }
  }

  /** And a loss that is no longer than the time of one packet is made up for by the next. */
  lemma LateSame(mode: Mode, speed: nat, goal: nat, gain: nat, amount: nat, late: nat, tx: int, gap: nat, elapsed: int)
    requires OnTime(mode, speed, goal, late, tx) && Prompt(mode, speed, amount, tx, gap, elapsed)
    requires amount <= goal + gain && gap <= late && Covers(mode, speed, gain, late)
    ensures OnTime(mode, speed, goal + gain, late, elapsed)
  {
    assert Worth(mode, goal) >= 0 && Worth(mode, amount) >= 0 && Worth(mode, gain) >= 0;
    WorthSum(mode, goal, gain);
    WorthMono(mode, amount, goal + gain);
    TimesMono(speed, gap, late);
    if elapsed <= tx + gap {
      Distribute(speed, tx, gap);
      TimesMono(speed, elapsed, tx + gap);
    } else {
      Distribute(speed, elapsed - gap, gap);
    }
  }

  lemma WorthSum(mode: Mode, a: nat, b: nat)
    ensures Worth(mode, a + b) == Worth(mode, a) + Worth(mode, b)
  {
  }

  lemma ReachedAfter(mode: Mode, speed: nat, goal: nat, gain: nat, amount: nat, late: nat, tx: int, gap: nat, elapsed: int)
    requires OnTime(mode, speed, goal, late, tx) && Prompt(mode, speed, amount, tx, gap, elapsed) && amount <= goal + gain
    ensures OnTime(mode, speed, goal + gain, late + gap, elapsed)
    ensures gap <= late && (elapsed <= gap || Covers(mode, speed, gain, late)) ==> OnTime(mode, speed, goal + gain, late, elapsed)
  {
    LateMore(mode, speed, goal, goal + gain, amount, late, tx, gap, elapsed);
    if gap <= late && Covers(mode, speed, gain, late) {
      LateSame(mode, speed, goal, gain, amount, late, tx, gap, elapsed);
    } else if elapsed <= gap <= late {
      LateAtOnce(mode, speed, goal + gain, late, elapsed);
    }
  }

  lemma LateAtOnce(mode: Mode, speed: nat, goal: nat, late: nat, elapsed: int)
    requires elapsed <= late
    ensures OnTime(mode, speed, goal, late, elapsed)
  {
    assert speed * elapsed <= speed * late;
  }

  /** So many units take at least `late` nanoseconds. */
  ghost predicate Covers(mode: Mode, speed: nat, units: nat, late: nat) {
    forall g: nat {:trigger Worth(mode, g)} :: g == units ==> speed * late <= Worth(mode, g)
  }

  /** The state of one replay: tcpreplay_t, its statistics, and the locals of send_packets. */
  class Replay {
    const mode: Mode
    const speed: nat       // bits per second, or packets per hour
    const ppsMulti: nat
    const wide: bool       // the compiler has 128-bit integers

    var firstTime: bool
    var skipPackets: nat
    var startNs: nat       // 0 until the first pass starts
    var endNs: nat         // send time of the last packet; 0 until one is sent
    var pktsSent: nat
    var bytesSent: nat
    var now: nat
    var nowIsNow: bool
    var skipLength: nat
    var clock: nat         // the real time, as far as it matters
    ghost var idle: nat    // the naps before packets that then could not be sent

    /** The fields make sense together. */
    ghost predicate Valid()
      reads `firstTime, `skipPackets, `startNs, `endNs, `pktsSent, `bytesSent, `now, `skipLength, `clock
    {
      && speed > 0 && 0 < startNs <= now == clock
      && (endNs != 0 ==> startNs <= endNs <= now)
      && (endNs == 0 ==> pktsSent == 0)
      && (pktsSent == 0 ==> bytesSent == 0)
      && (firstTime ==> pktsSent == 0 && skipPackets == 0 && skipLength == 0)
    }

    /** The last packet was within the rate when it was sent. */
    ghost predicate LastKept()
      reads `startNs, `endNs, `pktsSent, `bytesSent
    {
      pktsSent > 0 && startNs <= endNs ==>
        if mode.PacketRate? then Ahead(wide, speed, ppsMulti, pktsSent, endNs - startNs)
        else pktsSent >= 2 ==> Within(mode, wide, speed, 8 * bytesSent, endNs - startNs)
    }

    /** Mbps mode: whatever has been sent after the first packet, together with what may still
        be sent without a look at the clock, is within the rate. */
    ghost predicate RateKept()
      requires Valid()
      reads `firstTime, `skipPackets, `startNs, `endNs, `pktsSent, `bytesSent, `now, `skipLength, `clock
    {
      && skipPackets == 0 && LastKept()
      && (skipLength > 0 ==> endNs != 0 && Within(mode, wide, speed, 8 * (bytesSent + skipLength), now - startNs))
    }

    /** Packet-rate mode: no more than `ppsMulti + 1` packets ahead of the schedule, counting
        those that may still be sent without a look at the clock. */
    ghost predicate BurstKept()
      requires Valid()
      reads `firstTime, `skipPackets, `startNs, `endNs, `pktsSent, `bytesSent, `now, `skipLength, `clock
    {
      && skipLength == 0 && LastKept()
      && Ahead(wide, speed, ppsMulti, pktsSent + skipPackets, now - startNs)
    }

    ghost predicate Keeps()
      requires Valid()
      reads `firstTime, `skipPackets, `startNs, `endNs, `pktsSent, `bytesSent, `now, `skipLength, `clock
    {
      if mode.MbpsRate? then RateKept() else BurstKept()
    }

    /** The same, for callers that need not look inside. */
    ghost predicate Kept()
      requires Valid()
      reads `firstTime, `skipPackets, `startNs, `endNs, `pktsSent, `bytesSent, `now, `skipLength, `clock
    {
      forall r: Replay {:trigger r.Keeps()} :: r == this ==> r.Keeps()
    }

    /** The units the schedule counts once a packet of `len` bytes is to be sent. */
    function Amount(len: nat): nat
      reads `firstTime, `skipPackets, `startNs, `endNs, `pktsSent, `bytesSent, `now, `skipLength, `clock
    {
      if mode.MbpsRate? then (bytesSent + len) * 8 else pktsSent
    }

    /** The units that the schedule had to wait for when the last packet was sent; a raw
        interface has stripped at most `strip` bytes of it. */
    ghost function Goal(strip: nat): nat
      reads `firstTime, `skipPackets, `startNs, `endNs, `pktsSent, `bytesSent, `now, `skipLength, `clock
    {
      if mode.MbpsRate? then (bytesSent + strip) * 8 else if pktsSent == 0 then 0 else pktsSent - 1
    }

    /** The time since the last packet was sent, or since the start. */
    ghost function Since(): nat
      requires Valid()
      reads `firstTime, `skipPackets, `startNs, `endNs, `pktsSent, `bytesSent, `now, `skipLength, `clock
    {
      now - if endNs == 0 then startNs else endNs
    }

    /** The last packet left at most `late` nanoseconds after it was due, so that the rate is
        reached up to that time. */
    ghost predicate Reached(late: nat, strip: nat)
      reads `firstTime, `skipPackets, `startNs, `endNs, `pktsSent, `bytesSent, `now, `skipLength, `clock
    {
      OnTime(mode, speed, Goal(strip), late, LastSent())
    }

    /** When the last packet was sent. */
    ghost function LastSent(): int
      reads `firstTime, `skipPackets, `startNs, `endNs, `pktsSent, `bytesSent, `now, `skipLength, `clock
    {
      if endNs == 0 then 0 else endNs - startNs
    }

    /** The units by which a packet that is sent brings the goal forward. */
    ghost function Gain(ev: Event): nat
      reads `firstTime, `skipPackets, `startNs, `endNs, `pktsSent, `bytesSent, `now, `skipLength, `clock
    {
      if ev.result.Failed? then 0 else if mode.MbpsRate? then ev.result.bytes * 8 else if pktsSent == 0 then 0 else 1
    }

    /** The time that a packet may lose: what passed since the last one was sent, the wait for
        the clock, and the overrun of the sleep. */
    ghost function Lost(ev: Event): nat
      requires Valid()
      reads `firstTime, `skipPackets, `startNs, `endNs, `pktsSent, `bytesSent, `now, `skipLength, `clock
    {
      Since() + ev.wait + ev.over
    }

    constructor (mode: Mode, speed: nat, ppsMulti: nat, wide: bool, clock: nat)
      requires speed > 0 && clock > 0
      ensures this.mode == mode && this.speed == speed && this.ppsMulti == ppsMulti && this.wide == wide
      ensures Valid() && Kept() && pktsSent == 0 && firstTime && endNs == 0 && Since() == 0 && idle == 0
    {
      this.mode, this.speed, this.ppsMulti, this.wide := mode, speed, ppsMulti, wide;
      this.clock, now, startNs, idle := clock, clock, clock, 0;
      firstTime, skipPackets, endNs, pktsSent, bytesSent, nowIsNow, skipLength := true, 0, 0, 0, 0, true, 0;
      new;
      assert ppsMulti * HOUR_NANO >= 0 && speed * Slack(mode, wide) >= 0;
    }

    /** The wait that the schedule asks for before a packet of `len` bytes. */
    ghost function Nap(len: nat): nat
      requires Valid()
      reads `firstTime, `skipPackets, `startNs, `endNs, `pktsSent, `bytesSent, `now, `skipLength, `clock
    {
      if firstTime || endNs == 0 then 0 else NapFor(mode, wide, Amount(len), speed, endNs - startNs)
    }

    /** That wait, for callers that need not look inside. */
    ghost predicate NapIs(len: nat, nap: nat)
      requires Valid()
      reads `firstTime, `skipPackets, `startNs, `endNs, `pktsSent, `bytesSent, `now, `skipLength, `clock
    {
      forall r: Replay {:trigger r.Nap(len)} :: r == this ==> r.Nap(len) == nap
    }

    /** The packets that follow one in a burst; one more of them behind a packet that is late. */
    function Burst(late: bool): (n: nat)
      ensures n <= ppsMulti
    {
      if late then ppsMulti else if ppsMulti > 0 then ppsMulti - 1 else 0
    }

    /** The speed_mbpsrate case of calc_sleep_time. */
    method CalcMbps(len: nat) returns (nap: nat)
      requires Valid() && mode.MbpsRate? && endNs != 0 && Fits(mode, wide, Amount(len), speed) && skipLength == 0
      modifies `skipLength
      ensures nap == NapFor(mode, wide, Amount(len), speed, endNs - startNs)
      ensures skipLength == SkipFor(wide, Amount(len), speed, endNs - startNs)
    {
      nap := 0;
      FitsWord(mode, wide, Amount(len), speed);
      var bits := Wrap((bytesSent + len) * 8);
      var txNs := endNs - startNs;
      var next := DueTime(mode, wide, bits, speed);
      if next > txNs {
        nap := next - txNs;
      } else if txNs > next {
        skipLength := SkipBytes(txNs - next, speed);
      }
    }

    /** The speed_packetrate case of calc_sleep_time. */
    method CalcPackets() returns (nap: nat)
      requires Valid() && mode.PacketRate? && endNs != 0
      requires skipPackets == Burst(false)
      modifies `skipPackets
      ensures nap == NapFor(mode, wide, pktsSent, speed, endNs - startNs)
      ensures skipPackets == Burst(nap == 0)
    {
      nap := 0;
      var txNs := endNs - startNs;
      var next := DueTime(mode, wide, pktsSent, speed);
      if next > txNs {
        nap := next - txNs;
      } else {
        skipPackets := ppsMulti;
      }
    }

    /** calc_sleep_time */
    method CalcSleepTime(len: nat) returns (nap: nat)
      requires Valid() && Fits(mode, wide, Amount(len), speed)
      requires skipLength == 0 && skipPackets == 0
      modifies `firstTime, `skipPackets, `skipLength
      ensures !firstTime && nap == old(Nap(len))
      ensures mode.MbpsRate? ==> skipPackets == 0
      ensures mode.PacketRate? ==> skipLength == 0 && skipPackets == Burst(!old(firstTime) && endNs != 0 && nap == 0)
      ensures mode.MbpsRate? && (old(firstTime) || endNs == 0) ==> skipLength == 0
      ensures mode.MbpsRate? && !old(firstTime) && endNs != 0 ==> skipLength == SkipFor(wide, Amount(len), speed, endNs - startNs)
    {
      nap := 0;
      if mode.PacketRate? && ppsMulti > 0 {
        skipPackets := ppsMulti - 1;
      }
      if firstTime {
        firstTime := false;
        return;
      }
      if endNs != 0 {
        match mode {
          case MbpsRate => nap := CalcMbps(len);
          case PacketRate => nap := CalcPackets();
        }
      }
    }

    /** get_current_time */
    method ReadClock(wait: nat)
      modifies `clock, `now
      ensures clock == old(clock) + wait && now == clock
    {
      clock := clock + wait;
      now := clock;
    }

    /** tcpr_sleep with gettimeofday_sleep: returns no earlier than the nap asks for. */
    method Sleep(nap: nat, over: nat)
      requires now == clock
      modifies `clock, `now
      ensures now == clock
      ensures clock == old(clock) + if nap == 0 then 0 else nap + over
    {
      if nap != 0 {
        clock := clock + nap + over;
        now := clock;
      }
    }

    /** The timestamped way through the send loop. */
    method LookAtClock(len: nat, wait: nat, over: nat) returns (ghost nap: nat)
      requires Valid() && Fits(mode, wide, Amount(len), speed)
      modifies `firstTime, `skipPackets, `skipLength, `clock, `now
      ensures Valid() && Ready(len) && !firstTime && old(NapIs(len, nap))
      ensures now == old(now) + wait + if nap == 0 then 0 else nap + over
      ensures old(firstTime) || endNs == 0 || Due(mode, speed, Amount(len), LastSent()) ==> now == old(now) + wait
      ensures Prompt(mode, speed, Amount(len), LastSent(), old(Since()) + wait + over, now - startNs)
      ensures mode.PacketRate? ==> skipPackets == Burst(!old(firstTime) && endNs != 0 && nap == 0)
    {
      if endNs != 0 {
        NapPrompt(mode, wide, Amount(len), speed, LastSent());
      }
      AtOnce(mode, speed, Amount(len), LastSent(), Since() + wait + over, LastSent() + Since() + wait);
      NapLater(mode, speed, Amount(len), LastSent(), Since() + wait + over, Nap(len));
      skipLength, skipPackets := 0, 0;
      ReadClock(wait);
      var napFor := CalcSleepTime(len);
      Sleep(napFor, over);
      Scheduled(len, old(firstTime), napFor);
      nap := napFor;
    }

    /** Whoever waited for the nap may send. */
    lemma Scheduled(len: nat, first: bool, nap: nat)
      requires Valid() && Fits(mode, wide, Amount(len), speed) && !firstTime
      requires first ==> pktsSent == 0
      requires !first && endNs != 0 ==> nap == NapFor(mode, wide, Amount(len), speed, endNs - startNs) && endNs + nap <= now
      requires mode.MbpsRate? ==> skipPackets == 0
      requires mode.PacketRate? ==> skipLength == 0 && skipPackets <= ppsMulti
      requires mode.MbpsRate? && (first || endNs == 0) ==> skipLength == 0
      requires mode.MbpsRate? && !first && endNs != 0 ==> skipLength == SkipFor(wide, Amount(len), speed, endNs - startNs)
      ensures Ready(len)
    {
      if mode.PacketRate? {
        PacketReady(wide, speed, ppsMulti, pktsSent, skipPackets, now - startNs);
      } else if endNs != 0 && !first {
        MbpsReady(wide, speed, Amount(len), endNs - startNs, now - startNs);
      }
    }

    /** The part of the send loop that decides when the packet may go. */
    method AwaitTurn(len: nat, wait: nat, over: nat) returns (ghost nap: nat)
      requires Valid() && Kept() && Fits(mode, wide, Amount(len), speed)
      modifies `firstTime, `skipPackets, `skipLength, `clock, `now, `nowIsNow
      ensures Valid() && Ready(len) && !firstTime
      ensures if nowIsNow then old(NapIs(len, nap)) else nap == 0
      ensures now == old(now) + if nowIsNow then wait + (if nap == 0 then 0 else nap + over) else 0
      ensures old(firstTime) || endNs == 0 ==> now <= old(now) + wait
      ensures Prompt(mode, speed, Amount(len), LastSent(), old(Since()) + wait + over, now - startNs)
      ensures nowIsNow <==> old((skipLength == 0 || len >= skipLength) && skipPackets == 0)
      ensures !nowIsNow ==> (if old(0 < skipLength && len < skipLength)
        then skipLength == old(skipLength) - len && skipPackets == old(skipPackets)
        else skipLength == old(skipLength) && skipPackets == old(skipPackets) - 1)
      ensures nowIsNow && mode.PacketRate? ==> skipPackets == Burst(!old(firstTime) && endNs != 0 && nap == 0)
    {
      assert this.Keeps();
      nap := 0;
      if skipLength != 0 && len < skipLength {
        nowIsNow := false;
        if mode.MbpsRate? {
          WithinLater(mode, wide, speed, 8 * (bytesSent + skipLength), 8 * (bytesSent + len), now - startNs, now - startNs);
        }
        skipLength := skipLength - len;
      } else if skipPackets != 0 {
        nowIsNow := false;
        skipPackets := skipPackets - 1;
      } else {
        nap := LookAtClock(len, wait, over);
        nowIsNow := true;
      }
    }

    /** A packet of `len` bytes may be sent now. */
    ghost predicate MaySend(len: nat)
      requires Valid()
      reads `firstTime, `skipPackets, `startNs, `endNs, `pktsSent, `bytesSent, `now, `skipLength, `clock
    {
      && !firstTime
      && if mode.MbpsRate? then
           && skipPackets == 0
           && (pktsSent > 0 ==> Within(mode, wide, speed, 8 * (bytesSent + len), now - startNs))
           && (skipLength > 0 ==> endNs != 0 && Within(mode, wide, speed, 8 * (bytesSent + len + skipLength), now - startNs))
         else
           && skipLength == 0
           && Ahead(wide, speed, ppsMulti, pktsSent + 1 + skipPackets, now - startNs)
    }

    /** The same, for callers that need not look inside. */
    ghost predicate Ready(len: nat)
      requires Valid()
      reads `firstTime, `skipPackets, `startNs, `endNs, `pktsSent, `bytesSent, `now, `skipLength, `clock
    {
      forall r: Replay {:trigger r.MaySend(len)} :: r == this ==> r.MaySend(len)
    }

    /** One turn of the send loop. A packet that is sent is later than the one before it by no
        more than it lost, and no later at all if its own time makes up for that. */
    method SendOne(ev: Event, ghost late: nat, ghost strip: nat)
      requires Valid() && Kept() && Fits(mode, wide, Amount(ev.len), speed) && Counted(ev)
      requires Stripped(ev, strip) && Reached(late, strip)
      modifies this
      ensures Valid() && Kept() && !firstTime
      ensures startNs == old(startNs) && clock >= old(clock)
      ensures Reached(if ev.result.Failed? then late else late + old(Lost(ev)), strip)
      ensures ev.result.Sent? && old(Lost(ev)) <= late && (old(endNs) == 0 || Covers(mode, speed, old(Gain(ev)), late)) ==>
        Reached(late, strip)
      ensures ev.result.Sent? ==> Since() == 0 && idle == old(idle)
      ensures ev.result.Failed? ==> Since() + old(idle) <= old(Lost(ev)) + idle && old(idle) <= idle <= old(idle) + (now - old(now))
      ensures pktsSent == old(pktsSent) + if ev.result.Sent? then 1 else 0
      ensures bytesSent == old(bytesSent) + if ev.result.Sent? then ev.result.bytes else 0
      ensures endNs == if ev.result.Sent? then now else old(endNs)
    {
      LastWas();
      ghost var nap := AwaitTurn(ev.len, ev.wait, ev.over);
      Settle(ev, late, strip, old(Lost(ev)));
      if ev.result.Failed? {
        idle := idle + nap;
      }
    }

    /** The end of the turn of a packet that lost at most `gap` nanoseconds. */
    method Settle(ev: Event, ghost late: nat, ghost strip: nat, ghost gap: nat)
      requires Valid() && Ready(ev.len) && Counted(ev) && LastKept() && Stripped(ev, strip) && Reached(late, strip)
      requires Prompt(mode, speed, Amount(ev.len), LastSent(), gap, now - startNs) && (endNs == 0 ==> now - startNs <= gap)
      modifies `endNs, `pktsSent, `bytesSent
      ensures Valid() && Kept()
      ensures pktsSent == old(pktsSent) + if ev.result.Sent? then 1 else 0
      ensures bytesSent == old(bytesSent) + if ev.result.Sent? then ev.result.bytes else 0
      ensures endNs == if ev.result.Sent? then now else old(endNs)
      ensures Reached(if ev.result.Failed? then late else late + gap, strip)
      ensures ev.result.Sent? && gap <= late && (old(endNs) == 0 || Covers(mode, speed, old(Gain(ev)), late)) ==> Reached(late, strip)
    {
      if ev.result.Sent? {
        ReachedAfter(mode, speed, Goal(strip), Gain(ev), Amount(ev.len), late, LastSent(), gap, now - startNs);
      }
      Dispatch(ev);
    }

    lemma LastWas()
      requires Valid() && Kept()
      ensures LastKept()
    {
      assert this.Keeps();
    }

    /** The packet is sent and counted, or not. */
    method Dispatch(ev: Event)
      requires Valid() && Ready(ev.len) && Counted(ev) && LastKept()
      modifies `endNs, `pktsSent, `bytesSent
      ensures Valid() && Kept()
      ensures pktsSent == old(pktsSent) + if ev.result.Sent? then 1 else 0
      ensures bytesSent == old(bytesSent) + if ev.result.Sent? then ev.result.bytes else 0
      ensures endNs == if ev.result.Sent? then now else old(endNs)
    {
      assert this.MaySend(ev.len);
      KeptAfter(ev);
      if ev.result.Sent? {
        endNs := now;
        pktsSent := pktsSent + 1;
        bytesSent := bytesSent + ev.result.bytes;
      }
    }

    lemma ReachedLater(late: nat, late': nat, strip: nat)
      requires Reached(late, strip) && late <= late'
      ensures Reached(late', strip)
    {
      assert Worth(mode, Goal(strip)) >= 0;
      assert speed * late <= speed * late';
    }

    /** A packet that is sent, loses at most `late` nanoseconds, and takes as long or longer at
        the given rate. */
    ghost predicate Steady(ev: Event, late: nat) {
      && ev.result.Sent? && ev.wait + ev.over <= late
      && Covers(mode, speed, if mode.MbpsRate? then ev.result.bytes * 8 else 1, late)
    }

    ghost predicate SteadyRun(events: seq<Event>, late: nat) {
      forall i :: 0 <= i < |events| ==> Steady(events[i], late)
    }

    /** Sending, or not sending, a packet that is ready keeps the rate. */
    lemma KeptAfter(ev: Event)
      requires Valid() && Ready(ev.len) && Counted(ev)
      ensures mode.MbpsRate? && ev.result.Sent? ==>
                && (pktsSent >= 1 ==> Within(mode, wide, speed, 8 * (bytesSent + ev.result.bytes), now - startNs))
                && (skipLength > 0 ==> Within(mode, wide, speed, 8 * (bytesSent + ev.result.bytes + skipLength), now - startNs))
      ensures mode.MbpsRate? && skipLength > 0 ==> Within(mode, wide, speed, 8 * (bytesSent + skipLength), now - startNs)
      ensures mode.PacketRate? ==>
                && Ahead(wide, speed, ppsMulti, pktsSent + 1, now - startNs)
                && Ahead(wide, speed, ppsMulti, pktsSent + skipPackets, now - startNs)
    {
      assert this.MaySend(ev.len);
      var b, s, el := bytesSent, skipLength, now - startNs;
      if mode.MbpsRate? {
        if ev.result.Sent? && pktsSent >= 1 {
          WithinLater(mode, wide, speed, 8 * (b + ev.len), 8 * (b + ev.result.bytes), el, el);
        }
        if s > 0 {
          if ev.result.Sent? {
            WithinLater(mode, wide, speed, 8 * (b + ev.len + s), 8 * (b + ev.result.bytes + s), el, el);
          }
          WithinLater(mode, wide, speed, 8 * (b + ev.len + s), 8 * (b + s), el, el);
        }
      } else {
        AheadLater(wide, speed, ppsMulti, pktsSent + 1 + skipPackets, pktsSent + 1, el, el);
        AheadLater(wide, speed, ppsMulti, pktsSent + 1 + skipPackets, pktsSent + skipPackets, el, el);
      }
    }

    /** The start of a later pass over the capture. */
    method BeginPass(wait: nat)
      requires Valid() && Kept()
      modifies `clock, `now, `nowIsNow, `skipPackets, `skipLength
      ensures Valid() && Kept() && clock >= old(clock)
      ensures now == old(now) + wait && skipPackets == skipLength == 0
    {
      assert this.Keeps();
      PassKept(now - startNs, clock + wait - startNs);
      ReadClock(wait);
      nowIsNow := true;
      skipPackets, skipLength := 0, 0;
    }

    /** The end of a pass. */
    method EndPass(wait: nat, ghost late: nat, ghost strip: nat)
      requires Valid() && Kept() && Reached(late, strip)
      modifies `clock, `now, `endNs
      ensures Valid() && Kept() && clock >= old(clock) && endNs == now
      ensures now == old(now) + if nowIsNow then 0 else wait
      ensures Since() == 0 && Reached(late + old(Since()) + wait, strip)
    {
      assert this.Keeps();
      PassKept(now - startNs, if nowIsNow then now - startNs else clock + wait - startNs);
      PassReached(late, strip, if nowIsNow then now else now + wait, Since() + wait);
      if !nowIsNow {
        ReadClock(wait);
      }
      endNs := now;
    }

    /** Time that passes is time lost. */
    lemma PassReached(late: nat, strip: nat, end: nat, lost: nat)
      requires Valid() && Reached(late, strip) && end - startNs <= LastSent() + lost
      ensures OnTime(mode, speed, Goal(strip), late + lost, end - startNs)
    {
      AtOnce(mode, speed, 0, LastSent(), lost, end - startNs);
      LateMore(mode, speed, Goal(strip), Goal(strip), 0, late, LastSent(), lost, end - startNs);
    }

    /** Time alone never breaks the rate. */
    lemma PassKept(el: nat, el': nat)
      requires Valid() && Kept() && el == now - startNs && el <= el'
      ensures mode.MbpsRate? && pktsSent >= 2 ==> Within(mode, wide, speed, 8 * bytesSent, el')
      ensures mode.MbpsRate? && skipLength > 0 ==> Within(mode, wide, speed, 8 * (bytesSent + skipLength), el')
      ensures mode.PacketRate? ==>
                && Ahead(wide, speed, ppsMulti, pktsSent, el')
                && Ahead(wide, speed, ppsMulti, pktsSent + skipPackets, el')
    {
      assert this.Keeps();
      if mode.MbpsRate? {
        if pktsSent >= 2 {
          WithinLater(mode, wide, speed, 8 * bytesSent, 8 * bytesSent, endNs - startNs, el');
        }
        if skipLength > 0 {
          var most := 8 * (bytesSent + skipLength);
          WithinLater(mode, wide, speed, most, most, el, el');
        }
      } else {
        AheadLater(wide, speed, ppsMulti, pktsSent + skipPackets, pktsSent, el, el');
        AheadLater(wide, speed, ppsMulti, pktsSent + skipPackets, pktsSent + skipPackets, el, el');
      }
    }

    /** What a run of `events` may count at most. */
    function Budget(events: seq<Event>): nat
      reads `firstTime, `skipPackets, `startNs, `endNs, `pktsSent, `bytesSent, `now, `skipLength, `clock
    {
      if mode.MbpsRate? then (bytesSent + Lengths(events)) * 8 else pktsSent + |events|
    }

    /** The send loop of one pass, over any packets and any behaviour of clock and network. It
        ends later than the schedule by no more than what was lost on the way, and by no more
        than one loss if the time of every packet makes up for that. */
    method SendPackets(events: seq<Event>, ghost late: nat, ghost strip: nat)
      requires Valid() && Kept() && Fits(mode, wide, Budget(events), speed) && Reached(late, strip)
      requires forall i :: 0 <= i < |events| ==> Counted(events[i]) && Stripped(events[i], strip)
      modifies this
      ensures Valid() && Kept() && startNs == old(startNs) && clock >= old(clock)
      ensures pktsSent == old(pktsSent) + Packets(events)
      ensures bytesSent == old(bytesSent) + Bytes(events)
      ensures idle >= old(idle) && (AllSent(events) ==> idle == old(idle))
      ensures Reached(late + old(Since()) + Losses(events) + (idle - old(idle)), strip)
      ensures SteadyRun(events, late) && old(Since() == 0 && (endNs == 0 || pktsSent > 0)) ==> Reached(late, strip)
    {
      var i := 0;
      assert events[..0] == [];
      ghost var behind: nat := late;
      ghost var steady := SteadyRun(events, late) && Since() == 0 && (endNs == 0 || pktsSent > 0);
      while i < |events|
        invariant 0 <= i <= |events|
        invariant Valid() && Kept() && startNs == old(startNs) && clock >= old(clock)
        invariant pktsSent == old(pktsSent) + Packets(events[..i])
        invariant bytesSent == old(bytesSent) + Bytes(events[..i])
        invariant idle >= old(idle) && (AllSent(events) ==> idle == old(idle))
        invariant Reached(behind, strip)
        invariant behind + Since() <= late + old(Since()) + Losses(events[..i]) + (idle - old(idle))
        invariant steady ==> behind == late && Since() == 0 && (endNs == 0 || pktsSent > 0)
      {
        Progress(events, i);
        FitsLess(mode, wide, Amount(events[i].len), old(Budget(events)), speed);
        ghost var lost := Lost(events[i]);
        SendOne(events[i], behind, strip);
        if !steady && events[i].result.Sent? {
          behind := behind + lost;
        }
        i := i + 1;
      }
      assert events[..i] == events;
      ReachedLater(behind, late + old(Since()) + Losses(events) + (idle - old(idle)), strip);
    }

    /** The promise to the user, spelled out: never faster than the rate. */
    lemma RateLimit()
      requires Valid() && Kept() && wide
      ensures mode.MbpsRate? && pktsSent >= 2 ==> 8 * bytesSent * NANO < speed * (endNs - startNs + 1)
      ensures mode.PacketRate? && pktsSent > 0 ==>
                pktsSent * HOUR_NANO < speed * (endNs - startNs + 1) + (ppsMulti + 1) * HOUR_NANO
    {
      assert this.Keeps();
      assert Worth(mode, 8 * bytesSent) == 8 * bytesSent * NANO || mode.PacketRate?;
      assert Worth(PacketRate, pktsSent) == pktsSent * HOUR_NANO;
    }

    /** And slower by no more than what was lost. */
    lemma RateReached(late: nat)
      requires Valid() && endNs != 0 && Reached(late, 0)
      ensures mode.MbpsRate? ==> speed * (endNs - startNs) <= 8 * bytesSent * NANO + speed * late
      ensures mode.PacketRate? && pktsSent > 0 ==> speed * (endNs - startNs) <= (pktsSent - 1) * HOUR_NANO + speed * late
    {
      assert Worth(mode, Goal(0)) == Goal(0) * Scale(mode);
    }
  }

  /** A replay that starts now and has one pass: it keeps the rate, and it reaches it up to the
      time that was lost, or up to one loss if the time of each packet makes up for that. */
  method ReplayOnce(mode: Mode, speed: nat, ppsMulti: nat, wide: bool, clock: nat, events: seq<Event>, ghost late: nat)
    returns (r: Replay)
    requires speed > 0 && clock > 0
    requires Fits(mode, wide, if mode.MbpsRate? then Lengths(events) * 8 else |events|, speed)
    requires forall i :: 0 <= i < |events| ==> events[i].result == Sent(events[i].len)
    ensures r.mode == mode && r.speed == speed && r.Valid() && r.Kept()
    ensures r.pktsSent == Packets(events) && r.bytesSent == Bytes(events)
    ensures r.Reached(if r.SteadyRun(events, late) then late else Losses(events), 0)
  {
    r := new Replay(mode, speed, ppsMulti, wide, clock);
    ghost var from: nat := if r.SteadyRun(events, late) then late else 0;
    LateAtOnce(mode, speed, r.Goal(0), from, 0);
    r.SendPackets(events, from, 0);
  }

  function Lengths(events: seq<Event>): nat {
    if events == [] then 0 else Lengths(events[..|events| - 1]) + events[|events| - 1].len
  }

  /** The waits for the clock and the overruns of the sleep. */
  function Losses(events: seq<Event>): nat {
    if events == [] then 0
    else Losses(events[..|events| - 1]) + events[|events| - 1].wait + events[|events| - 1].over
  }

  predicate AllSent(events: seq<Event>) {
    forall i :: 0 <= i < |events| ==> events[i].result.Sent?
  }

  function Packets(events: seq<Event>): nat {
    if events == [] then 0
    else Packets(events[..|events| - 1]) + if events[|events| - 1].result.Sent? then 1 else 0
  }

  function Bytes(events: seq<Event>): nat {
    if events == [] then 0
    else Bytes(events[..|events| - 1]) + if events[|events| - 1].result.Sent? then events[|events| - 1].result.bytes else 0
  }

  lemma {:induction false} Prefix(events: seq<Event>, i: nat)
    requires i <= |events|
    requires forall k :: 0 <= k < |events| ==> Counted(events[k])
    ensures Bytes(events[..i]) <= Lengths(events[..i]) <= Lengths(events)
    ensures Packets(events[..i]) <= i
    decreases |events|, i
  {
    if i < |events| {
      var rest := events[..|events| - 1];
      Prefix(rest, i);
      assert rest[..i] == events[..i];
    } else if i > 0 {
      Prefix(events, i - 1);
      assert events[..i] == events && events[..i][..i - 1] == events[..i - 1];
    }
  }

  lemma Progress(events: seq<Event>, i: nat)
    requires i < |events|
    requires forall k :: 0 <= k < |events| ==> Counted(events[k])
    ensures Bytes(events[..i]) + events[i].len <= Lengths(events)
    ensures Packets(events[..i]) <= i
    ensures Packets(events[..i + 1]) == Packets(events[..i]) + if events[i].result.Sent? then 1 else 0
    ensures Bytes(events[..i + 1]) == Bytes(events[..i]) + if events[i].result.Sent? then events[i].result.bytes else 0
    ensures Losses(events[..i + 1]) == Losses(events[..i]) + events[i].wait + events[i].over
  {
    Prefix(events, i);
    Prefix(events, i + 1);
    assert events[..i + 1][..i] == events[..i];
  }

  lemma DivMono(a: nat, b: nat, c: nat)
    requires a <= b && c > 0
    ensures a / c <= b / c
  {
    DivBounds(a, c);
    DivBounds(b, c);
    MulStep(c, b / c, a / c);
  }

  lemma MulStep(c: nat, x: int, y: int)
    ensures x < y ==> c * (x + 1) <= c * y
  {
  }

  lemma FitsLess(mode: Mode, wide: bool, amount: nat, most: nat, speed: nat)
    requires speed > 0 && amount <= most && Fits(mode, wide, most, speed)
    ensures Fits(mode, wide, amount, speed)
  {
    assert InWord(mode, wide, most, speed);
    if wide {
      assert amount * Scale(mode) <= most * Scale(mode);
      DivMono(amount * Scale(mode), most * Scale(mode), speed);
    } else if mode.MbpsRate? {
      DivMono(amount * 1000, most * 1000, speed);
    } else {
      DivMono(amount * 1_000_000, most * 1_000_000, speed);
    }
  }

  /** No more than `strip` bytes of a packet are stripped. */
  predicate Stripped(ev: Event, strip: nat) {
    ev.result.Sent? ==> ev.len <= ev.result.bytes + strip
  }

  /** A raw interface may strip bytes, but nothing is ever added. */
  predicate Counted(ev: Event) {
    ev.result.Sent? ==> ev.result.bytes <= ev.len
  }
}
