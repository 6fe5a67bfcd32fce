/** The unique-IP rewrite of `src/send_packets.c` (fast_edit_packet) and the Internet
    checksum it must not disturb. */
module UniqueIp {
  import CText

  const TWO32: nat := 0x1_0000_0000
  const TWO64: nat := 0x1_0000_0000_0000_0000
  const ONES: nat := 65535

  type Byte = CText.Byte
  type Addr = x: int | 0 <= x < 0x1_0000_0000
  type Counter = x: int | 0 <= x < 0x1_0000_0000_0000_0000

  datatype Pair = Pair(src: Addr, dst: Addr)

  // ---------- the address arithmetic ----------

  function Low32(x: int): Addr {
    x % TWO32
  }

  function Low64(x: int): Counter {
    x % TWO64
  }

  /** Whether the destination moves up; the cached test mixes 32- and 64-bit arithmetic. */
  predicate MovesUp(p: Pair, iteration: Counter, cached: bool) {
    if cached then Low64(p.dst - iteration) > Low64(Low32(p.src - 1) - iteration) else p.dst > p.src
  }

  /** `down` falls and `up` rises by `step` in 32 bits, with the compensation for a single wrap. */
  function Shift(down: Addr, up: Addr, step: Counter): (r: (Addr, Addr)) {
    var d, u := Low32(down - step), Low32(up + step);
    if d > down && u > up then (Low32(d - 1), u)
    else if u < up && d < down then (d, Low32(u + 1))
    else (d, u)
  }

  /** fast_edit_packet on the two addresses. */
  function Edit(p: Pair, iteration: Counter, cached: bool): Pair {
    var step := if cached then 1 else iteration;
    if MovesUp(p, iteration, cached) then
      var (s, d) := Shift(p.src, p.dst, step);
      Pair(s, d)
    else
      var (d, s) := Shift(p.dst, p.src, step);
      Pair(s, d)
  }

  /** The same without modular arithmetic: neither, one or both of the two wrap. */
  function Moved(down: Addr, up: Addr, k: Addr): (Addr, Addr) {
    if k <= down && up + k < TWO32 then (down - k, up + k)
    else if up + k < TWO32 then (down - k + TWO32 - 1, up + k)
    else if k <= down then (down - k, up + k - TWO32 + 1)
    else (down - k + TWO32, up + k - TWO32)
  }

  lemma ShiftMoved(down: Addr, up: Addr, step: Counter)
    ensures Shift(down, up, step) == Moved(down, up, Low32(step))
  {
    ModStep(down, step);
    ModStep(up, step);
  }

  lemma ModStep(x: Addr, step: Counter)
    ensures Low32(x - step) == if Low32(step) <= x then x - Low32(step) else x - Low32(step) + TWO32
    ensures Low32(x + step) == if x + Low32(step) < TWO32 then x + Low32(step) else x + Low32(step) - TWO32
  {
  }

  function MovedPair(p: Pair, up: bool, k: Addr): Pair {
    if up then Pair(Moved(p.src, p.dst, k).0, Moved(p.src, p.dst, k).1)
    else Pair(Moved(p.dst, p.src, k).1, Moved(p.dst, p.src, k).0)
  }

  lemma EditMoved(p: Pair, iteration: Counter, cached: bool)
    ensures Edit(p, iteration, cached)
         == MovedPair(p, MovesUp(p, iteration, cached), if cached then 1 else Low32(iteration))
  {
    ShiftMoved(p.src, p.dst, if cached then 1 else iteration);
    ShiftMoved(p.dst, p.src, if cached then 1 else iteration);
  }

  lemma FreshMoved(p: Pair, k: Addr)
    ensures Edit(p, k, false) == MovedPair(p, p.dst > p.src, k)
  {
    EditMoved(p, k, false);
    Low32Small(k);
  }

  /** `low` falls to `low'` and `high` rises to `high'`; one of them that alone leaves the address
      space loses or gains one more, so that the sum is kept. */
  predicate Apart(low: Addr, high: Addr, k: Addr, low': Addr, high': Addr) {
    && (k <= low && high + k < TWO32 ==> low' == low - k && high' == high + k)
    && (k > low && high + k < TWO32 ==> low' == low - k + TWO32 - 1 && high' == high + k)
    && (k <= low && high + k >= TWO32 ==> low' == low - k && high' == high + k - TWO32 + 1)
    && (k > low && high + k >= TWO32 ==> low' == low - k + TWO32 && high' == high + k - TWO32)
  }

  /** The larger address rises and the smaller one falls; of equal ones the destination falls. */
  lemma FreshMoves(p: Pair, k: Addr)
    ensures var q := Edit(p, k, false);
      if p.dst > p.src then Apart(p.src, p.dst, k, q.src, q.dst) else Apart(p.dst, p.src, k, q.dst, q.src)
  {
    FreshMoved(p, k);
  }

  lemma Congruent(a: nat, b: nat)
    requires a == b || a == b + (TWO32 - 1) || b == a + (TWO32 - 1)
    ensures a % ONES == b % ONES
  {
    assert TWO32 - 1 == 65537 * ONES;
  }

  /** Both addresses together keep their value modulo 2^16 - 1. */
  lemma SumKept(p: Pair, iteration: Counter, cached: bool)
    ensures
      var q := Edit(p, iteration, cached);
      (q.src + q.dst) % ONES == (p.src + p.dst) % ONES
  {
    var q := Edit(p, iteration, cached);
    EditMoved(p, iteration, cached);
    Congruent(q.src + q.dst, p.src + p.dst);
  }

  // ---------- passes over a capture ----------

  /** The addresses a packet carries in pass `n` when each pass edits the cached packet in place. */
  function CachedPass(p: Pair, n: nat): Pair
    requires n < TWO64
  {
    if n == 0 then p else Edit(CachedPass(p, n - 1), n, true)
  }

  /** The addresses it carries in pass `n` when each pass reads the file again. */
  function FreshPass(p: Pair, n: nat): Pair
    requires n < TWO64
  {
    if n == 0 then p else Edit(p, n, false)
  }

  lemma {:induction false} CachedSumKept(p: Pair, n: nat)
    requires n < TWO64
    ensures
      var q := CachedPass(p, n);
      (q.src + q.dst) % ONES == (p.src + p.dst) % ONES
  {
    if n > 0 {
      CachedSumKept(p, n - 1);
      SumKept(CachedPass(p, n - 1), n, true);
    }
  }

  /** Uncached edits of one packet by different iterations never collide. */
  lemma FreshDistinct(p: Pair, i: Counter, j: Counter)
    requires Low32(i) != Low32(j)
    ensures Edit(p, i, false) != Edit(p, j, false)
  {
    EditMoved(p, i, false);
    EditMoved(p, j, false);
    MovedDistinct(p.src, p.dst, Low32(i), Low32(j));
    MovedDistinct(p.dst, p.src, Low32(i), Low32(j));
  }

  lemma MovedDistinct(down: Addr, up: Addr, i: Addr, j: Addr)
    requires i != j
    ensures Moved(down, up, i) != Moved(down, up, j)
  {
  }

  // ---------- in place against from the file ----------

  const MAX: Addr := 0xFFFF_FFFF

  /** For how many passes editing in place matches editing from the file: half way to the
      wrap of the falling address, with three exceptions at the ends of the address range. */
  function AgreeLimit(p: Pair): nat {
    if p.dst > p.src then
      if p.dst == MAX && p.src % 2 == 0 then p.src else p.src / 2
    else if p.src == 1 then TWO32 - 2
    else if p.src == p.dst then 0
    else if p.src == MAX && p.dst % 2 == 1 then p.dst
    else (p.dst + 1) / 2
  }

  /** The cached test without modular arithmetic. */
  predicate CachedUp(p: Pair, n: nat) {
    var left := if n <= p.dst then p.dst - n else p.dst - n + TWO64;
    var before := if p.src == 0 then TWO32 - 1 else p.src - 1;
    var right := if n <= before then before - n else before - n + TWO64;
    left > right
  }

  lemma CachedTest(p: Pair, n: nat)
    requires 0 < n < TWO32
    ensures MovesUp(p, n, true) == CachedUp(p, n)
  {
  }

  lemma CachedEdit(p: Pair, n: nat)
    requires 0 < n < TWO32
    ensures Edit(p, n, true) == MovedPair(p, CachedUp(p, n), 1)
  {
    EditMoved(p, n, true);
    CachedTest(p, n);
  }

  lemma FreshEdit(p: Pair, n: nat)
    requires n < TWO32
    ensures FreshPass(p, n) == MovedPair(p, p.dst > p.src, n)
  {
    if n > 0 {
      EditMoved(p, n, false);
      Low32Small(n);
    }
  }

  lemma Low32Small(n: nat)
    requires n < TWO32
    ensures Low32(n) == n
  {
  }

  /** One more in-place step continues the move exactly while the limit is not passed. */
  lemma StepUp(p: Pair, n: nat)
    requires p.dst > p.src && 0 < n <= AgreeLimit(p) + 1
    ensures
      var q := MovedPair(p, true, n - 1);
      MovedPair(q, CachedUp(q, n), 1) == MovedPair(p, true, n) <==> n <= AgreeLimit(p)
  {
    var q := MovedPair(p, true, n - 1);
    assert n - 1 <= p.src;
    assert q.src == p.src - (n - 1);
    if p.dst + (n - 1) < TWO32 {
      assert q.dst == p.dst + (n - 1);
      assert CachedUp(q, n) <==> 2 * n <= p.src;
    } else {
      assert q.dst == p.dst + n - TWO32;
      assert CachedUp(q, n) <==> 2 * n <= p.src || p.dst - TWO32 > p.src - 2 * n;
    }
  }

  lemma StepDown(p: Pair, n: nat)
    requires p.dst <= p.src && 0 < n <= AgreeLimit(p) + 1
    ensures
      var q := MovedPair(p, false, n - 1);
      MovedPair(q, CachedUp(q, n), 1) == MovedPair(p, false, n) <==> n <= AgreeLimit(p)
  {
  }

  lemma StepAgrees(p: Pair, q: Pair, n: nat)
    requires 0 < n <= AgreeLimit(p) + 1 && q == MovedPair(p, p.dst > p.src, n - 1)
    ensures Edit(q, n, true) == MovedPair(p, p.dst > p.src, n) <==> n <= AgreeLimit(p)
  {
    CachedEdit(q, n);
    if p.dst > p.src {
      StepUp(p, n);
    } else {
      StepDown(p, n);
    }
  }

  lemma {:induction false} CachedWithin(p: Pair, n: nat)
    requires n <= AgreeLimit(p)
    ensures CachedPass(p, n) == MovedPair(p, p.dst > p.src, n)
  {
    if n > 0 {
      CachedWithin(p, n - 1);
      StepAgrees(p, CachedPass(p, n - 1), n);
    }
  }

  lemma CachedBeyond(p: Pair)
    ensures CachedPass(p, AgreeLimit(p) + 1) != MovedPair(p, p.dst > p.src, AgreeLimit(p) + 1)
  {
    CachedWithin(p, AgreeLimit(p));
    StepAgrees(p, CachedPass(p, AgreeLimit(p)), AgreeLimit(p) + 1);
  }

  ghost predicate SamePass(p: Pair, k: nat) {
    k < TWO64 && CachedPass(p, k) == FreshPass(p, k)
  }

  lemma SameWithin(p: Pair, k: nat)
    requires k <= AgreeLimit(p)
    ensures SamePass(p, k)
  {
    CachedWithin(p, k);
    FreshEdit(p, k);
  }

  lemma DifferBeyond(p: Pair)
    ensures !SamePass(p, AgreeLimit(p) + 1)
  {
    CachedBeyond(p);
    FreshEdit(p, AgreeLimit(p) + 1);
  }

  /** Editing in place and editing from the file give the same addresses in every
      pass up to the n-th if and only if n is within the limit. */
  lemma PassesAgree(p: Pair, n: nat)
    ensures (forall k :: 0 <= k <= n ==> SamePass(p, k)) <==> n <= AgreeLimit(p)
  {
    if n <= AgreeLimit(p) {
      forall k | 0 <= k <= n ensures SamePass(p, k) {
        SameWithin(p, k);
      }
    } else {
      DifferBeyond(p);
    }
  }

  /** A pair for which the third pass over the cache differs from the third over the file. */
  lemma PassesPart()
    ensures SamePass(Pair(5, 9), 2) && !SamePass(Pair(5, 9), 3)
  {
    SameWithin(Pair(5, 9), 2);
    DifferBeyond(Pair(5, 9));
  }

  // ---------- the Internet checksum (section 1 of RFC 1071) ----------

  /** do_checksum_math: the sum of the 16-bit words, an odd last byte padded with zero. */
  function WordSum(s: seq<Byte>): nat {
    if |s| == 0 then 0
    else if |s| == 1 then s[0] * 256
    else s[0] * 256 + s[1] + WordSum(s[2..])
  }

  /** The padding is that of section 1 of RFC 1071, and what a sum says about its words. */
  lemma {:induction false} WordSumPadded(s: seq<Byte>)
    requires |s| % 2 == 1
    ensures WordSum(s) == WordSum(s + [0])
  {
    if |s| > 1 {
      WordSumPadded(s[2..]);
      assert (s + [0])[2..] == s[2..] + [0];
    } else {
      assert (s + [0])[2..] == [];
    }
  }

  /** CHECKSUM_CARRY: folds the carries in twice and complements. */
  function Carry(sum: nat): nat {
    var x := sum / 65536 + sum % 65536;
    ONES - (x + x / 65536) % 65536
  }

  lemma {:induction false} WordSumConcat(a: seq<Byte>, b: seq<Byte>)
    requires |a| % 2 == 0
    ensures WordSum(a + b) == WordSum(a) + WordSum(b)
  {
    if |a| == 0 {
      assert a + b == b;
    } else {
      WordSumConcat(a[2..], b);
      assert (a + b)[2..] == a[2..] + b;
    }
  }

  lemma {:induction false} WordSumBound(s: seq<Byte>)
    ensures WordSum(s) <= ONES * ((|s| + 1) / 2)
  {
    if |s| >= 2 {
      WordSumBound(s[2..]);
    }
  }

  /** Two folds suffice for 32 bits: the result depends on the sum modulo 2^16 - 1 alone,
      zero apart. */
  lemma CarryValue(sum: nat)
    requires sum < TWO32
    ensures Carry(sum) == if sum == 0 then ONES else if sum % ONES == 0 then 0 else ONES - sum % ONES
  {
    var x := sum / 65536 + sum % 65536;
    assert sum == x + sum / 65536 * ONES;
    ModAdd(x, sum / 65536);
    assert sum % ONES == x % ONES;
  }

  /** What a receiver checks: with the checksum in its field the words sum up to all ones. */
  lemma Verifies(sum: nat)
    requires 0 < sum < TWO32 - ONES
    ensures Carry(sum + Carry(sum)) == 0
  {
    CarryValue(sum);
    CarryValue(sum + Carry(sum));
    var q, r := sum / ONES, sum % ONES;
    assert sum == q * ONES + r;
    ModAdd(0, q);
    ModAdd(0, q + 1);
  }

  lemma ModAdd(x: nat, k: nat)
    ensures (x + k * ONES) % ONES == x % ONES
  {
  }

  lemma CarryCongruent(x: nat, y: nat)
    requires 0 < x < TWO32 && 0 < y < TWO32 && x % ONES == y % ONES
    ensures Carry(x) == Carry(y)
  {
    CarryValue(x);
    CarryValue(y);
  }

  /** An address in network byte order. */
  function Be32(a: Addr): (s: seq<Byte>)
    ensures |s| == 4
  {
    var hi, lo := a / 65536, a % 65536;
    [hi / 256, hi % 256, lo / 256, lo % 256]
  }

  function FromBe32(s: seq<Byte>): Addr
    requires |s| == 4
  {
    ((s[0] as int) * 256 + (s[1] as int)) * 65536 + (s[2] as int) * 256 + (s[3] as int)
  }

  lemma Be32RoundTrip(a: Addr)
    ensures FromBe32(Be32(a)) == a
  {
  }

  lemma AddrWords(a: Addr)
    ensures WordSum(Be32(a)) == a / 65536 + a % 65536
    ensures WordSum(Be32(a)) % ONES == a % ONES
  {
    var hi, lo := a / 65536, a % 65536;
    FourBytes(hi / 256, hi % 256, lo / 256, lo % 256);
    assert a == hi + lo + hi * ONES;
    ModAdd(hi + lo, hi);
  }

  lemma FourBytes(a: Byte, b: Byte, c: Byte, d: Byte)
    ensures WordSum([a, b, c, d]) == a * 256 + b + c * 256 + d
  {
    assert [a, b, c, d][2..] == [c, d];
    assert [c, d][2..] == [];
    assert WordSum([c, d]) == c * 256 + d;
  }

  /** A checksummed area that holds both addresses, each at an even offset. */
  function Area(pre: seq<Byte>, mid: seq<Byte>, post: seq<Byte>, p: Pair): seq<Byte> {
    pre + (Be32(p.src) + (mid + (Be32(p.dst) + post)))
  }

  lemma AreaSum(pre: seq<Byte>, mid: seq<Byte>, post: seq<Byte>, p: Pair)
    requires |pre| % 2 == 0 && |mid| % 2 == 0
    ensures WordSum(Area(pre, mid, post, p))
         == WordSum(pre) + WordSum(Be32(p.src)) + WordSum(mid) + WordSum(Be32(p.dst)) + WordSum(post)
  {
    WordSumConcat(Be32(p.dst), post);
    WordSumConcat(mid, Be32(p.dst) + post);
    WordSumConcat(Be32(p.src), mid + (Be32(p.dst) + post));
    WordSumConcat(pre, Be32(p.src) + (mid + (Be32(p.dst) + post)));
  }

  lemma ModCongruence(k: nat, x: nat, y: nat)
    requires x % ONES == y % ONES
    ensures (k + x) % ONES == (k + y) % ONES
  {
    assert x == x / ONES * ONES + x % ONES && y == y / ONES * ONES + y % ONES;
    ModAdd(k + x % ONES, x / ONES);
    ModAdd(k + y % ONES, y / ONES);
  }

  lemma PairWords(p: Pair)
    ensures (WordSum(Be32(p.src)) + WordSum(Be32(p.dst))) % ONES == (p.src + p.dst) % ONES
  {
    AddrWords(p.src);
    AddrWords(p.dst);
    var s, d := p.src / 65536, p.dst / 65536;
    var w := WordSum(Be32(p.src)) + WordSum(Be32(p.dst));
    assert p.src + p.dst == w + (s + d) * ONES;
    ModAdd(w, s + d);
  }

  /** If two address pairs agree modulo 2^16 - 1 then every checksum over them agrees, given
      that some other word, in the area or in the `rest` of the sum, is not zero. */
  lemma ChecksumSame(pre: seq<Byte>, mid: seq<Byte>, post: seq<Byte>, rest: nat, p: Pair, q: Pair)
    requires |pre| % 2 == 0 && |mid| % 2 == 0
    requires ONES * ((|Area(pre, mid, post, p)| + 1) / 2) + rest < TWO32
    requires WordSum(pre) + WordSum(mid) + WordSum(post) + rest > 0
    requires (p.src + p.dst) % ONES == (q.src + q.dst) % ONES
    ensures Carry(WordSum(Area(pre, mid, post, q)) + rest) == Carry(WordSum(Area(pre, mid, post, p)) + rest)
  {
    var k := WordSum(pre) + WordSum(mid) + WordSum(post) + rest;
    AreaSum(pre, mid, post, p);
    AreaSum(pre, mid, post, q);
    WordSumBound(Area(pre, mid, post, p));
    WordSumBound(Area(pre, mid, post, q));
    PairWords(p);
    PairWords(q);
    var wp := WordSum(Be32(p.src)) + WordSum(Be32(p.dst));
    var wq := WordSum(Be32(q.src)) + WordSum(Be32(q.dst));
    ModCongruence(k, wp, wq);
    CarryCongruent(k + wp, k + wq);
  }

  /** No pass of either kind disturbs a checksum. */
  lemma ChecksumKept(pre: seq<Byte>, mid: seq<Byte>, post: seq<Byte>, rest: nat, p: Pair, n: nat)
    requires |pre| % 2 == 0 && |mid| % 2 == 0 && n < TWO64
    requires |Area(pre, mid, post, p)| <= 65535 && rest < 0x8000_0000
    requires WordSum(pre) + WordSum(mid) + WordSum(post) + rest > 0
    ensures Carry(WordSum(Area(pre, mid, post, FreshPass(p, n))) + rest) == Carry(WordSum(Area(pre, mid, post, p)) + rest)
    ensures Carry(WordSum(Area(pre, mid, post, CachedPass(p, n))) + rest) == Carry(WordSum(Area(pre, mid, post, p)) + rest)
  {
    if n > 0 {
      SumKept(p, n, false);
    }
    ChecksumSame(pre, mid, post, rest, p, FreshPass(p, n));
    CachedSumKept(p, n);
    ChecksumSame(pre, mid, post, rest, p, CachedPass(p, n));
  }

  // ---------- the packet ----------

  /** What get_l2len_protocol reports about a packet. */
  datatype Layer2 = BadLayer2(res: int) | Layer2(etherType: nat, l2len: nat)

  const ETHERTYPE_IP := 0x0800
  const ETHERTYPE_IP6 := 0x86DD

  /** Offsets of the last four bytes of source and destination behind the layer 2 header. */
  function Offsets(etherType: nat): (nat, nat, nat) {
    if etherType == ETHERTYPE_IP then (12, 16, 20) else (20, 36, 40)
  }

  /** The packet can be edited. */
  predicate Editable(l2: Layer2, caplen: nat) {
    && l2.Layer2? && (l2.etherType == ETHERTYPE_IP || l2.etherType == ETHERTYPE_IP6)
    && l2.l2len + Offsets(l2.etherType).2 <= caplen
  }

  function ReadPair(s: seq<Byte>, l2: Layer2): Pair
    requires Editable(l2, |s|)
  {
    var (a, b, _) := Offsets(l2.etherType);
    Pair(FromBe32(s[l2.l2len + a..l2.l2len + a + 4]), FromBe32(s[l2.l2len + b..l2.l2len + b + 4]))
  }

  /** The bytes before, between and behind the two address fields. */
  function Around(s: seq<Byte>, l2: Layer2): (seq<Byte>, seq<Byte>, seq<Byte>)
    requires Editable(l2, |s|)
  {
    var (a, b, _) := Offsets(l2.etherType);
    (s[..l2.l2len + a], s[l2.l2len + a + 4..l2.l2len + b], s[l2.l2len + b + 4..])
  }

  method ReadAddr(packet: array<Byte>, at: nat) returns (a: Addr)
    requires at + 4 <= packet.Length
    ensures a == FromBe32(packet[at..at + 4])
  {
    a := FromBe32(packet[at..at + 4]);
  }

  method WriteAddr(packet: array<Byte>, at: nat, a: Addr)
    requires at + 4 <= packet.Length
    modifies packet
    ensures packet[..] == old(packet[..at]) + Be32(a) + old(packet[at + 4..])
  {
    var b := Be32(a);
    packet[at], packet[at + 1], packet[at + 2], packet[at + 3] := b[0], b[1], b[2], b[3];
  }

  lemma TwoPatches(s: seq<Byte>, i: nat, j: nat, x: seq<Byte>, y: seq<Byte>)
    requires i + 4 <= j && j + 4 <= |s| && |x| == 4 && |y| == 4
    ensures
      var t := s[..i] + x + s[i + 4..];
      t[..j] + y + t[j + 4..] == s[..i] + (x + (s[i + 4..j] + (y + s[j + 4..])))
  {
    var t := s[..i] + x + s[i + 4..];
    assert t[..j] == s[..i] + x + s[i + 4..j];
    assert t[j + 4..] == s[j + 4..];
  }

  /** Reads, edits and writes back the two addresses at `i` and `j`. */
  method EditAt(packet: array<Byte>, i: nat, j: nat, iteration: Counter, cached: bool)
    requires i + 4 <= j && j + 4 <= packet.Length
    modifies packet
    ensures
      var s := old(packet[..]);
      packet[..] == Area(s[..i], s[i + 4..j], s[j + 4..],
                         Edit(Pair(FromBe32(s[i..i + 4]), FromBe32(s[j..j + 4])), iteration, cached))
  {
    ghost var s := packet[..];
    var src := ReadAddr(packet, i);
    var dst := ReadAddr(packet, j);
    assert packet[i..i + 4] == s[i..i + 4] && packet[j..j + 4] == s[j..j + 4];
    var q := Edit(Pair(src, dst), iteration, cached);
    WriteAddr(packet, i, q.src);
    WriteAddr(packet, j, q.dst);
    assert old(packet[..i]) == s[..i] && old(packet[i + 4..]) == s[i + 4..];
    TwoPatches(s, i, j, Be32(q.src), Be32(q.dst));
  }

  /** fast_edit_packet: rewrites both addresses in the packet bytes, and nothing else. */
  method FastEditPacket(packet: array<Byte>, caplen: nat, l2: Layer2, iteration: Counter, cached: bool) returns (res: int)
    requires caplen <= packet.Length
    requires l2.BadLayer2? ==> l2.res < 0
    modifies packet
    ensures res == 0 <==> Editable(l2, caplen)
    ensures l2.BadLayer2? ==> res == l2.res
    ensures l2.Layer2? && res != 0 ==> res == -1
    ensures res != 0 ==> packet[..] == old(packet[..])
    ensures res == 0 ==>
              var old' := old(packet[..]);
              var (pre, mid, post) := Around(old', l2);
              packet[..] == Area(pre, mid, post, Edit(ReadPair(old', l2), iteration, cached))
  {
    if l2.BadLayer2? {
      return l2.res;
    }
    if l2.etherType != ETHERTYPE_IP && l2.etherType != ETHERTYPE_IP6 {
      return -1;
    }
    var (a, b, size) := Offsets(l2.etherType);
    if caplen < l2.l2len + size {
      return -1;
    }
    var i, j := l2.l2len + a, l2.l2len + b;
    ghost var s := packet[..];
    assert Around(s, l2) == (s[..i], s[i + 4..j], s[j + 4..]);
    assert ReadPair(s, l2) == Pair(FromBe32(s[i..i + 4]), FromBe32(s[j..j + 4]));
    EditAt(packet, i, j, iteration, cached);
    return 0;
  }

  /** The checksum over any part of the packet that holds both address fields, `i` and `j`,
      at even offsets is the same before and after the edit. */
  lemma PacketChecksumKept(s: seq<Byte>, i: nat, j: nat, iteration: Counter, cached: bool, lo: nat, hi: nat, rest: nat)
    requires lo <= i && i + 4 <= j && j + 4 <= hi <= |s| && (i - lo) % 2 == 0 && (j - i) % 2 == 0
    requires hi - lo <= 65535 && rest < 0x8000_0000
    requires WordSum(s[lo..i]) + WordSum(s[i + 4..j]) + WordSum(s[j + 4..hi]) + rest > 0
    ensures
      var p := Pair(FromBe32(s[i..i + 4]), FromBe32(s[j..j + 4]));
      var t := Area(s[..i], s[i + 4..j], s[j + 4..], Edit(p, iteration, cached));
      |t| == |s| && Carry(WordSum(t[lo..hi]) + rest) == Carry(WordSum(s[lo..hi]) + rest)
  {
    var p := Pair(FromBe32(s[i..i + 4]), FromBe32(s[j..j + 4]));
    SumKept(p, iteration, cached);
    SliceChecksum(s, i, j, lo, hi, rest, Edit(p, iteration, cached));
  }

  lemma SliceChecksum(s: seq<Byte>, i: nat, j: nat, lo: nat, hi: nat, rest: nat, q: Pair)
    requires lo <= i && i + 4 <= j && j + 4 <= hi <= |s| && (i - lo) % 2 == 0 && (j - i) % 2 == 0
    requires hi - lo <= 65535 && rest < 0x8000_0000
    requires WordSum(s[lo..i]) + WordSum(s[i + 4..j]) + WordSum(s[j + 4..hi]) + rest > 0
    requires (FromBe32(s[i..i + 4]) + FromBe32(s[j..j + 4])) % ONES == (q.src + q.dst) % ONES
    ensures
      var t := Area(s[..i], s[i + 4..j], s[j + 4..], q);
      |t| == |s| && Carry(WordSum(t[lo..hi]) + rest) == Carry(WordSum(s[lo..hi]) + rest)
  {
    var p := Pair(FromBe32(s[i..i + 4]), FromBe32(s[j..j + 4]));
    AreaSlice(s, i, j, lo, hi, q);
    AreaItself(s, i, j, lo, hi);
    ChecksumSame(s[lo..i], s[i + 4..j], s[j + 4..hi], rest, p, q);
  }

  lemma AreaItself(s: seq<Byte>, i: nat, j: nat, lo: nat, hi: nat)
    requires lo <= i && i + 4 <= j && j + 4 <= hi <= |s|
    ensures s[lo..hi] == Area(s[lo..i], s[i + 4..j], s[j + 4..hi], Pair(FromBe32(s[i..i + 4]), FromBe32(s[j..j + 4])))
  {
    FromToBe32(s[i..i + 4]);
    FromToBe32(s[j..j + 4]);
  }

  lemma AreaSlice(s: seq<Byte>, i: nat, j: nat, lo: nat, hi: nat, q: Pair)
    requires lo <= i && i + 4 <= j && j + 4 <= hi <= |s|
    ensures
      var t := Area(s[..i], s[i + 4..j], s[j + 4..], q);
      |t| == |s| && t[lo..hi] == Area(s[lo..i], s[i + 4..j], s[j + 4..hi], q)
  {
  }

  lemma FromToBe32(s: seq<Byte>)
    requires |s| == 4
    ensures Be32(FromBe32(s)) == s
  {
    var hi, lo := (s[0] as int) * 256 + (s[1] as int), (s[2] as int) * 256 + (s[3] as int);
    assert FromBe32(s) / 65536 == hi && FromBe32(s) % 65536 == lo;
  }
}
