/** Options whose value is a set of named members, held in a word of bits
    (`libopts/enum.c`, `libopts/save.c`). */
module SetMembers {
  import opened Common
  import opened CText
  import opened Numbers
  import opened Powers

  const ALL: seq<Byte> := [97, 108, 108]
  const NONE: seq<Byte> := [110, 111, 110, 101]
  const PLUS_STR: seq<Byte> := [SPACE, PLUS, SPACE]
  const BAR: Byte := 124
  const BANG: Byte := 33

  // ---------- words of bits ----------

  function OrBits(a: nat, b: nat): nat {
    if a == 0 then b
    else (if a % 2 == 1 || b % 2 == 1 then 1 else 0) + 2 * OrBits(a / 2, b / 2)
  }

  function AndNotBits(a: nat, b: nat): (r: nat)
    ensures r <= a
  {
    if a == 0 then 0
    else (if a % 2 == 1 && b % 2 == 0 then 1 else 0) + 2 * AndNotBits(a / 2, b / 2)
  }

  lemma {:induction false} OrBound(a: nat, b: nat, n: nat)
    requires a < Pow2(n) && b < Pow2(n)
    ensures OrBits(a, b) < Pow2(n)
  {
    if a != 0 {
      OrBound(a / 2, b / 2, n - 1);
    }
  }

  function Or(a: Word, b: Word): Word {
    Pow2Word();
    OrBound(a, b, 64);
    OrBits(a, b)
  }

  function AndNot(a: Word, b: Word): Word {
    AndNotBits(a, b)
  }

  function Remainder(a: nat, m: nat): (r: nat)
    requires m > 0
    ensures r < m && r <= a
    ensures a < m ==> r == a
  {
    a % m
  }

  /** The word with one bit set. */
  function BitWord(i: nat): Word
    requires i < 64
  {
    Pow2Word();
    Pow2Mono(i + 1, 64);
    Pow2(i)
  }

  /** A bit above all those of a word is added to it. */
  lemma {:induction false} OrAbove(a: nat, n: nat)
    requires a < Pow2(n)
    ensures OrBits(a, Pow2(n)) == a + Pow2(n)
  {
    if a != 0 {
      OrAbove(a / 2, n - 1);
    }
  }

  // ---------- names ----------

  /** The first name that is the wanted one, or the number of names. */
  function FullMatch(name: seq<Byte>, names: seq<seq<Byte>>): (i: nat)
    ensures i <= |names|
    ensures i < |names| ==> names[i] == name
    ensures forall k :: 0 <= k < i ==> names[k] != name
  {
    if names == [] || names[0] == name then 0 else 1 + FullMatch(name, names[1..])
  }

  /** The first name that the wanted one begins, or the number of names. */
  function PartialMatch(name: seq<Byte>, names: seq<seq<Byte>>): (i: nat)
    ensures i <= |names|
    ensures i < |names| ==> name <= names[i]
    ensures forall k :: 0 <= k < i ==> !(name <= names[k])
  {
    if names == [] || name <= names[0] then 0 else 1 + PartialMatch(name, names[1..])
  }

  /** How many names the wanted one begins. */
  function Partials(name: seq<Byte>, names: seq<seq<Byte>>): nat {
    if names == [] then 0
    else Partials(name, names[..|names| - 1]) + if name <= names[|names| - 1] then 1 else 0
  }

  /** The position of a keyword: a full match if there is one, or else the only name that it
      begins; the number of names if there is neither. */
  function Keyword(name: seq<Byte>, names: seq<seq<Byte>>): (i: nat)
    ensures i <= |names|
  {
    var full := FullMatch(name, names);
    if full < |names| then full else if Partials(name, names) == 1 then PartialMatch(name, names) else |names|
  }

  /** The position that find_name gives, or the number of names. */
  function Position(name: seq<Byte>, names: seq<seq<Byte>>): (i: nat)
    ensures i <= |names|
  {
    if IsDecimal(At(name, 0)) then
      var v := StrToUl(name, 0);
      if v.used == |name| && v.value < |names| then v.value else |names|
    else if (At(name, 0) == TILDE || At(name, 0) == MINUS) && |name| == 2 then
      if names != [] && (name == [TILDE, 48] || name == [MINUS, 49]) then |names| - 1 else |names|
    else Keyword(name, names)
  }

  lemma {:induction false} NoPartials(name: seq<Byte>, names: seq<seq<Byte>>)
    ensures Partials(name, names) == 0 <==> forall k :: 0 <= k < |names| ==> !(name <= names[k])
  {
    if names != [] {
      NoPartials(name, names[..|names| - 1]);
      assert forall k :: 0 <= k < |names| - 1 ==> names[..|names| - 1][k] == names[k];
    }
  }

  /** A decimal number is the position of the name it counts, and of none beyond the last. */
  lemma PositionNumber(v: nat, names: seq<seq<Byte>>)
    requires |names| <= 64
    ensures Position(InBase(v, 10), names) == if v < |names| then v else |names|
  {
    InBaseDigits(v, 10);
    DecimalRead(v, [], 0);
    assert InBase(v, 10) + [] == InBase(v, 10);
  }

  /** The last name has two names of its own. */
  lemma PositionLast(names: seq<seq<Byte>>)
    requires names != []
    ensures Position([126, 48], names) == Position([45, 49], names) == |names| - 1
  {
  }

  /** The keyword search of find_name. */
  method FindKeyword(name: seq<Byte>, names: seq<seq<Byte>>) returns (position: nat)
    requires |names| <= 64
    ensures position == Keyword(name, names)
  {
    var res: nat := |names|;
    for idx := 0 to |names|
      invariant forall k :: 0 <= k < idx ==> names[k] != name
      invariant Partials(name, names[..idx]) == 0 ==> res == |names|
      invariant Partials(name, names[..idx]) == 1 ==>
        res < idx && name <= names[res] && forall k :: 0 <= k < res ==> !(name <= names[k])
      invariant Partials(name, names[..idx]) > 1 ==> res == WORD - 1
    {
      assert names[..idx + 1][..idx] == names[..idx];
      NoPartials(name, names[..idx]);
      if name <= names[idx] {
        if |names[idx]| == |name| {
          return idx;
        }
        res := if res == |names| then idx else WORD - 1;
      }
    }
    assert names[..|names|] == names;
    position := if res < |names| then res else |names|;
  }

  /** find_name */
  method FindName(name: seq<Byte>, names: seq<seq<Byte>>) returns (position: nat, reported: bool)
    requires |names| <= 64
    ensures position == Position(name, names)
    ensures reported <==> position == |names|
  {
    if IsDecimal(At(name, 0)) {
      var v := StrToUl(name, 0);
      if v.used == |name| && v.value < |names| {
        return v.value, false;
      }
      return |names|, true;
    }
    if (At(name, 0) == TILDE || At(name, 0) == MINUS) && |name| == 2 {
      if names != [] && (name == [TILDE, 48] || name == [MINUS, 49]) {
        return |names| - 1, false;
      }
      return |names|, true;
    }
    position := FindKeyword(name, names);
    reported := position >= |names|;
  }

  // ---------- reading a list of members ----------

  predicate IsSeparator(c: Byte) {
    IsWhite(c) || c == NUL || c == COMMA || c == BAR || c == PLUS
  }

  /** The length of the text up to a separator. */
  function TokenLength(s: seq<Byte>): (n: nat)
    ensures n <= |s|
    ensures n == |s| || IsSeparator(s[n])
    ensures forall k :: 0 <= k < n ==> !IsSeparator(s[k])
  {
    if s == [] || IsSeparator(s[0]) then 0 else 1 + TokenLength(s[1..])
  }

  /** AO_NAME_LIMIT: the longest name the lookup buffer holds. */
  const NAME_LIMIT: nat := 127

  /** What reading leads to: a word; a list that is refused; a name that is not known or is
      ambiguous, which the usage report answers; or a name that overruns its buffer. */
  datatype Outcome = Set(word: Word) | Refused | Unknown | Overrun

  /** The bits that a token of length `len` at the start of `s` stands for. A token that is
      not wholly a number is looked up from where the number ends. */
  function TokenBits(s: seq<Byte>, len: nat, names: seq<seq<Byte>>): Outcome
    requires len <= |s| && |names| <= 64
  {
    var v := StrToUl(s, 0);
    if v.used == len then Set(v.value)
    else if len > NAME_LIMIT then Overrun
    else
      var i := Position(s[v.used..Min(v.used + len, |s|)], names);
      if i < |names| then Set(BitWord(i)) else Unknown
  }

  /** The word after one token. */
  function Updated(res: Word, inverted: bool, s: seq<Byte>, len: nat, names: seq<seq<Byte>>): Outcome
    requires len <= |s| && |names| <= 64
  {
    if s[..len] == ALL then Set(if inverted then 0 else WORD - 1)
    else if s[..len] == NONE then Set(if inverted then res else 0)
    else
      var bits := TokenBits(s, len, names);
      if bits.Set? then Set(if inverted then AndNot(res, bits.word) else Or(res, bits.word)) else bits
  }

  predicate IsSign(c: Byte) {
    c == MINUS || c == BANG || c == PLUS || c == BAR
  }

  /** What the rest of a list leads to. */
  function ParseFrom(s: seq<Byte>, res: Word, names: seq<seq<Byte>>): Outcome
    requires |names| <= 64
    decreases |s|
  {
    if s == [] then Set(res)
    else if s[0] == COMMA then
      var t := SkipWhite(s[1..]);
      if At(t, 0) == COMMA || At(t, 0) == BAR then Refused else ParseFrom(t, res, names)
    else
      var t := if IsSign(s[0]) then SkipWhite(s[1..]) else s;
      var len := TokenLength(t);
      if len == 0 then Set(res)
      else
        var next := Updated(res, s[0] == MINUS || s[0] == BANG, t, len, names);
        if next.Set? then ParseFrom(SkipWhite(t[len..]), next.word, names) else next
  }

  /** Where a list begins, the word it starts from, and whether the result is inverted. */
  datatype Start = Start(rest: seq<Byte>, res: Word, invert: bool)

  function MembershipStart(text: seq<Byte>, cookie: Word): Option<Start> {
    var s := SkipWhite(text);
    var anew := At(s, 0) == EQUALS;
    var t := if anew then SkipWhite(s[1..]) else s;
    var invert := At(t, 0) == CARET;
    var u := if invert then SkipWhite(t[1..]) else t;
    if s == [] || (anew && At(t, 0) == EQUALS) || At(t, 0) == COMMA || (invert && At(u, 0) == COMMA) then None
    else Some(Start(u, if anew then 0 else cookie, invert))
  }

  /** What a text gives an option whose word was `cookie`. */
  function ParseSet(text: seq<Byte>, cookie: Word, names: seq<seq<Byte>>): Outcome
    requires |names| <= 64
  {
    match MembershipStart(text, cookie)
    case None => Refused
    case Some(start) =>
      var r := ParseFrom(start.rest, start.res, names);
      if r.Set? then Set(Finished(r.word, start.invert, |names|)) else r
  }

  function Finished(res: Word, invert: bool, count: nat): (r: Word)
    ensures count < 64 ==> r < Pow2(count)
  {
    var r := if invert then WORD - 1 - res else res;
    if count < 64 then Remainder(r, Pow2(count)) else r
  }

  // ---------- writing a list of members ----------

  /** The names of the set bits, from that of position `ix` on. */
  function Join(bits: nat, names: seq<seq<Byte>>, ix: nat): seq<Byte>
    requires ix <= |names| && bits < Pow2(|names| - ix)
  {
    if bits == 0 then []
    else if bits % 2 == 0 then Join(bits / 2, names, ix + 1)
    else names[ix] + if bits / 2 == 0 then [] else PLUS_STR + Join(bits / 2, names, ix + 1)
  }

  /** The names whose bits are set, in the order of the bits. */
  function Chosen(word: nat, names: seq<seq<Byte>>, ix: nat): seq<seq<Byte>>
    requires ix <= |names|
    decreases |names| - ix
  {
    if ix == |names| then [] else (if Bit(word, ix) then [names[ix]] else []) + Chosen(word, names, ix + 1)
  }

  /** Texts with a plus sign between any two, and blanks around it. */
  function WithPlus(texts: seq<seq<Byte>>): seq<Byte> {
    if texts == [] then [] else texts[0] + if |texts| == 1 then [] else [32, 43, 32] + WithPlus(texts[1..])
  }

  /** From position `ix` on the bits are those of the word. */
  ghost predicate Onward(word: nat, ix: nat, bits: nat) {
    forall k: nat :: Bit(bits, k) <==> Bit(word, ix + k)
  }

  lemma OnwardHalf(word: nat, ix: nat, bits: nat)
    requires Onward(word, ix, bits)
    ensures Onward(word, ix + 1, bits / 2) && (Bit(word, ix) <==> bits % 2 == 1)
  {
    forall k: nat
      ensures Bit(bits / 2, k) <==> Bit(word, ix + 1 + k)
    {
      assert Bit(bits, k + 1) <==> Bit(word, ix + (k + 1));
    }
    assert Bit(bits, 0) <==> Bit(word, ix + 0);
  }

  lemma {:induction false} JoinChosen(word: nat, bits: nat, names: seq<seq<Byte>>, ix: nat)
    requires ix <= |names| && bits < Pow2(|names| - ix) && Onward(word, ix, bits)
    ensures Join(bits, names, ix) == WithPlus(Chosen(word, names, ix))
    ensures bits == 0 <==> Chosen(word, names, ix) == []
    decreases |names| - ix
  {
    if ix < |names| {
      var rest := Chosen(word, names, ix + 1);
      OnwardHalf(word, ix, bits);
      JoinChosen(word, bits / 2, names, ix + 1);
      assert ([names[ix]] + rest)[1..] == rest && [] + rest == rest;
    }
  }

  /** The list that is written holds the names of just the members, in order. */
  lemma NamesOfMembers(word: nat, names: seq<seq<Byte>>)
    requires word < Pow2(|names|)
    ensures Join(word, names, 0) == WithPlus(Chosen(word, names, 0))
  {
    assert Onward(word, 0, word);
    JoinChosen(word, word, names, 0);
  }

  /** The room set_memb_names reserves for them. */
  function Room(bits: nat, names: seq<seq<Byte>>, ix: nat): (r: nat)
    requires ix <= |names| && bits < Pow2(|names| - ix)
    ensures |Join(bits, names, ix)| <= r
  {
    if bits == 0 then 0
    else (if bits % 2 == 1 then |names[ix]| + |PLUS_STR| + 1 else 0) + Room(bits / 2, names, ix + 1)
  }

  lemma FillStep(done: seq<Byte>, bits: nat, names: seq<seq<Byte>>, ix: nat, whole: seq<Byte>)
    requires ix < |names| && bits < Pow2(|names| - ix) && bits % 2 == 1
    requires done + Join(bits, names, ix) == whole
    ensures |done| + |names[ix]| <= |whole|
    ensures bits / 2 == 0 ==> done + names[ix] == whole
    ensures bits / 2 != 0 ==> done + names[ix] + PLUS_STR + Join(bits / 2, names, ix + 1) == whole
  {
    if bits / 2 != 0 {
      var rest := Join(bits / 2, names, ix + 1);
      Shift(done, names[ix], PLUS_STR + rest);
      Shift(done + names[ix], PLUS_STR, rest);
    }
  }

  // ---------- the round trip ----------

  /** Names as option definitions give them: distinct words that begin with a letter. */
  ghost predicate Words(names: seq<seq<Byte>>) {
    && (forall i :: 0 <= i < |names| ==> Plain(names[i]))
    && (forall i, j :: 0 <= i < j < |names| ==> names[i] != names[j])
  }

  ghost predicate Plain(name: seq<Byte>) {
    && name != [] && IsLetter(name[0]) && name != ALL && name != NONE
    && forall k :: 0 <= k < |name| ==> !IsSeparator(name[k])
  }

  /** A member's own name denotes its bit, if and only if it fits the lookup buffer. */
  lemma NameBits(names: seq<seq<Byte>>, ix: nat, tail: seq<Byte>)
    requires Words(names) && ix < |names| <= 64
    requires tail == [] || IsSeparator(tail[0])
    ensures var s := names[ix] + tail;
      && TokenLength(s) == |names[ix]|
      && TokenBits(s, |names[ix]|, names) == if |names[ix]| <= NAME_LIMIT then Set(BitWord(ix)) else Overrun
  {
    var name := names[ix];
    var s := name + tail;
    assert Plain(name);
    TokenEnds(name, tail);
    assert StrToUl(s, 0).used == 0;
    assert s[0..|name|] == name;
    assert FullMatch(name, names) == ix;
  }

  lemma TokenEnds(name: seq<Byte>, tail: seq<Byte>)
    requires forall k :: 0 <= k < |name| ==> !IsSeparator(name[k])
    requires tail == [] || IsSeparator(tail[0])
    ensures TokenLength(name + tail) == |name|
  {
    assert forall k :: 0 <= k < |name| ==> (name + tail)[k] == name[k];
    assert tail != [] ==> (name + tail)[|name|] == tail[0];
  }

  lemma NameStep(names: seq<seq<Byte>>, ix: nat, tail: seq<Byte>, res: Word)
    requires Words(names) && ix < |names| <= 64
    requires tail == [] || tail[0] == SPACE
    ensures ParseFrom(names[ix] + tail, res, names)
         == if |names[ix]| <= NAME_LIMIT then ParseFrom(SkipWhite(tail), Or(res, BitWord(ix)), names) else Overrun
  {
    var s := names[ix] + tail;
    assert Plain(names[ix]);
    NameBits(names, ix, tail);
    assert s[..|names[ix]|] == names[ix];
    assert s[|names[ix]|..] == tail;
    assert s[0] == names[ix][0];
  }

  lemma PlusStep(rest: seq<Byte>, res: Word, names: seq<seq<Byte>>)
    requires rest != [] && IsLetter(rest[0]) && |names| <= 64
    ensures ParseFrom(SkipWhite(PLUS_STR + rest), res, names) == ParseFrom(rest, res, names)
  {
    var s := [PLUS, SPACE] + rest;
    assert (PLUS_STR + rest)[1..] == s;
    assert SkipWhite(PLUS_STR + rest) == s;
    assert s[1..] == [SPACE] + rest;
    assert s[1..][1..] == rest;
    assert SkipWhite(s[1..]) == rest;
  }

  lemma {:induction false} JoinStarts(bits: nat, names: seq<seq<Byte>>, ix: nat)
    requires Words(names) && ix <= |names| && 0 < bits < Pow2(|names| - ix)
    ensures Join(bits, names, ix) != [] && IsLetter(Join(bits, names, ix)[0])
  {
    if bits % 2 == 0 {
      JoinStarts(bits / 2, names, ix + 1);
    } else {
      assert Plain(names[ix]);
    }
  }

  /** `bits` moved up by `n` positions. */
  function Shifted(bits: nat, n: nat): nat {
    if n == 0 then bits else 2 * Shifted(bits, n - 1)
  }

  lemma {:induction false} ShiftHalf(bits: nat, n: nat)
    ensures Shifted(bits, n) == Shifted(bits / 2, n + 1) + if bits % 2 == 1 then Pow2(n) else 0
  {
    if n > 0 {
      ShiftHalf(bits, n - 1);
    } else {
      assert Shifted(bits / 2, 1) == 2 * Shifted(bits / 2, 0);
    }
  }

  /** Whatever bits below `ix` are already there, reading `s` adds `bits`, moved up to `ix`. */
  ghost predicate Adds(s: seq<Byte>, names: seq<seq<Byte>>, ix: nat, bits: nat)
    requires |names| <= 64
  {
    forall res: Word :: res < Pow2(ix) ==>
      ParseFrom(s, res, names).Set? && ParseFrom(s, res, names).word == res + Shifted(bits, ix)
  }

  lemma AddsNone(names: seq<seq<Byte>>, ix: nat)
    requires |names| <= 64
    ensures Adds([], names, ix, 0)
  {
    ShiftNone(ix);
  }

  lemma AddsEven(s: seq<Byte>, names: seq<seq<Byte>>, ix: nat, bits: nat)
    requires |names| <= 64 && bits % 2 == 0
    requires Adds(s, names, ix + 1, bits / 2)
    ensures Adds(s, names, ix, bits)
  {
    ShiftHalf(bits, ix);
  }

  lemma AddsOdd(names: seq<seq<Byte>>, ix: nat, tail: seq<Byte>, bits: nat)
    requires Words(names) && ix < |names| <= 64 && bits % 2 == 1 && |names[ix]| <= NAME_LIMIT
    requires tail == [] || tail[0] == SPACE
    requires Adds(SkipWhite(tail), names, ix + 1, bits / 2)
    ensures Adds(names[ix] + tail, names, ix, bits)
  {
    var s := names[ix] + tail;
    forall res: Word | res < Pow2(ix)
      ensures ParseFrom(s, res, names).Set? && ParseFrom(s, res, names).word == res + Shifted(bits, ix)
    {
      OrAbove(res, ix);
      NameStep(names, ix, tail, res);
      ShiftHalf(bits, ix);
    }
  }

  lemma AddsPlus(rest: seq<Byte>, names: seq<seq<Byte>>, ix: nat, bits: nat)
    requires rest != [] && IsLetter(rest[0]) && |names| <= 64
    requires Adds(rest, names, ix, bits)
    ensures Adds(SkipWhite(PLUS_STR + rest), names, ix, bits)
  {
    forall res: Word | res < Pow2(ix)
      ensures ParseFrom(SkipWhite(PLUS_STR + rest), res, names) == ParseFrom(rest, res, names)
    {
      PlusStep(rest, res, names);
    }
  }

  lemma AddsMore(names: seq<seq<Byte>>, ix: nat, rest: seq<Byte>, bits: nat)
    requires Words(names) && ix < |names| <= 64 && bits % 2 == 1 && |names[ix]| <= NAME_LIMIT
    requires rest != [] && IsLetter(rest[0]) && Adds(rest, names, ix + 1, bits / 2)
    ensures Adds(names[ix] + (PLUS_STR + rest), names, ix, bits)
  {
    AddsPlus(rest, names, ix + 1, bits / 2);
    AddsOdd(names, ix, PLUS_STR + rest, bits);
  }

  /** The names of the set bits, from position `ix` on, fit the lookup buffer. */
  predicate Short(bits: nat, names: seq<seq<Byte>>, ix: nat)
    requires ix <= |names| && bits < Pow2(|names| - ix)
  {
    bits == 0 || ((bits % 2 == 1 ==> |names[ix]| <= NAME_LIMIT) && Short(bits / 2, names, ix + 1))
  }

  /** Reading the names of some bits adds just those bits. */
  lemma {:induction false} ParseJoin(bits: nat, names: seq<seq<Byte>>, ix: nat)
    requires Words(names) && ix <= |names| <= 64 && bits < Pow2(|names| - ix) && Short(bits, names, ix)
    ensures Adds(Join(bits, names, ix), names, ix, bits)
    decreases bits
  {
    if bits == 0 {
      AddsNone(names, ix);
    } else {
      var rest := Join(bits / 2, names, ix + 1);
      ParseJoin(bits / 2, names, ix + 1);
      if bits % 2 == 0 {
        AddsEven(rest, names, ix, bits);
      } else if bits / 2 == 0 {
        AddsOdd(names, ix, [], bits);
      } else {
        JoinStarts(bits / 2, names, ix + 1);
        AddsMore(names, ix, rest, bits);
      }
    }
  }

  lemma {:induction false} ShiftNone(n: nat)
    ensures Shifted(0, n) == 0
  {
    if n > 0 {
      ShiftNone(n - 1);
    }
  }

  /** The text that prt_set_arg saves for a word. */
  function Saved(word: Word, names: seq<seq<Byte>>): seq<Byte> {
    [EQUALS] + Join(Remainder(word, Pow2(|names|)), names, 0)
  }

  lemma SavedStart(list: seq<Byte>, cookie: Word)
    requires list == [] || IsLetter(list[0])
    ensures MembershipStart([EQUALS] + list, cookie) == Some(Start(list, 0, false))
  {
    assert ([EQUALS] + list)[1..] == list;
  }

  /** Reading `s` overruns the buffer, whatever is already there. */
  ghost predicate Overruns(s: seq<Byte>, names: seq<seq<Byte>>)
    requires |names| <= 64
  {
    forall res: Word :: ParseFrom(s, res, names) == Overrun
  }

  lemma OverrunsName(names: seq<seq<Byte>>, ix: nat, tail: seq<Byte>)
    requires Words(names) && ix < |names| <= 64 && (tail == [] || tail[0] == SPACE)
    requires |names[ix]| > NAME_LIMIT || Overruns(SkipWhite(tail), names)
    ensures Overruns(names[ix] + tail, names)
  {
    forall res: Word
      ensures ParseFrom(names[ix] + tail, res, names) == Overrun
    {
      NameStep(names, ix, tail, res);
    }
  }

  lemma OverrunsPlus(rest: seq<Byte>, names: seq<seq<Byte>>)
    requires rest != [] && IsLetter(rest[0]) && |names| <= 64 && Overruns(rest, names)
    ensures Overruns(SkipWhite(PLUS_STR + rest), names)
  {
    forall res: Word
      ensures ParseFrom(SkipWhite(PLUS_STR + rest), res, names) == ParseFrom(rest, res, names)
    {
      PlusStep(rest, res, names);
    }
  }

  /** A name that does not fit overruns the buffer wherever it stands in the list. */
  lemma {:induction false} JoinOverruns(bits: nat, names: seq<seq<Byte>>, ix: nat)
    requires Words(names) && ix <= |names| <= 64 && bits < Pow2(|names| - ix) && !Short(bits, names, ix)
    ensures Overruns(Join(bits, names, ix), names)
    decreases bits
  {
    var rest := Join(bits / 2, names, ix + 1);
    if bits % 2 == 0 {
      JoinOverruns(bits / 2, names, ix + 1);
    } else if bits / 2 == 0 {
      OverrunsName(names, ix, []);
    } else {
      if !Short(bits / 2, names, ix + 1) {
        JoinOverruns(bits / 2, names, ix + 1);
        JoinStarts(bits / 2, names, ix + 1);
        OverrunsPlus(rest, names);
      }
      OverrunsName(names, ix, PLUS_STR + rest);
    }
  }

  lemma LoadJoin(bits: nat, cookie: Word, names: seq<seq<Byte>>)
    requires Words(names) && |names| < 64 && bits < Pow2(|names|)
    ensures ParseSet([EQUALS] + Join(bits, names, 0), cookie, names).Set? <==> Short(bits, names, 0)
    ensures Short(bits, names, 0) ==> ParseSet([EQUALS] + Join(bits, names, 0), cookie, names).word == bits
  {
    if bits != 0 {
      JoinStarts(bits, names, 0);
    }
    SavedStart(Join(bits, names, 0), cookie);
    if Short(bits, names, 0) {
      ParseJoin(bits, names, 0);
    } else {
      JoinOverruns(bits, names, 0);
    }
  }

  /** The names of all members of the word fit the lookup buffer. */
  ghost predicate AllShort(word: nat, names: seq<seq<Byte>>) {
    forall i :: 0 <= i < |names| && Bit(word, i) ==> |names[i]| <= NAME_LIMIT
  }

  /** A saved set, when read back, gives its members and no others, whatever the option held
      before: if and only if the name of every member fits the lookup buffer. */
  lemma SaveLoad(word: Word, cookie: Word, names: seq<seq<Byte>>)
    requires Words(names) && |names| < 64
    ensures var r := ParseSet(Saved(word, names), cookie, names);
      (r.Set? <==> AllShort(word, names)) && (r.Set? ==> r.word == word % Pow2(|names|))
  {
    LoadJoin(Remainder(word, Pow2(|names|)), cookie, names);
    LowShort(word, names);
  }

  /** A member whose name has 128 letters is saved but not read back. */
  lemma LongName(name: seq<Byte>, cookie: Word)
    requires |name| == 128 && forall k :: 0 <= k < 128 ==> name[k] == 97
    ensures ParseSet(Saved(1, [name]), cookie, [name]) == Overrun
  {
    assert Plain(name);
    assert Join(1, [name], 0) == name + [] == name;
    SavedStart(name, cookie);
    NameStep([name], 0, [], 0);
  }

  lemma LowShort(word: nat, names: seq<seq<Byte>>)
    ensures Short(Remainder(word, Pow2(|names|)), names, 0) <==> AllShort(word, names)
  {
    var bits := Remainder(word, Pow2(|names|));
    ShortMeaning(bits, names, 0);
    forall i | 0 <= i < |names|
      ensures Bit(bits, i) <==> Bit(word, i)
    {
      LowMeaning(word, |names|, i);
    }
    assert names[0..] == names;
  }

  lemma {:induction false} ShortMeaning(bits: nat, names: seq<seq<Byte>>, ix: nat)
    requires ix <= |names| && bits < Pow2(|names| - ix)
    ensures Short(bits, names, ix) <==> AllShort(bits, names[ix..])
    decreases bits
  {
    var mine := names[ix..];
    if bits == 0 {
      forall i: nat ensures !Bit(0, i) {
        NoBit(i);
      }
    } else {
      var rest := names[ix + 1..];
      ShortMeaning(bits / 2, names, ix + 1);
      assert rest == mine[1..];
      if AllShort(bits, mine) {
        forall i | 0 <= i < |rest| && Bit(bits / 2, i)
          ensures |rest[i]| <= NAME_LIMIT
        {
          assert Bit(bits, i + 1) && rest[i] == mine[i + 1];
        }
        assert bits % 2 == 1 ==> Bit(bits, 0);
      } else {
        var i :| 0 <= i < |mine| && Bit(bits, i) && |mine[i]| > NAME_LIMIT;
        if i > 0 {
          assert Bit(bits / 2, i - 1) && rest[i - 1] == mine[i];
        }
      }
    }
  }

  // ---------- what any list of signed names means ----------

  /** Bit `i` of a word is set. */
  predicate Bit(a: nat, i: nat) {
    if i == 0 then a % 2 == 1 else Bit(a / 2, i - 1)
  }

  lemma {:induction false} NoBit(i: nat)
    ensures !Bit(0, i)
  {
    if i > 0 {
      NoBit(i - 1);
    }
  }

  lemma {:induction false} OrMeaning(a: nat, b: nat, i: nat)
    ensures Bit(OrBits(a, b), i) <==> Bit(a, i) || Bit(b, i)
  {
    if a == 0 {
      NoBit(i);
    } else if i > 0 {
      OrMeaning(a / 2, b / 2, i - 1);
    }
  }

  lemma {:induction false} AndNotMeaning(a: nat, b: nat, i: nat)
    ensures Bit(AndNotBits(a, b), i) <==> Bit(a, i) && !Bit(b, i)
  {
    if a == 0 {
      NoBit(i);
    } else if i > 0 {
      AndNotMeaning(a / 2, b / 2, i - 1);
    }
  }

  lemma {:induction false} PowerMeaning(n: nat, i: nat)
    ensures Bit(Pow2(n), i) <==> i == n
  {
    if n == 0 {
      if i > 0 {
        NoBit(i - 1);
      }
    } else if i > 0 {
      PowerMeaning(n - 1, i - 1);
    }
  }

  /** Complementing `n` bits. */
  lemma {:induction false} FlipMeaning(a: nat, n: nat, i: nat)
    requires a < Pow2(n) && i < n
    ensures Bit(Pow2(n) - 1 - a, i) <==> !Bit(a, i)
  {
    if i > 0 {
      FlipMeaning(a / 2, n - 1, i - 1);
      assert (Pow2(n) - 1 - a) / 2 == Pow2(n - 1) - 1 - a / 2;
    } else {
      assert Pow2(n) == 2 * Pow2(n - 1);
    }
  }

  lemma ModUnique(a: nat, m: nat, q: nat, r: nat)
    requires a == m * q + r && r < m
    ensures a % m == r
  {
    var p, t := a / m, a % m;
    assert m * (p - q) == r - t;
    if p > q {
      MulAtLeast(m, p - q);
    } else if p < q {
      MulAtLeast(m, q - p);
    }
  }

  lemma MulAtLeast(m: nat, k: nat)
    requires k >= 1
    ensures m * k >= m
  {
  }

  lemma ModHalf(a: nat, p: nat)
    requires p > 0
    ensures (a % (2 * p)) / 2 == (a / 2) % p && (a % (2 * p)) % 2 == a % 2
  {
    var h, b := a / 2, a % 2;
    var q, r := h / p, h % p;
    assert h == p * q + r;
    assert a == 2 * p * q + (2 * r + b);
    ModUnique(a, 2 * p, q, 2 * r + b);
  }

  /** Keeping the lowest `n` bits. */
  lemma {:induction false} LowMeaning(a: nat, n: nat, i: nat)
    ensures Bit(a % Pow2(n), i) <==> i < n && Bit(a, i)
  {
    if n == 0 {
      NoBit(i);
    } else {
      ModHalf(a, Pow2(n - 1));
      if i > 0 {
        LowMeaning(a / 2, n - 1, i - 1);
      }
    }
  }

  /** What stands in a list: a member's name, a number, or one of the words for all members and
      for none. */
  datatype Member = Named(ix: nat) | Numbered(word: Word, base: nat) | Everything | Nothing

  /** A sign, with white space behind it. */
  datatype Sign = Sign(ch: Byte, white: seq<Byte>)

  /** What separates an item from the one before it: white space, or a comma with or without
      white space around it. */
  datatype Gap = Blank(white: seq<Byte>) | Comma(before: seq<Byte>, after: seq<Byte>)

  datatype Item = Item(gap: Gap, sign: Option<Sign>, member: Member)

  predicate AllWhite(s: seq<Byte>) {
    forall i :: 0 <= i < |s| ==> 8 <= s[i] <= 13 || s[i] == 32
  }

  /** A minus or an exclamation mark takes away. */
  predicate Clears(item: Item) {
    item.sign.Some? && (item.sign.value.ch == 45 || item.sign.value.ch == 33)
  }

  predicate GapOk(gap: Gap) {
    match gap
    case Blank(white) => white != [] && AllWhite(white)
    case Comma(before, after) => AllWhite(before) && AllWhite(after)
  }

  predicate SignOk(sign: Option<Sign>) {
    sign.Some? ==>
      && (sign.value.ch == 43 || sign.value.ch == 45 || sign.value.ch == 33 || sign.value.ch == 124)
      && AllWhite(sign.value.white)
  }

  /** An item as it may stand in a list: a bar does not follow a comma, and a name fits the
      lookup buffer. */
  predicate ItemOk(item: Item, names: seq<seq<Byte>>) {
    && GapOk(item.gap) && SignOk(item.sign)
    && (item.gap.Comma? && item.sign.Some? ==> item.sign.value.ch != 124)
    && (item.member.Named? ==> item.member.ix < |names| && |names[item.member.ix]| <= NAME_LIMIT)
    && (item.member.Numbered? ==> item.member.base in {8, 10, 16})
  }

  ghost predicate Items(items: seq<Item>, names: seq<seq<Byte>>) {
    forall k :: 0 <= k < |items| ==> ItemOk(items[k], names)
  }

  /** A number in decimal, behind a zero in octal, or behind 0x in hexadecimal. */
  function NumberText(word: Word, base: nat): seq<Byte> {
    if base == 16 then [48, 120] + InBase(word, 16) else if base == 8 then [48] + InBase(word, 8) else InBase(word, 10)
  }

  function MemberText(member: Member, names: seq<seq<Byte>>): seq<Byte>
    requires member.Named? ==> member.ix < |names|
  {
    match member
    case Named(ix) => names[ix]
    case Numbered(word, base) => NumberText(word, base)
    case Everything => [97, 108, 108]
    case Nothing => [110, 111, 110, 101]
  }

  function SignText(sign: Option<Sign>): seq<Byte> {
    if sign.None? then [] else [sign.value.ch] + sign.value.white
  }

  function GapText(gap: Gap): seq<Byte> {
    match gap
    case Blank(white) => white
    case Comma(before, after) => before + ([COMMA] + after)
  }

  function ItemsText(items: seq<Item>, names: seq<seq<Byte>>): seq<Byte>
    requires forall k :: 0 <= k < |items| && items[k].member.Named? ==> items[k].member.ix < |names|
  {
    if items == [] then []
    else
      SignText(items[0].sign) + (MemberText(items[0].member, names)
        + if |items| == 1 then [] else GapText(items[1].gap) + ItemsText(items[1..], names))
  }

  /** The word after one item. */
  function ItemWord(res: Word, item: Item): Word
    requires item.member.Named? ==> item.member.ix < 64
  {
    match item.member
    case Named(ix) => if Clears(item) then AndNot(res, BitWord(ix)) else Or(res, BitWord(ix))
    case Numbered(word, _) => if Clears(item) then AndNot(res, word) else Or(res, word)
    case Everything => if Clears(item) then 0 else WORD - 1
    case Nothing => if Clears(item) then res else 0
  }

  function WordAfter(res: Word, items: seq<Item>): Word
    requires forall k :: 0 <= k < |items| && items[k].member.Named? ==> items[k].member.ix < 64
    decreases |items|
  {
    if items == [] then res else WordAfter(ItemWord(res, items[0]), items[1..])
  }

  /** Whether an item leaves member `i` in the set: a name is about its own member, a number
      about those whose bits it has, and the words for all and none about every one; not having
      none changes nothing. */
  predicate Leaves(was: bool, item: Item, i: nat) {
    match item.member
    case Named(ix) => if ix == i then !Clears(item) else was
    case Numbered(word, _) => if Bit(word, i) then !Clears(item) else was
    case Everything => !Clears(item)
    case Nothing => Clears(item) && was
  }

  /** Whether member `i` is in the set after the items. */
  predicate MemberAfter(was: bool, items: seq<Item>, i: nat)
    decreases |items|
  {
    if items == [] then was else MemberAfter(Leaves(was, items[0], i), items[1..], i)
  }

  lemma ItemWordMeaning(res: Word, item: Item, i: nat)
    requires (item.member.Named? ==> item.member.ix < 64) && i < 64
    ensures Bit(ItemWord(res, item), i) <==> Leaves(Bit(res, i), item, i)
  {
    match item.member {
      case Named(ix) =>
        PowerMeaning(ix, i);
        OrMeaning(res, BitWord(ix), i);
        AndNotMeaning(res, BitWord(ix), i);
      case Numbered(word, _) =>
        OrMeaning(res, word, i);
        AndNotMeaning(res, word, i);
      case Everything =>
        Pow2Word();
        NoBit(i);
        FlipMeaning(0, 64, i);
      case Nothing =>
        NoBit(i);
    }
  }

  lemma {:induction false} WordMeaning(res: Word, items: seq<Item>, i: nat)
    requires (forall k :: 0 <= k < |items| && items[k].member.Named? ==> items[k].member.ix < 64) && i < 64
    ensures Bit(WordAfter(res, items), i) <==> MemberAfter(Bit(res, i), items, i)
    decreases |items|
  {
    if items != [] {
      ItemWordMeaning(res, items[0], i);
      WordMeaning(ItemWord(res, items[0]), items[1..], i);
    }
  }

  /** Reading `s` applies the items. */
  ghost predicate Applies(s: seq<Byte>, names: seq<seq<Byte>>, items: seq<Item>)
    requires |names| <= 64 && forall k :: 0 <= k < |items| && items[k].member.Named? ==> items[k].member.ix < 64
  {
    forall res: Word :: ParseFrom(s, res, names) == Set(WordAfter(res, items))
  }

  /** What a member's text does to the word. */
  lemma MemberUpdates(item: Item, names: seq<seq<Byte>>, tail: seq<Byte>, res: Word)
    requires Words(names) && |names| <= 64 && ItemOk(item, names) && (tail == [] || IsSeparator(tail[0]))
    requires NumberEnds(tail)
    ensures var text := MemberText(item.member, names);
      && text != [] && !IsWhite(text[0]) && !IsSign(text[0]) && text[0] !in {COMMA, EQUALS, CARET}
      && TokenLength(text + tail) == |text| && Updated(res, Clears(item), text + tail, |text|, names) == Set(ItemWord(res, item))
  {
    var text := MemberText(item.member, names);
    var s := text + tail;
    assert s[..|text|] == text;
    match item.member {
      case Named(ix) =>
        assert Plain(names[ix]);
        NameBits(names, ix, tail);
      case Numbered(word, base) =>
        NumberUpdates(word, base, tail);
      case Everything =>
        TokenEnds(text, tail);
      case Nothing =>
        TokenEnds(text, tail);
    }
  }

  lemma NumberUpdates(word: Word, base: nat, tail: seq<Byte>)
    requires base in {8, 10, 16} && (tail == [] || IsSeparator(tail[0])) && NumberEnds(tail)
    ensures var text := NumberText(word, base);
      && text != [] && 48 <= text[0] <= 57 && TokenLength(text + tail) == |text|
      && StrToUl(text + tail, 0) == Number(word, |text|)
  {
    var text := NumberText(word, base);
    InBaseDigits(word, base);
    TokenEnds(text, tail);
    if base == 16 {
      HexNumberRead(word, tail, false);
    } else if base == 8 {
      OctalRead(word, tail, InBase(word, 8));
    } else {
      DecimalRead(word, tail, 0);
    }
  }

  lemma ItemStep(item: Item, names: seq<seq<Byte>>, tail: seq<Byte>, res: Word)
    requires Words(names) && |names| <= 64 && ItemOk(item, names) && (tail == [] || IsSeparator(tail[0]))
    requires NumberEnds(tail)
    ensures ParseFrom(SignText(item.sign) + (MemberText(item.member, names) + tail), res, names)
         == ParseFrom(SkipWhite(tail), ItemWord(res, item), names)
  {
    var text := MemberText(item.member, names);
    var t := text + tail;
    MemberUpdates(item, names, tail, res);
    assert t[|text|..] == tail && t[0] == text[0];
    if item.sign.Some? {
      var s := [item.sign.value.ch] + item.sign.value.white + t;
      Shift([item.sign.value.ch], item.sign.value.white, t);
      assert s[1..] == item.sign.value.white + t;
      WhiteSkipped(item.sign.value.white, t);
    } else {
      assert [] + t == t;
    }
  }

  /** A gap is passed over. */
  lemma GapPassed(gap: Gap, rest: seq<Byte>, res: Word, names: seq<seq<Byte>>)
    requires GapOk(gap) && |names| <= 64 && rest != [] && !IsWhite(rest[0]) && rest[0] != COMMA && (gap.Comma? ==> rest[0] != BAR)
    ensures var s := GapText(gap) + rest;
      && IsSeparator(s[0]) && NumberEnds(s)
      && ParseFrom(SkipWhite(s), res, names) == ParseFrom(rest, res, names)
  {
    match gap {
      case Blank(white) =>
        WhiteSkipped(white, rest);
      case Comma(before, after) =>
        var t := [COMMA] + (after + rest);
        Shift(before, [COMMA] + after, rest);
        Shift([COMMA], after, rest);
        WhiteSkipped(before, t);
        WhiteSkipped(after, rest);
        assert t[1..] == after + rest;
    }
  }

  lemma ItemApplies(items: seq<Item>, names: seq<seq<Byte>>, tail: seq<Byte>, rest: seq<Byte>)
    requires Words(names) && |names| <= 64 && items != [] && Items(items, names)
    requires (tail == [] || IsSeparator(tail[0])) && NumberEnds(tail)
    requires Applies(rest, names, items[1..]) && forall r: Word :: ParseFrom(SkipWhite(tail), r, names) == ParseFrom(rest, r, names)
    ensures Applies(SignText(items[0].sign) + (MemberText(items[0].member, names) + tail), names, items)
  {
    var s := SignText(items[0].sign) + (MemberText(items[0].member, names) + tail);
    forall res: Word
      ensures ParseFrom(s, res, names) == Set(WordAfter(res, items))
    {
      ItemStep(items[0], names, tail, res);
    }
  }

  /** How the text of a list begins. */
  lemma ItemsBegin(items: seq<Item>, names: seq<seq<Byte>>)
    requires Words(names) && |names| <= 64 && items != [] && Items(items, names)
    ensures var s := ItemsText(items, names);
      && s != [] && !IsWhite(s[0]) && s[0] !in {COMMA, EQUALS, CARET}
      && (s[0] == BAR ==> items[0].sign.Some? && items[0].sign.value.ch == 124)
  {
    var s := ItemsText(items, names);
    MemberUpdates(items[0], names, [], 0);
    var text := MemberText(items[0].member, names);
    assert s[0] == if items[0].sign.Some? then items[0].sign.value.ch else text[0];
  }

  /** Any list of names and numbers, with or without signs, separated by commas or blanks, in
      any order and with repetitions, is read as a whole. */
  lemma {:induction false} ItemsRead(items: seq<Item>, names: seq<seq<Byte>>)
    requires Words(names) && |names| <= 64 && Items(items, names)
    ensures Applies(ItemsText(items, names), names, items)
  {
    if items != [] {
      ItemsRead(items[1..], names);
      if |items| == 1 {
        ItemApplies(items, names, [], []);
      } else {
        var rest := ItemsText(items[1..], names);
        ItemsBegin(items[1..], names);
        forall r: Word
          ensures ParseFrom(SkipWhite(GapText(items[1].gap) + rest), r, names) == ParseFrom(rest, r, names)
        {
          GapPassed(items[1].gap, rest, r, names);
        }
        GapPassed(items[1].gap, rest, 0, names);
        ItemApplies(items, names, GapText(items[1].gap) + rest, rest);
      }
    }
  }

  /** Two commas in a row, or a comma and a bar, refuse the list, whatever else it holds. */
  lemma CommasRefused(white: seq<Byte>, rest: seq<Byte>, res: Word, names: seq<seq<Byte>>)
    requires AllWhite(white) && |names| <= 64 && rest != [] && (rest[0] == 44 || rest[0] == 124)
    ensures ParseFrom([44] + (white + rest), res, names) == Refused
  {
    var s := [44] + (white + rest);
    assert s[1..] == white + rest;
    WhiteSkipped(white, rest);
  }

  /** What may stand before a list: white space, an equals sign, a caret, and white space
      behind either. */
  datatype Lead = Lead(white: seq<Byte>, anew: Option<seq<Byte>>, invert: Option<seq<Byte>>)

  predicate LeadOk(lead: Lead) {
    && AllWhite(lead.white)
    && (lead.anew.Some? ==> AllWhite(lead.anew.value))
    && (lead.invert.Some? ==> AllWhite(lead.invert.value))
  }

  /** A sign, if it is there, and the white space behind it. */
  function Mark(ch: Byte, white: Option<seq<Byte>>, rest: seq<Byte>): seq<Byte> {
    if white.Some? then [ch] + (white.value + rest) else rest
  }

  function LeadText(lead: Lead, list: seq<Byte>): seq<Byte> {
    lead.white + Mark(61, lead.anew, Mark(94, lead.invert, list))
  }

  /** The list begins where the lead ends. */
  predicate Begins(lead: Lead, list: seq<Byte>) {
    && LeadOk(lead) && (list == [] || !IsWhite(list[0]))
    && (lead.invert.None? ==> At(list, 0) != 94)
    && (lead.invert.None? && lead.anew.None? ==> At(list, 0) != 61)
  }

  /** Nothing at all is refused, and so are a comma before the list and a second equals sign;
      any other lead says what the list starts from and whether the result is complemented. */
  lemma LeadStart(lead: Lead, list: seq<Byte>, cookie: Word)
    requires Begins(lead, list)
    ensures MembershipStart(LeadText(lead, list), cookie) ==
      if At(list, 0) == 44 || (list == [] && lead.anew.None? && lead.invert.None?)
         || (At(list, 0) == 61 && lead.anew.Some? && lead.invert.None?) then None
      else Some(Start(list, if lead.anew.Some? then 0 else cookie, lead.invert.Some?))
  {
    var t := Mark(94, lead.invert, list);
    var s := Mark(61, lead.anew, t);
    WhiteSkipped(lead.white, s);
    if lead.anew.Some? {
      assert s[1..] == lead.anew.value + t;
      WhiteSkipped(lead.anew.value, t);
    }
    if lead.invert.Some? {
      assert t[1..] == lead.invert.value + list;
      WhiteSkipped(lead.invert.value, list);
    }
  }

  /** The set that a list gives: it starts from the old set, or from nothing behind an equals
      sign; each item adds or removes its members; a caret complements the result; and nothing
      beyond the known members remains. */
  lemma ListMeaning(lead: Lead, items: seq<Item>, names: seq<seq<Byte>>, cookie: Word, i: nat)
    requires Words(names) && |names| < 64 && items != [] && Items(items, names) && LeadOk(lead)
    ensures var r := ParseSet(LeadText(lead, ItemsText(items, names)), cookie, names);
      && r.Set?
      && (Bit(r.word, i) <==> i < |names| && (lead.invert.Some? != MemberAfter(lead.anew.None? && Bit(cookie, i), items, i)))
  {
    var list := ItemsText(items, names);
    ItemsBegin(items, names);
    LeadStart(lead, list, cookie);
    ItemsRead(items, names);
    var res := if lead.anew.Some? then 0 else cookie;
    FinishedMeaning(WordAfter(res, items), lead.invert.Some?, |names|, i);
    if i < |names| {
      WordMeaning(res, items, i);
    }
    NoBit(i);
  }

  /** The bits that a token which is not a number stands for: just that of its member. */
  lemma TokenMeaning(s: seq<Byte>, len: nat, names: seq<seq<Byte>>, i: nat)
    requires len <= |s| && |names| <= 64 && TokenBits(s, len, names).Set? && StrToUl(s, 0).used != len
    ensures Bit(TokenBits(s, len, names).word, i)
       <==> i == Position(s[StrToUl(s, 0).used..Min(StrToUl(s, 0).used + len, |s|)], names)
  {
    PowerMeaning(Position(s[StrToUl(s, 0).used..Min(StrToUl(s, 0).used + len, |s|)], names), i);
  }

  /** What one token does to each bit: "all" and "none" set them alike, and any other token
      adds the bits it stands for, or removes them behind a minus or an exclamation mark. */
  lemma UpdatedMeaning(res: Word, inverted: bool, s: seq<Byte>, len: nat, names: seq<seq<Byte>>, i: nat)
    requires len <= |s| && |names| <= 64 && i < 64 && Updated(res, inverted, s, len, names).Set?
    ensures Bit(Updated(res, inverted, s, len, names).word, i) <==>
      if s[..len] == ALL then !inverted
      else if s[..len] == NONE then inverted && Bit(res, i)
      else if inverted then Bit(res, i) && !Bit(TokenBits(s, len, names).word, i)
      else Bit(res, i) || Bit(TokenBits(s, len, names).word, i)
  {
    NoBit(i);
    if s[..len] == ALL {
      Pow2Word();
      FlipMeaning(0, 64, i);
    } else if s[..len] != NONE {
      OrMeaning(res, TokenBits(s, len, names).word, i);
      AndNotMeaning(res, TokenBits(s, len, names).word, i);
    }
  }

  /** A keyword stands for a name that it is, or else for the only one that it begins. */
  lemma KeywordMeaning(name: seq<Byte>, names: seq<seq<Byte>>, ix: nat)
    requires ix < |names| && forall i, j :: 0 <= i < j < |names| ==> names[i] != names[j]
    ensures Keyword(name, names) == ix <==>
      names[ix] == name || (name !in names && name <= names[ix] && forall j :: 0 <= j < |names| && j != ix ==> !(name <= names[j]))
  {
    if FullMatch(name, names) < |names| {
      assert names[FullMatch(name, names)] == name;
    } else {
      OnlyPartial(name, names, ix);
      NoPartials(name, names);
      var p := PartialMatch(name, names);
      if p < |names| {
        OnlyPartial(name, names, p);
      }
    }
  }

  lemma {:induction false} OnlyPartial(name: seq<Byte>, names: seq<seq<Byte>>, ix: nat)
    requires ix < |names|
    ensures Partials(name, names) == 1 && name <= names[ix] <==>
      name <= names[ix] && forall j :: 0 <= j < |names| && j != ix ==> !(name <= names[j])
  {
    var n := |names| - 1;
    var before := names[..n];
    assert forall j :: 0 <= j < n ==> before[j] == names[j];
    NoPartials(name, before);
    if ix < n {
      OnlyPartial(name, before, ix);
      assert before[ix] == names[ix];
    }
  }

  lemma FinishedMeaning(res: Word, invert: bool, count: nat, i: nat)
    requires count < 64
    ensures Bit(Finished(res, invert, count), i) <==> i < count && (invert != Bit(res, i))
  {
    var r := if invert then WORD - 1 - res else res;
    LowMeaning(r, count, i);
    if i < count && invert {
      Pow2Word();
      FlipMeaning(res, 64, i);
    }
  }

  /** An option of this kind: its member names and its word of bits. */
  class SetOption {
    const names: seq<seq<Byte>>
    var cookie: Word

    constructor (names: seq<seq<Byte>>, cookie: Word)
      ensures this.names == names && this.cookie == cookie
    {
      this.names := names;
      this.cookie := cookie;
    }

    /** set_memb_names: the members as text, in a buffer of the reserved size. */
    method MemberNames() returns (pz: array<Byte>, len: nat)
      requires |names| < 64
      ensures fresh(pz) && len < pz.Length && pz[len] == NUL
      ensures pz[..len] == Join(cookie % Pow2(|names|), names, 0)
    {
      var mask := Pow2(|names|);
      var bits := Remainder(cookie, mask);
      ghost var whole := Join(bits, names, 0);
      var size := NamesSize(bits);
      pz := new Byte[size];
      len := 0;
      if bits != 0 {
        len := FillNames(pz, bits);
      }
      pz[len] := NUL;
    }

    method NamesSize(word: nat) returns (size: nat)
      requires word < Pow2(|names|)
      ensures size == 1 + Room(word, names, 0)
    {
      var bits, ix := word, 0;
      size := 1;
      while bits != 0
        invariant 0 <= ix <= |names| && 0 <= bits < Pow2(|names| - ix)
        invariant size + Room(bits, names, ix) == 1 + Room(word, names, 0)
      {
        if bits % 2 == 1 {
          size := size + |names[ix]| + |PLUS_STR| + 1;
        }
        bits, ix := bits / 2, ix + 1;
      }
    }

    method FillNames(pz: array<Byte>, word: nat) returns (len: nat)
      requires 0 < word < Pow2(|names|) && pz.Length > Room(word, names, 0)
      modifies pz
      ensures len < pz.Length && pz[..len] == Join(word, names, 0)
    {
      ghost var whole := Join(word, names, 0);
      var bits, ix := word, 0;
      len := 0;
      while true
        invariant 0 <= ix <= |names| && 0 < bits < Pow2(|names| - ix)
        invariant len <= |whole| && pz[..len] + Join(bits, names, ix) == whole
        decreases bits
      {
        var doit := bits % 2 == 1;
        if doit {
          FillStep(pz[..len], bits, names, ix, whole);
          len := Emit(pz, len, names[ix]);
          if bits / 2 == 0 {
            break;
          }
          len := Emit(pz, len, PLUS_STR);
        }
        bits := bits / 2;
        ix := ix + 1;
      }
    }

    /** prt_set_arg: the text saved for this option. */
    method Save() returns (buf: seq<Byte>)
      requires |names| < 64
      ensures buf == Saved(cookie, names)
    {
      var list, len := MemberNames();
      buf := [EQUALS] + list[..len];
    }

    /** check_membership_start */
    method CheckMembershipStart(text: seq<Byte>) returns (start: Option<Start>)
      ensures start == MembershipStart(text, cookie)
    {
      var res := cookie;
      var arg := SkipWhite(text);
      if arg == [] || arg[0] == COMMA {
        return None;
      }
      if arg[0] == EQUALS {
        res, arg := 0, SkipWhite(arg[1..]);
        if At(arg, 0) == EQUALS || At(arg, 0) == COMMA {
          return None;
        }
      }
      if At(arg, 0) == CARET {
        arg := SkipWhite(arg[1..]);
        return if At(arg, 0) == COMMA then None else Some(Start(arg, res, true));
      }
      start := Some(Start(arg, res, false));
    }

    /** find_member_bit, from where the number of a token ended. */
    method FindMemberBit(arg: seq<Byte>, at: nat, len: nat) returns (bit: Outcome)
      requires |names| <= 64 && at <= |arg|
      ensures var i := Position(arg[at..Min(at + len, |arg|)], names);
        bit == if len > NAME_LIMIT then Overrun else if i < |names| then Set(BitWord(i)) else Unknown
    {
      if len > NAME_LIMIT {
        return Overrun;
      }
      var shift, reported := FindName(arg[at..Min(at + len, |arg|)], names);
      bit := if reported then Unknown else Set(BitWord(shift));
    }

    /** A token that is a number, or a member's name. */
    method ReadToken(arg: seq<Byte>, len: nat) returns (bit: Outcome)
      requires |names| <= 64 && len <= |arg|
      ensures bit == TokenBits(arg, len, names)
    {
      var v := StrToUl(arg, 0);
      if v.used == len {
        return Set(v.value);
      }
      bit := FindMemberBit(arg, v.used, len);
    }

    /** The token at the start of `arg`, applied to `res`. */
    method ApplyToken(arg: seq<Byte>, len: nat, inverted: bool, res: Word) returns (next: Outcome)
      requires |names| <= 64 && len <= |arg|
      ensures next == Updated(res, inverted, arg, len, names)
    {
      if len == 3 && arg[..3] == ALL {
        next := Set(if inverted then 0 else WORD - 1);
      } else if len == 4 && arg[..4] == NONE {
        next := Set(if inverted then res else 0);
      } else {
        var bit := ReadToken(arg, len);
        next := if bit.Set? then Set(if inverted then AndNot(res, bit.word) else Or(res, bit.word)) else bit;
      }
    }

    /** optionSetMembers: the option's word becomes the one read. A list that is refused makes
        it zero, and so does an unknown name if its report returns; else the program has ended
        there. Nothing is said of the word once a name has overrun the buffer. */
    method SetMembers(text: seq<Byte>, reportReturns: bool) returns (outcome: Outcome)
      requires |names| <= 64
      modifies this
      ensures outcome == ParseSet(text, old(cookie), names)
      ensures outcome.Set? ==> cookie == outcome.word
      ensures outcome.Refused? ==> cookie == 0
      ensures outcome.Unknown? ==> cookie == if reportReturns then 0 else old(cookie)
    {
      var start := CheckMembershipStart(text);
      if start == None {
        cookie := 0;
        return Refused;
      }
      var arg, res: Word := start.value.rest, start.value.res;
      ghost var whole := ParseFrom(arg, res, names);
      while arg != []
        invariant ParseFrom(arg, res, names) == whole && cookie == old(cookie)
        decreases |arg|
      {
        if arg[0] == COMMA {
          arg := SkipWhite(arg[1..]);
          if At(arg, 0) == COMMA || At(arg, 0) == BAR {
            cookie := 0;
            return Refused;
          }
        } else {
          var inverted := arg[0] == MINUS || arg[0] == BANG;
          if IsSign(arg[0]) {
            arg := SkipWhite(arg[1..]);
          }
          var len := TokenLength(arg);
          if len == 0 {
            break;
          }
          outcome := ApplyToken(arg, len, inverted, res);
          if outcome.Unknown? && !reportReturns {
            return;
          }
          if !outcome.Set? {
            cookie := 0;
            return;
          }
          res, arg := outcome.word, SkipWhite(arg[len..]);
        }
      }
      cookie := Finished(res, start.value.invert, |names|);
      outcome := Set(cookie);
    }

    /** The round trip between two options of one kind: what is saved from this one and set in
        the other is the same set, if and only if the names of its members are short. */
    method SaveInto(other: SetOption, reportReturns: bool) returns (outcome: Outcome)
      requires |names| < 64 && Words(names) && other.names == names && other != this
      modifies other
      ensures outcome.Set? <==> AllShort(cookie, names)
      ensures outcome.Set? ==> other.cookie == cookie % Pow2(|names|)
    {
      var text := Save();
      SaveLoad(cookie, other.cookie, names);
      outcome := other.SetMembers(text, reportReturns);
    }
  }
}
