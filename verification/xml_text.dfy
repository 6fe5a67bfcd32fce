/** String values in the XML form of an option file: written by `libopts/save.c`, found and
    read back by `libopts/nested.c`. */
module XmlText {
  import opened Common
  import opened CText
  import opened Numbers

  datatype Entity = Entity(ch: Byte, text: seq<Byte>)

  /** xml_xlate: amp; lt; gt; quot; apos; */
  const ENTITIES: seq<Entity> := [
    Entity(AMP, [97, 109, 112, SEMI]),
    Entity(LT, [108, 116, SEMI]),
    Entity(GT, [103, 116, SEMI]),
    Entity(DQUOTE, [113, 117, 111, 116, SEMI]),
    Entity(SQUOTE, [97, 112, 111, 115, SEMI])
  ]

  // ---------- writing ----------

  function HexDigit(n: nat): Byte
    requires n < 16
  {
    if n < 10 then 48 + n else 55 + n
  }

  function HexEntity(ch: Byte): seq<Byte> {
    [HASH, 120, HexDigit(ch / 16), HexDigit(ch % 16), SEMI]
  }

  /** What follows the ampersand for a special character. */
  function EntityText(ch: Byte, from: nat): seq<Byte>
    requires from <= |ENTITIES|
    decreases |ENTITIES| - from
  {
    if from == |ENTITIES| then HexEntity(ch)
    else if ENTITIES[from].ch == ch then ENTITIES[from].text
    else EntityText(ch, from + 1)
  }

  predicate IsSpecial(c: Byte) {
    c == AMP || c == LT || c == GT || c < SPACE || c > TILDE
  }

  function Escaped1(c: Byte): seq<Byte> {
    if IsSpecial(c) then [AMP] + EntityText(c, 0) else [c]
  }

  function Escaped(text: seq<Byte>): seq<Byte> {
    if text == [] then [] else Escaped1(text[0]) + Escaped(text[1..])
  }

  /** emit_special_char */
  method EmitSpecialChar(fp: seq<Byte>, ch: Byte) returns (out: seq<Byte>)
    ensures out == fp + [AMP] + EntityText(ch, 0)
  {
    out := fp + [AMP];
    var k := 0;
    while k < |ENTITIES|
      invariant 0 <= k <= |ENTITIES|
      invariant EntityText(ch, 0) == EntityText(ch, k)
    {
      if ENTITIES[k].ch == ch {
        return out + ENTITIES[k].text;
      }
      k := k + 1;
    }
    out := out + HexEntity(ch);
  }

  function OpenTag(name: seq<Byte>): seq<Byte> {
    [LT] + name + [GT]
  }

  function CloseTag(name: seq<Byte>): seq<Byte> {
    [LT, SLASH] + name + [GT]
  }

  /** prt_string */
  method PrintString(name: seq<Byte>, text: seq<Byte>) returns (fp: seq<Byte>)
    requires NulFree(text)
    ensures fp == OpenTag(name) + Escaped(text) + CloseTag(name) + [NL]
  {
    fp := OpenTag(name);
    ghost var whole := fp + Escaped(text);
    var pz := 0;
    assert text[pz..] == text;
    while At(text, pz) != NUL
      invariant 0 <= pz <= |text|
      invariant fp + Escaped(text[pz..]) == whole
      decreases |text| - pz
    {
      var ch := text[pz];
      assert text[pz..][1..] == text[pz + 1..];
      Shift(fp, Escaped1(ch), Escaped(text[pz + 1..]));
      if IsSpecial(ch) {
        Shift(fp, [AMP], EntityText(ch, 0));
        fp := EmitSpecialChar(fp, ch);
      } else {
        fp := fp + [ch];
      }
      pz := pz + 1;
    }
    assert text[pz..] == [];
    fp := fp + CloseTag(name) + [NL];
  }

  // ---------- reading ----------

  /** The character that the text behind an ampersand denotes, and how much of it is used. */
  datatype Special = Special(ch: Byte, used: nat)

  /** The first of the entities that the text begins with. */
  function NamedEntity(s: seq<Byte>, ct: int, entities: seq<Entity>): (r: Special)
    ensures r.used <= |s|
  {
    if entities == [] then Special(AMP, 0)
    else if ct >= |entities[0].text| && entities[0].text <= s then Special(entities[0].ch, |entities[0].text|)
    else NamedEntity(s, ct, entities[1..])
  }

  /** A numeric entity; `skip` is the length of what precedes the digits. */
  function NumericEntity(s: seq<Byte>, ct: int, skip: nat, base: nat): (r: Special)
    requires skip <= |s|
    ensures r.used <= |s|
  {
    var v := StrToUl(s[skip..], base);
    var end := skip + v.used;
    if At(s, end) == SEMI && end + 1 <= ct then Special(v.value % 256, end + 1) else Special(AMP, 0)
  }

  /** `ct` is the number of bytes of the value from the ampersand on. */
  function SpecialOf(s: seq<Byte>, ct: int): (r: Special)
    ensures r.used <= |s|
  {
    if ct < 3 then Special(AMP, 0)
    else if At(s, 0) == HASH then
      if At(s, 1) == 120 then NumericEntity(s, ct, 2, 16) else NumericEntity(s, ct, 1, 10)
    else NamedEntity(s, ct, ENTITIES)
  }

  /** A string value and the text left behind it. */
  datatype Value = Value(text: seq<Byte>, rest: seq<Byte>)

  function Behind(text: seq<Byte>, v: Value): Value {
    Value(text + v.text, v.rest)
  }

  /** The string that the first `ct` bytes of the text denote, and what is left unread. */
  function Unescaped(s: seq<Byte>, ct: int): (r: Value)
    ensures |r.text| <= if ct < 0 then 0 else ct
    decreases |s|
  {
    if ct <= 0 || s == [] then Value([], s)
    else if s[0] != AMP then Behind([s[0]], Unescaped(s[1..], ct - 1))
    else
      var e := SpecialOf(s[1..], ct);
      Behind([e.ch], Unescaped(s[1 + e.used..], ct - e.used - 1))
  }

  // ---------- the round trip ----------

  lemma HexTrip(c: Byte, rest: seq<Byte>, ct: int)
    requires ct >= 6
    ensures SpecialOf(HexEntity(c) + rest, ct) == Special(c, 5)
  {
    var s := HexEntity(c) + rest;
    assert s[2..] == [HexDigit(c / 16), HexDigit(c % 16), SEMI] + rest;
    HexRead(c / 16, c % 16, rest);
  }

  lemma HexRead(h: nat, l: nat, rest: seq<Byte>)
    requires h < 16 && l < 16
    ensures StrToUl([HexDigit(h), HexDigit(l), SEMI] + rest, 16) == Number(16 * h + l, 2)
  {
    var t := [HexDigit(h), HexDigit(l), SEMI] + rest;
    assert t[1..] == [HexDigit(l), SEMI] + rest;
    assert t[1..][1..] == [SEMI] + rest;
    assert Digits(t[1..][1..], 16) == 0;
    assert Digits(t[1..], 16) == 1;
    assert t[..2] == [HexDigit(h), HexDigit(l)];
    HexPair(h, l);
  }

  lemma HexPair(h: nat, l: nat)
    requires h < 16 && l < 16
    ensures Numeral([HexDigit(h), HexDigit(l)], 16) == 16 * h + l
  {
    var digits := [HexDigit(h), HexDigit(l)];
    assert digits[..1] == [HexDigit(h)];
    assert digits[..1][..0] == [];
    assert Numeral(digits[..1], 16) == h;
  }

  /** The five entities of XML, spelled out. */
  lemma EntityNames(rest: seq<Byte>, ct: int)
    ensures SpecialOf([97, 109, 112, 59] + rest, ct) == if ct >= 4 then Special(38, 4) else Special(38, 0)
    ensures SpecialOf([108, 116, 59] + rest, ct) == if ct >= 3 then Special(60, 3) else Special(38, 0)
    ensures SpecialOf([103, 116, 59] + rest, ct) == if ct >= 3 then Special(62, 3) else Special(38, 0)
    ensures SpecialOf([113, 117, 111, 116, 59] + rest, ct) == if ct >= 5 then Special(34, 5) else Special(38, 0)
    ensures SpecialOf([97, 112, 111, 115, 59] + rest, ct) == if ct >= 5 then Special(39, 5) else Special(38, 0)
  {
    EntityNamed(0, [97, 109, 112, 59], rest, ct);
    EntityNamed(1, [108, 116, 59], rest, ct);
    EntityNamed(2, [103, 116, 59], rest, ct);
    EntityNamed(3, [113, 117, 111, 116, 59], rest, ct);
    EntityNamed(4, [97, 112, 111, 115, 59], rest, ct);
  }

  lemma EntityNamed(k: nat, text: seq<Byte>, rest: seq<Byte>, ct: int)
    requires k < 5 && text == ENTITIES[k].text
    ensures SpecialOf(text + rest, ct) == if ct >= |text| then Special(ENTITIES[k].ch, |text|) else Special(38, 0)
  {
    var s := text + rest;
    assert text <= s && s[0] == text[0] && s[1] == text[1];
    EntityFrom(0, k, s, ct);
    assert ENTITIES[0..] == ENTITIES;
  }

  /** No two entities begin alike. */
  lemma {:induction false} EntityFrom(from: nat, k: nat, s: seq<Byte>, ct: int)
    requires from <= 5 && k < 5 && ENTITIES[k].text <= s
    ensures NamedEntity(s, ct, ENTITIES[from..]) ==
      if from <= k && ct >= |ENTITIES[k].text| then Special(ENTITIES[k].ch, |ENTITIES[k].text|) else Special(38, 0)
    decreases 5 - from
  {
    assert s[0] == ENTITIES[k].text[0] && s[1] == ENTITIES[k].text[1];
    if from < 5 {
      assert ENTITIES[from..][0] == ENTITIES[from] && ENTITIES[from..][1..] == ENTITIES[from + 1..];
      assert from != k ==> ENTITIES[from].text[0] != s[0] || ENTITIES[from].text[1] != s[1];
      EntityFrom(from + 1, k, s, ct);
    }
  }

  /** A decimal entity denotes the character with that number, modulo 256, if the value holds
      all of it. */
  lemma DecimalEntity(v: Word, rest: seq<Byte>, ct: int)
    ensures var d := InBase(v, 10);
      SpecialOf([HASH] + d + [SEMI] + rest, ct) == if ct >= |d| + 2 then Special(v % 256, |d| + 2) else Special(38, 0)
  {
    var d := InBase(v, 10);
    var s := [HASH] + d + [SEMI] + rest;
    InBaseDigits(v, 10);
    assert s[1] == d[0];
    assert s[1..] == d + ([SEMI] + rest);
    DecimalRead(v, [SEMI] + rest, 10);
    assert s[1 + |d|] == SEMI;
  }

  /** And so does a hexadecimal one. */
  lemma HexadecimalEntity(v: Word, rest: seq<Byte>, ct: int)
    ensures var d := InBase(v, 16);
      SpecialOf([HASH, 120] + d + [SEMI] + rest, ct) == if ct >= |d| + 3 then Special(v % 256, |d| + 3) else Special(38, 0)
  {
    var d := InBase(v, 16);
    var s := [HASH, 120] + d + [SEMI] + rest;
    assert s[2..] == d + ([SEMI] + rest);
    HexDigitsRead(v, [SEMI] + rest);
    assert s[2 + |d|] == SEMI;
  }

  /** The first three entities differ in their first letters. */
  lemma EntityTrip(k: nat, s: seq<Byte>, ct: int)
    requires k < 3 && ENTITIES[k].text <= s && ct >= 1 + |ENTITIES[k].text|
    ensures NamedEntity(s, ct, ENTITIES) == Special(ENTITIES[k].ch, |ENTITIES[k].text|)
  {
    assert s[0] == ENTITIES[k].text[0];
    assert ENTITIES[1..][0] == ENTITIES[1] && ENTITIES[1..][1..][0] == ENTITIES[2];
    if k >= 1 {
      assert NamedEntity(s, ct, ENTITIES) == NamedEntity(s, ct, ENTITIES[1..]);
    }
    if k == 2 {
      assert NamedEntity(s, ct, ENTITIES[1..]) == NamedEntity(s, ct, ENTITIES[1..][1..]);
    }
  }

  /** The escaped form of one character denotes that character. */
  lemma EscapeTrip(c: Byte, rest: seq<Byte>, ct: int)
    requires IsSpecial(c) && c != NUL && ct >= 1 + |EntityText(c, 0)|
    ensures SpecialOf(EntityText(c, 0) + rest, ct) == Special(c, |EntityText(c, 0)|)
  {
    var text := EntityText(c, 0);
    if c == AMP || c == LT || c == GT {
      var s := text + rest;
      assert text <= s;
      assert s[0] == text[0];
      EntityTrip(if c == AMP then 0 else if c == LT then 1 else 2, s, ct);
    } else {
      assert text == HexEntity(c);
      HexTrip(c, rest, ct);
    }
  }

  lemma UnescapeEntity(c: Byte, entity: seq<Byte>, rest: seq<Byte>, ct: int)
    requires ct > 0 && SpecialOf(entity + rest, ct) == Special(c, |entity|)
    ensures Unescaped([AMP] + entity + rest, ct) == Behind([c], Unescaped(rest, ct - |entity| - 1))
  {
    var s := [AMP] + entity + rest;
    assert s[1..] == entity + rest;
    assert s[1 + |entity|..] == rest;
  }

  lemma UnescapeOne(c: Byte, rest: seq<Byte>, ct: int)
    requires c != NUL && ct >= |Escaped1(c)|
    ensures Unescaped(Escaped1(c) + rest, ct) == Behind([c], Unescaped(rest, ct - |Escaped1(c)|))
  {
    if IsSpecial(c) {
      EscapeTrip(c, rest, ct);
      UnescapeEntity(c, EntityText(c, 0), rest, ct);
    } else {
      assert ([c] + rest)[1..] == rest;
    }
  }

  /** Reading the escaped form of a string gives the string back, whatever its bytes are, and
      uses just the escaped form, whatever follows it. */
  lemma {:induction false} Unescape(text: seq<Byte>, rest: seq<Byte>)
    requires NulFree(text)
    ensures Unescaped(Escaped(text) + rest, |Escaped(text)|) == Value(text, rest)
  {
    if text != [] {
      var one, tail := Escaped1(text[0]), Escaped(text[1..]);
      Unescape(text[1..], rest);
      UnescapeOne(text[0], tail + rest, |one + tail|);
      Shift(one, tail, rest);
      assert text == [text[0]] + text[1..];
    }
  }

  // ---------- the scan of a value ----------

  /** get_special_char on the text behind an ampersand, `ct` being what the value still has. */
  method GetSpecialChar(s: seq<Byte>, ct: int) returns (e: Special)
    ensures e == SpecialOf(s, ct)
  {
    if ct < 3 {
      return Special(AMP, 0);
    }
    if At(s, 0) == HASH {
      var base, pz := 10, 1;
      if At(s, 1) == 120 {
        base, pz := 16, 2;
      }
      var v := StrToUl(s[pz..], base);
      pz := pz + v.used;
      if At(s, pz) != SEMI || pz + 1 > ct {
        return Special(AMP, 0);
      }
      return Special(v.value % 256, pz + 1);
    }
    var k := 0;
    while k < |ENTITIES|
      invariant 0 <= k <= |ENTITIES|
      invariant NamedEntity(s, ct, ENTITIES) == NamedEntity(s, ct, ENTITIES[k..])
    {
      if ct >= |ENTITIES[k].text| && ENTITIES[k].text <= s {
        return Special(ENTITIES[k].ch, |ENTITIES[k].text|);
      }
      assert ENTITIES[k..][1..] == ENTITIES[k + 1..];
      k := k + 1;
    }
    e := Special(AMP, 0);
  }

  const MIN_ARGS: nat := 6
  const INCR_ARGS: nat := 8

  /** An argument list: it is allocated with its first entry, and grows by some entries when it
      is full. */
  class ArgList {
    var args: array?<array?<Byte>>
    var useCt: nat

    ghost predicate Valid()
      reads this
    {
      if args == null then useCt == 0 else useCt <= args.Length
    }

    ghost function Contents(): seq<array?<Byte>>
      requires Valid()
      reads this, args
    {
      if args == null then [] else args[..useCt]
    }

    constructor ()
      ensures Valid() && Contents() == [] && args == null
    {
      args, useCt := null, 0;
    }

    /** addArgListEntry */
    method Add(entry: array<Byte>)
      requires Valid()
      modifies this, args
      ensures Valid() && Contents() == old(Contents()) + [entry]
      ensures args != null && (args == old(args) || fresh(args))
    {
      if args == null {
        args := new array?<Byte>[MIN_ARGS];
      } else if useCt >= args.Length {
        var more := new array?<Byte>[args.Length + INCR_ARGS];
        forall k | 0 <= k < useCt {
          more[k] := args[k];
        }
        assert more[..useCt] == args[..useCt];
        args := more;
      }
      args[useCt] := entry;
      useCt := useCt + 1;
    }
  }

  /** add_string: the value, read from the first `len` bytes of the text, and then the name,
      in a block sized by their lengths, which becomes the last entry of the list. Without a
      value the name is at the start. */
  method AddString(list: ArgList, name: seq<Byte>, val: Option<seq<Byte>>, len: nat)
    returns (block: array<Byte>, end: nat, at: nat)
    requires list.Valid() && (val.Some? ==> NulFree(val.value))
    modifies list, list.args
    ensures list.Valid() && list.Contents() == old(list.Contents()) + [block]
    ensures list.args == old(list.args) || fresh(list.args)
    ensures fresh(block) && block.Length == len + |name| + 2
    ensures val.Some? ==> end <= len && block[..end] == Unescaped(val.value, len).text && block[end] == NUL
    ensures at == (if val.Some? then len + 1 else 0) && block[at..at + |name| + 1] == name + [NUL]
  {
    block := new Byte[len + |name| + 2];
    end, at := 0, 0;
    if val.Some? {
      var src;
      end, src := CopyValue(block, val.value, len);
      at := len + 1;
    }
    CopyName(block, name, at, end);
    list.Add(block);
  }

  /** The name behind what is in the block already. */
  method CopyName(block: array<Byte>, name: seq<Byte>, at: nat, ghost end: nat)
    requires at + |name| < block.Length && (at == 0 || end < at)
    modifies block
    ensures block[at..at + |name| + 1] == name + [NUL]
    ensures at > 0 ==> block[..end] == old(block[..end]) && block[end] == old(block[end])
  {
    forall k | 0 <= k < |name| {
      block[at + k] := name[k];
    }
    block[at + |name|] := NUL;
  }

  /** `done` lacks only what the text from `src` on denotes. */
  ghost predicate Reading(done: seq<Byte>, val: seq<Byte>, src: nat, ct: int, whole: Value) {
    src <= |val| && Behind(done, Unescaped(val[src..], ct)) == whole
  }

  lemma ReadPlain(done: seq<Byte>, val: seq<Byte>, src: nat, ct: int, whole: Value)
    requires Reading(done, val, src, ct, whole) && src < |val| && ct > 0 && val[src] != AMP
    ensures |done| < |whole.text| && Reading(done + [val[src]], val, src + 1, ct - 1, whole)
  {
    assert val[src..][1..] == val[src + 1..];
    Shift(done, [val[src]], Unescaped(val[src + 1..], ct - 1).text);
  }

  lemma ReadSpecial(done: seq<Byte>, val: seq<Byte>, src: nat, ct: int, e: Special, whole: Value)
    requires Reading(done, val, src, ct, whole) && src < |val| && ct > 0 && val[src] == AMP
    requires e == SpecialOf(val[src + 1..], ct)
    ensures |done| < |whole.text| && Reading(done + [e.ch], val, src + 1 + e.used, ct - e.used - 1, whole)
  {
    assert val[src..][1..] == val[src + 1..];
    assert val[src..][1 + e.used..] == val[src + 1 + e.used..];
    Shift(done, [e.ch], Unescaped(val[src + 1 + e.used..], ct - e.used - 1).text);
  }

  lemma ReadAll(done: seq<Byte>, val: seq<Byte>, src: nat, ct: int, whole: Value)
    requires Reading(done, val, src, ct, whole) && (src == |val| || ct <= 0)
    ensures whole == Value(done, val[src..])
  {
    assert done + [] == done;
  }

  /** The copy loop of add_string; `src` is how much of the text it has read. */
  method CopyValue(block: array<Byte>, val: seq<Byte>, len: nat) returns (end: nat, src: nat)
    requires NulFree(val) && len < block.Length
    modifies block
    ensures end <= len && src <= |val| && block[end] == NUL
    ensures Value(block[..end], val[src..]) == Unescaped(val, len)
  {
    ghost var whole := Unescaped(val, len);
    assert val[0..] == val && [] + whole.text == whole.text;
    assert Reading([], val, 0, len, whole);
    end, src := CopyBytes(block, val, len, whole);
    block[end] := NUL;
  }

  method CopyBytes(block: array<Byte>, val: seq<Byte>, len: nat, ghost whole: Value) returns (end: nat, src: nat)
    requires NulFree(val) && len < block.Length
    requires |whole.text| <= len && Reading([], val, 0, len, whole)
    modifies block
    ensures end <= len && src <= |val| && whole == Value(block[..end], val[src..])
  {
    var ct: int := len;
    end, src := 0, 0;
    assert block[..end] == [];
    while ct > 0 && At(val, src) != NUL
      invariant end <= len && Reading(block[..end], val, src, ct, whole)
      decreases |val| - src
    {
      var ch;
      ch, src, ct := ReadOne(val, src, ct, block[..end], whole);
      end := Emit(block, end, [ch]);
    }
    ReadAll(block[..end], val, src, ct, whole);
  }

  /** One character of the value. */
  method ReadOne(val: seq<Byte>, at: nat, had: int, ghost done: seq<Byte>, ghost whole: Value)
    returns (ch: Byte, src: nat, ct: int)
    requires Reading(done, val, at, had, whole) && at < |val| && had > 0
    ensures src > at && |done| < |whole.text| && Reading(done + [ch], val, src, ct, whole)
  {
    ch := val[at];
    if ch == AMP {
      ch, src, ct := ReadEntity(val, at, had, done, whole);
    } else {
      ReadPlain(done, val, at, had, whole);
      src, ct := at + 1, had - 1;
    }
  }

  method ReadEntity(val: seq<Byte>, at: nat, had: int, ghost done: seq<Byte>, ghost whole: Value)
    returns (ch: Byte, src: nat, ct: int)
    requires Reading(done, val, at, had, whole) && at < |val| && had > 0 && val[at] == AMP
    ensures src > at && |done| < |whole.text| && Reading(done + [ch], val, src, ct, whole)
  {
    var e := GetSpecialChar(val[at + 1..], had);
    ReadSpecial(done, val, at, had, e, whole);
    ch, src, ct := e.ch, at + 1 + e.used, had - e.used - 1;
  }

  /** The first place of a tag in a text, or the length of the text. */
  function Find(tag: seq<Byte>, s: seq<Byte>): (i: nat)
    requires tag != []
    ensures i <= |s|
    ensures i < |s| ==> i + |tag| <= |s| && tag <= s[i..]
    ensures forall k :: 0 <= k < i ==> !(tag <= s[k..])
  {
    if s == [] || tag <= s then 0
    else
      var i := Find(tag, s[1..]);
      assert forall k :: 1 <= k <= |s| ==> s[k..] == s[1..][k - 1..];
      1 + i
  }

  /** The length of a text's first `e` bytes without the white space at their end. */
  function Trimmed(s: seq<Byte>, e: nat): (n: nat)
    requires e <= |s|
    ensures n <= e && (n > 0 ==> !IsWhite(s[n - 1]))
    ensures forall k :: n <= k < e ==> IsWhite(s[k])
  {
    if e > 0 && IsWhite(s[e - 1]) then Trimmed(s, e - 1) else e
  }

  /** The length of a value whose closing tag is at `at`. Trimming back from the very start
      of the text trims the whole text instead. */
  function ValueLength(val: seq<Byte>, at: nat, keep: bool): nat
    requires at <= |val|
  {
    if keep then at else Trimmed(val, if at == 0 then |val| else at)
  }

  /** strstr, giving the length of the text where the tag is absent. */
  method StrStr(val: seq<Byte>, tag: seq<Byte>) returns (at: nat)
    requires tag != []
    ensures at == Find(tag, val)
  {
    at := 0;
    while at < |val| && !(tag <= val[at..])
      invariant 0 <= at <= |val|
      invariant forall k :: 0 <= k < at ==> !(tag <= val[k..])
    {
      at := at + 1;
    }
  }

  datatype Ended = Unclosed | Ended(len: nat, rest: seq<Byte>)

  function EndOf(val: seq<Byte>, tag: seq<Byte>, keep: bool): Ended
    requires tag != []
  {
    var at := Find(tag, val);
    if at == |val| then Unclosed else Ended(ValueLength(val, at, keep), SkipWhite(val[at + |tag|..]))
  }

  /** find_end_xml: the value's length and where the scan goes on. */
  method FindEndXml(name: seq<Byte>, val: seq<Byte>, keep: bool) returns (r: Ended)
    requires 1 <= |name| <= 64
    ensures r == EndOf(val, CloseTag(name), keep)
  {
    var tag := CloseTag(name);
    var res := StrStr(val, tag);
    if res == |val| {
      r := Unclosed;
    } else {
      var end := res;
      if !keep {
        end := SpanBack(val, res);
      }
      r := Ended(end, SkipWhite(val[res + |tag|..]));
    }
  }

  /** SPN_WHITESPACE_BACK */
  method SpanBack(val: seq<Byte>, at: nat) returns (e: nat)
    requires at <= |val|
    ensures e == ValueLength(val, at, false)
  {
    e := if at == 0 then |val| else at;
    ghost var from := e;
    while e > 0 && IsWhite(val[e - 1])
      invariant 0 <= e <= |val|
      invariant Trimmed(val, from) == Trimmed(val, e)
    {
      e := e - 1;
    }
  }

  // ---------- a saved value is found and read back ----------

  lemma {:induction false} NoTagInside(text: seq<Byte>)
    ensures LT !in Escaped(text)
  {
    if text != [] {
      NoTagInside(text[1..]);
      NoTagOne(text[0]);
    }
  }

  lemma NoTagOne(c: Byte)
    ensures LT !in Escaped1(c)
  {
    if IsSpecial(c) {
      assert EntityText(c, 0) in {ENTITIES[0].text, ENTITIES[1].text, ENTITIES[2].text} || EntityText(c, 0) == HexEntity(c);
    }
  }

  lemma TagFound(name: seq<Byte>, text: seq<Byte>, rest: seq<Byte>)
    ensures Find(CloseTag(name), Escaped(text) + CloseTag(name) + rest) == |Escaped(text)|
  {
    var tag, value := CloseTag(name), Escaped(text);
    var val := value + tag + rest;
    NoTagInside(text);
    assert val[|value|..] == tag + rest;
    forall k | 0 <= k < |value|
      ensures !(tag <= val[k..])
    {
      assert val[k] == value[k];
      assert val[k..][0] == val[k] != tag[0];
    }
  }

  /** In keep mode a saved value is found and read back unchanged, whatever its bytes are. */
  lemma SavedValue(name: seq<Byte>, text: seq<Byte>, rest: seq<Byte>)
    requires NulFree(text)
    ensures var val := Escaped(text) + CloseTag(name) + rest;
      var at := Find(CloseTag(name), val);
      at < |val| && Unescaped(val, ValueLength(val, at, true)) == Value(text, CloseTag(name) + rest)
  {
    TagFound(name, text, rest);
    Unescape(text, CloseTag(name) + rest);
    Shift(Escaped(text), CloseTag(name), rest);
  }

  lemma {:induction false} LastEscaped(text: seq<Byte>)
    requires NulFree(text) && text != []
    ensures Escaped(text) != []
    ensures IsWhite(Escaped(text)[|Escaped(text)| - 1]) <==> text[|text| - 1] == SPACE
  {
    if |text| > 1 {
      LastEscaped(text[1..]);
    } else {
      assert text[1..] == [];
      assert Escaped(text) == Escaped1(text[0]);
    }
  }

  /** In every mode the length found is that of the saved value if and only if nothing is
      trimmed: outside keep mode the string must be neither empty nor end in a blank. */
  lemma SavedLength(name: seq<Byte>, text: seq<Byte>, rest: seq<Byte>, keep: bool)
    requires NulFree(text)
    ensures ValueLength(Escaped(text) + CloseTag(name) + rest, |Escaped(text)|, keep) == |Escaped(text)|
      <==> keep || (text != [] && text[|text| - 1] != SPACE)
  {
    var value := Escaped(text);
    var val := value + CloseTag(name) + rest;
    if text != [] {
      LastEscaped(text);
      assert val[|value| - 1] == value[|value| - 1];
    } else {
      assert val[0] == LT;
    }
  }

  /** Outside keep mode a string that ends in a blank loses it, and an empty one takes in text
      that follows it. */
  lemma LengthWrong(name: seq<Byte>, rest: seq<Byte>)
    ensures ValueLength(Escaped([97, SPACE]) + CloseTag(name) + rest, |Escaped([97, SPACE])|, false) < |Escaped([97, SPACE])|
    ensures ValueLength(Escaped([]) + CloseTag(name) + rest, |Escaped([])|, false) > |Escaped([])|
  {
    SavedLength(name, [97, SPACE], rest, false);
    SavedLength(name, [], rest, false);
    assert |Escaped([97, SPACE])| > 0 by {
      LastEscaped([97, SPACE]);
    }
  }

  /** Behind the value the scan goes on after the closing tag and the white space behind it. */
  lemma SavedRest(name: seq<Byte>, text: seq<Byte>, white: seq<Byte>, rest: seq<Byte>, keep: bool)
    requires forall i :: 0 <= i < |white| ==> 8 <= white[i] <= 13 || white[i] == 32
    requires rest == [] || (rest[0] != 32 && !(8 <= rest[0] <= 13))
    ensures var r := EndOf(Escaped(text) + CloseTag(name) + (white + rest), CloseTag(name), keep);
      r.Ended? && r.rest == rest
  {
    var tag, value := CloseTag(name), Escaped(text);
    var val := value + tag + (white + rest);
    TagFound(name, text, white + rest);
    assert val[|value| + |tag|..] == white + rest;
    WhiteSkipped(white, rest);
  }

  lemma {:induction false} EscapedNulFree(text: seq<Byte>)
    requires NulFree(text)
    ensures NulFree(Escaped(text))
  {
    if text != [] {
      EscapedNulFree(text[1..]);
      EntityNulFree(text[0]);
    }
  }

  lemma EntityNulFree(c: Byte)
    requires c != NUL
    ensures NulFree(Escaped1(c))
  {
    if IsSpecial(c) {
      assert EntityText(c, 0) in {ENTITIES[0].text, ENTITIES[1].text, ENTITIES[2].text} || EntityText(c, 0) == HexEntity(c);
    }
  }

  lemma PrintedRest(a: seq<Byte>, b: seq<Byte>, c: seq<Byte>, d: seq<Byte>)
    requires NulFree(b) && NulFree(c) && NulFree(d)
    ensures (a + b + c + d)[|a|..] == b + c + d && NulFree(b + c + d)
  {
  }

  /** Where the value of a printed string ends, and what it is. */
  lemma PrintedValue(name: seq<Byte>, text: seq<Byte>)
    requires NulFree(text)
    ensures
      var val := Escaped(text) + CloseTag(name) + [NL];
      var r := EndOf(val, CloseTag(name), true);
      r.Ended? && Unescaped(val, r.len).text == text
  {
    SavedValue(name, text, [NL]);
  }

  /** The round trip through the text of a file: a string is printed between its tags, and what
      is found behind the opening tag is stored as the last entry of a list. */
  method PrintAndAdd(list: ArgList, name: seq<Byte>, text: seq<Byte>) returns (block: array<Byte>, end: nat, at: nat)
    requires list.Valid() && 1 <= |name| <= 64 && NulFree(name) && NulFree(text)
    modifies list, list.args
    ensures list.Valid() && list.Contents() == old(list.Contents()) + [block]
    ensures end < at && at + |name| < block.Length
    ensures block[..end] == text && block[end] == NUL && block[at..at + |name| + 1] == name + [NUL]
  {
    var fp := PrintString(name, text);
    var val := fp[|OpenTag(name)|..];
    EscapedNulFree(text);
    PrintedRest(OpenTag(name), Escaped(text), CloseTag(name), [NL]);
    PrintedValue(name, text);
    var r := FindEndXml(name, val, true);
    block, end, at := AddString(list, name, Some(val), r.len);
  }
}
