/** Numerals in text, as the C library's strtoul reads them into a 64-bit word. */
module Numbers {
  import opened CText

  const WORD: nat := 0x1_0000_0000_0000_0000

  type Word = x: nat | x < WORD

  function DigitValue(c: Byte): nat {
    if IsDecimal(c) then c - 48 else if 65 <= c <= 90 then c - 55 else if 97 <= c <= 122 then c - 87 else 99
  }

  /** How many digits the text begins with. */
  function Digits(s: seq<Byte>, base: nat): (n: nat)
    ensures n <= |s|
  {
    if s == [] || DigitValue(s[0]) >= base then 0 else 1 + Digits(s[1..], base)
  }

  function SkipSpaces(s: seq<Byte>): (r: seq<Byte>)
    ensures |r| <= |s|
  {
    if s != [] && (HT <= s[0] <= CR || s[0] == SPACE) then SkipSpaces(s[1..]) else s
  }

  /** A digit as it is written. */
  function DigitChar(n: nat): Byte
    requires n < 16
  {
    if n < 10 then 48 + n else 97 + (n - 10)
  }

  /** A number in the digits of a base. */
  function InBase(v: nat, base: nat): (s: seq<Byte>)
    requires 2 <= base <= 16
    ensures s != []
  {
    if v < base then [DigitChar(v)]
    else
      Smaller(v, base);
      InBase(v / base, base) + [DigitChar(v % base)]
  }

  lemma Smaller(v: nat, base: nat)
    requires v >= base >= 2
    ensures 0 < v / base < v && v / base * base + v % base == v
  {
    assert v == base * (v / base) + v % base;
    TimesSign(base, v / base);
  }

  lemma TimesSign(base: nat, q: int)
    requires base >= 2
    ensures q <= 0 ==> base * q <= 0
    ensures q > 0 ==> base * q >= 2 * q
  {
  }

  /** A number and the length of the text it was read from; no text if there is no digit. */
  datatype Number = Number(value: Word, used: nat)

  /** strtoul: white space, a sign, a prefix that tells the base or repeats it, and digits.
      A number that does not fit is the largest one. */
  function StrToUl(text: seq<Byte>, wanted: nat): (r: Number)
    ensures r.used <= |text|
  {
    var s := SkipSpaces(text);
    var minus := At(s, 0) == MINUS;
    var t := if minus || At(s, 0) == PLUS then s[1..] else s;
    var hex := (wanted == 0 || wanted == 16)
      && At(t, 0) == 48 && (At(t, 1) == 120 || At(t, 1) == 88) && IsHex(At(t, 2));
    var base := if hex then 16 else if wanted != 0 then wanted else if At(t, 0) == 48 then 8 else 10;
    var u := if hex then t[2..] else t;
    var k := Digits(u, base);
    if k == 0 then Number(0, 0)
    else
      var v := Numeral(u[..k], base);
      Number(if v >= WORD then WORD - 1 else if minus then (WORD - v) % WORD else v, |text| - |u| + k)
  }

  lemma NumeralMore(s: seq<Byte>, n: nat, base: nat)
    requires n < 16
    ensures Numeral(s + [DigitChar(n)], base) == Numeral(s, base) * base + n
  {
    assert (s + [DigitChar(n)])[..|s|] == s;
  }

  lemma {:induction false} InBaseValue(v: nat, base: nat)
    requires 2 <= base <= 16
    ensures Numeral(InBase(v, base), base) == v
  {
    if v < base {
      NumeralMore([], v, base);
      assert [] + [DigitChar(v)] == [DigitChar(v)];
    } else {
      Smaller(v, base);
      InBaseValue(v / base, base);
      NumeralMore(InBase(v / base, base), v % base, base);
    }
  }

  /** A numeral consists of digits of its base, and only that of zero begins with a zero. */
  lemma {:induction false} InBaseDigits(v: nat, base: nat)
    requires 2 <= base <= 16
    ensures forall i :: 0 <= i < |InBase(v, base)| ==> IsHex(InBase(v, base)[i]) && DigitValue(InBase(v, base)[i]) < base
    ensures v > 0 ==> InBase(v, base)[0] != 48
  {
    if v >= base {
      Smaller(v, base);
      InBaseDigits(v / base, base);
    }
  }

  /** The digits end where something else begins. */
  lemma {:induction false} DigitsEnd(s: seq<Byte>, tail: seq<Byte>, base: nat)
    requires forall i :: 0 <= i < |s| ==> DigitValue(s[i]) < base
    requires tail == [] || DigitValue(tail[0]) >= base
    ensures Digits(s + tail, base) == |s|
  {
    if s == [] {
      assert s + tail == tail;
    } else {
      assert (s + tail)[1..] == s[1..] + tail;
      DigitsEnd(s[1..], tail, base);
    }
  }

  /** Neither a digit nor a letter comes next. */
  predicate NumberEnds(tail: seq<Byte>) {
    tail == [] || (!(48 <= tail[0] <= 57) && !(65 <= tail[0] <= 90) && !(97 <= tail[0] <= 122))
  }

  /** A number that does not fit a word is read as the largest one. */
  function Saturated(v: nat): Word {
    if v < WORD then v else WORD - 1
  }

  /** Digits without a prefix, in the base they are read in. */
  lemma PlainRead(d: seq<Byte>, tail: seq<Byte>, wanted: nat, base: nat, v: nat)
    requires d != [] && IsHex(d[0]) && Digits(d + tail, base) == |d| && Numeral(d, base) == v
    requires base == if wanted != 0 then wanted else if d[0] == 48 then 8 else 10
    requires wanted == 10 || d[0] != 48 || (At(d + tail, 1) != 120 && At(d + tail, 1) != 88)
    ensures StrToUl(d + tail, wanted) == Number(Saturated(v), |d|)
  {
    var text := d + tail;
    assert text[0] == d[0];
    assert SkipSpaces(text) == text;
    assert text[..|d|] == d;
  }

  /** A decimal numeral is read as its number. */
  lemma DecimalRead(v: nat, tail: seq<Byte>, wanted: nat)
    requires (wanted == 0 || wanted == 10) && NumberEnds(tail)
    ensures StrToUl(InBase(v, 10) + tail, wanted) == Number(Saturated(v), |InBase(v, 10)|)
  {
    InBaseDigits(v, 10);
    if v == 0 && wanted == 0 {
      OctalRead(0, tail, []);
    } else {
      InBaseValue(v, 10);
      DigitsEnd(InBase(v, 10), tail, 10);
      PlainRead(InBase(v, 10), tail, wanted, 10, v);
    }
  }

  /** A zero leads an octal numeral; `d` is one, or nothing for zero itself. */
  lemma OctalRead(v: nat, tail: seq<Byte>, d: seq<Byte>)
    requires NumberEnds(tail) && (d == InBase(v, 8) || (d == [] && v == 0))
    ensures StrToUl([48] + d + tail, 0) == Number(Saturated(v), 1 + |d|)
  {
    var u := [48] + d;
    if d != [] {
      InBaseDigits(v, 8);
      InBaseValue(v, 8);
    }
    LeadingZero(d, 8);
    assert At(u + tail, 1) == if d != [] then d[0] else At(tail, 0);
    DigitsEnd(u, tail, 8);
    PlainRead(u, tail, 0, 8, v);
  }

  lemma {:induction false} LeadingZero(d: seq<Byte>, base: nat)
    ensures Numeral([48] + d, base) == Numeral(d, base)
  {
    var u := [48] + d;
    if d == [] {
      assert u[..0] == [];
    } else {
      assert u[..|u| - 1] == [48] + d[..|d| - 1];
      LeadingZero(d[..|d| - 1], base);
    }
  }

  /** A zero and an x lead a hexadecimal one. */
  lemma HexNumberRead(v: nat, tail: seq<Byte>, large: bool)
    requires NumberEnds(tail)
    ensures StrToUl([48, if large then 88 else 120] + InBase(v, 16) + tail, 0) == Number(Saturated(v), 2 + |InBase(v, 16)|)
  {
    var d := InBase(v, 16);
    InBaseDigits(v, 16);
    InBaseValue(v, 16);
    DigitsEnd(d, tail, 16);
    PrefixedRead([48, if large then 88 else 120], d, tail, v);
  }

  /** Where hexadecimal digits are asked for they need no prefix. */
  lemma HexDigitsRead(v: nat, tail: seq<Byte>)
    requires NumberEnds(tail)
    ensures StrToUl(InBase(v, 16) + tail, 16) == Number(Saturated(v), |InBase(v, 16)|)
  {
    InBaseDigits(v, 16);
    InBaseValue(v, 16);
    DigitsEnd(InBase(v, 16), tail, 16);
    PlainRead(InBase(v, 16), tail, 16, 16, v);
  }

  lemma PrefixedRead(x: seq<Byte>, d: seq<Byte>, tail: seq<Byte>, v: nat)
    requires |x| == 2 && x[0] == 48 && (x[1] == 120 || x[1] == 88) && d != [] && IsHex(d[0])
    requires Digits(d + tail, 16) == |d| && Numeral(d, 16) == v
    ensures StrToUl(x + d + tail, 0) == Number(Saturated(v), 2 + |d|)
  {
    var text := x + d + tail;
    assert text[0] == 48 && text[1] == x[1] && text[2] == d[0];
    assert SkipSpaces(text) == text;
    assert text[2..] == d + tail;
    assert (d + tail)[..|d|] == d;
  }
}
