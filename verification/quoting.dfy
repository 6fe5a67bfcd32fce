/** C-string quoting into a buffer whose size is computed beforehand (`libopts/putshell.c`). */
module Quoting {
  import opened CText

  // ---------- quoting ----------

  /** LINE_SPLICE: an escaped newline, then an escaped line end. */
  const SPLICE: seq<Byte> := [BACKSLASH, 110, BACKSLASH, NL]

  /** The letter of the two-character escape of a control character, or NUL if it has none. */
  function EscapeLetter(c: Byte): Byte {
    if c == BEL then 97 else if c == BS then 98 else if c == HT then 116
    else if c == VT then 118 else if c == FF then 102 else if c == CR then 114 else NUL
  }

  function Octal(c: Byte): (r: seq<Byte>)
    ensures |r| == 4
  {
    [BACKSLASH, 48 + c / 64, 48 + c / 8 % 8, 48 + c % 8]
  }

  /** The quoted form of one character; a newline depends on what follows it. */
  function Quoted1(c: Byte, next: Byte, nl: seq<Byte>): seq<Byte> {
    if SPACE <= c <= TILDE then
      if c == DQUOTE || c == BACKSLASH then [BACKSLASH, c] else [c]
    else if c == NL then
      if next == NL || next == NUL then [BACKSLASH, 110] else nl
    else if EscapeLetter(c) != NUL then [BACKSLASH, EscapeLetter(c)]
    else Octal(c)
  }

  function QuotedBody(text: seq<Byte>, nl: seq<Byte>): seq<Byte> {
    if text == [] then [] else Quoted1(text[0], At(text, 1), nl) + QuotedBody(text[1..], nl)
  }

  /** The whole result of optionQuoteString, without its terminator. */
  function Quoted(text: seq<Byte>, nl: seq<Byte>): seq<Byte> {
    [DQUOTE] + QuotedBody(text, nl) + [DQUOTE]
  }

  function Size1(c: Byte, nlLen: nat): nat {
    if SPACE <= c <= TILDE then (if c == DQUOTE || c == BACKSLASH then 2 else 1)
    else if c == NL then nlLen
    else if EscapeLetter(c) != NUL then 2
    else 4
  }

  /** What string_size computes. */
  function SizeOf(text: seq<Byte>, nlLen: nat): nat {
    if text == [] then 3 else Size1(text[0], nlLen) + SizeOf(text[1..], nlLen)
  }

  /** string_size */
  method StringSize(text: seq<Byte>, nlLen: nat) returns (size: nat)
    requires NulFree(text)
    ensures size == SizeOf(text, nlLen)
  {
    size := 3;
    var scan := 0;
    while At(text, scan) != NUL
      invariant scan <= |text|
      invariant size + SizeOf(text[scan..], nlLen) == SizeOf(text, nlLen) + 3
      decreases |text| - scan
    {
      var ch := text[scan];
      size := size + Size1(ch, nlLen);
      scan := scan + 1;
    }
    assert text[scan..] == [];
  }

  /** A newline that is followed by another one or by the end takes two bytes, whatever
      the splice is. */
  ghost predicate SizeEnough(text: seq<Byte>, nlLen: nat) {
    nlLen >= 2 || forall i :: 0 <= i < |text| && text[i] == NL ==> At(text, i + 1) != NL && At(text, i + 1) != NUL
  }

  /** The bytes lost to such newlines. */
  function Excess(text: seq<Byte>, nlLen: nat): int {
    if text == [] then 0
    else (if text[0] == NL && (At(text, 1) == NL || At(text, 1) == NUL) then 2 - nlLen else 0) + Excess(text[1..], nlLen)
  }

  lemma {:induction false} SizeExact(text: seq<Byte>, nl: seq<Byte>)
    requires NulFree(text)
    ensures |QuotedBody(text, nl)| + 3 == SizeOf(text, |nl|) + Excess(text, |nl|)
  {
    if text != [] {
      SizeExact(text[1..], nl);
    }
  }

  lemma {:induction false} ExcessSign(text: seq<Byte>, nlLen: nat)
    ensures nlLen >= 2 ==> Excess(text, nlLen) <= 0
    ensures nlLen < 2 ==> Excess(text, nlLen) >= 0
    ensures nlLen < 2 ==> (Excess(text, nlLen) == 0 <==> SizeEnough(text, nlLen))
  {
    if text != [] {
      ExcessSign(text[1..], nlLen);
      assert forall i :: 0 <= i ==> At(text[1..], i) == At(text, i + 1);
      if nlLen < 2 && SizeEnough(text[1..], nlLen) {
        assert forall i :: 1 <= i < |text| ==> text[i] == text[1..][i - 1];
      }
      if nlLen < 2 && SizeEnough(text, nlLen) {
        assert forall i :: 0 <= i < |text| - 1 ==> text[1..][i] == text[i + 1];
      }
    }
  }

  /** The computed size is enough for the quoted text and its terminator if and only if
      the splice has two bytes or no newline meets another one or the end. */
  lemma SizeFits(text: seq<Byte>, nl: seq<Byte>)
    requires NulFree(text)
    ensures |Quoted(text, nl)| + 1 <= SizeOf(text, |nl|) <==> SizeEnough(text, |nl|)
  {
    SizeExact(text, nl);
    ExcessSign(text, |nl|);
  }

  /** With a splice of one byte, a lone newline needs one byte more than is computed. */
  lemma SizeTooSmall()
    ensures |Quoted([NL], [NL])| + 1 > SizeOf([NL], 1)
  {
    SizeFits([NL], [NL]);
    assert At([NL], 1) == NUL;
  }

  /** A quoted text ends at its terminator and not before. */
  lemma QuotedNulFree(text: seq<Byte>, nl: seq<Byte>)
    requires NulFree(text) && NulFree(nl)
    ensures NulFree(Quoted(text, nl))
  {
    BodyNulFree(text, nl);
  }

  lemma {:induction false} BodyNulFree(text: seq<Byte>, nl: seq<Byte>)
    requires NulFree(text) && NulFree(nl)
    ensures NulFree(QuotedBody(text, nl))
  {
    if text != [] {
      BodyNulFree(text[1..], nl);
      assert NulFree(Quoted1(text[0], At(text, 1), nl));
    }
  }

  /** `out` bytes are written, and they lack only the quoted form of the text from `scan` on. */
  ghost predicate Writing(text: seq<Byte>, nl: seq<Byte>, done: seq<Byte>, scan: nat, whole: seq<Byte>) {
    scan <= |text| && done + QuotedBody(text[scan..], nl) == whole
  }

  lemma WriteStep(text: seq<Byte>, nl: seq<Byte>, done: seq<Byte>, scan: nat, whole: seq<Byte>)
    requires Writing(text, nl, done, scan, whole) && scan < |text|
    ensures var bytes := Quoted1(text[scan], At(text, scan + 1), nl);
      |done| + |bytes| <= |whole| && Writing(text, nl, done + bytes, scan + 1, whole)
  {
    assert text[scan..][1..] == text[scan + 1..];
    assert At(text[scan..], 1) == At(text, scan + 1);
    var bytes := Quoted1(text[scan], At(text, scan + 1), nl);
    Shift(done, bytes, QuotedBody(text[scan + 1..], nl));
  }

  /** optionQuoteString: the text is written into a buffer of exactly the computed size,
      which is enough whenever SizeEnough holds. */
  method QuoteString(text: seq<Byte>, nl: seq<Byte>) returns (res: array<Byte>, len: nat)
    requires NulFree(text) && NulFree(nl)
    requires SizeEnough(text, |nl|)
    ensures fresh(res) && res.Length == SizeOf(text, |nl|) && len < res.Length
    ensures res[..len] == Quoted(text, nl) && res[len] == NUL
  {
    var size := StringSize(text, |nl|);
    SizeFits(text, nl);
    res := new Byte[size];
    ghost var whole := [DQUOTE] + QuotedBody(text, nl);
    var out := Emit(res, 0, [DQUOTE]);
    var scan: nat := 0;
    assert text[scan..] == text;
    while At(text, scan) != NUL
      invariant 0 <= out <= res.Length && 0 <= scan <= |text|
      invariant Writing(text, nl, res[..out], scan, whole)
      decreases |text| - scan
    {
      if text[scan] == NL {
        out, scan := QuoteNewlines(text, nl, res, out, scan, whole);
      } else {
        WriteStep(text, nl, res[..out], scan, whole);
        out := QuotePlain(text[scan], res, out);
        scan := scan + 1;
      }
    }
    assert text[scan..] == [];
    len := Emit(res, out, [DQUOTE]);
    res[len] := NUL;
  }

  /** One character other than a newline. */
  method QuotePlain(ch: Byte, res: array<Byte>, from: nat) returns (out: nat)
    requires ch != NL
    requires from + |Quoted1(ch, NUL, [])| <= res.Length
    modifies res
    ensures out <= res.Length
    ensures forall next, nl :: res[..out] == old(res[..from]) + Quoted1(ch, next, nl)
  {
    if SPACE <= ch <= TILDE {
      out := from;
      if ch == DQUOTE || ch == BACKSLASH {
        out := Emit(res, out, [BACKSLASH]);
      }
      out := Emit(res, out, [ch]);
    } else if EscapeLetter(ch) != NUL {
      out := Emit(res, from, [BACKSLASH, EscapeLetter(ch)]);
    } else {
      out := Emit(res, from, Octal(ch));
    }
  }

  /** A run of newlines: all but the last are escaped; the last one ends the line with the
      splice, unless nothing follows it. */
  method QuoteNewlines(text: seq<Byte>, nl: seq<Byte>, res: array<Byte>, from: nat, at: nat, ghost whole: seq<Byte>)
    returns (out: nat, scan: nat)
    requires NulFree(text) && at < |text| && text[at] == NL
    requires from <= |whole| <= res.Length && Writing(text, nl, res[..from], at, whole)
    modifies res
    ensures at < scan <= |text|
    ensures out <= res.Length && Writing(text, nl, res[..out], scan, whole)
  {
    out, scan := from, at + 1;
    while At(text, scan) == NL
      invariant at < scan <= |text| && text[scan - 1] == NL
      invariant out <= res.Length && Writing(text, nl, res[..out], scan - 1, whole)
      decreases |text| - scan
    {
      WriteStep(text, nl, res[..out], scan - 1, whole);
      out := Emit(res, out, [BACKSLASH, 110]);
      scan := scan + 1;
    }
    WriteStep(text, nl, res[..out], scan - 1, whole);
    if At(text, scan) != NUL {
      out := Emit(res, out, nl);
    } else {
      out := Emit(res, out, [BACKSLASH, 110]);
    }
  }
}
