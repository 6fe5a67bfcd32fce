/** Bytes and NUL-terminated text as `libopts` sees them. */
module CText {
  type Byte = x: int | 0 <= x < 256

  const NUL: Byte := 0
  const BEL: Byte := 7
  const BS: Byte := 8
  const HT: Byte := 9
  const NL: Byte := 10
  const VT: Byte := 11
  const FF: Byte := 12
  const CR: Byte := 13
  const SPACE: Byte := 32
  const DQUOTE: Byte := 34
  const HASH: Byte := 35
  const AMP: Byte := 38
  const SQUOTE: Byte := 39
  const STAR: Byte := 42
  const PLUS: Byte := 43
  const COMMA: Byte := 44
  const MINUS: Byte := 45
  const SLASH: Byte := 47
  const SEMI: Byte := 59
  const LT: Byte := 60
  const EQUALS: Byte := 61
  const GT: Byte := 62
  const BACKSLASH: Byte := 92
  const CARET: Byte := 94
  const TILDE: Byte := 126

  /** Text without an embedded NUL. */
  ghost predicate NulFree(s: seq<Byte>) {
    forall i :: 0 <= i < |s| ==> s[i] != NUL
  }

  /** What reading past the text finds: its terminator. */
  function At(s: seq<Byte>, i: nat): Byte {
    if i < |s| then s[i] else NUL
  }

  predicate IsWhite(c: Byte) {
    BS <= c <= CR || c == SPACE
  }

  function SkipWhite(s: seq<Byte>): (r: seq<Byte>)
    ensures |r| <= |s| && !IsWhite(At(r, 0))
  {
    if s != [] && IsWhite(s[0]) then SkipWhite(s[1..]) else s
  }

  /** White space is passed over, and nothing else is. */
  lemma {:induction false} WhiteSkipped(white: seq<Byte>, rest: seq<Byte>)
    requires forall i :: 0 <= i < |white| ==> 8 <= white[i] <= 13 || white[i] == 32
    requires rest == [] || (rest[0] != 32 && !(8 <= rest[0] <= 13))
    ensures SkipWhite(white + rest) == rest
  {
    if white == [] {
      assert white + rest == rest;
    } else {
      assert (white + rest)[1..] == white[1..] + rest;
      WhiteSkipped(white[1..], rest);
    }
  }

  predicate IsOctal(c: Byte) {
    48 <= c <= 55
  }

  predicate IsDecimal(c: Byte) {
    48 <= c <= 57
  }

  predicate IsHex(c: Byte) {
    IsDecimal(c) || 65 <= c <= 70 || 97 <= c <= 102
  }

  function HexValue(c: Byte): nat
    requires IsHex(c)
  {
    if c <= 57 then c - 48 else if c <= 70 then c - 55 else c - 87
  }

  predicate IsLetter(c: Byte) {
    65 <= c <= 90 || 97 <= c <= 122
  }

  /** The value of a numeral in the given base, as strtoul reads it. */
  function Numeral(digits: seq<Byte>, base: nat): nat {
    if digits == [] then 0
    else
      var d := digits[|digits| - 1];
      Numeral(digits[..|digits| - 1], base) * base + if IsHex(d) then HexValue(d) else 0
  }

  /** Appends `bytes` at `at`. */
  method Emit(out: array<Byte>, at: nat, bytes: seq<Byte>) returns (next: nat)
    requires at + |bytes| <= out.Length
    modifies out
    ensures next == at + |bytes|
    ensures out[..next] == old(out[..at]) + bytes
  {
    forall k | 0 <= k < |bytes| {
      out[at + k] := bytes[k];
    }
    next := at + |bytes|;
  }

  lemma Shift(pre: seq<Byte>, head: seq<Byte>, tail: seq<Byte>)
    ensures pre + head + tail == pre + (head + tail)
  {
  }
}
