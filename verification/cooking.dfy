/** Cooking of quoted strings (`libopts/cook.c`): escapes are resolved and adjacent strings
    joined in the buffer that holds them. */
module Cooking {
  import opened CText
  import Quoting

  // ---------- escape characters ----------

  /** The outcome for the text behind a backslash: the character and how much was used. */
  datatype Escape = NoEscape | Escape(ch: Byte, used: nat)

  function LetterEscape(c: Byte): Byte {
    if c == 97 then BEL else if c == 98 then BS else if c == 102 then FF else if c == 110 then NL
    else if c == 114 then CR else if c == 116 then HT else if c == 118 then VT else c
  }

  function HexEscape(s: seq<Byte>): (e: Escape)
    requires IsHex(At(s, 1))
    ensures e.Escape? && e.used <= |s|
  {
    if IsHex(At(s, 2)) then Escape(16 * HexValue(s[1]) + HexValue(s[2]), 3) else Escape(HexValue(s[1]), 2)
  }

  function Capped(v: nat): Byte {
    if v > 255 then 255 else v
  }

  function OctalEscape(s: seq<Byte>): (e: Escape)
    requires IsOctal(At(s, 0))
    ensures e.Escape? && 1 <= e.used <= |s|
  {
    var a := (s[0] as int) - 48;
    if !IsOctal(At(s, 1)) then Escape(Capped(a), 1)
    else
      var b := 8 * a + (s[1] as int) - 48;
      if !IsOctal(At(s, 2)) then Escape(Capped(b), 2)
      else Escape(Capped(8 * b + (s[2] as int) - 48), 3)
  }

  /** What the text behind a backslash stands for, `nl` being the meaning of a line end. */
  function EscapeOf(s: seq<Byte>, nl: Byte): (e: Escape)
    ensures e.Escape? ==> 1 <= e.used <= |s|
  {
    var c := At(s, 0);
    if c == NUL then NoEscape
    else if c == CR then (if At(s, 1) == NL then Escape(nl, 2) else Escape(CR, 1))
    else if c == NL then Escape(nl, 1)
    else if (c == 120 || c == 88) && IsHex(At(s, 1)) then HexEscape(s)
    else if IsOctal(c) then OctalEscape(s)
    else Escape(LetterEscape(c), 1)
  }

  /** ao_string_cook_escape_char on the text from `from` up to its terminator at `n`. */
  method CookEscape(a: array<Byte>, n: nat, from: nat, nl: Byte) returns (ch: Byte, used: nat)
    requires from <= n < a.Length && a[n] == NUL && NulFree(a[from..n])
    ensures used == 0 <==> EscapeOf(a[from..n], nl).NoEscape?
    ensures used != 0 ==> EscapeOf(a[from..n], nl) == Escape(ch, used)
  {
    ghost var s := a[from..n];
    assert forall k :: 0 <= k && from + k <= n ==> At(s, k) == a[from + k];
    ch, used := a[from], 1;
    if ch == NUL {
      return ch, 0;
    } else if ch == CR {
      if a[from + 1] == NL {
        return nl, 2;
      }
    } else if ch == NL {
      return nl, 1;
    } else if ch == 120 || ch == 88 {
      if IsHex(a[from + 1]) {
        ch, used := CookHex(a, n, from);
      }
    } else if IsOctal(ch) {
      ch, used := CookOctal(a, n, from);
    } else {
      ch := LetterEscape(ch);
    }
  }

  method CookHex(a: array<Byte>, n: nat, from: nat) returns (ch: Byte, used: nat)
    requires from + 1 < n < a.Length && a[n] == NUL && IsHex(a[from + 1])
    ensures HexEscape(a[from..n]) == Escape(ch, used)
  {
    ghost var s := a[from..n];
    assert forall k :: 0 <= k && from + k <= n ==> At(s, k) == a[from + k];
    var z := [a[from + 1]];
    var ct := 1;
    while ct < 2 && IsHex(a[from + 1 + ct])
      invariant ct == |z| && 1 <= ct <= 2 && from + 1 + ct <= n
      invariant z == a[from + 1..from + 1 + ct]
      invariant ct == 2 ==> IsHex(a[from + 2])
    {
      z := z + [a[from + 1 + ct]];
      ct := ct + 1;
    }
    assert Numeral(z[..1], 16) == HexValue(z[0]) by { assert z[..1][..0] == []; }
    assert ct == 1 ==> z == z[..1];
    ch, used := Numeral(z, 16) % 256, ct + 1;
  }

  method CookOctal(a: array<Byte>, n: nat, from: nat) returns (ch: Byte, used: nat)
    requires from < n < a.Length && a[n] == NUL && IsOctal(a[from])
    ensures OctalEscape(a[from..n]) == Escape(ch, used)
  {
    ghost var s := a[from..n];
    assert forall k :: 0 <= k && from + k <= n ==> At(s, k) == a[from + k];
    var z := [a[from]];
    var ct := 1;
    while ct < 3 && IsOctal(a[from + ct])
      invariant ct == |z| && 1 <= ct <= 3 && from + ct <= n
      invariant forall k :: 0 <= k < ct ==> z[k] == a[from + k] && IsOctal(z[k])
    {
      z := z + [a[from + ct]];
      ct := ct + 1;
    }
    OctalNumeral(z);
    ch, used := Capped(Numeral(z, 8)), ct;
  }

  lemma OctalNumeral(z: seq<Byte>)
    requires 1 <= |z| <= 3
    requires forall k :: 0 <= k < |z| ==> IsOctal(z[k])
    ensures |z| == 1 ==> Numeral(z, 8) == z[0] as int - 48
    ensures |z| == 2 ==> Numeral(z, 8) == 8 * (z[0] as int - 48) + z[1] as int - 48
    ensures |z| == 3 ==> Numeral(z, 8) == 8 * (8 * (z[0] as int - 48) + z[1] as int - 48) + z[2] as int - 48
  {
    if |z| > 1 {
      OctalNumeral(z[..|z| - 1]);
    } else {
      assert z[..0] == [];
    }
  }

  // ---------- what follows a closing quote ----------

  /** The line from its end on; nothing if it has no end. */
  function LineEnd(s: seq<Byte>): (r: seq<Byte>)
    ensures |r| <= |s| && (r != [] ==> r[0] == NL)
  {
    if s == [] || s[0] == NL then s else LineEnd(s[1..])
  }

  datatype Comment = Open | Closed(rest: seq<Byte>, lines: nat)

  /** The text behind the end of a block comment, and the lines the comment spans. */
  function CommentEnd(s: seq<Byte>): (r: Comment)
    ensures r.Closed? ==> |r.rest| < |s|
  {
    if |s| < 2 then Open
    else if s[0] == STAR && s[1] == SLASH then Closed(s[2..], 0)
    else match CommentEnd(s[1..])
      case Open => Open
      case Closed(rest, lines) => Closed(rest, lines + if s[0] == NL then 1 else 0)
  }

  /** Behind a closing quote: another string begins, the text ends, or it is malformed. */
  datatype Sequel = Malformed | Finished(rest: seq<Byte>, lines: nat) | Another(rest: seq<Byte>, quote: Byte, lines: nat)

  function MoreLines(n: nat, q: Sequel): Sequel {
    match q
    case Malformed => Malformed
    case Finished(rest, lines) => Finished(rest, n + lines)
    case Another(rest, quote, lines) => Another(rest, quote, n + lines)
  }

  function SequelOf(s: seq<Byte>): (r: Sequel)
    ensures r.Another? ==> |r.rest| < |s| && (r.quote == DQUOTE || r.quote == SQUOTE)
    decreases |s|
  {
    var c := At(s, 0);
    if IsWhite(c) then MoreLines(if c == NL then 1 else 0, SequelOf(s[1..]))
    else if c == DQUOTE || c == SQUOTE then Another(s[1..], c, 0)
    else if c == SLASH then
      if At(s, 1) == SLASH then
        var line := LineEnd(s);
        if line == [] then Malformed else MoreLines(1, SequelOf(line[1..]))
      else if At(s, 1) == STAR then
        match CommentEnd(s[2..])
        case Open => Malformed
        case Closed(rest, lines) => MoreLines(lines, SequelOf(rest))
      else Malformed
    else Finished(s, 0)
  }

  // ---------- whole strings ----------

  /** The joined and unescaped text, what follows it, and the line ends passed over. */
  datatype Cooked = Bad | Good(text: seq<Byte>, rest: seq<Byte>, lines: nat)

  function Prefixed(text: seq<Byte>, lines: nat, r: Cooked): Cooked {
    match r
    case Bad => Bad
    case Good(t, rest, n) => Good(text + t, rest, lines + n)
  }

  /** What the first character inside a string does: it is malformed, it closes the string,
      or so many bytes stand for some text. */
  datatype Step = Halt | Close | Take(text: seq<Byte>, used: nat, lines: nat)

  function StepOf(s: seq<Byte>, q: Byte): (r: Step)
    requires s != []
    ensures r.Take? ==> 1 <= r.used <= |s|
  {
    if s[0] == q then Close
    else if s[0] != BACKSLASH then Take([s[0]], 1, if s[0] == NL then 1 else 0)
    else if At(s, 1) == NL then Take([], 2, 1)
    else if q != SQUOTE then
      match EscapeOf(s[1..], NL)
      case NoEscape => Halt
      case Escape(ch, used) => Take([ch], 1 + used, 0)
    else if At(s, 1) == BACKSLASH || At(s, 1) == SQUOTE || At(s, 1) == HASH then Take([s[1]], 2, 0)
    else Take([BACKSLASH], 1, 0)
  }

  /** The meaning of the text inside a string quoted with `q`. */
  function Cook(s: seq<Byte>, q: Byte): (r: Cooked)
    decreases |s|
  {
    if s == [] then Bad
    else
      match StepOf(s, q)
      case Halt => Bad
      case Take(text, used, lines) => Prefixed(text, lines, Cook(s[used..], q))
      case Close =>
        match SequelOf(s[1..])
        case Malformed => Bad
        case Finished(rest, lines) => Good([], rest, lines)
        case Another(rest, quote, lines) => Prefixed([], lines, Cook(rest, quote))
  }

  // ---------- the round trip ----------

  /** The line ends that the splices of a quoted text hold. */
  function Splices(text: seq<Byte>): nat {
    if text == [] then 0
    else Splice1(text[0], At(text, 1)) + Splices(text[1..])
  }

  /** The result behind a closing quote. */
  function AfterQuote(s: seq<Byte>): Cooked {
    match SequelOf(s)
    case Malformed => Bad
    case Finished(rest, lines) => Good([], rest, lines)
    case Another(rest, quote, lines) => Prefixed([], lines, Cook(rest, quote))
  }

  /** Inside quotes `q` the text is cooked to `r`. */
  ghost predicate Gives(s: seq<Byte>, q: Byte, r: Cooked) {
    forall p :: p == q ==> Cook(s, p) == r
  }

  /** Behind a closing quote the text leads to `r`. */
  ghost predicate Continued(tail: seq<Byte>, r: Cooked) {
    forall t :: t == tail ==> AfterQuote(t) == r
  }

  lemma PrefixedTwice(a: seq<Byte>, n: nat, b: seq<Byte>, m: nat, r: Cooked)
    ensures Prefixed(a, n, Prefixed(b, m, r)) == Prefixed(a + b, n + m, r)
  {
    if r.Good? {
      assert a + (b + r.text) == a + b + r.text;
    }
  }

  lemma PrefixedNone(r: Cooked)
    ensures Prefixed([], 0, r) == r
  {
    if r.Good? {
      assert [] + r.text == r.text;
    }
  }

  lemma GivesTake(s: seq<Byte>, q: Byte, text: seq<Byte>, used: nat, lines: nat, tail: seq<Byte>, r: Cooked)
    requires s != [] && StepOf(s, q) == Take(text, used, lines) && s[used..] == tail && Gives(tail, q, r)
    ensures Gives(s, q, Prefixed(text, lines, r))
  {
    assert Cook(tail, q) == r;
  }

  lemma GivesClose(s: seq<Byte>, q: Byte, tail: seq<Byte>, r: Cooked)
    requires s != [] && s[0] == q && s[1..] == tail && Continued(tail, r)
    ensures Gives(s, q, r)
  {
    assert AfterQuote(tail) == r;
    assert StepOf(s, q) == Close;
  }

  lemma CookEscaped(head: seq<Byte>, tail: seq<Byte>, ch: Byte, r: Cooked)
    requires |head| >= 2 && head[0] == BACKSLASH && head[1] != NL
    requires EscapeOf(head[1..] + tail, NL) == Escape(ch, |head| - 1) && Gives(tail, DQUOTE, r)
    ensures Gives(head + tail, DQUOTE, Prefixed([ch], 0, r))
  {
    var s := head + tail;
    assert s[1..] == head[1..] + tail;
    assert s[|head|..] == tail;
    GivesTake(s, DQUOTE, [ch], |head|, 0, tail, r);
  }

  lemma CookSplice(tail: seq<Byte>, r: Cooked)
    requires Gives(tail, DQUOTE, r)
    ensures Gives(Quoting.SPLICE + tail, DQUOTE, Prefixed([NL], 1, r))
  {
    var line := [BACKSLASH, NL] + tail;
    assert line[2..] == tail;
    GivesTake(line, DQUOTE, [], 2, 1, tail, r);
    NewlineEscape(line);
    CookEscaped([BACKSLASH, 110], line, NL, Prefixed([], 1, r));
    assert Quoting.SPLICE + tail == [BACKSLASH, 110] + line;
    PrefixedTwice([NL], 0, [], 1, r);
  }

  lemma NewlineEscape(rest: seq<Byte>)
    ensures EscapeOf([BACKSLASH, 110][1..] + rest, NL) == Escape(NL, 1)
  {
    assert ([BACKSLASH, 110][1..] + rest)[0] == 110;
  }

  /** The line ends in the quoted form of one character. */
  function Splice1(c: Byte, next: Byte): nat {
    if c == NL && next != NL && next != NUL then 1 else 0
  }

  /** Cooking the quoted form of one character gives the character back. */
  lemma CookOne(c: Byte, next: Byte, tail: seq<Byte>, r: Cooked)
    requires c != NUL && Gives(tail, DQUOTE, r)
    ensures Gives(Quoting.Quoted1(c, next, Quoting.SPLICE) + tail, DQUOTE, Prefixed([c], Splice1(c, next), r))
  {
    var one := Quoting.Quoted1(c, next, Quoting.SPLICE);
    if Splice1(c, next) == 1 {
      CookSplice(tail, r);
    } else if one[0] == BACKSLASH {
      EscapeOne(c, next, tail);
      CookEscaped(one, tail, c, r);
    } else {
      assert (one + tail)[1..] == tail;
      GivesTake(one + tail, DQUOTE, [c], 1, 0, tail, r);
    }
  }

  lemma OctalTrip(c: Byte, tail: seq<Byte>)
    ensures EscapeOf(Quoting.Octal(c)[1..] + tail, NL) == Escape(c, 3)
  {
    var s := Quoting.Octal(c)[1..] + tail;
    var a, b, d := c / 64, c / 8 % 8, c % 8;
    assert s[0] == 48 + a && s[1] == 48 + b && s[2] == 48 + d;
    assert 0 <= a < 4 && 0 <= b < 8 && 0 <= d < 8 && 8 * (8 * (a as int) + b) + d == c;
    assert OctalEscape(s) == Escape(c, 3);
  }

  lemma EscapeOne(c: Byte, next: Byte, tail: seq<Byte>)
    requires c != NUL && Splice1(c, next) == 0
    requires Quoting.Quoted1(c, next, Quoting.SPLICE)[0] == BACKSLASH
    ensures var one := Quoting.Quoted1(c, next, Quoting.SPLICE);
      |one| >= 2 && one[1] != NL && EscapeOf(one[1..] + tail, NL) == Escape(c, |one| - 1)
  {
    var one := Quoting.Quoted1(c, next, Quoting.SPLICE);
    if |one| == 4 {
      OctalTrip(c, tail);
    } else {
      assert (one[1..] + tail)[0] == one[1];
    }
  }

  /** Cooking the quoted form of a text gives the text, whatever comes behind it. */
  lemma {:induction false} CookBody(text: seq<Byte>, close: seq<Byte>, r: Cooked)
    requires NulFree(text) && Gives(close, DQUOTE, r)
    ensures Gives(Quoting.QuotedBody(text, Quoting.SPLICE) + close, DQUOTE, Prefixed(text, Splices(text), r))
  {
    if text == [] {
      PrefixedNone(r);
      assert Quoting.QuotedBody(text, Quoting.SPLICE) + close == close;
    } else {
      var one := Quoting.Quoted1(text[0], At(text, 1), Quoting.SPLICE);
      var body := Quoting.QuotedBody(text[1..], Quoting.SPLICE);
      CookBody(text[1..], close, r);
      CookOne(text[0], At(text, 1), body + close, Prefixed(text[1..], Splices(text[1..]), r));
      Shift(one, body, close);
      PrefixedTwice([text[0]], Splice1(text[0], At(text, 1)), text[1..], Splices(text[1..]), r);
      assert [text[0]] + text[1..] == text;
    }
  }

  lemma QuotedTail(text: seq<Byte>, tail: seq<Byte>)
    ensures var s := Quoting.Quoted(text, Quoting.SPLICE) + tail;
      s[0] == DQUOTE && s[1..] == Quoting.QuotedBody(text, Quoting.SPLICE) + ([DQUOTE] + tail)
  {
  }

  lemma NothingBehind(q: Byte)
    ensures Continued([], Good([], [], 0)) && Gives([q], q, Good([], [], 0))
  {
    assert SequelOf([]) == Finished([], 0);
    assert [q][1..] == [];
    GivesClose([q], q, [], Good([], [], 0));
  }

  /** Text that is quoted with LINE_SPLICE and then cooked is the original text, whatever
      its bytes are, and nothing is left over. */
  lemma QuoteCook(text: seq<Byte>)
    requires NulFree(text)
    ensures var quoted := Quoting.Quoted(text, Quoting.SPLICE);
      quoted[0] == DQUOTE && Cook(quoted[1..], quoted[0]) == Good(text, [], Splices(text))
  {
    QuoteGives(text);
  }

  lemma QuoteGives(text: seq<Byte>)
    requires NulFree(text)
    ensures var quoted := Quoting.Quoted(text, Quoting.SPLICE);
      quoted[0] == DQUOTE && Gives(quoted[1..], DQUOTE, Good(text, [], Splices(text)))
  {
    var quoted := Quoting.Quoted(text, Quoting.SPLICE);
    NothingBehind(DQUOTE);
    CookBody(text, [DQUOTE], Good([], [], 0));
    QuotedTail(text, []);
    assert quoted + [] == quoted && text + [] == text && [DQUOTE] + [] == [DQUOTE];
  }

  // ---------- every way to write a byte ----------

  /** A hexadecimal digit as it is written, with a large or a small letter. */
  function HexChar(n: nat, large: bool): Byte
    requires n < 16
  {
    if n < 10 then 48 + n else if large then 65 + (n - 10) else 97 + (n - 10)
  }

  /** The text does not go on with a hexadecimal, or an octal, digit. */
  ghost predicate NoHexNext(tail: seq<Byte>) {
    tail != [] ==> forall n: nat, large: bool :: n < 16 ==> tail[0] != HexChar(n, large)
  }

  predicate NoOctalNext(tail: seq<Byte>) {
    tail != [] ==> tail[0] < 48 || tail[0] > 55
  }

  /** The escape with two hexadecimal digits is read as its byte, whatever follows. */
  lemma HexTrip(c: Byte, largeX: bool, large1: bool, large2: bool, tail: seq<Byte>)
    ensures EscapeOf([if largeX then 88 else 120, HexChar(c / 16, large1), HexChar(c % 16, large2)] + tail, NL) == Escape(c, 3)
  {
    var s := [if largeX then 88 else 120, HexChar(c / 16, large1), HexChar(c % 16, large2)] + tail;
    assert s[1] == HexChar(c / 16, large1) && s[2] == HexChar(c % 16, large2);
    assert 16 * (c / 16) + c % 16 == c;
  }

  lemma HexNext(tail: seq<Byte>)
    requires NoHexNext(tail)
    ensures !IsHex(At(tail, 0))
  {
    if tail != [] && IsHex(tail[0]) {
      HexWritten(tail[0]);
    }
  }

  lemma HexWritten(c: Byte)
    requires IsHex(c)
    ensures c == HexChar(HexValue(c), 65 <= c <= 70)
  {
  }

  /** And so is one with a single digit, if no other digit follows. */
  lemma HexShort(d: nat, largeX: bool, large: bool, tail: seq<Byte>)
    requires d < 16 && NoHexNext(tail)
    ensures EscapeOf([if largeX then 88 else 120, HexChar(d, large)] + tail, NL) == Escape(d, 2)
  {
    var s := [if largeX then 88 else 120, HexChar(d, large)] + tail;
    HexNext(tail);
    assert s[1] == HexChar(d, large) && At(s, 2) == At(tail, 0);
  }

  /** Without a digit the letter stands for itself. */
  lemma HexNone(largeX: bool, tail: seq<Byte>)
    requires NoHexNext(tail)
    ensures EscapeOf([if largeX then 88 else 120] + tail, NL) == Escape(if largeX then 88 else 120, 1)
  {
    var s := [if largeX then 88 else 120] + tail;
    HexNext(tail);
    assert s[0] == (if largeX then 88 else 120) && At(s, 1) == At(tail, 0);
  }

  /** Octal escapes of one, two and three digits; what exceeds a byte is the largest one. */
  lemma OctalDigits(a: nat, b: nat, d: nat, tail: seq<Byte>)
    requires a < 8 && b < 8 && d < 8
    ensures NoOctalNext(tail) ==> EscapeOf([48 + a] + tail, NL) == Escape(a, 1)
    ensures NoOctalNext(tail) ==> EscapeOf([48 + a, 48 + b] + tail, NL) == Escape(8 * a + b, 2)
    ensures EscapeOf([48 + a, 48 + b, 48 + d] + tail, NL)
         == Escape(if 64 * a + 8 * b + d < 256 then 64 * a + 8 * b + d else 255, 3)
  {
    var s, t, u := [48 + a] + tail, [48 + a, 48 + b] + tail, [48 + a, 48 + b, 48 + d] + tail;
    assert s[0] == 48 + a && At(s, 1) == At(tail, 0);
    assert t[0] == 48 + a && t[1] == 48 + b && At(t, 2) == At(tail, 0);
    assert u[0] == 48 + a && u[1] == 48 + b && u[2] == 48 + d;
  }

  /** The escapes of the C language that are letters. */
  lemma LetterEscapes(tail: seq<Byte>)
    ensures EscapeOf([97] + tail, NL) == Escape(7, 1) && EscapeOf([98] + tail, NL) == Escape(8, 1)
    ensures EscapeOf([116] + tail, NL) == Escape(9, 1) && EscapeOf([110] + tail, NL) == Escape(10, 1)
    ensures EscapeOf([118] + tail, NL) == Escape(11, 1) && EscapeOf([102] + tail, NL) == Escape(12, 1)
    ensures EscapeOf([114] + tail, NL) == Escape(13, 1)
  {
    assert ([97] + tail)[0] == 97 && ([98] + tail)[0] == 98 && ([116] + tail)[0] == 116 && ([110] + tail)[0] == 110;
    assert ([118] + tail)[0] == 118 && ([102] + tail)[0] == 102 && ([114] + tail)[0] == 114;
  }

  /** Any other byte stands for itself. */
  lemma ProtectedEscape(c: Byte, tail: seq<Byte>)
    requires c !in {0, 10, 13, 97, 98, 102, 110, 114, 116, 118, 88, 120} && !(48 <= c <= 55)
    ensures EscapeOf([c] + tail, NL) == Escape(c, 1)
  {
  }

  /** A line end is what the caller wants, a carriage return before it included; a carriage
      return alone stands for itself, and with nothing behind it the backslash is malformed. */
  lemma LineEscapes(tail: seq<Byte>, nl: Byte)
    ensures EscapeOf([10] + tail, nl) == Escape(nl, 1) && EscapeOf([13, 10] + tail, nl) == Escape(nl, 2)
    ensures At(tail, 0) != 10 ==> EscapeOf([13] + tail, nl) == Escape(13, 1)
    ensures EscapeOf([], nl) == NoEscape
  {
    assert At([13] + tail, 1) == At(tail, 0) && At([13, 10] + tail, 1) == 10;
  }

  /** How a byte is written inside double quotes: as it is, or with an escape. */
  datatype Spelling = AsIs | InHex(largeX: bool, large1: bool, large2: bool) | InOctal

  predicate Spellable(c: Byte, w: Spelling) {
    w.AsIs? ==> c != NUL && c != DQUOTE && c != BACKSLASH
  }

  function Spelled(c: Byte, w: Spelling): seq<Byte> {
    match w
    case AsIs => [c]
    case InHex(x, a, b) => [BACKSLASH, if x then 88 else 120, HexChar(c / 16, a), HexChar(c % 16, b)]
    case InOctal => [BACKSLASH, 48 + c / 64, 48 + c / 8 % 8, 48 + c % 8]
  }

  function SpelledBody(text: seq<Byte>, how: seq<Spelling>): seq<Byte>
    requires |how| == |text|
  {
    if text == [] then [] else Spelled(text[0], how[0]) + SpelledBody(text[1..], how[1..])
  }

  /** The line ends that are written as they are. */
  function SpelledLines(text: seq<Byte>, how: seq<Spelling>): nat
    requires |how| == |text|
  {
    if text == [] then 0 else (if text[0] == NL && how[0].AsIs? then 1 else 0) + SpelledLines(text[1..], how[1..])
  }

  ghost predicate AllSpellable(text: seq<Byte>, how: seq<Spelling>) {
    |how| == |text| && forall i :: 0 <= i < |text| ==> Spellable(text[i], how[i])
  }

  lemma OctalSpelled(c: Byte, tail: seq<Byte>)
    ensures EscapeOf([48 + c / 64, 48 + c / 8 % 8, 48 + c % 8] + tail, NL) == Escape(c, 3)
  {
    OctalDigits(c / 64, c / 8 % 8, c % 8, tail);
    assert 64 * (c / 64) + 8 * (c / 8 % 8) + c % 8 == c;
  }

  lemma SpelledOne(c: Byte, w: Spelling, tail: seq<Byte>, r: Cooked)
    requires Spellable(c, w) && Gives(tail, DQUOTE, r)
    ensures Gives(Spelled(c, w) + tail, DQUOTE, Prefixed([c], if c == NL && w.AsIs? then 1 else 0, r))
  {
    var one := Spelled(c, w);
    match w {
      case AsIs =>
        assert (one + tail)[1..] == tail;
        GivesTake(one + tail, DQUOTE, [c], 1, if c == NL then 1 else 0, tail, r);
      case InHex(x, a, b) =>
        HexTrip(c, x, a, b, tail);
        assert one[1..] == [if x then 88 else 120, HexChar(c / 16, a), HexChar(c % 16, b)];
        CookEscaped(one, tail, c, r);
      case InOctal =>
        OctalSpelled(c, tail);
        assert one[1..] == [48 + c / 64, 48 + c / 8 % 8, 48 + c % 8];
        CookEscaped(one, tail, c, r);
    }
  }

  lemma {:induction false} SpelledGives(text: seq<Byte>, how: seq<Spelling>, close: seq<Byte>, r: Cooked)
    requires AllSpellable(text, how) && Gives(close, DQUOTE, r)
    ensures Gives(SpelledBody(text, how) + close, DQUOTE, Prefixed(text, SpelledLines(text, how), r))
  {
    if text == [] {
      PrefixedNone(r);
      assert SpelledBody(text, how) + close == close;
    } else {
      var body := SpelledBody(text[1..], how[1..]);
      var lines := if text[0] == NL && how[0].AsIs? then 1 else 0;
      SpelledGives(text[1..], how[1..], close, r);
      SpelledOne(text[0], how[0], body + close, Prefixed(text[1..], SpelledLines(text[1..], how[1..]), r));
      Shift(Spelled(text[0], how[0]), body, close);
      PrefixedTwice([text[0]], lines, text[1..], SpelledLines(text[1..], how[1..]), r);
      assert [text[0]] + text[1..] == text;
    }
  }

  /** A text is cooked to itself however its bytes are written: any of them in hexadecimal, with
      large or small digits, or in octal, and those that need no escape as they are. */
  lemma SpelledCook(text: seq<Byte>, how: seq<Spelling>)
    requires AllSpellable(text, how)
    ensures Cook(SpelledBody(text, how) + [DQUOTE], DQUOTE) == Good(text, [], SpelledLines(text, how))
  {
    NothingBehind(DQUOTE);
    SpelledGives(text, how, [DQUOTE], Good([], [], 0));
    assert text + [] == text;
  }

  // ---------- single quotes ----------

  /** The form of a character inside single quotes: only backslashes and single quotes are
      escaped. */
  function Single1(c: Byte): seq<Byte> {
    if c == BACKSLASH || c == SQUOTE then [BACKSLASH, c] else [c]
  }

  function SingleBody(text: seq<Byte>): seq<Byte> {
    if text == [] then [] else Single1(text[0]) + SingleBody(text[1..])
  }

  lemma SingleOne(c: Byte, tail: seq<Byte>, r: Cooked)
    requires Gives(tail, SQUOTE, r)
    ensures Gives(Single1(c) + tail, SQUOTE, Prefixed([c], if c == NL then 1 else 0, r))
  {
    var one := Single1(c);
    assert (one + tail)[|one|..] == tail;
    GivesTake(one + tail, SQUOTE, [c], |one|, if c == NL then 1 else 0, tail, r);
  }

  lemma {:induction false} SingleGives(text: seq<Byte>, close: seq<Byte>, r: Cooked)
    requires Gives(close, SQUOTE, r)
    ensures Gives(SingleBody(text) + close, SQUOTE, Prefixed(text, Newlines(text), r))
  {
    if text == [] {
      PrefixedNone(r);
      assert SingleBody(text) + close == close;
    } else {
      var body := SingleBody(text[1..]);
      SingleGives(text[1..], close, r);
      SingleOne(text[0], body + close, Prefixed(text[1..], Newlines(text[1..]), r));
      Shift(Single1(text[0]), body, close);
      PrefixedTwice([text[0]], if text[0] == NL then 1 else 0, text[1..], Newlines(text[1..]), r);
      assert [text[0]] + text[1..] == text;
    }
  }

  /** Inside single quotes a backslash before any other character, the number sign and a line
      end apart, is just a backslash. */
  lemma SinglePlain(c: Byte, tail: seq<Byte>)
    requires c != BACKSLASH && c != SQUOTE && c != HASH && c != NL && Cook([c] + tail, SQUOTE).Good?
    ensures Cook([BACKSLASH, c] + tail, SQUOTE).Good?
    ensures Cook([BACKSLASH, c] + tail, SQUOTE).text == [BACKSLASH] + Cook([c] + tail, SQUOTE).text
  {
    var s := [BACKSLASH, c] + tail;
    assert s[1..] == [c] + tail;
    assert StepOf(s, SQUOTE) == Take([BACKSLASH], 1, 0);
  }

  /** The number sign needs no backslash but may have one, and a line end behind a backslash is
      dropped with it. */
  lemma SingleHidden(tail: seq<Byte>)
    ensures Cook([BACKSLASH, HASH] + tail, SQUOTE) == Prefixed([HASH], 0, Cook(tail, SQUOTE))
    ensures Cook([BACKSLASH, NL] + tail, SQUOTE) == Prefixed([], 1, Cook(tail, SQUOTE))
  {
    var s, t := [BACKSLASH, HASH] + tail, [BACKSLASH, NL] + tail;
    assert s[2..] == tail && StepOf(s, SQUOTE) == Take([HASH], 2, 0);
    assert t[2..] == tail && StepOf(t, SQUOTE) == Take([], 2, 1);
  }

  /** Inside single quotes a backslash protects a backslash and a quote and nothing else. */
  lemma SingleCook(text: seq<Byte>)
    ensures Cook(SingleBody(text) + [SQUOTE], SQUOTE) == Good(text, [], Newlines(text))
  {
    NothingBehind(SQUOTE);
    SingleGives(text, [SQUOTE], Good([], [], 0));
    assert text + [] == text;
  }

  // ---------- strings in a row ----------

  /** A text in either kind of quotes; in double ones as it is quoted, or in any spelling. */
  datatype Str = Double(text: seq<Byte>) | Single(text: seq<Byte>) | Written(text: seq<Byte>, how: seq<Spelling>)

  function QuoteOf(str: Str): Byte {
    if str.Single? then SQUOTE else DQUOTE
  }

  /** What stands between the quotes. */
  function BodyOf(str: Str): seq<Byte>
    requires str.Written? ==> |str.how| == |str.text|
  {
    match str
    case Double(text) => Quoting.QuotedBody(text, Quoting.SPLICE)
    case Single(text) => SingleBody(text)
    case Written(text, how) => SpelledBody(text, how)
  }

  function StrText(str: Str): seq<Byte>
    requires str.Written? ==> |str.how| == |str.text|
  {
    [QuoteOf(str)] + BodyOf(str) + [QuoteOf(str)]
  }

  function StrLines(str: Str): nat
    requires str.Written? ==> |str.how| == |str.text|
  {
    match str
    case Double(text) => Splices(text)
    case Single(text) => Newlines(text)
    case Written(text, how) => SpelledLines(text, how)
  }

  ghost predicate StrOk(str: Str) {
    if str.Written? then AllSpellable(str.text, str.how) else NulFree(str.text)
  }

  /** What may stand between two strings: white space and comments. */
  datatype Piece = White(c: Byte) | LineComment(text: seq<Byte>) | BlockComment(text: seq<Byte>)

  ghost predicate GapPiece(p: Piece) {
    match p
    case White(c) => IsWhite(c)
    case LineComment(text) => NL !in text
    case BlockComment(text) => forall i: nat :: !ClosesAt(text, i)
  }

  function PieceText(p: Piece): seq<Byte> {
    match p
    case White(c) => [c]
    case LineComment(text) => [SLASH, SLASH] + text + [NL]
    case BlockComment(text) => [SLASH, STAR] + text + [STAR, SLASH]
  }

  function PieceLines(p: Piece): nat {
    match p
    case White(c) => if c == NL then 1 else 0
    case LineComment(_) => 1
    case BlockComment(text) => Newlines(text)
  }

  function GapText(gap: seq<Piece>): seq<Byte> {
    if gap == [] then [] else PieceText(gap[0]) + GapText(gap[1..])
  }

  function GapLines(gap: seq<Piece>): nat {
    if gap == [] then 0 else PieceLines(gap[0]) + GapLines(gap[1..])
  }

  lemma {:induction false} LineSkipped(text: seq<Byte>, rest: seq<Byte>)
    requires NL !in text
    ensures LineEnd(text + ([NL] + rest)) == [NL] + rest
  {
    var s := text + ([NL] + rest);
    if text == [] {
      assert s == [NL] + rest;
    } else {
      LineSkipped(text[1..], rest);
      assert s[1..] == text[1..] + ([NL] + rest);
    }
  }

  lemma BlockSkipped(text: seq<Byte>, rest: seq<Byte>)
    requires forall i: nat :: !ClosesAt(text, i)
    ensures CommentEnd(text + ([STAR, SLASH] + rest)) == Closed(rest, Newlines(text))
  {
    var s := text + ([STAR, SLASH] + rest);
    assert ClosesAt(s, |text|);
    forall i: nat | i < |text|
      ensures !ClosesAt(s, i)
    {
      if i + 1 < |text| {
        assert !ClosesAt(text, i);
        assert s[i] == text[i] && s[i + 1] == text[i + 1];
      } else {
        assert s[i + 1] == STAR;
      }
    }
    CommentCloses(s, |text|);
    assert s[|text| + 2..] == rest && s[..|text|] == text;
  }

  lemma LineSequel(text: seq<Byte>, rest: seq<Byte>)
    requires NL !in text
    ensures SequelOf([SLASH, SLASH] + text + [NL] + rest) == MoreLines(1, SequelOf(rest))
  {
    var s := [SLASH, SLASH] + text + [NL] + rest;
    assert s == ([SLASH, SLASH] + text) + ([NL] + rest);
    LineSkipped([SLASH, SLASH] + text, rest);
    assert ([NL] + rest)[1..] == rest;
  }

  lemma BlockSequel(text: seq<Byte>, rest: seq<Byte>)
    requires forall i: nat :: !ClosesAt(text, i)
    ensures SequelOf([SLASH, STAR] + text + [STAR, SLASH] + rest) == MoreLines(Newlines(text), SequelOf(rest))
  {
    var s := [SLASH, STAR] + text + [STAR, SLASH] + rest;
    assert s[2..] == text + ([STAR, SLASH] + rest);
    BlockSkipped(text, rest);
  }

  /** White space and comments behind a closing quote are passed over. */
  lemma PieceSequel(p: Piece, rest: seq<Byte>)
    requires GapPiece(p)
    ensures SequelOf(PieceText(p) + rest) == MoreLines(PieceLines(p), SequelOf(rest))
  {
    match p
    case White(c) => assert ([c] + rest)[1..] == rest;
    case LineComment(text) => LineSequel(text, rest);
    case BlockComment(text) => BlockSequel(text, rest);
  }

  ghost predicate GapPieces(gap: seq<Piece>) {
    forall k :: 0 <= k < |gap| ==> GapPiece(gap[k])
  }

  lemma {:induction false} GapSequel(gap: seq<Piece>, quote: Byte, rest: seq<Byte>)
    requires GapPieces(gap) && (quote == DQUOTE || quote == SQUOTE)
    ensures SequelOf(GapText(gap) + ([quote] + rest)) == Another(rest, quote, GapLines(gap))
  {
    var next := [quote] + rest;
    if gap == [] {
      assert GapText(gap) + next == next;
      assert next[1..] == rest;
    } else {
      GapSequel(gap[1..], quote, rest);
      Shift(PieceText(gap[0]), GapText(gap[1..]), next);
      PieceSequel(gap[0], GapText(gap[1..]) + next);
    }
  }

  lemma GapContinues(gap: seq<Piece>, quote: Byte, inside: seq<Byte>, r: Cooked)
    requires GapPieces(gap) && (quote == DQUOTE || quote == SQUOTE) && Gives(inside, quote, r)
    ensures Continued(GapText(gap) + ([quote] + inside), Prefixed([], GapLines(gap), r))
  {
    GapSequel(gap, quote, inside);
    assert Cook(inside, quote) == r;
  }

  /** The inside of a string and what comes behind it. */
  lemma BodyGives(str: Str, close: seq<Byte>, r: Cooked)
    requires StrOk(str) && Gives(close, QuoteOf(str), r)
    ensures Gives(BodyOf(str) + close, QuoteOf(str), Prefixed(str.text, StrLines(str), r))
  {
    match str
    case Double(text) => CookBody(text, close, r);
    case Single(text) => SingleGives(text, close, r);
    case Written(text, how) => SpelledGives(text, how, close, r);
  }

  lemma StrGives(str: Str, tail: seq<Byte>, r: Cooked)
    requires StrOk(str) && Continued(tail, r)
    ensures var s := StrText(str) + tail;
      s[0] == QuoteOf(str) && Gives(s[1..], QuoteOf(str), Prefixed(str.text, StrLines(str), r))
  {
    var close := [QuoteOf(str)] + tail;
    assert close[1..] == tail;
    GivesClose(close, QuoteOf(str), tail, r);
    BodyGives(str, close, r);
    assert (StrText(str) + tail)[1..] == BodyOf(str) + close;
  }

  /** Strings with a gap behind each but the last. */
  function Series(strs: seq<Str>, gaps: seq<seq<Piece>>): seq<Byte>
    requires |gaps| + 1 == |strs| && AllSpelled(strs)
  {
    StrText(strs[0]) + if gaps == [] then [] else GapText(gaps[0]) + Series(strs[1..], gaps[1..])
  }

  predicate AllSpelled(strs: seq<Str>) {
    forall k :: 0 <= k < |strs| && strs[k].Written? ==> |strs[k].how| == |strs[k].text|
  }

  function Joined(strs: seq<Str>): seq<Byte> {
    if strs == [] then [] else strs[0].text + Joined(strs[1..])
  }

  /** The line ends in a series. */
  function SeriesLines(strs: seq<Str>, gaps: seq<seq<Piece>>): nat
    requires |gaps| + 1 == |strs| && AllSpelled(strs)
  {
    StrLines(strs[0]) + if gaps == [] then 0 else GapLines(gaps[0]) + SeriesLines(strs[1..], gaps[1..])
  }

  ghost predicate SeriesOk(strs: seq<Str>, gaps: seq<seq<Piece>>) {
    && |gaps| + 1 == |strs|
    && (forall k :: 0 <= k < |strs| ==> StrOk(strs[k]))
    && (forall k :: 0 <= k < |gaps| ==> GapPieces(gaps[k]))
  }

  lemma SeriesJoin(str: Str, gap: seq<Piece>, next: seq<Byte>, r: Cooked)
    requires StrOk(str) && GapPieces(gap)
    requires next != [] && (next[0] == DQUOTE || next[0] == SQUOTE) && Gives(next[1..], next[0], r)
    ensures var s := StrText(str) + (GapText(gap) + next);
      s[0] == QuoteOf(str) && Gives(s[1..], QuoteOf(str), Prefixed(str.text, StrLines(str) + GapLines(gap), r))
  {
    GapContinues(gap, next[0], next[1..], r);
    assert next == [next[0]] + next[1..];
    StrGives(str, GapText(gap) + next, Prefixed([], GapLines(gap), r));
    PrefixedTwice(str.text, StrLines(str), [], GapLines(gap), r);
    assert str.text + [] == str.text;
  }

  lemma {:induction false} SeriesGives(strs: seq<Str>, gaps: seq<seq<Piece>>, tail: seq<Byte>, r: Cooked)
    requires SeriesOk(strs, gaps) && Continued(tail, r)
    ensures var s := Series(strs, gaps) + tail;
      s != [] && s[0] == QuoteOf(strs[0]) && Gives(s[1..], s[0], Prefixed(Joined(strs), SeriesLines(strs, gaps), r))
    decreases |strs|
  {
    if gaps == [] {
      StrGives(strs[0], tail, r);
      assert strs[1..] == [] && strs[0].text + [] == strs[0].text;
      assert Series(strs, gaps) == StrText(strs[0]);
    } else {
      var next := Series(strs[1..], gaps[1..]);
      SeriesGives(strs[1..], gaps[1..], tail, r);
      SeriesJoin(strs[0], gaps[0], next + tail, Prefixed(Joined(strs[1..]), SeriesLines(strs[1..], gaps[1..]), r));
      assert Series(strs, gaps) + tail == StrText(strs[0]) + (GapText(gaps[0]) + (next + tail));
      PrefixedTwice(strs[0].text, StrLines(strs[0]) + GapLines(gaps[0]), Joined(strs[1..]), SeriesLines(strs[1..], gaps[1..]), r);
    }
  }

  /** A text at which a series of strings ends. */
  predicate Ends(rest: seq<Byte>) {
    var c := At(rest, 0);
    !IsWhite(c) && c != DQUOTE && c != SQUOTE && c != SLASH
  }

  /** A slash that begins no comment, or a comment without an end. */
  ghost predicate Broken(rest: seq<Byte>) {
    && At(rest, 0) == SLASH
    && if At(rest, 1) == SLASH then NL !in rest
       else At(rest, 1) == STAR ==> forall i: nat :: !ClosesAt(rest[2..], i)
  }

  lemma {:induction false} NoLineEnd(s: seq<Byte>)
    requires NL !in s
    ensures LineEnd(s) == []
  {
    if s != [] {
      NoLineEnd(s[1..]);
    }
  }

  lemma {:induction false} GapEnds(gap: seq<Piece>, rest: seq<Byte>)
    requires GapPieces(gap)
    ensures Ends(rest) ==> SequelOf(GapText(gap) + rest) == Finished(rest, GapLines(gap))
    ensures Broken(rest) ==> SequelOf(GapText(gap) + rest) == Malformed
  {
    if gap == [] {
      assert GapText(gap) + rest == rest;
      if Broken(rest) && At(rest, 1) == SLASH {
        NoLineEnd(rest);
      } else if Broken(rest) && At(rest, 1) == STAR {
        CommentOpen(rest[2..]);
      }
    } else {
      GapEnds(gap[1..], rest);
      Shift(PieceText(gap[0]), GapText(gap[1..]), rest);
      PieceSequel(gap[0], GapText(gap[1..]) + rest);
    }
  }

  /** Strings that follow one another, each in quotes of either kind and with any white space
      and comments between them, are cooked to their concatenation; the white space and the
      comments behind the last one are passed over, and there the rest begins. */
  lemma SeriesCook(strs: seq<Str>, gaps: seq<seq<Piece>>, gap: seq<Piece>, rest: seq<Byte>)
    requires SeriesOk(strs, gaps) && GapPieces(gap) && Ends(rest)
    ensures var s := Series(strs, gaps) + (GapText(gap) + rest);
      && s != [] && s[0] == QuoteOf(strs[0])
      && Cook(s[1..], s[0]) == Good(Joined(strs), rest, SeriesLines(strs, gaps) + GapLines(gap))
  {
    GapEnds(gap, rest);
    SeriesGives(strs, gaps, GapText(gap) + rest, Good([], rest, GapLines(gap)));
    assert Joined(strs) + [] == Joined(strs);
  }

  /** They are refused when a slash behind them begins no comment, or one that does not end. */
  lemma SeriesBroken(strs: seq<Str>, gaps: seq<seq<Piece>>, gap: seq<Piece>, rest: seq<Byte>)
    requires SeriesOk(strs, gaps) && GapPieces(gap) && Broken(rest)
    ensures var s := Series(strs, gaps) + (GapText(gap) + rest);
      s != [] && s[0] == QuoteOf(strs[0]) && Cook(s[1..], s[0]) == Bad
  {
    GapEnds(gap, rest);
    SeriesGives(strs, gaps, GapText(gap) + rest, Bad);
  }

  lemma OpenGives(str: Str)
    requires StrOk(str)
    ensures Gives(BodyOf(str), QuoteOf(str), Bad) && Gives(BodyOf(str) + [BACKSLASH], QuoteOf(str), Bad)
  {
    assert Gives([], QuoteOf(str), Bad);
    BodyGives(str, [], Bad);
    assert BodyOf(str) + [] == BodyOf(str);
    assert [BACKSLASH][1..] == [];
    assert Gives([BACKSLASH], QuoteOf(str), Bad);
    BodyGives(str, [BACKSLASH], Bad);
  }

  /** And so are strings of which the last is not closed, with a backslash at its end or not. */
  lemma SeriesUnclosed(strs: seq<Str>, gaps: seq<seq<Piece>>, gap: seq<Piece>, last: Str, slash: bool)
    requires SeriesOk(strs, gaps) && GapPieces(gap) && StrOk(last)
    ensures var open := BodyOf(last) + if slash then [BACKSLASH] else [];
      var s := Series(strs, gaps) + (GapText(gap) + ([QuoteOf(last)] + open));
      && Cook(open, QuoteOf(last)) == Bad
      && s != [] && s[0] == QuoteOf(strs[0]) && Cook(s[1..], s[0]) == Bad
  {
    var open := BodyOf(last) + if slash then [BACKSLASH] else [];
    OpenGives(last);
    assert BodyOf(last) + [] == BodyOf(last);
    assert Gives(open, QuoteOf(last), Bad);
    GapContinues(gap, QuoteOf(last), open, Bad);
    SeriesGives(strs, gaps, GapText(gap) + ([QuoteOf(last)] + open), Bad);
  }

  // ---------- the scan in the buffer ----------

  function Newlines(s: seq<Byte>): nat {
    if s == [] then 0 else (if s[0] == NL then 1 else 0) + Newlines(s[1..])
  }

  lemma {:induction false} NewlinesAppend(s: seq<Byte>, c: Byte)
    ensures Newlines(s + [c]) == Newlines(s) + if c == NL then 1 else 0
  {
    if s != [] {
      NewlinesAppend(s[1..], c);
      assert (s + [c])[1..] == s[1..] + [c];
    } else {
      assert s + [c] == [c];
    }
  }

  predicate ClosesAt(s: seq<Byte>, i: nat) {
    i + 1 < |s| && s[i] == STAR && s[i + 1] == SLASH
  }

  lemma {:induction false} CommentOpen(s: seq<Byte>)
    requires forall i: nat :: !ClosesAt(s, i)
    ensures CommentEnd(s) == Open
  {
    if |s| >= 2 {
      assert !ClosesAt(s, 0);
      assert forall i: nat :: ClosesAt(s[1..], i) ==> ClosesAt(s, i + 1);
      CommentOpen(s[1..]);
    }
  }

  lemma {:induction false} CommentCloses(s: seq<Byte>, k: nat)
    requires ClosesAt(s, k)
    requires forall i: nat :: i < k ==> !ClosesAt(s, i)
    ensures CommentEnd(s) == Closed(s[k + 2..], Newlines(s[..k]))
  {
    if k > 0 {
      assert !ClosesAt(s, 0);
      assert forall i: nat :: ClosesAt(s[1..], i) ==> ClosesAt(s, i + 1);
      assert ClosesAt(s[1..], k - 1);
      CommentCloses(s[1..], k - 1);
      assert s[..k][1..] == s[1..][..k - 1];
    }
  }

  /** strstr for the end of a comment; `n` if there is none. */
  method FindCommentEnd(a: array<Byte>, n: nat, from: nat) returns (at: nat)
    requires from <= n < a.Length && a[n] == NUL
    ensures from <= at <= n
    ensures at == n ==> CommentEnd(a[..n][from..]) == Open
    ensures at < n ==> at + 2 <= n && CommentEnd(a[..n][from..]) == Closed(a[..n][at + 2..], Newlines(a[from..at]))
  {
    ghost var s := a[..n][from..];
    at := from;
    while at < n && !(a[at] == STAR && a[at + 1] == SLASH)
      invariant from <= at <= n
      invariant forall i: nat :: i < at - from ==> !ClosesAt(s, i)
    {
      at := at + 1;
    }
    if at == n {
      CommentOpen(s);
    } else {
      CommentCloses(s, at - from);
      assert s[at - from + 2..] == a[..n][at + 2..];
      assert s[..at - from] == a[from..at];
    }
  }

  /** nl_count */
  method CountLines(a: array<Byte>, from: nat, to: nat) returns (lines: nat)
    requires from <= to <= a.Length
    ensures lines == Newlines(a[from..to])
  {
    lines := 0;
    var at := from;
    while at < to
      invariant from <= at <= to
      invariant lines == Newlines(a[from..at])
    {
      NewlinesAppend(a[from..at], a[at]);
      assert a[from..at + 1] == a[from..at] + [a[at]];
      if a[at] == NL {
        lines := lines + 1;
      }
      at := at + 1;
    }
  }

  /** strchr for a line end; `n` if there is none. */
  method FindLineEnd(a: array<Byte>, n: nat, from: nat) returns (at: nat)
    requires from <= n < a.Length
    ensures from <= at <= n && LineEnd(a[..n][from..]) == a[..n][at..]
    ensures at < n ==> a[at] == NL
  {
    at := from;
    while at < n && a[at] != NL
      invariant from <= at <= n
      invariant LineEnd(a[..n][from..]) == LineEnd(a[..n][at..])
    {
      Tail(a[..n], at);
      at := at + 1;
    }
  }

  /** The outcome of contiguous_quote, as positions in the buffer. */
  datatype Turn = Fail | Done(at: nat) | Next(at: nat, quote: Byte)

  ghost predicate TurnIs(a: seq<Byte>, turn: Turn, lines: nat, r: Sequel) {
    match turn
    case Fail => r == Malformed
    case Done(at) => at <= |a| && r == Finished(a[at..], lines)
    case Next(at, quote) => at <= |a| && r == Another(a[at..], quote, lines)
  }

  /** The sequel `whole` is that of `s`, behind `lines` line ends. */
  ghost predicate Leads(s: seq<Byte>, lines: nat, whole: Sequel) {
    forall t :: t == s ==> whole == MoreLines(lines, SequelOf(t))
  }

  lemma LeadsTo(s: seq<Byte>, lines: nat, whole: Sequel)
    requires Leads(s, lines, whole)
    ensures whole == MoreLines(lines, SequelOf(s))
  {
  }

  lemma LeadsWhite(s: seq<Byte>, lines: nat, whole: Sequel)
    requires Leads(s, lines, whole) && s != [] && IsWhite(s[0])
    ensures Leads(s[1..], lines + if s[0] == NL then 1 else 0, whole)
  {
    LeadsTo(s, lines, whole);
  }

  lemma LeadsLine(s: seq<Byte>, lines: nat, whole: Sequel)
    requires Leads(s, lines, whole) && At(s, 0) == SLASH && At(s, 1) == SLASH
    ensures if LineEnd(s) == [] then whole == Malformed else Leads(LineEnd(s), lines, whole)
  {
    LeadsTo(s, lines, whole);
  }

  lemma LeadsComment(s: seq<Byte>, lines: nat, whole: Sequel)
    requires Leads(s, lines, whole) && At(s, 0) == SLASH && At(s, 1) == STAR
    ensures match CommentEnd(s[2..])
      case Open => whole == Malformed
      case Closed(rest, more) => Leads(rest, lines + more, whole)
  {
    LeadsTo(s, lines, whole);
  }

  /** What ends the scan: anything but white space and the start of a comment. */
  lemma LeadsEnd(s: seq<Byte>, lines: nat, whole: Sequel)
    requires Leads(s, lines, whole) && !IsWhite(At(s, 0))
    ensures At(s, 0) == DQUOTE || At(s, 0) == SQUOTE ==> whole == Another(s[1..], s[0], lines)
    ensures At(s, 0) == SLASH && At(s, 1) != SLASH && At(s, 1) != STAR ==> whole == Malformed
    ensures At(s, 0) != DQUOTE && At(s, 0) != SQUOTE && At(s, 0) != SLASH ==> whole == Finished(s, lines)
  {
    LeadsTo(s, lines, whole);
  }

  lemma Tail(a: seq<Byte>, p: nat)
    requires p <= |a|
    ensures At(a[p..], 0) == At(a, p) && At(a[p..], 1) == At(a, p + 1)
    ensures p < |a| ==> a[p..][1..] == a[p + 1..]
    ensures p + 1 < |a| ==> a[p..][2..] == a[p + 2..]
  {
  }

  /** contiguous_quote on the text behind a closing quote at `from - 1`. */
  method ContiguousQuote(a: array<Byte>, n: nat, from: nat) returns (turn: Turn, lines: nat)
    requires from <= n < a.Length && a[n] == NUL && NulFree(a[from..n])
    ensures TurnIs(a[..n], turn, lines, SequelOf(a[..n][from..]))
    ensures turn.Done? ==> from <= turn.at <= n
    ensures turn.Next? ==> from < turn.at <= n && (turn.quote == DQUOTE || turn.quote == SQUOTE)
  {
    ghost var text := a[..n];
    ghost var whole := SequelOf(text[from..]);
    var ps := from;
    lines := 0;
    assert Leads(text[ps..], 0, whole);
    assert text[from..] == a[from..n];
    while true
      invariant from <= ps <= n
      invariant Leads(text[ps..], lines, whole)
      decreases n - ps
    {
      ps, lines := SkipWhite(a, n, ps, lines, whole);
      Tail(text, ps);
      LeadsEnd(text[ps..], lines, whole);
      if a[ps] == DQUOTE || a[ps] == SQUOTE {
        return Next(ps + 1, a[ps]), lines;
      } else if a[ps] == SLASH {
        var ok;
        ok, ps, lines := SkipComment(a, n, ps, lines, whole);
        if !ok {
          return Fail, lines;
        }
      } else {
        return Done(ps), lines;
      }
    }
  }

  /** The comment at `from`; not `ok` if it is none, or one without an end. */
  method SkipComment(a: array<Byte>, n: nat, from: nat, sofar: nat, ghost whole: Sequel)
    returns (ok: bool, ps: nat, lines: nat)
    requires from < n < a.Length && a[n] == NUL && NulFree(a[from..n]) && a[from] == SLASH
    requires Leads(a[..n][from..], sofar, whole)
    ensures !ok ==> whole == Malformed
    ensures ok ==> from < ps <= n && Leads(a[..n][ps..], lines, whole)
  {
    ghost var text := a[..n];
    Tail(text, from);
    ps, lines := from, sofar;
    if a[from + 1] == SLASH {
      LeadsLine(text[from..], sofar, whole);
      ps := FindLineEnd(a, n, from);
      ok := ps < n;
    } else if a[from + 1] == STAR {
      LeadsComment(text[from..], sofar, whole);
      ok, ps, lines := SkipBlock(a, n, from + 2, sofar);
    } else {
      LeadsEnd(text[from..], sofar, whole);
      ok := false;
    }
  }

  /** The inside of a block comment from `from` on. */
  method SkipBlock(a: array<Byte>, n: nat, from: nat, sofar: nat) returns (ok: bool, ps: nat, lines: nat)
    requires from <= n < a.Length && a[n] == NUL
    ensures !ok ==> CommentEnd(a[..n][from..]) == Open
    ensures ok ==> from < ps <= n && lines >= sofar && CommentEnd(a[..n][from..]) == Closed(a[..n][ps..], lines - sofar)
  {
    var end := FindCommentEnd(a, n, from);
    ok, ps, lines := end < n, from, sofar;
    if ok {
      var more := CountLines(a, from, end);
      ps, lines := end + 2, sofar + more;
    }
  }

  method SkipWhite(a: array<Byte>, n: nat, from: nat, sofar: nat, ghost whole: Sequel) returns (ps: nat, lines: nat)
    requires from <= n < a.Length && a[n] == NUL
    requires Leads(a[..n][from..], sofar, whole)
    ensures from <= ps <= n && !IsWhite(a[ps])
    ensures Leads(a[..n][ps..], lines, whole)
  {
    ps, lines := from, sofar;
    while IsWhite(a[ps])
      invariant from <= ps <= n
      invariant Leads(a[..n][ps..], lines, whole)
      decreases n - ps
    {
      Tail(a[..n], ps);
      LeadsWhite(a[..n][ps..], lines, whole);
      if a[ps] == NL {
        lines := lines + 1;
      }
      ps := ps + 1;
    }
  }

  // ---------- cooking in place ----------

  /** The whole result is `out`, behind `lines` line ends, then that of `s`. */
  ghost predicate Continues(s: seq<Byte>, q: Byte, out: seq<Byte>, lines: nat, whole: Cooked) {
    forall p :: p == q ==> whole == Prefixed(out, lines, Cook(s, p))
  }

  lemma ContinuesTo(s: seq<Byte>, q: Byte, out: seq<Byte>, lines: nat, whole: Cooked)
    requires Continues(s, q, out, lines, whole)
    ensures whole == Prefixed(out, lines, Cook(s, q))
  {
  }

  lemma ContinuesTake(s: seq<Byte>, q: Byte, step: Step, out: seq<Byte>, lines: nat, whole: Cooked)
    requires Continues(s, q, out, lines, whole) && s != [] && StepOf(s, q) == step && step.Take?
    ensures Continues(s[step.used..], q, out + step.text, lines + step.lines, whole)
  {
    ContinuesTo(s, q, out, lines, whole);
    PrefixedTwice(out, lines, step.text, step.lines, Cook(s[step.used..], q));
  }

  lemma ContinuesHalt(s: seq<Byte>, q: Byte, out: seq<Byte>, lines: nat, whole: Cooked)
    requires Continues(s, q, out, lines, whole) && (s == [] || StepOf(s, q) == Halt)
    ensures whole == Bad
  {
    ContinuesTo(s, q, out, lines, whole);
  }

  lemma ContinuesQuote(s: seq<Byte>, q: Byte, out: seq<Byte>, lines: nat, whole: Cooked)
    requires Continues(s, q, out, lines, whole) && s != [] && s[0] == q
    ensures match SequelOf(s[1..])
      case Malformed => whole == Bad
      case Finished(rest, more) => whole == Good(out, rest, lines + more)
      case Another(rest, quote, more) => Continues(rest, quote, out, lines + more, whole)
  {
    ContinuesTo(s, q, out, lines, whole);
    assert StepOf(s, q) == Close;
    assert out + [] == out;
    match SequelOf(s[1..])
    case Malformed =>
    case Finished(rest, more) =>
    case Another(rest, quote, more) => PrefixedTwice(out, lines, [], more, Cook(rest, quote));
  }

  lemma ContinuesPlain(s: seq<Byte>, q: Byte, out: seq<Byte>, lines: nat, whole: Cooked)
    requires Continues(s, q, out, lines, whole) && s != [] && s[0] != q && s[0] != BACKSLASH
    ensures Continues(s[1..], q, out + [s[0]], lines + if s[0] == NL then 1 else 0, whole)
  {
    ContinuesTake(s, q, StepOf(s, q), out, lines, whole);
  }

  lemma ContinuesSplice(s: seq<Byte>, q: Byte, out: seq<Byte>, lines: nat, whole: Cooked)
    requires Continues(s, q, out, lines, whole) && At(s, 0) == BACKSLASH != q && At(s, 1) == NL
    ensures Continues(s[2..], q, out, lines + 1, whole)
  {
    ContinuesTake(s, q, StepOf(s, q), out, lines, whole);
    assert out + [] == out;
  }

  lemma ContinuesEscape(s: seq<Byte>, q: Byte, e: Escape, out: seq<Byte>, lines: nat, whole: Cooked)
    requires Continues(s, q, out, lines, whole) && At(s, 0) == BACKSLASH != q && At(s, 1) != NL && q != SQUOTE
    requires EscapeOf(s[1..], NL) == e
    ensures if e.NoEscape? then whole == Bad else 1 + e.used <= |s| && Continues(s[1 + e.used..], q, out + [e.ch], lines, whole)
  {
    if e.NoEscape? {
      ContinuesHalt(s, q, out, lines, whole);
    } else {
      ContinuesTake(s, q, Take([e.ch], 1 + e.used, 0), out, lines, whole);
    }
  }

  lemma ContinuesSingle(s: seq<Byte>, out: seq<Byte>, lines: nat, whole: Cooked)
    requires Continues(s, SQUOTE, out, lines, whole) && At(s, 0) == BACKSLASH && At(s, 1) != NL
    ensures if At(s, 1) == BACKSLASH || At(s, 1) == SQUOTE || At(s, 1) == HASH
      then Continues(s[2..], SQUOTE, out + [s[1]], lines, whole)
      else Continues(s[1..], SQUOTE, out + [BACKSLASH], lines, whole)
  {
    ContinuesTake(s, SQUOTE, StepOf(s, SQUOTE), out, lines, whole);
  }

  /** `d` bytes are written, the text from `scan` on is still to be read and untouched: the
      writer stays behind the reader. */
  ghost predicate InPlace(buf: seq<Byte>, text: seq<Byte>, d: nat, scan: nat, q: Byte, lines: nat, whole: Cooked) {
    && |buf| == |text| && d < scan <= |text|
    && buf[scan..] == text[scan..]
    && Continues(text[scan..], q, buf[..d], lines, whole)
  }

  lemma Onwards(buf: seq<Byte>, text: seq<Byte>, scan: nat, at: nat)
    requires |buf| == |text| && scan <= at <= |text| && buf[scan..] == text[scan..]
    ensures buf[at..] == text[at..]
  {
    assert buf[at..] == buf[scan..][at - scan..];
    assert text[at..] == text[scan..][at - scan..];
  }

  /** What a closing quote leads to. */
  ghost predicate Closed1(buf: seq<Byte>, text: seq<Byte>, d: nat, turn: Turn, lines: nat, whole: Cooked) {
    && |buf| == |text| && d < |buf| && buf[d] == NUL
    && match turn
       case Fail => whole == Bad
       case Done(at) => d < at <= |buf| && buf[at..] == text[at..] && whole == Good(buf[..d], buf[at..], lines)
       case Next(at, quote) => InPlace(buf, text, d, at, quote, lines, whole)
  }

  lemma Closing(was: seq<Byte>, buf: seq<Byte>, text: seq<Byte>, d: nat, from: nat, q: Byte, sofar: nat, whole: Cooked,
                turn: Turn, more: nat)
    requires InPlace(was, text, d, from, q, sofar, whole)
    requires buf == was[d := NUL] && from < |text| && text[from] == q
    requires TurnIs(buf, turn, more, SequelOf(buf[from + 1..]))
    requires turn != Fail ==> from < turn.at <= |buf|
    ensures Closed1(buf, text, d, turn, sofar + more, whole)
  {
    Tail(text, from);
    ContinuesQuote(text[from..], q, was[..d], sofar, whole);
    assert buf[from..] == was[from..];
    Onwards(buf, text, from, from + 1);
    assert buf[..d] == was[..d];
    if turn != Fail {
      Onwards(buf, text, from, turn.at);
    }
  }

  lemma CloseReady(was: seq<Byte>, text: seq<Byte>, d: nat, from: nat)
    requires |was| == |text| && d < from < |text| && was[from..] == text[from..] && NulFree(text)
    ensures was[from] == text[from] && NulFree(was[d := NUL][from + 1..])
  {
    assert was[from..][0] == text[from..][0];
    assert was[d := NUL][from + 1..] == was[from..][1..];
  }

  /** The closing quote at `from`. */
  method CloseQuote(a: array<Byte>, n: nat, d: nat, from: nat, q: Byte, sofar: nat, ghost text: seq<Byte>, ghost whole: Cooked)
    returns (turn: Turn, lines: nat)
    requires n < a.Length && a[n] == NUL && NulFree(text) && from < n && a[from] == q
    requires InPlace(a[..n], text, d, from, q, sofar, whole)
    modifies a
    ensures a[n..] == old(a[n..])
    ensures turn != Fail ==> from < turn.at <= n
    ensures turn.Next? ==> turn.quote != NUL
    ensures Closed1(a[..n], text, d, turn, lines, whole)
  {
    ghost var was := a[..n];
    CloseReady(was, text, d, from);
    a[d] := NUL;
    assert a[..n] == was[d := NUL];
    assert a[from + 1..n] == a[..n][from + 1..];
    var more;
    turn, more := ContiguousQuote(a, n, from + 1);
    lines := sofar + more;
    Closing(was, a[..n], text, d, from, q, sofar, whole, turn, more);
  }

  /** One byte is written and the reader moves on. */
  lemma Advanced(was: seq<Byte>, buf: seq<Byte>, text: seq<Byte>, d: nat, scan: nat, at: nat, q: Byte, ch: Byte, lines: nat, whole: Cooked)
    requires |was| == |text| && d < scan < at <= |text| && was[scan..] == text[scan..]
    requires buf == was[d := ch]
    ensures Continues(text[at..], q, was[..d] + [ch], lines, whole) ==> InPlace(buf, text, d + 1, at, q, lines, whole)
    ensures Continues(text[at..], q, was[..d], lines, whole) ==> InPlace(buf, text, d, at, q, lines, whole)
  {
    assert buf[scan..] == was[scan..];
    Onwards(buf, text, scan, at);
    assert buf[..d + 1] == was[..d] + [ch];
    assert buf[..d] == was[..d];
  }

  lemma Unread(was: seq<Byte>, text: seq<Byte>, scan: nat)
    requires |was| == |text| && scan <= |text| && was[scan..] == text[scan..]
    ensures At(was, scan) == At(text, scan) && At(was, scan + 1) == At(text, scan + 1)
  {
    assert scan < |text| ==> was[scan..][0] == text[scan..][0];
    assert scan + 1 < |text| ==> was[scan..][1] == text[scan..][1];
  }

  /** One character inside a string. */
  method CopyOne(a: array<Byte>, n: nat, from: nat, at: nat, q: Byte, sofar: nat, ghost text: seq<Byte>, ghost whole: Cooked)
    returns (ok: bool, d: nat, scan: nat, lines: nat)
    requires n < a.Length && a[n] == NUL && NulFree(text)
    requires InPlace(a[..n], text, from, at, q, sofar, whole) && a[at] != q
    modifies a
    ensures a[n..] == old(a[n..])
    ensures !ok ==> whole == Bad
    ensures ok ==> at < scan && InPlace(a[..n], text, d, scan, q, lines, whole)
  {
    ghost var was := a[..n];
    Unread(was, text, at);
    Tail(text, at);
    var c := a[at];
    d, scan, lines := from + 1, at + 1, sofar;
    a[from] := c;
    assert a[..n] == was[from := c];
    if c == NUL {
      ContinuesHalt(text[at..], q, was[..from], sofar, whole);
      ok := false;
    } else if c != BACKSLASH {
      lines := if c == NL then sofar + 1 else sofar;
      PlainCopied(was, a[..n], text, from, at, q, sofar, whole);
      ok := true;
    } else {
      ok, d, scan, lines := CopyBackslash(a, n, from, at, q, sofar, was, text, whole);
    }
  }

  lemma PlainCopied(was: seq<Byte>, buf: seq<Byte>, text: seq<Byte>, from: nat, at: nat, q: Byte, sofar: nat, whole: Cooked)
    requires InPlace(was, text, from, at, q, sofar, whole)
    requires at < |text| && buf == was[from := text[at]] && text[at] != q && text[at] != BACKSLASH
    ensures InPlace(buf, text, from + 1, at + 1, q, if text[at] == NL then sofar + 1 else sofar, whole)
  {
    Tail(text, at);
    ContinuesPlain(text[at..], q, was[..from], sofar, whole);
    Advanced(was, buf, text, from, at, at + 1, q, text[at], if text[at] == NL then sofar + 1 else sofar, whole);
  }

  /** A backslash: at the end of a line both vanish. */
  method CopyBackslash(a: array<Byte>, n: nat, from: nat, at: nat, q: Byte, sofar: nat,
                       ghost was: seq<Byte>, ghost text: seq<Byte>, ghost whole: Cooked)
    returns (ok: bool, d: nat, scan: nat, lines: nat)
    requires n < a.Length && a[n] == NUL && NulFree(text)
    requires InPlace(was, text, from, at, q, sofar, whole)
    requires at < n == |was| && a[..n] == was[from := BACKSLASH]
    requires text[at] == BACKSLASH != q
    modifies a
    ensures a[n..] == old(a[n..])
    ensures !ok ==> whole == Bad
    ensures ok ==> at < scan && InPlace(a[..n], text, d, scan, q, lines, whole)
  {
    Tail(text, at);
    Unread(was, text, at);
    d, lines, ok := from + 1, sofar, true;
    assert a[at + 1] == At(text, at + 1);
    if a[at + 1] == NL {
      ContinuesSplice(text[at..], q, was[..from], sofar, whole);
      d, scan, lines := from, at + 2, sofar + 1;
      Advanced(was, a[..n], text, from, at, at + 2, q, BACKSLASH, lines, whole);
    } else if q != SQUOTE {
      ok, scan := CopyEscape(a, n, from, at, q, sofar, was, text, whole);
    } else {
      scan := CopySingle(a, n, from, at, sofar, was, text, whole);
    }
  }

  /** The text behind a backslash, in the terms of the buffer. */
  lemma Behind(was: seq<Byte>, text: seq<Byte>, at: nat)
    requires |was| == |text| && at < |text| && was[at..] == text[at..]
    ensures was[at + 1..] == text[at + 1..] == text[at..][1..]
  {
    Onwards(was, text, at, at + 1);
  }

  /** A backslash inside a string that is not in single quotes. */
  method CopyEscape(a: array<Byte>, n: nat, from: nat, at: nat, q: Byte, sofar: nat,
                    ghost was: seq<Byte>, ghost text: seq<Byte>, ghost whole: Cooked)
    returns (ok: bool, scan: nat)
    requires n < a.Length && a[n] == NUL && NulFree(text) && q != SQUOTE
    requires InPlace(was, text, from, at, q, sofar, whole)
    requires at < n == |was| && a[..n] == was[from := BACKSLASH]
    requires text[at] == BACKSLASH != q && At(text, at + 1) != NL
    modifies a
    ensures a[n..] == old(a[n..])
    ensures !ok ==> whole == Bad
    ensures ok ==> at < scan && InPlace(a[..n], text, from + 1, scan, q, sofar, whole)
  {
    Behind(was, text, at);
    assert a[at + 1..n] == was[at + 1..];
    var ch, ct := CookEscape(a, n, at + 1, NL);
    ok, scan := ct != 0, at + 1 + ct;
    EscapeCopied(was, text, from, at, q, sofar, whole, if ok then Escape(ch, ct) else NoEscape);
    if ok {
      a[from] := ch;
      assert a[..n] == was[from := ch];
    }
  }

  lemma EscapeCopied(was: seq<Byte>, text: seq<Byte>, from: nat, at: nat, q: Byte, sofar: nat, whole: Cooked, e: Escape)
    requires InPlace(was, text, from, at, q, sofar, whole) && at < |text|
    requires text[at] == BACKSLASH != q && At(text, at + 1) != NL && q != SQUOTE
    requires EscapeOf(text[at + 1..], NL) == e
    ensures if e.NoEscape? then whole == Bad
      else InPlace(was[from := e.ch], text, from + 1, at + 1 + e.used, q, sofar, whole)
  {
    Tail(text, at);
    ContinuesEscape(text[at..], q, e, was[..from], sofar, whole);
    if e.Escape? {
      assert text[at..][1 + e.used..] == text[at + 1 + e.used..];
      Advanced(was, was[from := e.ch], text, from, at, at + 1 + e.used, q, e.ch, sofar, whole);
    }
  }

  /** A backslash inside a string in single quotes. */
  method CopySingle(a: array<Byte>, n: nat, from: nat, at: nat, sofar: nat,
                    ghost was: seq<Byte>, ghost text: seq<Byte>, ghost whole: Cooked)
    returns (scan: nat)
    requires n < a.Length && a[n] == NUL && NulFree(text)
    requires InPlace(was, text, from, at, SQUOTE, sofar, whole)
    requires at < n == |was| && a[..n] == was[from := BACKSLASH]
    requires text[at] == BACKSLASH && At(text, at + 1) != NL
    modifies a
    ensures a[n..] == old(a[n..])
    ensures at < scan && InPlace(a[..n], text, from + 1, scan, SQUOTE, sofar, whole)
  {
    Tail(text, at);
    Unread(was, text, at);
    ContinuesSingle(text[at..], was[..from], sofar, whole);
    scan := at + 1;
    var c := a[at + 1];
    assert c == At(text, at + 1);
    if c == BACKSLASH || c == SQUOTE || c == HASH {
      a[from] := c;
      scan := at + 2;
    } else {
      c := BACKSLASH;
    }
    assert a[..n] == was[from := c];
    Advanced(was, a[..n], text, from, at, scan, SQUOTE, c, sofar, whole);
  }

  /** The loop of ao_string_cook: the buffer, in which the text between the quotes begins at
      one, ends up as `whole` says. */
  method CookLoop(a: array<Byte>, n: nat, quote: Byte, ghost text: seq<Byte>, ghost whole: Cooked)
    returns (good: bool, d: nat, end: nat, lines: nat)
    requires n < a.Length && a[n] == NUL && NulFree(text) && quote != NUL
    requires InPlace(a[..n], text, 0, 1, quote, 0, whole)
    modifies a
    ensures a[n..] == old(a[n..])
    ensures good <==> whole.Good?
    ensures good ==> d < end <= n && a[d] == NUL && a[end..n] == text[end..] && whole == Good(a[..d], a[end..n], lines)
  {
    var q, scan: nat := quote, 1;
    d, lines, end := 0, 0, 0;
    while true
      invariant a[n..] == old(a[n..]) && q != NUL
      invariant InPlace(a[..n], text, d, scan, q, lines, whole)
      decreases n - scan
    {
      if a[scan] == q {
        var turn;
        turn, lines := CloseQuote(a, n, d, scan, q, lines, text, whole);
        match turn
        case Fail => return false, d, end, lines;
        case Done(at) => return true, d, at, lines;
        case Next(at, next) => scan, q := at, next;
      } else {
        var ok;
        ok, d, scan, lines := CopyOne(a, n, d, scan, q, lines, text, whole);
        if !ok {
          return false, d, end, lines;
        }
      }
    }
  }

  /** ao_string_cook on the buffer whose text ends at `n`: the strings at its start are
      joined and unescaped in place. `end` is where the rest begins. */
  method StringCook(a: array<Byte>, n: nat) returns (good: bool, end: nat, lines: nat)
    requires 0 < n < a.Length && a[n] == NUL && NulFree(a[..n])
    modifies a
    ensures good <==> Cook(old(a[1..n]), old(a[0])).Good?
    ensures a[n..] == old(a[n..])
    ensures good ==>
      && end <= n && a[end..n] == old(a[end..n])
      && var r := Cook(old(a[1..n]), old(a[0]));
         |r.text| < end && a[..|r.text|] == r.text && a[|r.text|] == NUL && a[end..n] == r.rest && lines == r.lines
  {
    ghost var text := a[..n];
    ghost var whole := Cook(a[1..n], a[0]);
    StartCook(text, a[1..n], a[0], whole);
    var d;
    good, d, end, lines := CookLoop(a, n, a[0], text, whole);
    assert end <= n ==> text[end..] == old(a[end..n]);
  }

  lemma StartCook(text: seq<Byte>, inside: seq<Byte>, q: Byte, whole: Cooked)
    requires text != [] && inside == text[1..] && whole == Cook(inside, q)
    ensures InPlace(text, text, 0, 1, q, 0, whole)
  {
    PrefixedNone(whole);
    assert text[..0] == [];
  }

  /** The round trip in one buffer: a text is quoted into it and cooked in place. */
  method QuoteInPlace(text: seq<Byte>) returns (a: array<Byte>, n: nat, lines: nat)
    requires NulFree(text)
    ensures |text| < n < a.Length && a[..|text|] == text && a[|text|] == NUL && lines == Splices(text)
  {
    a, n := Quoting.QuoteString(text, Quoting.SPLICE);
    Quoting.QuotedNulFree(text, Quoting.SPLICE);
    QuoteCook(text);
    assert a[1..n] == a[..n][1..];
    var good, end;
    good, end, lines := StringCook(a, n);
  }
}
