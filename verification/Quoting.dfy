/** Go's %q and %d verbs, with the facts that make their output readable again. */
module Quoting {

  /** unicode.IsPrint, left abstract: every result holds whatever runes are printable. */
  type Printable = char -> bool

  // ---- digits ---------------------------------------------------------------------------------

  const DIGITS := "0123456789abcdef"

  function DigitValue(c: char): (d: nat) {
    if '0' <= c <= '9' then c as int - '0' as int
    else if 'a' <= c <= 'f' then c as int - 'a' as int + 10
    else 0
  }

  predicate IsHexDigit(c: char) {
    '0' <= c <= '9' || 'a' <= c <= 'f'
  }

  lemma DigitRoundTrip(d: nat)
    requires d < 16
    ensures DigitValue(DIGITS[d]) == d && IsHexDigit(DIGITS[d])
    ensures d < 10 ==> '0' <= DIGITS[d] <= '9'
  {}

  /** Fixed-width hexadecimal, as in \x41. */
  function Hex(n: nat, width: nat): (s: string)
    ensures |s| == width
  {
    if width == 0 then "" else Hex(n / 16, width - 1) + [DIGITS[n % 16]]
  }

  function HexValue(s: string): nat {
    if s == "" then 0 else 16 * HexValue(s[..|s| - 1]) + DigitValue(s[|s| - 1])
  }

  function Pow16(width: nat): nat {
    if width == 0 then 1 else 16 * Pow16(width - 1)
  }

  lemma {:induction false} HexRoundTrip(n: nat, width: nat)
    requires n < Pow16(width)
    ensures HexValue(Hex(n, width)) == n
    ensures forall c <- Hex(n, width) :: IsHexDigit(c)
  {
    if width > 0 {
      HexRoundTrip(n / 16, width - 1);
      DigitRoundTrip(n % 16);
      var s := Hex(n, width);
      assert s[..|s| - 1] == Hex(n / 16, width - 1);
    }
  }

  function NatText(n: nat): (s: string)
    ensures s != ""
  {
    (if n < 10 then "" else NatText(n / 10)) + [DIGITS[n % 10]]
  }

  function NatValue(s: string): nat {
    if s == "" then 0 else 10 * NatValue(s[..|s| - 1]) + DigitValue(s[|s| - 1])
  }

  lemma {:induction false} NatRoundTrip(n: nat)
    ensures NatValue(NatText(n)) == n
    ensures forall c <- NatText(n) :: '0' <= c <= '9'
  {
    DigitRoundTrip(n % 10);
    var s := NatText(n);
    if n >= 10 {
      NatRoundTrip(n / 10);
      assert s[..|s| - 1] == NatText(n / 10);
    } else {
      assert s[..|s| - 1] == "";
    }
  }

  /** The %d verb. */
  function IntText(n: int): string {
    if n < 0 then "-" + NatText(-n) else NatText(n)
  }

  lemma IntTextShape(n: int)
    ensures IntText(n) != "" && forall c <- IntText(n) :: c == '-' || '0' <= c <= '9'
  {
    NatRoundTrip(if n < 0 then -n else n);
  }

  lemma IntTextIsInjective(a: int, b: int)
    requires IntText(a) == IntText(b)
    ensures a == b
  {
    NatRoundTrip(if a < 0 then -a else a);
    NatRoundTrip(if b < 0 then -b else b);
    if a < 0 { assert IntText(a)[0] == '-' && IntText(a)[1..] == NatText(-a); }
    if b < 0 { assert IntText(b)[0] == '-' && IntText(b)[1..] == NatText(-b); }
    if 0 <= a { assert IntText(a)[0] in NatText(a); }
    if 0 <= b { assert IntText(b)[0] in NatText(b); }
  }

  // ---- quoted strings -------------------------------------------------------------------------

  /** The letter after the backslash when a rune is escaped. */
  function EscapeLetter(c: char): char {
    if c == '"' || c == '\\' then c
    else match c as int
      case 7 => 'a'
      case 8 => 'b'
      case 12 => 'f'
      case 10 => 'n'
      case 13 => 'r'
      case 9 => 't'
      case 11 => 'v'
      case n => if n < 0x20 || n == 0x7f then 'x' else if n < 0x1_0000 then 'u' else 'U'
  }

  /** How many hexadecimal digits follow the letter. */
  function EscapeWidth(letter: char): nat {
    if letter == 'x' then 2 else if letter == 'u' then 4 else if letter == 'U' then 8 else 0
  }

  /** One rune as strconv.Quote writes it between the quotes. */
  function Escape(c: char, printable: Printable): string {
    if c != '"' && c != '\\' && printable(c) then [c]
    else
      var letter := EscapeLetter(c);
      ['\\', letter] + Hex(c as int, EscapeWidth(letter))
  }

  function EscapeAll(s: string, printable: Printable): string {
    if s == "" then "" else Escape(s[0], printable) + EscapeAll(s[1..], printable)
  }

  /** The %q verb. */
  function Quoted(s: string, printable: Printable): string {
    "\"" + EscapeAll(s, printable) + "\""
  }

  lemma PowersOf16()
    ensures Pow16(2) == 0x100 && Pow16(4) == 0x1_0000 && Pow16(8) == 0x1_0000_0000
  {
    assert Pow16(1) == 16 && Pow16(3) == 0x1000 && Pow16(5) == 0x10_0000 && Pow16(6) == 0x100_0000
           && Pow16(7) == 0x1000_0000;
  }

  lemma EscapeHexRoundTrip(c: char)
    ensures var width := EscapeWidth(EscapeLetter(c));
            width > 0 ==>
              HexValue(Hex(c as int, width)) == c as int && forall d <- Hex(c as int, width) :: IsHexDigit(d)
  {
    PowersOf16();
    var width := EscapeWidth(EscapeLetter(c));
    if width > 0 { HexRoundTrip(c as int, width); }
  }

  lemma LetterDecidesRune(c: char, d: char)
    requires EscapeLetter(c) == EscapeLetter(d)
    requires Hex(c as int, EscapeWidth(EscapeLetter(c))) == Hex(d as int, EscapeWidth(EscapeLetter(d)))
    ensures c == d
  {
    EscapeHexRoundTrip(c);
    EscapeHexRoundTrip(d);
    assert c as int == d as int;
  }

  /** Escaped runes form a prefix code: the first one can be read off any text that follows. */
  lemma EscapeIsPrefixCode(c: char, d: char, printable: Printable, x: string, y: string)
    requires Escape(c, printable) + x == Escape(d, printable) + y
    ensures c == d && x == y
  {
    var p, q := Escape(c, printable), Escape(d, printable);
    assert (p + x)[0] == p[0] && (q + y)[0] == q[0];
    if p[0] != '\\' {
      assert p == [c] && q == [d];
    } else {
      assert (p + x)[1] == p[1] == EscapeLetter(c) && (q + y)[1] == q[1] == EscapeLetter(d);
      var width := EscapeWidth(EscapeLetter(c));
      assert |p| == |q| == 2 + width;
      assert p[2..] == Hex(c as int, width) && q[2..] == Hex(d as int, width);
      assert p == (p + x)[..2 + width] == (q + y)[..2 + width] == q;
      LetterDecidesRune(c, d);
    }
    assert x == (p + x)[|p|..] && y == (q + y)[|q|..];
  }

  lemma {:induction false} EscapeAllIsInjective(s: string, t: string, printable: Printable)
    requires EscapeAll(s, printable) == EscapeAll(t, printable)
    ensures s == t
  {
    if s != "" && t != "" {
      EscapeIsPrefixCode(s[0], t[0], printable, EscapeAll(s[1..], printable), EscapeAll(t[1..], printable));
      EscapeAllIsInjective(s[1..], t[1..], printable);
      assert s == [s[0]] + s[1..] && t == [t[0]] + t[1..];
    }
  }

  /** Inside the quotes, a quote only ever stands right after a backslash. */
  predicate QuotesEscaped(s: string) {
    forall i :: 0 <= i < |s| && s[i] == '"' ==> i > 0 && s[i - 1] == '\\'
  }

  lemma EscapeHidesQuotes(c: char, printable: Printable)
    ensures QuotesEscaped(Escape(c, printable))
  {
    var e, letter := Escape(c, printable), EscapeLetter(c);
    var hex := Hex(c as int, EscapeWidth(letter));
    EscapeHexRoundTrip(c);
    if e != [c] {
      forall i | 2 <= i < |e| ensures e[i] != '"' {
        assert e[i] == hex[i - 2] && hex[i - 2] in hex && |hex| > 0;
        assert IsHexDigit(e[i]);
      }
    }
  }

  lemma {:induction false} EscapeAllHidesQuotes(s: string, printable: Printable)
    ensures QuotesEscaped(EscapeAll(s, printable))
  {
    if s != "" {
      var head, tail := Escape(s[0], printable), EscapeAll(s[1..], printable);
      EscapeHidesQuotes(s[0], printable);
      EscapeAllHidesQuotes(s[1..], printable);
      forall i | 0 <= i < |head + tail| && (head + tail)[i] == '"' ensures i > 0 && (head + tail)[i - 1] == '\\' {
        if i >= |head| { assert tail[i - |head|] == '"'; }
      }
    }
  }
}
