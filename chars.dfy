/**
 * UTF-16 code units and the character classes the JSON reader tests.
 *
 * A C# `char` is a 16-bit code unit, and a `\uXXXX` escape may produce a
 * lone surrogate, so text is modelled as `seq<Unit>` rather than `string`.
 * The constants follow the reader's character resources
 * (src/ntojs/JsonReader.cs:64-95).
 */
module Chars {

  /** A UTF-16 code unit: the value a C# `char` holds. */
  newtype Unit = x: int | 0 <= x < 0x1_0000

  const Backslash: Unit := 0x5C    // '\\'
  const Backspace: Unit := 0x08    // '\b'
  const BraceClose: Unit := 0x7D   // '}'
  const BraceOpen: Unit := 0x7B    // '{'
  const BracketClose: Unit := 0x5D // ']'
  const BracketOpen: Unit := 0x5B  // '['
  const Colon: Unit := 0x3A        // ':'
  const Comma: Unit := 0x2C        // ','
  const Dot: Unit := 0x2E          // '.'
  const Dquote: Unit := 0x22       // '"'
  const Feed: Unit := 0x0C         // '\f'
  const Digit0: Unit := 0x30       // '0'
  const Digit9: Unit := 0x39       // '9'
  const Minus: Unit := 0x2D        // '-'
  const Newline: Unit := 0x0A      // '\n'
  const Nbsp: Unit := 0xA0         // U+00A0
  const Plus: Unit := 0x2B         // '+'
  const Return: Unit := 0x0D       // '\r'
  const Slash: Unit := 0x2F        // '/'
  const Space: Unit := 0x20        // ' '
  const Tab: Unit := 0x09          // '\t'

  // Letters the reader compares against.
  const UpperA: Unit := 0x41       // 'A'
  const UpperE: Unit := 0x45       // 'E'
  const UpperF: Unit := 0x46       // 'F'
  const LowerA: Unit := 0x61       // 'a'
  const LowerB: Unit := 0x62       // 'b'
  const LowerE: Unit := 0x65       // 'e'
  const LowerF: Unit := 0x66       // 'f'
  const LowerL: Unit := 0x6C       // 'l'
  const LowerN: Unit := 0x6E       // 'n'
  const LowerR: Unit := 0x72       // 'r'
  const LowerS: Unit := 0x73       // 's'
  const LowerT: Unit := 0x74       // 't'
  const LowerU: Unit := 0x75       // 'u'

  /** The three literal words, spelled out in full. */
  const TrueWord: seq<Unit> := [LowerT, LowerR, LowerU, LowerE]
  const FalseWord: seq<Unit> := [LowerF, LowerA, LowerL, LowerS, LowerE]
  const NullWord: seq<Unit> := [LowerN, LowerU, LowerL, LowerL]

  /** The text the reader returns for the JSON booleans: "True" and "False". */
  const TrueText: seq<Unit> := [0x54, LowerR, LowerU, LowerE]
  const FalseText: seq<Unit> := [UpperF, LowerA, LowerL, LowerS, LowerE]

  /** Space, the range tab..carriage return, and the non-breaking space. */
  predicate IsWhiteSpace(c: Unit) {
    c == Space || (Tab <= c <= Return) || c == Nbsp
  }

  predicate IsDigit(c: Unit) {
    Digit0 <= c <= Digit9
  }

  /** Characters that make the tokenizer report a number. */
  predicate IsNumberStart(c: Unit) {
    c == Plus || c == Minus || c == Dot || IsDigit(c)
  }

  /** Characters the number reader keeps consuming. */
  predicate IsNumberChar(c: Unit) {
    IsDigit(c) || c == Dot || c == Minus || c == Plus || c == LowerE || c == UpperE
  }

  predicate IsHexDigit(c: Unit) {
    IsDigit(c) || (LowerA <= c <= LowerF) || (UpperA <= c <= UpperF)
  }

  /** The value of one hexadecimal digit, in either letter case. */
  function HexDigitValue(c: Unit): (d: nat)
    requires IsHexDigit(c)
    ensures d < 16
    ensures IsDigit(c) ==> d == (c - Digit0) as nat
    ensures LowerA <= c <= LowerF ==> d == 10 + (c - LowerA) as nat
    ensures UpperA <= c <= UpperF ==> d == 10 + (c - UpperA) as nat
  {
    if IsDigit(c) then (c - Digit0) as nat
    else if LowerA <= c <= LowerF then 10 + (c - LowerA) as nat
    else 10 + (c - UpperA) as nat
  }

  /** 16 to the power `k`: the bound on a fold over `k` characters. */
  function Pow16(k: nat): (p: nat)
    ensures p >= 1
  {
    if k == 0 then 1 else 16 * Pow16(k - 1)
  }

  /** One step of the escape decoder: a hexadecimal digit shifts the total one place and adds its value; any other character is skipped. */
  function HexShift(n: nat, c: Unit): (r: nat)
    ensures IsHexDigit(c) ==> r == n * 16 + HexDigitValue(c) && n * 16 <= r < (n + 1) * 16
    ensures !IsHexDigit(c) ==> r == n
  {
    if IsHexDigit(c) then n * 16 + HexDigitValue(c) else n
  }

  /** The number the escape decoder accumulates over `s`, one `HexShift` per character. */
  function HexFold(s: seq<Unit>): (n: nat)
    ensures n < Pow16(|s|)
  {
    if s == [] then 0 else HexShift(HexFold(s[..|s| - 1]), s[|s| - 1])
  }

  /** Folding one more character is one more step. */
  lemma HexFoldSnoc(s: seq<Unit>, c: Unit)
    ensures HexFold(s + [c]) == HexShift(HexFold(s), c)
  {
    assert (s + [c])[..|s|] == s;
  }

  /** The decoder over the four characters of a `\u` escape; never past one code unit. */
  function HexQuad(a: Unit, b: Unit, c: Unit, d: Unit): (n: nat)
    ensures n < 0x1_0000
  {
    HexShift(HexShift(HexShift(HexShift(0, a), b), c), d)
  }

  /** On four characters the general fold and the four-character decoder agree. */
  lemma {:induction false} HexFoldOfFour(s: seq<Unit>)
    requires |s| == 4
    ensures HexFold(s) == HexQuad(s[0], s[1], s[2], s[3])
  {
    assert s[..3][..2] == s[..2];
    assert s[..2][..1] == s[..1];
    assert s[..1][..0] == [];
    assert HexFold(s[..1]) == HexShift(0, s[0]);
    assert HexFold(s[..2]) == HexShift(HexShift(0, s[0]), s[1]);
    assert HexFold(s[..3]) == HexShift(HexShift(HexShift(0, s[0]), s[1]), s[2]);
  }

  /** Four hexadecimal digits denote their base-16 value. */
  lemma HexQuadOfDigits(a: Unit, b: Unit, c: Unit, d: Unit)
    requires IsHexDigit(a) && IsHexDigit(b) && IsHexDigit(c) && IsHexDigit(d)
    ensures HexQuad(a, b, c, d) == 4096 * HexDigitValue(a) + 256 * HexDigitValue(b)
                                   + 16 * HexDigitValue(c) + HexDigitValue(d)
  {
    assert HexShift(0, a) == HexDigitValue(a);
    assert HexShift(HexShift(0, a), b) == 16 * HexDigitValue(a) + HexDigitValue(b);
  }
}
