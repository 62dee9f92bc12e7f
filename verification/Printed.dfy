/** What stands on the screen for a number, said of the characters. */
module Printed {
  import opened Arithmetic
  import opened Console

  /** The base each type letter asks for. */
  predicate AsksFor(typ: char, base: nat) {
    match typ
    case 'x' => base == 16
    case 'X' => base == 16
    case 'o' => base == 8
    case 'b' => base == 2
    case _ => base == 10
  }

  /** The digits spell the value in the base, most significant first, in letters of the case asked for, with no zero in
      front but for zero itself. */
  predicate Spell(digits: seq<char>, v: nat, base: nat, upper: bool) {
    && digits != [] && 2 <= base <= 16 && Parse(digits, base) == v
    && (|digits| > 1 ==> digits[0] != '0')
    && forall q: nat :: q < |digits| ==>
         if upper then '0' <= digits[q] <= '9' || 'A' <= digits[q] <= 'F'
         else '0' <= digits[q] <= '9' || 'a' <= digits[q] <= 'f'
  }

  /** The parts a number is printed in: fill on the left, sign, prefix, zeros, digits, fill on the right. */
  datatype Parts = Parts(left: nat, sign: string, prefix: string, zeros: nat, digits: string, right: nat)

  function Text(p: Parts, fill: char): string {
    Repeat(fill, p.left) + p.sign + p.prefix + Repeat('0', p.zeros) + p.digits + Repeat(fill, p.right)
  }

  /** The parts fill the width and no more: with zeros between prefix and digits if asked for and aligned to the right;
      else on the right of what is aligned left, on the left of what is aligned right, and on both sides of what is
      centred, one more on the right if need be. */
  predicate Aligned(p: Parts, fs: Spec) {
    var core := |p.sign| + |p.prefix| + |p.digits|;
    && core + p.left + p.zeros + p.right == (if fs.width > core then fs.width else core)
    && (if fs.zero && fs.align == '>' then p.left == p.right == 0 else p.zeros == 0)
    && (fs.align == '<' ==> p.left == 0)
    && (fs.align == '^' ==> p.left <= p.right <= p.left + 1)
    && (fs.align != '<' && fs.align != '^' ==> p.right == 0)
  }

  /** The prefix of a pointer, and of a number in its alternate form. */
  predicate Prefixed(prefix: string, fs: Spec, pointer: bool) {
    var x, b := if fs.uppercase then "0X" else "0x", if fs.uppercase then "0B" else "0b";
    if pointer then prefix == x
    else if !fs.alt then prefix == ""
    else if fs.typ == 'x' || fs.typ == 'X' then prefix == x
    else if fs.typ == 'o' then prefix == "0"
    else if fs.typ == 'b' then prefix == b
    else prefix == ""
  }

  lemma PaddedParts(sign: string, prefix: string, digits: string, fs: Spec) returns (p: Parts)
    ensures Padded(sign, prefix, digits, fs) == Text(p, fs.fill) && Aligned(p, fs)
    ensures p.sign == sign && p.prefix == prefix && p.digits == digits
  {
    var pad := Pad(|sign| + |prefix| + |digits|, fs.width);
    if fs.align == '>' && fs.zero {
      p := Parts(0, sign, prefix, pad, digits, 0);
      assert Repeat(fs.fill, 0) == [];
    } else {
      var left := LeftPad(pad, fs.align);
      p := Parts(left, sign, prefix, 0, digits, pad - left);
      assert Repeat('0', 0) == [];
    }
  }

  lemma {:induction false} DigitsSpell(v: nat, base: nat, upper: bool)
    requires 2 <= base <= 16
    ensures Spell(Digits(v, base, upper), v, base, upper)
  {
    ParseDigits(v, base, upper);
    var s := Digits(v, base, upper);
    forall q: nat | q < |s|
      ensures if upper then '0' <= s[q] <= '9' || 'A' <= s[q] <= 'F' else '0' <= s[q] <= '9' || 'a' <= s[q] <= 'f'
    {
      assert s[q] == Digit(ValueOf(s[q]), upper);
      DigitCase(ValueOf(s[q]), upper);
    }
  }

  lemma DigitCase(d: nat, upper: bool)
    requires d < 16
    ensures var c := Digit(d, upper);
            if upper then '0' <= c <= '9' || 'A' <= c <= 'F' else '0' <= c <= '9' || 'a' <= c <= 'f'
  {
  }

  /** An unsigned number, pointers among them, reads back from its digits in the base its type asks for, behind the
      prefix its specification asks for; the type p prints in base 16. */
  lemma UnsignedParts(v: nat, fs: Spec, pointer: bool) returns (p: Parts)
    requires fs.typ != 'c'
    ensures UnsignedText(v, fs, pointer) == Text(p, fs.fill) && Aligned(p, fs) && p.sign == ""
    ensures Prefixed(p.prefix, fs, pointer || fs.typ == 'p')
    ensures exists base: nat ::
              Spell(p.digits, v, base, fs.uppercase) && if fs.typ == 'p' then base == 16 else AsksFor(fs.typ, base)
  {
    var base := UnsignedBase(fs);
    DigitsSpell(v, base, fs.uppercase);
    hide Digits, Spell, Padded;
    p := PaddedParts([], UnsignedPrefix(fs, pointer), Digits(v, base, fs.uppercase), fs);
    assert Spell(p.digits, v, base, fs.uppercase);
  }

  /** A signed number reads back as its distance from zero; below zero there is a minus sign exactly in decimal, and
      else in decimal the plus sign or blank asked for. */
  lemma SignedParts(v: int, fs: Spec) returns (p: Parts)
    requires IsInt64(v) && fs.typ != 'c'
    ensures SignedText(v, fs) == Text(p, fs.fill) && Aligned(p, fs) && Prefixed(p.prefix, fs, false)
    ensures exists base: nat :: AsksFor(fs.typ, base) && Spell(p.digits, if v < 0 then -v else v, base, fs.uppercase)
    ensures var decimal := AsksFor(fs.typ, 10);
            && (p.sign == "-" <==> decimal && v < 0)
            && (p.sign == "+" <==> decimal && v >= 0 && fs.sign == '+')
            && (p.sign == " " <==> decimal && v >= 0 && fs.sign == ' ')
            && (p.sign == "-" || p.sign == "+" || p.sign == " " || p.sign == "")
  {
    var base := BaseOf(fs.typ, false);
    DigitsSpell(Magnitude(v), base, fs.uppercase);
    hide Digits, Spell, Padded;
    p := PaddedParts(SignOf(v, fs), SignedPrefix(fs), Digits(Magnitude(v), base, fs.uppercase), fs);
    assert AsksFor(fs.typ, base);
    assert Magnitude(v) == if v < 0 then -v else v;
    assert Spell(p.digits, if v < 0 then -v else v, base, fs.uppercase);
  }

  /** The type c prints one character: the low byte. */
  lemma Character(v: nat, fs: Spec, pointer: bool)
    requires fs.typ == 'c'
    ensures |UnsignedText(v, fs, pointer)| == 1 && v % 256 == UnsignedText(v, fs, pointer)[0] as int
    ensures IsInt64(v) ==> SignedText(v, fs) == UnsignedText(v, fs, pointer)
  {
  }
}
