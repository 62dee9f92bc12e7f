/** Printing numbers: digits written backwards into a buffer, then sign, prefix, digits and padding emitted. */
module Console {
  import opened Arithmetic

  const TWO_63: nat := 0x8000_0000_0000_0000

  // ----- Digits

  function Digit(d: nat, upper: bool): char
    requires d < 16
  {
    if upper then "0123456789ABCDEF"[d] else "0123456789abcdef"[d]
  }

  /** What a digit character stands for. */
  function ValueOf(c: char): (d: int)
  {
    if '0' <= c <= '9' then c as int - 48
    else if 'a' <= c <= 'f' then c as int - 87
    else if 'A' <= c <= 'F' then c as int - 55
    else -1
  }

  function Digits(v: nat, base: nat, upper: bool): (s: seq<char>)
    requires 2 <= base <= 16
    ensures s != []
  {
    if v < base then [Digit(v, upper)]
    else
      Shrinks(v, base);
      Digits(v / base, base, upper) + [Digit(v % base, upper)]
  }

  lemma Shrinks(v: nat, base: nat)
    requires 2 <= base <= v
    ensures 0 < v / base < v
  {
  }

  predicate AllDigits(s: seq<char>, base: nat, upper: bool) {
    forall q: nat :: q < |s| ==> 0 <= ValueOf(s[q]) < base && base <= 16 && s[q] == Digit(ValueOf(s[q]), upper)
  }

  /** The number a digit string spells. */
  function Parse(s: seq<char>, base: nat): int {
    if s == [] then 0 else Parse(s[..|s| - 1], base) * base + ValueOf(s[|s| - 1])
  }

  lemma DigitValue(d: nat, upper: bool)
    requires d < 16
    ensures ValueOf(Digit(d, upper)) == d && (d > 0 ==> Digit(d, upper) != '0')
  {
  }

  lemma {:induction false} OneMoreDigit(s: seq<char>, base: nat, d: nat, upper: bool)
    requires d < base <= 16
    ensures Parse(s + [Digit(d, upper)], base) == Parse(s, base) * base + d
    ensures AllDigits(s, base, upper) ==> AllDigits(s + [Digit(d, upper)], base, upper)
  {
    DigitValue(d, upper);
    assert (s + [Digit(d, upper)])[..|s|] == s;
  }

  lemma {:induction false} DigitsStep(v: nat, base: nat, upper: bool)
    requires 2 <= base <= 16 && v >= base
    ensures 0 < v / base < v && v == v / base * base + v % base
    ensures Digits(v, base, upper) == Digits(v / base, base, upper) + [Digit(v % base, upper)]
  {
    Shrinks(v, base);
  }

  /** The digits spell the value, without a leading zero. */
  lemma {:induction false} ParseDigits(v: nat, base: nat, upper: bool)
    requires 2 <= base <= 16
    ensures Parse(Digits(v, base, upper), base) == v
    ensures AllDigits(Digits(v, base, upper), base, upper)
    ensures v > 0 ==> Digits(v, base, upper)[0] != '0'
  {
    hide Parse, AllDigits, Digits, Digit, ValueOf;
    if v < base {
      OneDigit(v, base, upper);
    } else {
      DigitsStep(v, base, upper);
      ParseDigits(v / base, base, upper);
      OneMoreDigit(Digits(v / base, base, upper), base, v % base, upper);
    }
  }

  lemma {:induction false} OneDigit(v: nat, base: nat, upper: bool)
    requires 2 <= base <= 16 && v < base
    ensures Digits(v, base, upper) == [Digit(v, upper)] && Parse([Digit(v, upper)], base) == v
    ensures AllDigits([Digit(v, upper)], base, upper) && (v > 0 ==> Digit(v, upper) != '0')
  {
    DigitValue(v, upper);
    assert [] + [Digit(v, upper)] == [Digit(v, upper)];
    OneMoreDigit([], base, v, upper);
    assert Parse([], base) == 0;
  }

  lemma PositiveStep(p: nat, base: nat, d: nat)
    requires base > 0
    ensures p * base + d >= 0 && (p > 0 || d > 0 ==> p * base + d > 0)
  {
    MultipleBounds(p, base);
  }

  lemma {:induction false} ParseBound(s: seq<char>, base: nat, upper: bool)
    requires base > 0 && AllDigits(s, base, upper)
    ensures Parse(s, base) >= 0
    ensures s != [] && s[0] != '0' ==> Parse(s, base) > 0
  {
    if s != [] {
      var init, d := s[..|s| - 1], ValueOf(s[|s| - 1]);
      assert d == 0 ==> s[|s| - 1] == Digit(0, upper) == '0';
      ParseBound(init, base, upper);
      assert init != [] ==> init[0] == s[0];
      PositiveStep(Parse(init, base), base, d);
    }
  }

  /** The digits are the only string that spells the value without a leading zero. */
  lemma {:induction false} DigitsUnique(s: seq<char>, base: nat, upper: bool)
    requires 2 <= base <= 16 && s != [] && AllDigits(s, base, upper) && (s[0] != '0' || |s| == 1)
    ensures Parse(s, base) >= 0 && s == Digits(Parse(s, base), base, upper)
  {
    hide Parse, Digits, Digit;
    var init, d := s[..|s| - 1], ValueOf(s[|s| - 1]);
    assert s == init + [Digit(d, upper)];
    OneMoreDigit(init, base, d, upper);
    ParseBound(s, base, upper);
    if |s| == 1 {
      OneDigit(d, base, upper);
    } else {
      ParseBound(init, base, upper);
      DigitsUnique(init, base, upper);
      LastDigit(Parse(init, base), base, d);
      DigitsStep(Parse(s, base), base, upper);
    }
  }

  lemma LastDigit(p: nat, base: nat, d: nat)
    requires p > 0 && d < base
    ensures (p * base + d) / base == p && (p * base + d) % base == d && p * base + d >= base
  {
    DivModUnique(p * base + d, base, p, d);
    MultipleBounds(p, base);
  }

  function Power(base: nat, k: nat): nat {
    if k == 0 then 1 else base * Power(base, k - 1)
  }

  /** k digits are enough exactly for the numbers below the k-th power of the base. */
  lemma {:induction false} DigitCount(v: nat, base: nat, upper: bool, k: nat)
    requires 2 <= base <= 16 && k > 0
    ensures |Digits(v, base, upper)| <= k <==> v < Power(base, k)
    decreases k
  {
    PowerPositive(base, k - 1);
    if k == 1 {
      assert Power(base, 0) == 1;
      if v >= base {
        Shrinks(v, base);
      }
    } else if v < base {
      MultipleBounds(Power(base, k - 1), base);
    } else {
      Shrinks(v, base);
      DigitCount(v / base, base, upper, k - 1);
      QuotientBelow(v, base, Power(base, k - 1));
    }
  }

  lemma {:induction false} PowerPositive(base: nat, k: nat)
    requires base > 0
    ensures Power(base, k) > 0
  {
    if k > 0 {
      PowerPositive(base, k - 1);
      MultipleBounds(base, Power(base, k - 1));
    }
  }

  lemma QuotientBelow(v: nat, base: nat, p: nat)
    requires base > 0
    ensures v / base < p <==> v < base * p
  {
    var q := v / base;
    assert v == q * base + v % base;
    if q < p {
      MultipleBounds(p - q, base);
      assert (p - q) * base == base * p - q * base;
    } else {
      assert (q - p) * base >= 0;
      assert (q - p) * base == q * base - base * p;
    }
  }

  /** A 64-bit value never needs more than 64 digits, in any base, so the buffer is never run off. */
  lemma {:induction false} AtMost64(v: nat, base: nat, upper: bool)
    requires 2 <= base <= 16 && v < U64
    ensures |Digits(v, base, upper)| <= 64
  {
    DigitCount(v, base, upper, 64);
    PowerGrows(base, 64);
    Power264();
  }

  lemma Scaled(base: nat, x: nat)
    requires base >= 2
    ensures base * x >= 2 * x
  {
    assert (base - 2) * x >= 0;
  }

  lemma {:induction false} PowerGrows(base: nat, k: nat)
    requires base >= 2
    ensures Power(base, k) >= Power(2, k)
  {
    if k > 0 {
      PowerGrows(base, k - 1);
      Scaled(base, Power(base, k - 1));
    }
  }

  lemma Power264()
    ensures Power(2, 64) == U64
  {
    PowerDoubles(8);
    PowerDoubles(16);
    PowerDoubles(32);
  }

  lemma {:induction false} PowerSum(j: nat, k: nat)
    ensures Power(2, j + k) == Power(2, j) * Power(2, k)
  {
    if j > 0 {
      PowerSum(j - 1, k);
    }
  }

  lemma {:induction false} PowerDoubles(k: nat)
    ensures Power(2, 2 * k) == Power(2, k) * Power(2, k)
  {
    PowerSum(k, k);
  }

  // ----- Padding

  /** A format specification; `typ` is the null character when none is given, `align` is one of '<', '>' and '^'. */
  datatype Spec = Spec(typ: char, align: char, fill: char, sign: char, alt: bool, zero: bool, width: int,
                       uppercase: bool)

  function Repeat(c: char, n: nat): (s: seq<char>)
    ensures |s| == n && forall q: nat :: q < n ==> s[q] == c
  {
    seq(n, _ => c)
  }

  function Pad(core: nat, width: int): nat {
    if width > core then width - core else 0
  }

  function LeftPad(pad: nat, align: char): (n: nat)
    ensures n <= pad
  {
    if align == '<' then 0 else if align == '^' then pad / 2 else pad
  }

  function Padded(sign: seq<char>, prefix: seq<char>, digits: seq<char>, fs: Spec): seq<char> {
    var pad := Pad(|sign| + |prefix| + |digits|, fs.width);
    if fs.align == '>' && fs.zero then
      sign + prefix + Repeat('0', pad) + digits
    else
      var left := LeftPad(pad, fs.align);
      Repeat(fs.fill, left) + sign + prefix + digits + Repeat(fs.fill, pad - left)
  }

  /** However it is aligned, the output is as long as the width asks, or as the number needs. */
  lemma PaddedLength(sign: seq<char>, prefix: seq<char>, digits: seq<char>, fs: Spec)
    ensures var core: int := |sign| + |prefix| + |digits|;
            |Padded(sign, prefix, digits, fs)| == if fs.width > core then fs.width else core
  {
  }

  function StripLeft(s: seq<char>, fill: char): seq<char> {
    if s != [] && s[0] == fill then StripLeft(s[1..], fill) else s
  }

  function StripRight(s: seq<char>, fill: char): seq<char> {
    if s != [] && s[|s| - 1] == fill then StripRight(s[..|s| - 1], fill) else s
  }

  function Strip(s: seq<char>, fill: char): seq<char> {
    StripRight(StripLeft(s, fill), fill)
  }

  lemma {:induction false} StripLeftPad(n: nat, s: seq<char>, fill: char)
    ensures StripLeft(Repeat(fill, n) + s, fill) == StripLeft(s, fill)
  {
    if n > 0 {
      assert (Repeat(fill, n) + s)[1..] == Repeat(fill, n - 1) + s;
      StripLeftPad(n - 1, s, fill);
    } else {
      assert Repeat(fill, 0) + s == s;
    }
  }

  lemma {:induction false} StripRightPad(n: nat, s: seq<char>, fill: char)
    ensures StripRight(s + Repeat(fill, n), fill) == StripRight(s, fill)
  {
    if n > 0 {
      assert (s + Repeat(fill, n))[..|s| + n - 1] == s + Repeat(fill, n - 1);
      StripRightPad(n - 1, s, fill);
    } else {
      assert s + Repeat(fill, 0) == s;
    }
  }

  lemma {:induction false} StripShorter(s: seq<char>, fill: char)
    ensures |StripLeft(s, fill)| <= |s| && (StripLeft(s, fill) == s <==> s == [] || s[0] != fill)
    ensures |StripRight(s, fill)| <= |s| && (StripRight(s, fill) == s <==> s == [] || s[|s| - 1] != fill)
    decreases |s|
  {
    if s != [] {
      StripShorter(s[1..], fill);
      StripShorter(s[..|s| - 1], fill);
    }
  }

  /** Taking the padding off gives the number's text back exactly when that does not itself begin or end with the
      fill character. */
  lemma StripPadded(sign: seq<char>, prefix: seq<char>, digits: seq<char>, fs: Spec)
    requires !(fs.align == '>' && fs.zero) && digits != []
    ensures var core := sign + prefix + digits;
            (Strip(Padded(sign, prefix, digits, fs), fs.fill) == core
             <==> core[0] != fs.fill && core[|core| - 1] != fs.fill)
  {
    hide StripLeft, StripRight, Repeat;
    var core := sign + prefix + digits;
    var pad := Pad(|core|, fs.width);
    var left := LeftPad(pad, fs.align);
    assert Padded(sign, prefix, digits, fs) == Repeat(fs.fill, left) + (core + Repeat(fs.fill, pad - left));
    StripLeftPad(left, core + Repeat(fs.fill, pad - left), fs.fill);
    StripShorter(core, fs.fill);
    if core[0] != fs.fill {
      StripShorter(core + Repeat(fs.fill, pad - left), fs.fill);
      StripRightPad(pad - left, core, fs.fill);
    } else {
      FillInFront(core, Repeat(fs.fill, pad - left), fs.fill);
      StripShorter(core, fs.fill);
    }
  }

  /** Once a fill character is stripped off the front, what is left is too short to be the text again. */
  lemma FillInFront(core: seq<char>, behind: seq<char>, fill: char)
    requires core != [] && core[0] == fill && forall q: nat :: q < |behind| ==> behind[q] == fill
    ensures Strip(core + behind, fill) != core
  {
    hide StripLeft, StripRight;
    StripLeftShape(core + behind, fill);
    StripRightShape(StripLeft(core + behind, fill), fill);
    var stripped := Strip(core + behind, fill);
    assert stripped != [] ==> stripped[0] != fill;
  }

  /** Five and fifty, filled with zeros to two places on the right, print alike. */
  lemma FillTaken()
    ensures var fs := Spec('d', '<', '0', '\0', false, false, 2, false);
            Padded([], [], "5", fs) == Padded([], [], "50", fs) == "50"
  {
    assert Repeat('0', 1) == "0" && Repeat('0', 0) == "";
  }

  lemma {:induction false} StripLeftShape(s: seq<char>, fill: char)
    ensures StripLeft(s, fill) != [] ==> StripLeft(s, fill)[0] != fill
  {
    if s != [] {
      StripLeftShape(s[1..], fill);
    }
  }

  lemma {:induction false} StripRightShape(s: seq<char>, fill: char)
    ensures StripRight(s, fill) != [] ==> s != [] && StripRight(s, fill)[0] == s[0]
    decreases |s|
  {
    if s != [] {
      StripRightShape(s[..|s| - 1], fill);
    }
  }

  /** Zeros between the prefix and the digits do not change the value. */
  lemma {:induction false} ZerosInFront(n: nat, digits: seq<char>, base: nat)
    ensures Parse(Repeat('0', n) + digits, base) == Parse(digits, base)
    decreases |digits|, n
  {
    if digits != [] {
      assert (Repeat('0', n) + digits)[..n + |digits| - 1] == Repeat('0', n) + digits[..|digits| - 1];
      ZerosInFront(n, digits[..|digits| - 1], base);
    } else if n > 0 {
      assert (Repeat('0', n) + digits)[..n - 1] == Repeat('0', n - 1) + digits;
      ZerosInFront(n - 1, digits, base);
    }
  }

  // ----- Numbers as text

  function BaseOf(typ: char, hex: bool): (base: nat)
    ensures base == 2 || base == 8 || base == 10 || base == 16
  {
    if typ == 'x' || typ == 'X' || hex then 16 else if typ == 'o' then 8 else if typ == 'b' then 2 else 10
  }

  function AltPrefix(base: nat, upper: bool): seq<char> {
    if base == 16 then ['0', if upper then 'X' else 'x']
    else if base == 8 then ['0']
    else if base == 2 then ['0', if upper then 'B' else 'b']
    else []
  }

  /** No type stands for 'u' before the base is chosen, so a pointer with none is decimal too. */
  function UnsignedBase(fs: Spec): (base: nat)
    ensures base == 2 || base == 8 || base == 10 || base == 16
  {
    BaseOf(fs.typ, fs.typ == 'p')
  }

  function UnsignedPrefix(fs: Spec, pointer: bool): seq<char> {
    if pointer || fs.typ == 'p' then AltPrefix(16, fs.uppercase)
    else if fs.alt then AltPrefix(UnsignedBase(fs), fs.uppercase)
    else []
  }

  /** A prefix that is written names the base of the digits behind it exactly when this is no pointer, or one printed in
      hexadecimal. */
  lemma PrefixNamesBase(fs: Spec, pointer: bool)
    requires UnsignedPrefix(fs, pointer) != []
    ensures UnsignedPrefix(fs, pointer) == AltPrefix(UnsignedBase(fs), fs.uppercase) <==>
              !pointer || fs.typ == 'x' || fs.typ == 'X' || fs.typ == 'p'
  {
  }

  /** The number ten as a pointer given the type d: decimal digits behind the hexadecimal prefix. */
  lemma PointerInDecimal()
    ensures UnsignedText(10, Spec('d', '>', ' ', '\0', false, false, -1, false), true) == "0x10"
  {
    var fs := Spec('d', '>', ' ', '\0', false, false, -1, false);
    DigitsStep(10, 10, false);
    assert Digits(1, 10, false) == ['1'];
    assert Digits(10, 10, false) == "10";
    assert Repeat(' ', 0) == [];
  }

  function UnsignedText(v: nat, fs: Spec, pointer: bool): seq<char> {
    if fs.typ == 'c' then [(v % 256) as char]
    else Padded([], UnsignedPrefix(fs, pointer), Digits(v, UnsignedBase(fs), fs.uppercase), fs)
  }

  /** The magnitude as the code computes it, so that the least integer does not overflow on the way. */
  function Magnitude(v: int): int {
    if v < 0 then -(v + 1) + 1 else v
  }

  function SignOf(v: int, fs: Spec): seq<char> {
    if BaseOf(fs.typ, false) != 10 then []
    else if v < 0 then ['-']
    else if fs.sign == '+' || fs.sign == ' ' then [fs.sign]
    else []
  }

  function SignedPrefix(fs: Spec): seq<char> {
    if fs.alt then AltPrefix(BaseOf(fs.typ, false), fs.uppercase) else []
  }

  function SignedText(v: int, fs: Spec): seq<char> {
    if fs.typ == 'c' then [(v % 256) as char]
    else Padded(SignOf(v, fs), SignedPrefix(fs), Digits(Magnitude(v) as nat, BaseOf(fs.typ, false), fs.uppercase), fs)
  }

  predicate IsInt64(v: int) {
    -(TWO_63 as int) <= v < TWO_63
  }

  /** Nothing on the way to the magnitude leaves 64 bits, the least integer included. */
  lemma MagnitudeFits(v: int)
    requires IsInt64(v)
    ensures v < 0 ==> IsInt64(v + 1) && IsInt64(-(v + 1))
    ensures 0 <= Magnitude(v) < U64 && (Magnitude(v) == v || Magnitude(v) == -v)
  {
  }

  /** The number a sign and digits stand for. */
  function ReadSigned(sign: seq<char>, digits: seq<char>, base: nat): int {
    if sign == ['-'] then -Parse(digits, base) else Parse(digits, base)
  }

  /** Sign and digits read back as the number, zero padding or not, exactly when the number is not negative or the
      base is ten: in other bases the sign is dropped. */
  lemma SignedReadsBack(v: int, fs: Spec, zeros: nat)
    requires IsInt64(v)
    ensures var base := BaseOf(fs.typ, false);
            (ReadSigned(SignOf(v, fs), Repeat('0', zeros) + Digits(Magnitude(v), base, fs.uppercase), base) == v
             <==> v >= 0 || base == 10)
  {
    hide Digits, Parse, Repeat;
    var base := BaseOf(fs.typ, false);
    ParseDigits(Magnitude(v), base, fs.uppercase);
    ZerosInFront(zeros, Digits(Magnitude(v), base, fs.uppercase), base);
  }

  /** So in another base a number and its negative print alike. */
  lemma SignLost(v: int, fs: Spec)
    requires IsInt64(v) && BaseOf(fs.typ, false) != 10 && fs.typ != 'c'
    ensures SignedText(v, fs) == SignedText(-v, fs)
  {
  }

  /** Decimal text takes the padding off to a sign and digits that only the number itself prints. */
  lemma DecimalDistinct(v: int, w: int, fs: Spec)
    requires IsInt64(v) && IsInt64(w) && BaseOf(fs.typ, false) == 10
    requires SignOf(v, fs) + Digits(Magnitude(v), 10, fs.uppercase) ==
              SignOf(w, fs) + Digits(Magnitude(w), 10, fs.uppercase)
    ensures v == w
  {
    hide Parse, Digits, ValueOf, Digit;
    var dv, dw := Digits(Magnitude(v), 10, fs.uppercase), Digits(Magnitude(w), 10, fs.uppercase);
    ParseDigits(Magnitude(v), 10, fs.uppercase);
    ParseDigits(Magnitude(w), 10, fs.uppercase);
    FirstIsDigit(dv, 10, fs.uppercase);
    FirstIsDigit(dw, 10, fs.uppercase);
    SplitSign(SignOf(v, fs), dv, SignOf(w, fs), dw);
  }

  lemma FirstIsDigit(s: seq<char>, base: nat, upper: bool)
    requires AllDigits(s, base, upper) && s != []
    ensures s[0] != '-' && s[0] != '+' && s[0] != ' '
  {
  }

  lemma SplitSign(s: seq<char>, d: seq<char>, t: seq<char>, e: seq<char>)
    requires |s| <= 1 && |t| <= 1 && d != [] && e != [] && s + d == t + e
    requires s != [] ==> s[0] != e[0]
    requires t != [] ==> t[0] != d[0]
    ensures s == t && d == e
  {
    FrontOf(s, d);
    FrontOf(t, e);
    assert |s| == |t|;
    assert d == (s + d)[|s|..] && e == (t + e)[|t|..];
  }

  lemma FrontOf(s: seq<char>, d: seq<char>)
    requires d != []
    ensures (s + d)[0] == if s == [] then d[0] else s[0]
  {
  }

  // ----- The loops

  /** Writes the digits backwards, the last just before `end`. */
  method FormatUintRev(value: nat, base: nat, upper: bool, buffer: array<char>, end: nat) returns (count: nat)
    requires 2 <= base <= 16 && value < U64 && 64 <= end <= buffer.Length
    modifies buffer
    ensures count <= 64 && |Digits(value, base, upper)| == count
    ensures buffer[..] == old(buffer[..end - count]) + Digits(value, base, upper) + old(buffer[end..])
  {
    hide Digits, Digit, Power, Parse;
    AtMost64(value, base, upper);
    var p: nat, v: nat := end, value;
    ghost var was, digits, left, tail := buffer[..], Digits(value, base, upper), Digits(value, base, upper), [];
    while true
      invariant left == Digits(v, base, upper) && |left| <= p && p + |tail| == end
      invariant digits == left + tail && buffer[..] == was[..p] + tail + was[end..]
      decreases v
    {
      if v < base {
        OneDigit(v, base, upper);
        DivModUnique(v, base, 0, v);
      } else {
        DigitsStep(v, base, upper);
      }
      p := p - 1;
      buffer[p] := Digit(v % base, upper);
      WrittenInFront(was, tail, p, end, buffer[p]);
      tail := [buffer[p]] + tail;
      if v < base {
        assert digits == tail;
        break;
      }
      v := v / base;
      Regroup(Digits(v, base, upper), tail[0], tail[1..]);
      left := Digits(v, base, upper);
    }
    count := end - p;
    assert was[..end - count] == was[..p];
  }

  lemma WrittenInFront(was: seq<char>, tail: seq<char>, p: nat, end: nat, c: char)
    requires p + 1 + |tail| == end <= |was|
    ensures (was[..p + 1] + tail + was[end..])[p := c] == was[..p] + ([c] + tail) + was[end..]
  {
  }

  lemma Regroup(a: seq<char>, c: char, b: seq<char>)
    ensures a + [c] + b == a + ([c] + b)
  {
  }

  class Printer {
    var out: seq<char>

    constructor ()
      ensures out == []
    {
      out := [];
    }

    method EmitN(c: char, count: nat)
      modifies this
      ensures out == old(out) + Repeat(c, count)
    {
      for i := 0 to count
        invariant out == old(out) + Repeat(c, i)
      {
        out := out + [c];
      }
    }

    method EmitStr(s: seq<char>)
      modifies this
      ensures out == old(out) + s
    {
      for i := 0 to |s|
        invariant out == old(out) + s[..i]
      {
        out := out + [s[i]];
      }
    }

    method EmitPaddedNumeric(sign: seq<char>, prefix: seq<char>, digits: seq<char>, fs: Spec)
      modifies this
      ensures out == old(out) + Padded(sign, prefix, digits, fs)
    {
      hide Repeat;
      var core, pad := |sign| + |prefix| + |digits|, 0;
      if fs.width > core {
        pad := fs.width - core;
      }
      if fs.align == '>' && fs.zero {
        EmitStr(sign);
        EmitStr(prefix);
        EmitN('0', pad);
        EmitStr(digits);
        return;
      }
      var left, right := 0, 0;
      if fs.align == '<' {
        right := pad;
      } else if fs.align == '^' {
        left := pad / 2;
        right := pad - left;
      } else {
        left := pad;
      }
      EmitN(fs.fill, left);
      EmitStr(sign);
      EmitStr(prefix);
      EmitStr(digits);
      EmitN(fs.fill, right);
    }

    method FormatAndEmitUnsigned(v: nat, fs: Spec, pointer: bool)
      requires v < U64
      modifies this
      ensures out == old(out) + UnsignedText(v, fs, pointer)
    {
      hide Padded, Digits;
      if fs.typ == 'c' {
        EmitStr([(v % 256) as char]);
        return;
      }
      var buffer := new char[67];
      var base := UnsignedBase(fs);
      var count := FormatUintRev(v, base, fs.uppercase, buffer, 67);
      var prefix := UnsignedPrefix(fs, pointer);
      EmitPaddedNumeric([], prefix, buffer[67 - count..67], fs);
    }

    method FormatAndEmitSigned(v: int, fs: Spec)
      requires IsInt64(v)
      modifies this
      ensures out == old(out) + SignedText(v, fs)
    {
      hide Padded, Digits;
      if fs.typ == 'c' {
        EmitStr([(v % 256) as char]);
        return;
      }
      var base := BaseOf(fs.typ, false);
      MagnitudeFits(v);
      var buffer := new char[66];
      var count := FormatUintRev(Magnitude(v), base, fs.uppercase, buffer, 66);
      EmitPaddedNumeric(SignOf(v, fs), SignedPrefix(fs), buffer[66 - count..66], fs);
    }
  }
}
