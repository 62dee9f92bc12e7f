/** memcpy: copies by 8-byte words, 4-byte words or bytes, depending on how the addresses and the length divide. */
module CString {
  import opened ByteMemory

  /** Loop counters are C ints: a loop over words must stay below this many. */
  const INT_LIMIT: nat := 0x8000_0000

  /** The reference: bytes a..b copied one at a time, lowest first. */
  function ByteCopy(m: Memory, dst: nat, src: nat, a: nat, b: nat): (after: Memory)
    requires dst + b <= |m| && src + b <= |m|
    ensures |after| == |m|
    decreases b - a
  {
    if a >= b then m else ByteCopy(m[dst + a := m[src + a]], dst, src, a + 1, b)
  }

  /** The loop over `w`-byte units: unit i is loaded whole, then stored whole. */
  function UnitCopy(m: Memory, dst: nat, src: nat, w: nat, i: nat, n: nat): (after: Memory)
    ensures |after| == |m|
    decreases n - i
  {
    if i >= n then m else UnitCopy(Store(m, dst + w * i, w, Load(m, src + w * i, w)), dst, src, w, i + 1, n)
  }

  // ----- One unit is w bytes

  lemma {:induction false} ByteCopySplit(m: Memory, dst: nat, src: nat, a: nat, b: nat, c: nat)
    requires a <= b <= c && dst + c <= |m| && src + c <= |m|
    ensures ByteCopy(m, dst, src, a, c) == ByteCopy(ByteCopy(m, dst, src, a, b), dst, src, b, c)
    decreases b - a
  {
    if a < b {
      ByteCopySplit(m[dst + a := m[src + a]], dst, src, a + 1, b, c);
    }
  }

  lemma OneByte(m: Memory, dst: nat, src: nat, a: nat)
    requires dst + a < |m| && src + a < |m|
    ensures ByteCopy(m, dst, src, a, a + 1) == m[dst + a := m[src + a]]
  {
  }

  lemma {:induction false} NoByte(m: Memory, dst: nat, src: nat, a: nat)
    requires dst + a <= |m| && src + a <= |m|
    ensures ByteCopy(m, dst, src, a, a) == m == m[..dst + a] + m[src + a..src + a] + m[dst + a..]
  {
  }

  /** One more byte behind `j` copied ones, taken from where nothing has been written. */
  lemma CopiedOn(m: Memory, d: nat, s: nat, j: nat)
    requires d + j < |m| && s + j < |m| && !(d <= s + j < d + j)
    ensures var part := m[..d] + m[s..s + j] + m[d + j..];
            |part| == |m| && part[d + j := part[s + j]] == m[..d] + m[s..s + j + 1] + m[d + j + 1..]
  {
  }

  /** Within fewer bytes than the distance between the buffers, copying one at a time never reads a byte it wrote. */
  lemma {:induction false} ShortCopy(m: Memory, dst: nat, src: nat, a: nat, j: nat, w: nat)
    requires j <= w && dst + a + j <= |m| && src + a + j <= |m|
    requires dst == src || dst >= src + w || src >= dst + w
    ensures ByteCopy(m, dst, src, a, a + j) == m[..dst + a] + m[src + a..src + a + j] + m[dst + a + j..]
    decreases j
  {
    hide ByteCopy;
    if j == 0 {
      NoByte(m, dst, src, a);
    } else {
      var k := j - 1;
      ShortCopy(m, dst, src, a, k, w);
      CopiedOn(m, dst + a, src + a, k);
      ByteCopySplit(m, dst, src, a, a + k, a + j);
      OneByte(ByteCopy(m, dst, src, a, a + k), dst, src, a + k);
    }
  }

  lemma NextUnit(w: nat, i: nat, n: nat)
    requires i < n
    ensures w * (i + 1) == w * i + w <= w * n
  {
    assert w * n == w * (i + 1) + w * (n - i - 1);
  }

  lemma OneUnit(m: Memory, dst: nat, src: nat, w: nat, i: nat, n: nat)
    requires i < n
    ensures UnitCopy(m, dst, src, w, i, n)
         == UnitCopy(Store(m, dst + w * i, w, Load(m, src + w * i, w)), dst, src, w, i + 1, n)
  {
    hide Store, Load;
  }

  lemma UnitIsBytes(m: Memory, dst: nat, src: nat, w: nat, a: nat)
    requires dst + a + w <= |m| && src + a + w <= |m|
    requires dst == src || dst >= src + w || src >= dst + w
    ensures Store(m, dst + a, w, Load(m, src + a, w)) == ByteCopy(m, dst, src, a, a + w)
  {
    hide Store, Load, ByteCopy;
    StoreLoaded(m, dst + a, src + a, w);
    ShortCopy(m, dst, src, a, w, w);
  }

  /** Copying by units is copying by bytes when the buffers are no closer than a unit, overlapping or not. */
  lemma {:induction false} UnitsAreBytes(m: Memory, dst: nat, src: nat, w: nat, i: nat, n: nat)
    requires i <= n && dst + w * n <= |m| && src + w * n <= |m| && w * i <= w * n
    requires dst == src || dst >= src + w || src >= dst + w
    ensures UnitCopy(m, dst, src, w, i, n) == ByteCopy(m, dst, src, w * i, w * n)
    decreases n - i
  {
    hide Store, Load;
    if i < n {
      NextUnit(w, i, n);
      OneUnit(m, dst, src, w, i, n);
      UnitIsBytes(m, dst, src, w, w * i);
      UnitsAreBytes(ByteCopy(m, dst, src, w * i, w * i + w), dst, src, w, i + 1, n);
      ByteCopySplit(m, dst, src, w * i, w * i + w, w * n);
    }
  }

  lemma Multiples(dst: nat, src: nat, w: nat)
    requires w == 4 || w == 8
    requires dst % w == 0 && src % w == 0
    ensures dst == src || dst >= src + w || src >= dst + w
  {
  }

  // ----- What the byte copy delivers

  /** Bytes outside the destination are as they were. */
  lemma {:induction false} CopyConfined(m: Memory, dst: nat, src: nat, a: nat, b: nat, x: nat)
    requires dst + b <= |m| && src + b <= |m| && x < |m| && !(dst + a <= x < dst + b)
    ensures ByteCopy(m, dst, src, a, b)[x] == m[x]
    decreases b - a
  {
    if a < b {
      CopyConfined(m[dst + a := m[src + a]], dst, src, a + 1, b, x);
    }
  }

  /** Unless the destination starts inside the source, every destination byte is the source byte as it was. */
  lemma {:induction false} CopyDelivers(m: Memory, dst: nat, src: nat, a: nat, b: nat, i: nat)
    requires a <= i < b && dst + b <= |m| && src + b <= |m|
    requires dst <= src || dst >= src + b
    ensures ByteCopy(m, dst, src, a, b)[dst + i] == m[src + i]
    decreases b - a
  {
    var m' := m[dst + a := m[src + a]];
    if a == i {
      CopyConfined(m', dst, src, a + 1, b, dst + i);
    } else {
      CopyDelivers(m', dst, src, a + 1, b, i);
    }
  }

  /** When it does start inside the source, the source's first byte comes back at twice the distance. */
  lemma {:induction false} OverlapSmears(m: Memory, dst: nat, src: nat, num: nat)
    requires src < dst < src + num && dst + num <= |m| && src + num <= |m|
    ensures ByteCopy(m, dst, src, 0, num)[dst + (dst - src)] == m[src]
  {
    var d := dst - src;
    var first := ByteCopy(m, dst, src, 0, 1);
    assert first == m[dst := m[src]];
    ByteCopySplit(m, dst, src, 0, 1, num);
    var before := ByteCopy(first, dst, src, 1, d);
    ByteCopySplit(first, dst, src, 1, d, num);
    CopyConfined(first, dst, src, 1, d, src + d) by {
      assert src + d == dst;
    }
    assert before[src + d] == m[src];
    CopyConfined(before[dst + d := before[src + d]], dst, src, d + 1, num, dst + d);
  }

  /** A forward copy delivers every source there can be exactly when the destination does not start inside it. */
  lemma DeliversExactly(length: nat, dst: nat, src: nat, num: nat)
    requires dst + num <= length && src + num <= length
    ensures (forall m: Memory :: |m| == length ==> ByteCopy(m, dst, src, 0, num)[dst..dst + num] == m[src..src + num])
       <==> !(src < dst < src + num)
  {
    hide ByteCopy;
    if src < dst < src + num {
      var m: Memory := seq(length, x => if x == src then 1 else 0);
      OverlapSmears(m, dst, src, num);
      var after, d := ByteCopy(m, dst, src, 0, num), dst - src;
      assert after[dst..dst + num][d] == 1 && m[src..src + num][d] == 0;
    } else {
      forall m: Memory | |m| == length ensures ByteCopy(m, dst, src, 0, num)[dst..dst + num] == m[src..src + num] {
        AllDelivered(m, dst, src, num);
      }
    }
  }

  lemma {:induction false} AllDelivered(m: Memory, dst: nat, src: nat, num: nat)
    requires dst + num <= |m| && src + num <= |m| && !(src < dst < src + num)
    ensures ByteCopy(m, dst, src, 0, num)[dst..dst + num] == m[src..src + num]
  {
    hide ByteCopy;
    var there, here := ByteCopy(m, dst, src, 0, num)[dst..dst + num], m[src..src + num];
    forall i: nat | i < num ensures there[i] == here[i] {
      CopyDelivers(m, dst, src, 0, num, i);
    }
  }

  /** Both addresses and the length are multiples of the unit. */
  predicate Divides(w: nat, destination: nat, source: nat, num: nat)
    requires w > 0
  {
    source % w == 0 && destination % w == 0 && num % w == 0
  }

  /** Where a word loop is taken, its counter reaches its end. */
  predicate CountsFit(destination: nat, source: nat, num: nat) {
    if Divides(8, destination, source, num) then num / 8 < INT_LIMIT
    else Divides(4, destination, source, num) ==> num / 4 < INT_LIMIT
  }

  /** memcpy on memory addressed by byte number; address zero is the null pointer. Whatever branch it takes, and
      however the buffers overlap, it leaves what the byte-by-byte forward copy leaves. The word loops count in an
      int. */
  method Memcpy(mem: array<Byte>, destination: nat, source: nat, num: nat) returns (r: nat)
    requires destination != 0 && source != 0 ==> destination + num <= mem.Length && source + num <= mem.Length
    requires destination == 0 || source == 0 || CountsFit(destination, source, num)
    modifies mem
    ensures destination == 0 || source == 0 ==> r == 0 && mem[..] == old(mem[..])
    ensures destination != 0 && source != 0 ==>
              r == destination && mem[..] == ByteCopy(old(mem[..]), destination, source, 0, num)
  {
    if destination == 0 || source == 0 {
      return 0;
    }
    ghost var m := mem[..];
    if Divides(8, destination, source, num) {
      Multiples(destination, source, 8);
      CopyUnits(mem, destination, source, 8, num / 8);
      return destination;
    }
    if Divides(4, destination, source, num) {
      Multiples(destination, source, 4);
      CopyUnits(mem, destination, source, 4, num / 4);
      return destination;
    }
    for i := 0 to num
      invariant ByteCopy(mem[..], destination, source, i, num) == ByteCopy(m, destination, source, 0, num)
    {
      ghost var now := mem[..];
      mem[destination + i] := mem[source + i];
      assert mem[..] == now[destination + i := now[source + i]];
    }
    return destination;
  }

  /** The word loops of memcpy. */
  method CopyUnits(mem: array<Byte>, destination: nat, source: nat, w: nat, n: nat)
    requires w > 0 && n < INT_LIMIT && destination + w * n <= mem.Length && source + w * n <= mem.Length
    requires destination == source || destination >= source + w || source >= destination + w
    modifies mem
    ensures mem[..] == ByteCopy(old(mem[..]), destination, source, 0, w * n)
  {
    hide *;
    ghost var m := mem[..];
    for i := 0 to n
      invariant UnitCopy(mem[..], destination, source, w, i, n) == UnitCopy(m, destination, source, w, 0, n)
    {
      OneUnit(mem[..], destination, source, w, i, n);
      var word := ReadNumber(mem, source + w * i, w);
      WriteNumber(mem, destination + w * i, w, word);
    }
    Finished(mem[..], destination, source, w, n);
    UnitsAreBytes(m, destination, source, w, 0, n);
  }

  lemma {:induction false} Finished(m: Memory, dst: nat, src: nat, w: nat, n: nat)
    ensures UnitCopy(m, dst, src, w, n, n) == m
  {
  }
}
