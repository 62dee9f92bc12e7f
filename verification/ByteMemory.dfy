/** Byte-addressed memory with little-endian loads and stores. */
module ByteMemory {
  import opened Arithmetic

  type Byte = b: nat | b < 256

  type Memory = seq<Byte>

  const WORD: nat := 8

  /** The number spelled by the bytes, least significant first. */
  function FromBytes(b: seq<Byte>): (v: nat)
    ensures v < Pow256(|b|)
  {
    if b == [] then 0 else b[0] + 256 * FromBytes(b[1..])
  }

  function ToBytes(v: nat, n: nat): (b: seq<Byte>)
    ensures |b| == n
  {
    if n == 0 then [] else [v % 256] + ToBytes(v / 256, n - 1)
  }

  function Pow256(n: nat): (p: nat)
    ensures p > 0
  {
    if n == 0 then 1 else 256 * Pow256(n - 1)
  }

  lemma {:induction false} FromToBytes(v: nat, n: nat)
    requires v < Pow256(n)
    ensures FromBytes(ToBytes(v, n)) == v
  {
    if n > 0 {
      FromToBytes(v / 256, n - 1);
      assert ToBytes(v, n)[1..] == ToBytes(v / 256, n - 1);
    }
  }

  lemma {:induction false} ToFromBytes(b: seq<Byte>)
    ensures ToBytes(FromBytes(b), |b|) == b
  {
    if b != [] {
      var rest := FromBytes(b[1..]);
      ToFromBytes(b[1..]);
      DivModUnique(FromBytes(b), 256, rest, b[0]);
      ToBytesStep(FromBytes(b), |b|);
      assert b == [b[0]] + b[1..];
    }
  }

  /** An n-byte load; a load that runs off the end of memory gives 0. */
  function Load(m: Memory, a: nat, n: nat): nat {
    if a + n <= |m| then FromBytes(m[a..a + n]) else 0
  }

  /** An n-byte store; a store that runs off the end of memory is lost. */
  function Store(m: Memory, a: nat, n: nat, v: nat): (after: Memory)
    ensures |after| == |m|
  {
    if a + n <= |m| then m[..a] + ToBytes(v, n) + m[a + n..] else m
  }

  lemma {:induction false} LoadStored(m: Memory, a: nat, n: nat, v: nat)
    requires a + n <= |m| && v < Pow256(n)
    ensures Load(Store(m, a, n, v), a, n) == v
  {
    FromToBytes(v, n);
    assert Store(m, a, n, v)[a..a + n] == ToBytes(v, n);
  }

  lemma StoreElsewhere(m: Memory, a: nat, n: nat, v: nat)
    ensures forall x :: 0 <= x < |m| && !(a <= x < a + n) ==> Store(m, a, n, v)[x] == m[x]
  {
  }

  /** Storing what was loaded copies the bytes. */
  lemma StoreLoaded(m: Memory, a: nat, b: nat, n: nat)
    requires a + n <= |m| && b + n <= |m|
    ensures Store(m, a, n, Load(m, b, n)) == m[..a] + m[b..b + n] + m[a + n..]
  {
    ToFromBytes(m[b..b + n]);
  }

  /** A word's load sees only the bytes it covers. */
  lemma LoadKept(m: Memory, after: Memory, a: nat)
    requires |after| == |m|
    requires forall x :: a <= x < a + WORD && x < |m| ==> after[x] == m[x]
    ensures Load(after, a, WORD) == Load(m, a, WORD)
  {
    if a + WORD <= |m| {
      assert after[a..a + WORD] == m[a..a + WORD];
    }
  }

  lemma Pow256Of8()
    ensures Pow256(8) == U64
  {
    assert Pow256(4) == 0x1_0000_0000;
  }

  // ----- In place

  lemma ToBytesStep(v: nat, n: nat)
    requires n > 0
    ensures ToBytes(v, n)[0] == v % 256 && ToBytes(v, n)[1..] == ToBytes(v / 256, n - 1)
  {
  }

  lemma OneMoreByte(m: Memory, a: nat, bytes: seq<Byte>, i: nat)
    requires i < |bytes| && a + |bytes| <= |m|
    ensures (m[..a] + bytes[..i] + m[a + i..])[a + i := bytes[i]] == m[..a] + bytes[..i + 1] + m[a + i + 1..]
    ensures bytes[i..][1..] == bytes[i + 1..]
  {
  }

  /** Reads an n-byte number, most significant byte first into the result. */
  method ReadNumber(mem: array<Byte>, a: nat, n: nat) returns (v: nat)
    ensures v == Load(mem[..], a, n)
  {
    v := 0;
    if a + n <= mem.Length {
      for i := n downto 0
        invariant v == FromBytes(mem[a + i..a + n])
      {
        assert mem[a + i..a + n][1..] == mem[a + i + 1..a + n];
        v := mem[a + i] + 256 * v;
      }
    }
  }

  lemma {:induction false} WrittenOut(m: Memory, a: nat, n: nat, v: nat)
    requires a + n <= |m|
    ensures Store(m, a, n, v) == m[..a] + ToBytes(v, n)[..n] + m[a + n..]
  {
    assert ToBytes(v, n)[..n] == ToBytes(v, n);
  }

  /** Writes an n-byte number, least significant byte first. */
  method WriteNumber(mem: array<Byte>, a: nat, n: nat, v: nat)
    modifies mem
    ensures mem[..] == Store(old(mem[..]), a, n, v)
  {
    if a + n <= mem.Length {
      WriteInside(mem, a, n, v);
    }
  }

  method WriteInside(mem: array<Byte>, a: nat, n: nat, v: nat)
    requires a + n <= mem.Length
    modifies mem
    ensures mem[..] == Store(old(mem[..]), a, n, v)
  {
    hide ToBytes, Store;
    ghost var m, bytes := mem[..], ToBytes(v, n);
    ToBytesLength(v, n);
    var left := v;
    assert m == m[..a] + bytes[..0] + m[a..] && bytes[0..] == bytes;
    for i := 0 to n
      invariant mem[..] == m[..a] + bytes[..i] + m[a + i..]
      invariant ToBytes(left, n - i) == bytes[i..]
    {
      ToBytesStep(left, n - i);
      OneMoreByte(m, a, bytes, i);
      mem[a + i] := left % 256;
      left := left / 256;
    }
    WrittenOut(m, a, n, v);
  }

  lemma {:induction false} ToBytesLength(v: nat, n: nat)
    ensures |ToBytes(v, n)| == n
  {
  }
}
