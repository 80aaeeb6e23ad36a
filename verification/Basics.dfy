/** Types and functions every part of the model uses. */
module Basics {
  type byte = n: nat | n < 256

  const WORD32: nat := 0x1_0000_0000
  const WORD64: nat := 0x1_0000_0000_0000_0000

  datatype Option<T> = None | Some(value: T)

  /** Four bytes, least significant first. */
  function Little(b0: nat, b1: nat, b2: nat, b3: nat): nat {
    b0 + 0x100 * b1 + 0x1_0000 * b2 + 0x100_0000 * b3
  }

  /** Byte `k` of a number, least significant first. */
  function LittleByte(n: nat, k: nat): byte
    requires k < 4
  {
    if k == 0 then n % 0x100 else if k == 1 then n / 0x100 % 0x100
    else if k == 2 then n / 0x1_0000 % 0x100 else n / 0x100_0000 % 0x100
  }

  lemma LittleBytes(n: nat)
    requires n < 0x1_0000_0000
    ensures Little(LittleByte(n, 0), LittleByte(n, 1), LittleByte(n, 2), LittleByte(n, 3)) == n
  {
    var a, b := n / 0x100, n / 0x1_0000;
    assert a / 0x100 == b && b / 0x100 == n / 0x100_0000;
    assert n == a * 0x100 + n % 0x100 && a == b * 0x100 + a % 0x100;
    assert b == b / 0x100 * 0x100 + b % 0x100 && b / 0x100 < 0x100;
  }

  /** The first byte is the lowest. */
  lemma LittleDigits(b0: byte, b1: byte, b2: byte, b3: byte)
    ensures var n := Little(b0, b1, b2, b3);
            n % 0x100 == b0 && n / 0x100 % 0x100 == b1 && n / 0x1_0000 % 0x100 == b2 && n / 0x100_0000 == b3
  {
    var n := Little(b0, b1, b2, b3);
    var n1: nat := b1 + 0x100 * (b2 as int) + 0x1_0000 * (b3 as int);
    var n2: nat := b2 + 0x100 * (b3 as int);
    assert n == b0 + 0x100 * n1 && n1 == b1 + 0x100 * n2;
    assert n / 0x100 == n1 && n1 / 0x100 == n2 && n2 / 0x100 == b3;
    assert n / 0x1_0000 == n2 && n / 0x100_0000 == b3;
  }

  function Min(a: nat, b: nat): nat { if a < b then a else b }
  function Max(a: nat, b: nat): nat { if a < b then b else a }

  function ZeroBytes(n: nat): (z: seq<byte>)
    ensures |z| == n && forall i :: 0 <= i < n ==> z[i] == 0
  {
    seq(n, _ => 0)
  }

  lemma Regroup<T>(a: seq<T>, b: seq<T>, c: seq<T>)
    ensures (a + b) + c == a + (b + c) && a + [] == a
  {
  }

  /** Laying `data` over `bytes` at `offset`. */
  function Patch(bytes: seq<byte>, offset: nat, data: seq<byte>): (p: seq<byte>)
    requires offset <= |bytes|
    ensures |p| == Max(|bytes|, offset + |data|)
    ensures forall i :: 0 <= i < |p| ==>
              p[i] == if offset <= i < offset + |data| then data[i - offset] else bytes[i]
  {
    bytes[..offset] + data + (if offset + |data| < |bytes| then bytes[offset + |data|..] else [])
  }

  /** What reading `size` bytes at `offset` should give. */
  function Slice(bytes: seq<byte>, offset: nat, size: nat): seq<byte> {
    if offset >= |bytes| then [] else bytes[offset..Min(offset + size, |bytes|)]
  }

  /** Reading back the range just written gives the data; every range apart from it
      reads as before. */
  lemma PatchReadsBack(bytes: seq<byte>, offset: nat, data: seq<byte>, at: nat, n: nat)
    requires offset <= |bytes|
    ensures Slice(Patch(bytes, offset, data), offset, |data|) == data
    ensures at + n <= offset || offset + |data| <= at ==>
              Slice(Patch(bytes, offset, data), at, n) == Slice(bytes, at, n)
  {
    hide Patch;
  }
}
