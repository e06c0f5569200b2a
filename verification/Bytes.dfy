/**
 Byte buffers: zero fill, overwriting a part, and little-endian numbers.
 */
module Bytes {
  import opened Ranges

  function Zeros(length: nat): (z: seq<Byte>)
    ensures |z| == length && forall i :: 0 <= i < length ==> z[i] == 0
  {
    seq(length, _ => 0)
  }

  function Blit(buffer: seq<Byte>, offset: nat, data: seq<Byte>): (r: seq<Byte>)
    requires offset + |data| <= |buffer|
    ensures |r| == |buffer|
    ensures forall i :: 0 <= i < |buffer| ==>
              r[i] == if offset <= i < offset + |data| then data[i - offset] else buffer[i]
  {
    buffer[..offset] + data + buffer[offset + |data|..]
  }

  // Little-endian numbers

  function Pow256(n: nat): nat {
    if n == 0 then 1 else 256 * Pow256(n - 1)
  }

  lemma Pow256Values()
    ensures Pow256(2) == 0x1_0000 && Pow256(4) == 0x1_0000_0000 && Pow256(8) == U64_LIMIT
  {
    assert Pow256(4) == 256 * (256 * (256 * (256 * Pow256(0))));
    assert Pow256(8) == 256 * (256 * (256 * (256 * Pow256(4))));
  }

  function ToLe(v: nat, n: nat): (r: seq<Byte>)
    ensures |r| == n
  {
    if n == 0 then [] else [v % 256] + ToLe(v / 256, n - 1)
  }

  function FromLe(bytes: seq<Byte>): nat {
    if bytes == [] then 0 else bytes[0] + 256 * FromLe(bytes[1..])
  }

  lemma {:induction false} LeRoundTrip(v: nat, n: nat)
    requires v < Pow256(n)
    ensures FromLe(ToLe(v, n)) == v
  {
    if n > 0 {
      LeRoundTrip(v / 256, n - 1);
      assert ToLe(v, n)[1..] == ToLe(v / 256, n - 1);
    }
  }

  lemma {:induction false} LeUnique(bytes: seq<Byte>)
    ensures FromLe(bytes) < Pow256(|bytes|)
    ensures ToLe(FromLe(bytes), |bytes|) == bytes
  {
    if bytes != [] {
      LeUnique(bytes[1..]);
      assert FromLe(bytes) % 256 == bytes[0] && FromLe(bytes) / 256 == FromLe(bytes[1..]);
      assert bytes == [bytes[0]] + bytes[1..];
    }
  }

  // Text and blocks

  predicate NulFree(s: seq<Byte>) {
    0 !in s
  }

  function Concat(blocks: seq<seq<Byte>>): seq<Byte> {
    if blocks == [] then [] else blocks[0] + Concat(blocks[1..])
  }

  lemma {:induction false} ConcatAppend(blocks: seq<seq<Byte>>, more: seq<Byte>)
    ensures Concat(blocks + [more]) == Concat(blocks) + more
  {
    if blocks == [] {
      assert Concat([more]) == more + Concat([]);
    } else {
      ConcatAppend(blocks[1..], more);
      assert (blocks + [more])[1..] == blocks[1..] + [more];
    }
  }

  lemma EmptyConcat()
    ensures Concat([]) == []
  {}
}
