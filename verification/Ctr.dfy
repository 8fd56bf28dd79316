/** AES counter mode as scripts/decrypt_self.py runs it: one 128-bit big-endian counter,
    started at the initialisation vector and stepped once per 16-byte block
    (section 6.5 of NIST SP 800-38A).  The block cipher is a parameter. */
module Ctr {
  import opened Bytes

  /** CounterOverflow is the OverflowError of `ctr.to_bytes(16, 'big')`. */
  datatype Result = Ok(bytes: seq<byte>) | CounterOverflow

  /** The number of 128-bit counter values. */
  const COUNTERS: nat := 0x1_0000_0000_0000_0000_0000_0000_0000_0000

  /** Blocks a string of n bytes touches. */
  function Blocks(n: nat): nat {
    (n + 15) / 16
  }

  /** Every counter value the data needs is a 128-bit number. */
  predicate Fits(ctr: nat, n: nat) {
    n == 0 || ctr + Blocks(n) <= COUNTERS
  }

  /** The keystream byte for position k of data started at counter value ctr. */
  function KeyByte(enc: Block -> Block, ctr: nat, k: nat): byte {
    enc(BeBytes(ctr + k / 16, 16))[k % 16]
  }

  function Stream(enc: Block -> Block, ctr: nat, data: seq<byte>): (out: seq<byte>)
    ensures |out| == |data|
  {
    seq(|data|, k requires 0 <= k < |data| => Xor(data[k], KeyByte(enc, ctr, k)))
  }

  method AesCtrDec(enc: Block -> Block, iv: seq<byte>, data: seq<byte>) returns (r: Result)
    ensures r == if Fits(BeNum(iv), |data|) then Ok(Stream(enc, BeNum(iv), data)) else CounterOverflow
    ensures r.CounterOverflow? <==>
              data != [] && BeNum(iv) + (|data| - 1) / 16 >= 0x1_0000_0000_0000_0000_0000_0000_0000_0000
    ensures r.Ok? ==> |r.bytes| == |data| && forall k: nat :: k < |data| ==>
              r.bytes[k] == Xor(data[k], enc(BeBytes(BeNum(iv) + k / 16, 16))[k % 16])
  {
    var out := new byte[|data|];
    var ctr := BeNum(iv);
    ghost var start := ctr;
    var i := 0;
    while i < |data|
      invariant i % 16 == 0 && ctr == start + i / 16
      invariant i < |data| + 16
      invariant 0 < i ==> ctr <= COUNTERS
      invariant forall k: nat :: k < i && k < |data| ==> out[k] == Xor(data[k], KeyByte(enc, start, k))
    {
      if ctr >= COUNTERS {
        return CounterOverflow;
      }
      MaskChunk(enc, ctr, data, out, i, start);
      ctr := ctr + 1;
      i := i + 16;
    }
    assert out[..] == Stream(enc, start, data);
    return Ok(out[..]);
  }

  /** Masks the block at offset i with the block cipher's image of the counter. */
  method MaskChunk(enc: Block -> Block, ctr: nat, data: seq<byte>, out: array<byte>, i: nat, ghost start: nat)
    requires i < |data| == out.Length && i % 16 == 0 && ctr == start + i / 16
    modifies out
    ensures forall k: nat :: i <= k < i + 16 && k < |data| ==> out[k] == Xor(data[k], KeyByte(enc, start, k))
    ensures forall k: nat :: k < |data| && !(i <= k < i + 16) ==> out[k] == old(out[k])
  {
    hide KeyByte, Xor, BeBytes;
    var keystream := enc(BeBytes(ctr, 16));
    var chunk := data[i..if i + 16 <= |data| then i + 16 else |data|];
    for j := 0 to |chunk|
      invariant forall k: nat :: i <= k < i + j ==> out[k] == Xor(data[k], KeyByte(enc, start, k))
      invariant forall k: nat :: k < |data| && !(i <= k < i + j) ==> out[k] == old(out[k])
    {
      KeyByteInBlock(enc, start, i, j);
      out[i + j] := Xor(chunk[j], keystream[j]);
    }
  }

  lemma KeyByteInBlock(enc: Block -> Block, start: nat, i: nat, j: nat)
    requires i % 16 == 0 && j < 16
    ensures KeyByte(enc, start, i + j) == enc(BeBytes(start + i / 16, 16))[j]
  {
    assert (i + j) / 16 == i / 16 && (i + j) % 16 == j;
  }

  /** Decryption and encryption are one operation. */
  lemma StreamInvolution(enc: Block -> Block, ctr: nat, data: seq<byte>)
    ensures Stream(enc, ctr, Stream(enc, ctr, data)) == data
  {
    forall k: nat | k < |data|
      ensures Stream(enc, ctr, Stream(enc, ctr, data))[k] == data[k]
    {
      XorCancels(data[k], KeyByte(enc, ctr, k));
    }
  }

  /** Data may be decrypted in pieces cut at block boundaries, the counter advanced by the
      blocks already consumed; the pieces fail exactly when the whole does. */
  lemma StreamSplits(enc: Block -> Block, ctr: nat, a: seq<byte>, b: seq<byte>)
    requires |a| % 16 == 0
    ensures Stream(enc, ctr, a + b) == Stream(enc, ctr, a) + Stream(enc, ctr + |a| / 16, b)
    ensures Fits(ctr, |a + b|) <==> Fits(ctr, |a|) && Fits(ctr + |a| / 16, |b|)
  {
    forall k: nat | k < |a + b|
      ensures Stream(enc, ctr, a + b)[k] == (Stream(enc, ctr, a) + Stream(enc, ctr + |a| / 16, b))[k]
    {
      if k >= |a| {
        assert k / 16 == |a| / 16 + (k - |a|) / 16 && k % 16 == (k - |a|) % 16;
      }
    }
    assert Blocks(|a| + |b|) == |a| / 16 + Blocks(|b|);
  }

  /** While the data fits, no two of its blocks are masked with the same counter block. */
  lemma CounterBlocksDistinct(ctr: nat, n: nat, i: nat, j: nat)
    requires Fits(ctr, n) && i < j < Blocks(n)
    ensures BeBytes(ctr + i, 16) != BeBytes(ctr + j, 16)
  {
    if BeBytes(ctr + i, 16) == BeBytes(ctr + j, 16) {
      assert Pow256(16) == COUNTERS by {
        assert Pow256(8) == 0x1_0000_0000_0000_0000;
      }
      BeBytesInjective(ctr + i, ctr + j, 16);
    }
  }
}
