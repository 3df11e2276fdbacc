/**
  The keyed byte transform of the per-file worker. The worker reads its input
  in blocks of `BlockSize` bytes and XORs byte `j` of every block with key byte
  `j mod 8`: the key index starts again at every block. Because `BlockSize` is
  a multiple of 8, that block-wise transform is the same as one XOR stream over
  the whole file, and applying it twice with the same key gives the input back.
 */
module BlockTransform {

  /** `LocalHandler::blockSize`: 4 MiB. */
  const BlockSize: nat := 4 * 1024 * 1024

  /**
    The worker indexes `keyBytes[j % 8]` for every byte position `j` of a block,
    so a transform of `n` bytes reads key bytes `0 .. min(n, 8) - 1`: the key
    must have at least that many bytes.
   */
  predicate KeyCovers(keyBytes: seq<bv8>, n: nat)
  {
    8 <= |keyBytes| || n <= |keyBytes|
  }

  /** Byte `j` of `data` XORed with key byte `j mod 8`, the key index counted from the start of `data`. */
  function Xor(data: seq<bv8>, keyBytes: seq<bv8>): (r: seq<bv8>)
    requires KeyCovers(keyBytes, |data|)
    ensures |r| == |data|
  {
    seq(|data|, j requires 0 <= j < |data| => data[j] ^ keyBytes[j % 8])
  }

  /** Where the last block of an `n`-byte stream starts. */
  function LastBlockStart(n: nat): (s: nat)
    requires n > 0
    ensures s < n <= s + BlockSize
    ensures s % BlockSize == 0
  {
    ((n - 1) / BlockSize) * BlockSize
  }

  /** The bytes the worker writes for `data`: every block XORed on its own, key index restarting at each block. */
  function Blockwise(data: seq<bv8>, keyBytes: seq<bv8>): (r: seq<bv8>)
    requires KeyCovers(keyBytes, |data|)
    ensures |r| == |data|
    decreases |data|
  {
    if data == [] then []
    else
      var s := LastBlockStart(|data|);
      Blockwise(data[..s], keyBytes) + Xor(data[s..], keyBytes)
  }

  /** A whole number of blocks is a whole number of key periods. */
  lemma BlockStartsAreKeyAligned(s: nat)
    requires s % BlockSize == 0
    ensures s % 8 == 0
  {
    var q := s / BlockSize;
    assert s == 8 * (q * (BlockSize / 8));
  }

  /** Once a block boundary is passed, the stream reads on as one more block. */
  lemma BlockwiseExtend(data: seq<bv8>, keyBytes: seq<bv8>, p: nat)
    requires KeyCovers(keyBytes, |data|)
    requires p % BlockSize == 0 && p < |data| <= p + BlockSize
    ensures Blockwise(data, keyBytes) == Blockwise(data[..p], keyBytes) + Xor(data[p..], keyBytes)
  {
    var s := LastBlockStart(|data|);
    assert s == p by {
      var q, r := s / BlockSize, p / BlockSize;
      assert s == q * BlockSize && p == r * BlockSize;
      assert q == r;
    }
  }

  /** Reading one more block from a block boundary appends that block's XOR to the output. */
  lemma BlockwiseStep(data: seq<bv8>, keyBytes: seq<bv8>, position: nat, length: nat)
    requires KeyCovers(keyBytes, |data|)
    requires position % BlockSize == 0 && 0 < length <= BlockSize && position + length <= |data|
    ensures Blockwise(data[..position + length], keyBytes) ==
            Blockwise(data[..position], keyBytes) + Xor(data[position..position + length], keyBytes)
  {
    var read := data[..position + length];
    BlockwiseExtend(read, keyBytes, position);
    assert read[..position] == data[..position];
    assert read[position..] == data[position..position + length];
  }

  /** Shifting a byte position by whole key periods keeps its key index. */
  lemma KeyIndexShift(s: nat, j: nat)
    requires s % 8 == 0 && s <= j
    ensures (j - s) % 8 == j % 8
  {
    var q := s / 8;
    assert j == (j - s) + 8 * q;
  }

  /** Two XOR streams that meet at a key-aligned offset are one stream. */
  lemma XorConcat(data: seq<bv8>, keyBytes: seq<bv8>, s: nat)
    requires KeyCovers(keyBytes, |data|) && s <= |data| && s % 8 == 0
    ensures Xor(data[..s], keyBytes) + Xor(data[s..], keyBytes) == Xor(data, keyBytes)
  {
    var head, tail, whole := Xor(data[..s], keyBytes), Xor(data[s..], keyBytes), Xor(data, keyBytes);
    forall j | 0 <= j < |data|
      ensures (head + tail)[j] == whole[j]
    {
      if j >= s {
        KeyIndexShift(s, j);
        assert (head + tail)[j] == tail[j - s] == data[j] ^ keyBytes[(j - s) % 8];
      } else {
        assert (head + tail)[j] == head[j];
      }
    }
  }

  /** Restarting the key at each block changes nothing: the block-wise transform is one XOR stream. */
  lemma {:induction false} BlockwiseIsXor(data: seq<bv8>, keyBytes: seq<bv8>)
    requires KeyCovers(keyBytes, |data|)
    ensures Blockwise(data, keyBytes) == Xor(data, keyBytes)
    decreases |data|
  {
    if data != [] {
      var s := LastBlockStart(|data|);
      BlockwiseIsXor(data[..s], keyBytes);
      BlockStartsAreKeyAligned(s);
      XorConcat(data, keyBytes, s);
    }
  }

  /** The XOR stream undoes itself. */
  lemma XorInvolution(data: seq<bv8>, keyBytes: seq<bv8>)
    requires KeyCovers(keyBytes, |data|)
    ensures Xor(Xor(data, keyBytes), keyBytes) == data
  {
    var once := Xor(data, keyBytes);
    var twice := Xor(once, keyBytes);
    forall j | 0 <= j < |data|
      ensures twice[j] == data[j]
    {
      assert twice[j] == (data[j] ^ keyBytes[j % 8]) ^ keyBytes[j % 8];
    }
  }

  /** Transforming a file twice with the same key gives back the original bytes. */
  lemma BlockwiseRoundTrip(data: seq<bv8>, keyBytes: seq<bv8>)
    requires KeyCovers(keyBytes, |data|)
    ensures Blockwise(Blockwise(data, keyBytes), keyBytes) == data
  {
    BlockwiseIsXor(data, keyBytes);
    BlockwiseIsXor(Blockwise(data, keyBytes), keyBytes);
    XorInvolution(data, keyBytes);
  }

  /** The transform of a prefix is the prefix of the transform. */
  lemma BlockwisePrefix(data: seq<bv8>, keyBytes: seq<bv8>, n: nat)
    requires KeyCovers(keyBytes, |data|) && n <= |data|
    ensures Blockwise(data[..n], keyBytes) == Blockwise(data, keyBytes)[..n]
  {
    BlockwiseIsXor(data, keyBytes);
    BlockwiseIsXor(data[..n], keyBytes);
  }
}
