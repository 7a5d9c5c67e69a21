/**
 Cipher block chaining over a block function that takes its key as first argument
 (NIST SP 800-38A, section 6.2). Both the group chat and the legacy chat code
 chain blocks by hand; they differ in block size and in where the first chaining
 block comes from.
 */
module Cbc {
  import opened Bytes
  import Modular

  type BlockFn = (bytes, bytes) -> bytes

  /** Under this key the two functions map n-byte blocks to n-byte blocks and dec undoes enc. */
  ghost predicate Inverse(enc: BlockFn, dec: BlockFn, key: bytes, n: nat) {
    && n > 0
    && (forall b {:trigger enc(key, b)} :: |b| == n ==> |enc(key, b)| == n)
    && (forall b {:trigger dec(key, b)} :: |b| == n ==> |dec(key, b)| == n)
    && (forall b {:trigger enc(key, b)} :: |b| == n ==> dec(key, enc(key, b)) == b)
  }

  ghost predicate Sized(f: BlockFn, key: bytes, n: nat) {
    n > 0 && forall b {:trigger f(key, b)} :: |b| == n ==> |f(key, b)| == n
  }

  /** l is a multiple of n, said without division. */
  predicate Whole(l: nat, n: nat)
    requires n > 0
  {
    l == 0 || (l >= n && Whole(l - n, n))
  }

  lemma {:induction false} WholeIsDivisible(l: nat, n: nat)
    requires n > 0
    ensures Whole(l, n) <==> l % n == 0
    decreases l
  {
    if l >= n {
      WholeIsDivisible(l - n, n);
      assert (l - n) % n == l % n by { ModLess(l, n); }
    } else {
      assert l % n == l;
    }
  }

  lemma ModLess(l: int, n: nat)
    requires n > 0
    ensures (l - n) % n == l % n
  {
    assert l - n == (l / n - 1) * n + l % n;
    Modular.ModUnique(l - n, l / n - 1, l % n, n);
  }

  function Chain(enc: BlockFn, key: bytes, iv: bytes, data: bytes): (c: bytes)
    requires Sized(enc, key, |iv|) && Whole(|data|, |iv|)
    ensures |c| == |data|
    decreases |data|
  {
    if data == [] then [] else
      var e := enc(key, Xor(data[..|iv|], iv));
      e + Chain(enc, key, e, data[|iv|..])
  }

  function Unchain(dec: BlockFn, key: bytes, iv: bytes, data: bytes): (p: bytes)
    requires Sized(dec, key, |iv|) && Whole(|data|, |iv|)
    ensures |p| == |data|
    decreases |data|
  {
    if data == [] then [] else
      var c := data[..|iv|];
      Xor(dec(key, c), iv) + Unchain(dec, key, c, data[|iv|..])
  }

  /** Unchaining takes the leading block off, whatever follows it. */
  lemma UnchainLead(dec: BlockFn, key: bytes, iv: bytes, c: bytes, rest: bytes)
    requires Sized(dec, key, |iv|) && |c| == |iv| && Whole(|rest|, |iv|)
    ensures Whole(|c + rest|, |iv|)
    ensures Unchain(dec, key, iv, c + rest) == Xor(dec(key, c), iv) + Unchain(dec, key, c, rest)
  {
    assert (c + rest)[..|iv|] == c && (c + rest)[|iv|..] == rest;
  }

  /** Chaining encrypts the leading block and goes on from its ciphertext. */
  lemma ChainLead(enc: BlockFn, key: bytes, iv: bytes, data: bytes)
    requires Sized(enc, key, |iv|) && Whole(|data|, |iv|) && data != []
    ensures var e := enc(key, Xor(data[..|iv|], iv));
            |e| == |iv| && Whole(|data[|iv|..]|, |iv|)
            && Chain(enc, key, iv, data) == e + Chain(enc, key, e, data[|iv|..])
  {
  }

  /** Unchaining undoes chaining, whatever the first chaining block. */
  lemma {:induction false} UnchainChain(enc: BlockFn, dec: BlockFn, key: bytes, iv: bytes, data: bytes)
    requires Inverse(enc, dec, key, |iv|) && Whole(|data|, |iv|)
    ensures Unchain(dec, key, iv, Chain(enc, key, iv, data)) == data
    decreases |data|
  {
    if data != [] {
      var head, tail := data[..|iv|], data[|iv|..];
      var e := enc(key, Xor(head, iv));
      ChainLead(enc, key, iv, data);
      hide Chain, Unchain, Xor, Whole;
      UnchainLead(dec, key, iv, e, Chain(enc, key, e, tail));
      UnchainChain(enc, dec, key, e, tail);
      XorTwice(head, iv);
      assert dec(key, e) == Xor(head, iv);
      assert data == head + tail;
    }
  }

  /** A string of this length has a k-th block of n bytes. */
  predicate HasBlock(l: nat, n: nat, k: nat)
    decreases k
  {
    l >= n && (k == 0 || HasBlock(l - n, n, k - 1))
  }

  /** The k-th block, counting from zero. */
  function Block(data: bytes, n: nat, k: nat): (b: bytes)
    requires HasBlock(|data|, n, k)
    ensures |b| == n
    decreases k
  {
    if k == 0 then data[..n] else Block(data[n..], n, k - 1)
  }

  lemma {:induction false} FewerBlocks(l: nat, n: nat, k: nat)
    requires k > 0 && HasBlock(l, n, k)
    ensures HasBlock(l, n, k - 1)
    decreases k
  {
    if k > 1 {
      FewerBlocks(l - n, n, k - 1);
    }
  }

  /** Each decrypted block depends on its own ciphertext block and the one before it, on nothing else. */
  lemma {:induction false} UnchainBlock(dec: BlockFn, key: bytes, iv: bytes, data: bytes, k: nat)
    requires Sized(dec, key, |iv|) && Whole(|data|, |iv|) && HasBlock(|data|, |iv|, k)
    ensures k > 0 ==> HasBlock(|data|, |iv|, k - 1)
    ensures Block(Unchain(dec, key, iv, data), |iv|, k)
         == Xor(dec(key, Block(data, |iv|, k)), if k == 0 then iv else Block(data, |iv|, k - 1))
    decreases k
  {
    var n := |iv|;
    var c := data[..n];
    var tail := Unchain(dec, key, c, data[n..]);
    assert Unchain(dec, key, iv, data) == Xor(dec(key, c), iv) + tail;
    if k > 0 {
      FewerBlocks(|data|, n, k);
      assert (Xor(dec(key, c), iv) + tail)[n..] == tail;
      UnchainBlock(dec, key, c, data[n..], k - 1);
    }
  }
}

/** Filling a text up with zero bytes to a whole number of blocks. */
module ZeroPadding {
  import opened Bytes
  import Cbc

  /** How many zero bytes bring a length up to a multiple of the block length. */
  function PadLen(l: nat, length: nat): (p: nat)
    requires length > 0
    ensures p < length && Cbc.Whole(l + p, length)
  {
    if l == 0 then 0
    else if l < length then length - l
    else PadLen(l - length, length)
  }

  lemma {:induction false} PadLenIsRemainder(l: nat, length: nat)
    requires length > 0
    ensures PadLen(l, length) == if l % length != 0 then length - l % length else 0
    decreases l
  {
    if l >= length {
      PadLenIsRemainder(l - length, length);
      Cbc.ModLess(l, length);
    } else if l > 0 {
      assert l % length == l;
    }
  }

  function Padded(msg: bytes, length: nat): (r: bytes)
    requires length > 0
    ensures Cbc.Whole(|r|, length) && msg <= r
  {
    msg + Zeros(PadLen(|msg|, length))
  }
}
