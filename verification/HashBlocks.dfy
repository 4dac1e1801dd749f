/** What the two hash functions have in common: a message is padded and its 64-byte blocks are folded in. */
module HashBlocks {
  const BLOCK: nat := 64

  type Block = b: seq<bv8> | |b| == 64 witness seq(64, _ => 0)

  // A state after the whole blocks of a message; bytes short of a block at its end are left out.
  function Fold<S>(f: (S, Block) -> S, state: S, m: seq<bv8>): S {
    if |m| < BLOCK then state else Fold(f, f(state, m[..BLOCK]), m[BLOCK..])
  }

  lemma {:induction false} FoldConcat<S>(f: (S, Block) -> S, state: S, a: seq<bv8>, b: seq<bv8>)
    requires |a| % BLOCK == 0
    ensures Fold(f, state, a + b) == Fold(f, Fold(f, state, a), b)
  {
    if a == [] {
      assert a + b == b;
    } else {
      assert (a + b)[..BLOCK] == a[..BLOCK] && (a + b)[BLOCK..] == a[BLOCK..] + b;
      FoldConcat(f, f(state, a[..BLOCK]), a[BLOCK..], b);
    }
  }

  // The bytes at the end that fill no block yet.
  function Rest(m: seq<bv8>): (r: seq<bv8>)
    ensures |r| == |m| % BLOCK
  {
    m[|m| - |m| % BLOCK..]
  }

  // What a state and a partly filled block must be after a message, or a part of one.
  ghost predicate Holds<S>(f: (S, Block) -> S, iv: S, m: seq<bv8>, state: S, rest: seq<bv8>) {
    state == Fold(f, iv, m) && rest == Rest(m)
  }

  // More bytes that do not fill the block are kept with it.
  lemma KeptFor<S>(f: (S, Block) -> S, iv: S, m: seq<bv8>, more: seq<bv8>, state: S, rest: seq<bv8>)
    requires Holds(f, iv, m, state, rest) && |rest| + |more| < BLOCK
    ensures Holds(f, iv, m + more, state, rest + more)
  {
    Remainder(|m|, |more|);
    var whole := Whole(m);
    Regroup(whole, rest, more);
    FoldConcat(f, iv, whole, rest);
    FoldConcat(f, iv, whole, rest + more);
  }

  // The bytes that fill blocks.
  function Whole(m: seq<bv8>): (w: seq<bv8>)
    ensures |w| % BLOCK == 0 && w + Rest(m) == m
  {
    m[..|m| - |m| % BLOCK]
  }

  lemma Regroup(a: seq<bv8>, b: seq<bv8>, c: seq<bv8>)
    ensures (a + b) + c == a + (b + c)
    ensures |a| % BLOCK == 0 && |b| + |c| < BLOCK ==> Rest(a + b + c) == b + c
    ensures |a| % BLOCK == 0 && |b| + |c| == BLOCK ==> Rest(a + b + c) == []
  {
  }

  lemma Remainder(n: nat, k: nat)
    requires n % BLOCK + k < BLOCK
    ensures (n + k) % BLOCK == n % BLOCK + k
  {
  }

  // Bytes that fill the block complete it.
  lemma Filled<S>(f: (S, Block) -> S, iv: S, m: seq<bv8>, more: seq<bv8>, state: S, rest: seq<bv8>)
    requires Holds(f, iv, m, state, rest) && |rest| + |more| == BLOCK
    ensures Holds(f, iv, m + more, f(state, rest + more), [])
  {
    var whole, block := Whole(m), rest + more;
    Regroup(whole, rest, more);
    FoldConcat(f, iv, whole, rest);
    FoldConcat(f, iv, whole, block);
    assert block[..BLOCK] == block && block[BLOCK..] == [];
  }

  // ---------- Padding ----------

  function Zeros(n: nat): (z: seq<bv8>)
    ensures |z| == n
  {
    seq(n, _ => 0)
  }

  // The zero bytes that bring n bytes and the mark after them to 56 modulo 64.
  function ZeroCount(n: nat): (k: nat)
    ensures k < BLOCK && (n + 1 + k) % BLOCK == 56
  {
    (119 - n % BLOCK) % BLOCK
  }

  // A mark, zeros, and the length in eight bytes.
  function Padding(n: nat, length: seq<bv8>): seq<bv8> {
    [0x80] + Zeros(ZeroCount(n)) + length
  }

  // The padded message is a whole number of blocks, at least one; no shorter padding would do.
  lemma PaddedLength(n: nat, length: seq<bv8>)
    requires |length| == 8
    ensures (n + |Padding(n, length)|) % BLOCK == 0 && 9 <= |Padding(n, length)| < 9 + BLOCK
  {
  }
}
