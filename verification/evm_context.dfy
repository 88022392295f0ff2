/** The ancestor-hash cache behind BLOCKHASH: a slice that grows from the parent of the reference header towards the
    genesis, whatever order the numbers are asked for in. */
module EvmContexts {
  import opened Headers
  import opened Transactions
  import opened Words

  /** Subtraction of 64-bit words. */
  function Minus(a: nat, b: nat): (r: nat)
    requires a < WORD && b <= WORD
    ensures r == if a >= b then a - b else a - b + WORD
  {
    (a - b + WORD) % WORD
  }

  /** The header with this hash and number, if the chain has it at the time. */
  function GetHeader(chain: set<Header>, hash: Hash, number: nat): Option<Header> {
    if hash.H? && hash.header in chain && hash.header.number == number then Some(hash.header) else None
  }

  lemma {:induction false} UpNext(hash: Hash, k: nat)
    requires Up(hash, k).H?
    ensures Up(hash, k + 1) == Up(hash, k).header.parent
  {
    if k > 0 { UpNext(hash.header.parent, k - 1); }
  }

  /** The k-th entry of the cache is the header k + 1 below the reference, and past the genesis the zero hash. */
  lemma EntryIs(ref: Header, k: nat)
    requires IsChain(ref) && k <= ref.number
    ensures Up(ref.parent, k) == if k < ref.number then H(At(ref, ref.number - 1 - k)) else ZeroHash
  {
    if k < ref.number {
      UpIsAt(ref.parent.header, k);
    } else if k > 0 {
      UpIsAt(ref.parent.header, k - 1);
      UpNext(ref.parent, k - 1);
    }
  }

  class HashCache {
    const ref: Header
    var cache: seq<Hash>

    /** The cache is a prefix of the ancestor hashes of the reference header. */
    ghost predicate Inv()
      reads this
    {
      && IsChain(ref) && ref.number < WORD && |cache| <= ref.number + 1
      && forall i :: 0 <= i < |cache| ==> cache[i] == Up(ref.parent, i)
    }

    constructor (ref: Header)
      requires IsChain(ref) && ref.number < WORD
      ensures Inv() && cache == []
    {
      this.ref, cache := ref, [];
    }

    /** Some header above n that the cache does not reach past is missing. `known` is the length of the cache, which
        starts with the parent's hash. */
    ghost predicate Missing(n: nat, known: nat, chain: set<Header>)
      requires IsChain(ref)
    {
      exists k: nat :: n < k < ref.number && k + known <= ref.number && At(ref, k) !in chain
    }

    /** The hash of the ancestor at height n, or the zero hash exactly when a header is missing between what is cached
        and n, or n is not below the reference. The chain may differ from one query to the next. */
    method GetHash(n: nat, chain: set<Header>) returns (hash: Hash)
      requires Inv() && n < WORD
      modifies this`cache
      ensures Inv() && old(cache) <= cache && cache != []
      ensures n < ref.number ==> hash == if Missing(n, old(|cache|), chain) then ZeroHash else H(At(ref, n))
      ensures n >= ref.number ==> hash == ZeroHash
    {
      hide At, Up, IsChain, Minus;
      if |cache| == 0 {
        Start(ref);
        cache := [ref.parent];
      }
      var idx := Minus(Minus(ref.number, n), 1);
      if idx < |cache| {
        EntryIs(ref, idx);
        return cache[idx];
      }
      var lastHash, lastNumber := cache[|cache| - 1], Minus(ref.number, |cache|);
      while true
        invariant Inv() && cache != [] && old(cache) <= cache
        invariant lastHash == cache[|cache| - 1] && lastNumber == Minus(ref.number, |cache|)
        invariant n < ref.number ==> |cache| < ref.number - n
        invariant n >= ref.number ==> |cache| <= idx
        invariant |cache| >= old(|cache|)
        invariant forall k: nat :: k < ref.number && ref.number < k + |cache| && k + old(|cache|) <= ref.number ==>
                    At(ref, k) in chain
        decreases ref.number + 1 - |cache|
      {
        EntryIs(ref, |cache| - 1);
        var header := GetHeader(chain, lastHash, lastNumber);
        if header.None? { break; }
        UpNext(ref.parent, |cache| - 1);
        cache := cache + [header.value.parent];
        lastHash := header.value.parent;
        lastNumber := Minus(header.value.number, 1);
        EntryIs(ref, |cache| - 1);
        if n == lastNumber { return lastHash; }
      }
      hash := ZeroHash;
    }
  }

  lemma Start(ref: Header)
    requires IsChain(ref)
    ensures ref.parent == Up(ref.parent, 0)
  {
  }
}
