/** Block headers and their ancestry. A hash is an injective identifier of a header, so it is modelled as the header it
    was taken from: headers then form trees by construction and no hash has two preimages. Only specifications look
    inside a hash; code looks headers up by it. */
module Headers {
  datatype Hash = ZeroHash | H(header: Header)

  type TxId = nat

  /** A header commits to the transactions of its block, so it carries them. `salt` stands for the other fields that
      make headers differ. */
  datatype Header = Header(parent: Hash, number: nat, difficulty: nat, txs: seq<TxId>, salt: nat)

  /** A header whose ancestors are numbered down to a header of number zero. */
  predicate IsChain(h: Header) {
    if h.number == 0 then h.parent == ZeroHash
    else h.parent.H? && h.parent.header.number == h.number - 1 && IsChain(h.parent.header)
  }

  /** The ancestor of h at height n. */
  function At(h: Header, n: nat): (r: Header)
    requires IsChain(h) && n <= h.number
    ensures IsChain(r) && r.number == n
  {
    if n == h.number then h else At(h.parent.header, n)
  }

  function Genesis(h: Header): Header
    requires IsChain(h)
  {
    At(h, 0)
  }

  /** The hash reached by following the parent link k times. */
  function Up(hash: Hash, k: nat): Hash {
    if k == 0 || hash.ZeroHash? then hash else Up(hash.header.parent, k - 1)
  }

  /** The sum of difficulties from h down to its oldest ancestor. */
  function TotalDifficulty(h: Header): nat {
    h.difficulty + if h.parent.H? then TotalDifficulty(h.parent.header) else 0
  }

  /** h is d or one of its ancestors. */
  predicate IsAncestor(h: Header, d: Header)
    requires IsChain(d)
  {
    h.number <= d.number && At(d, h.number) == h
  }

  lemma {:induction false} AtAt(h: Header, n: nat, m: nat)
    requires IsChain(h) && m <= n <= h.number
    ensures At(At(h, n), m) == At(h, m)
  {
    if n < h.number { AtAt(h.parent.header, n, m); }
  }

  /** Chains that meet at a height agree below it. */
  lemma MeetAgree(a: Header, b: Header, n: nat, m: nat)
    requires IsChain(a) && IsChain(b) && m <= n && n <= a.number && n <= b.number && At(a, n) == At(b, n)
    ensures At(a, m) == At(b, m)
  {
    AtAt(a, n, m);
    AtAt(b, n, m);
  }

  /** One step up from height n is height n - 1. */
  lemma AtParent(h: Header, n: nat)
    requires IsChain(h) && 0 < n <= h.number
    ensures At(h, n).parent == H(At(h, n - 1))
  {
    AtAt(h, n, n - 1);
  }

  lemma {:induction false} UpIsAt(h: Header, k: nat)
    requires IsChain(h) && k <= h.number
    ensures Up(H(h), k) == H(At(h, h.number - k))
  {
    if k > 0 {
      UpIsAt(h.parent.header, k - 1);
    }
  }

  lemma {:induction false} UpUp(hash: Hash, i: nat, j: nat)
    ensures Up(Up(hash, i), j) == Up(hash, i + j)
  {
    if i > 0 && hash.H? { UpUp(hash.header.parent, i - 1, j); }
  }
}
