/** Who owns which chain: for every directory what each of its slots owns, and for every file or directory with
    clusters the one slot that owns it. */
module Namespaces {
  import opened Options

  /** What a slot owns, by first cluster. */
  datatype Link = Nothing | OwnsFile(cluster: nat) | OwnsDirectory(cluster: nat) {
    predicate Owns(c: nat) {
      this == OwnsFile(c) || this == OwnsDirectory(c)
    }
  }

  type Links = seq<Link>

  /** Slot `slot` of the directory at `dir`. */
  datatype Home = Home(dir: nat, slot: nat)

  /** `tree` maps the first cluster of each directory to what its slots own, `owner` the first cluster of each
      chain other than the root directory's to the directory and slot that own it. */
  datatype Namespace = Namespace(root: nat, tree: map<nat, Links>, owner: map<nat, Home>) {

    ghost predicate Ok() {
      && root in tree && root !in owner
      && tree.Keys <= owner.Keys + {root}
      && (forall c :: c in owner ==> OwnerOk(c))
      && (forall d, k :: d in tree && 0 <= k < |tree[d]| ==> LinkOk(d, k))
    }

    /** The slot recorded as owner of `c` does own it, as a directory exactly if `c` is one. */
    ghost predicate OwnerOk(c: nat)
      requires c in owner
    {
      var home := owner[c];
      && home.dir in tree && home.slot < |tree[home.dir]|
      && tree[home.dir][home.slot] == if c in tree then OwnsDirectory(c) else OwnsFile(c)
    }

    /** What slot `k` of directory `d` owns is recorded as owned by it. */
    ghost predicate LinkOk(d: nat, k: nat)
      requires d in tree && k < |tree[d]|
    {
      tree[d][k].Nothing? || (tree[d][k].cluster in owner && owner[tree[d][k].cluster] == Home(d, k))
    }
  }

  ghost predicate OwnsNothing(links: Links) {
    forall k :: 0 <= k < |links| ==> links[k].Nothing?
  }

  /** Only slot `k` has changed, and slots that own nothing may have been added. */
  ghost predicate SameBut(links: Links, links': Links, k: nat) {
    && |links| <= |links'| && k < |links'|
    && (forall j :: 0 <= j < |links| && j != k ==> links'[j] == links[j])
    && (forall j :: |links| <= j < |links'| && j != k ==> links'[j].Nothing?)
  }

  ghost predicate Unowned(links: Links, k: nat) {
    k < |links| ==> links[k].Nothing?
  }

  /** A slot that owned nothing still owns nothing. */
  lemma SlotStaysUnowned(ns: Namespace, d: nat, k: nat, links: Links, ns': Namespace)
    requires ns.Ok() && d in ns.tree && SameBut(ns.tree[d], links, k)
    requires Unowned(ns.tree[d], k) && links[k].Nothing?
    requires ns' == ns.(tree := ns.tree[d := links])
    ensures ns'.Ok()
  {
    forall c | c in ns'.owner ensures ns'.OwnerOk(c) {
      assert ns.OwnerOk(c);
    }
    forall x, j | x in ns'.tree && 0 <= j < |ns'.tree[x]| ensures ns'.LinkOk(x, j) {
      assert x in ns.tree && j < |ns.tree[x]| ==> ns.LinkOk(x, j);
    }
  }

  /** A slot that owned nothing now owns the new chain at `c`; `c` may be a new directory that owns nothing. */
  lemma SlotGainsOwner(ns: Namespace, d: nat, k: nat, links: Links, c: nat, dir: Option<Links>, ns': Namespace)
    requires ns.Ok() && d in ns.tree && SameBut(ns.tree[d], links, k)
    requires Unowned(ns.tree[d], k)
    requires c !in ns.owner && c != ns.root
    requires links[k] == if dir.Some? then OwnsDirectory(c) else OwnsFile(c)
    requires dir.Some? ==> OwnsNothing(dir.value)
    requires ns' == Namespace(ns.root, if dir.Some? then ns.tree[d := links][c := dir.value] else ns.tree[d := links],
                              ns.owner[c := Home(d, k)])
    ensures ns'.Ok()
  {
    forall x | x in ns'.owner ensures ns'.OwnerOk(x) {
      assert x != c ==> ns.OwnerOk(x);
    }
    forall x, j | x in ns'.tree && 0 <= j < |ns'.tree[x]| ensures ns'.LinkOk(x, j) {
      assert x in ns.tree && j < |ns.tree[x]| ==> ns.LinkOk(x, j);
    }
  }

  /** A slot has lost the chain it owned, at `c`; a directory there owned nothing and goes with it. */
  lemma SlotLosesOwner(ns: Namespace, d: nat, k: nat, links: Links, c: nat, ns': Namespace)
    requires ns.Ok() && d in ns.tree && k < |ns.tree[d]| && SameBut(ns.tree[d], links, k)
    requires ns.tree[d][k].Owns(c) && links[k].Nothing?
    requires c in ns.tree ==> OwnsNothing(ns.tree[c])
    requires ns' == Namespace(ns.root, ns.tree[d := links] - {c}, ns.owner - {c})
    ensures ns'.Ok() && d != c && c in ns.owner && c != ns.root
  {
    assert ns.LinkOk(d, k);
    forall x | x in ns'.owner ensures ns'.OwnerOk(x) {
      assert ns.OwnerOk(x);
    }
    forall x, j | x in ns'.tree && 0 <= j < |ns'.tree[x]| ensures ns'.LinkOk(x, j) {
      assert j < |ns.tree[x]| ==> ns.LinkOk(x, j);
    }
  }

  /** What is at `c` has moved from slot `k` of `d` to slot `k2` of another directory `d2`. */
  lemma SlotMoves(ns: Namespace, d: nat, k: nat, links: Links, d2: nat, k2: nat, links2: Links, c: nat, ns': Namespace)
    requires ns.Ok() && d in ns.tree && d2 in ns.tree && d != d2
    requires k < |ns.tree[d]| && SameBut(ns.tree[d], links, k) && SameBut(ns.tree[d2], links2, k2)
    requires ns.tree[d][k].Owns(c) && links[k].Nothing?
    requires Unowned(ns.tree[d2], k2) && links2[k2] == ns.tree[d][k]
    requires ns' == Namespace(ns.root, ns.tree[d2 := links2][d := links], ns.owner[c := Home(d2, k2)])
    ensures ns'.Ok()
  {
    assert ns.LinkOk(d, k) && ns.OwnerOk(c);
    forall x | x in ns'.owner ensures ns'.OwnerOk(x) {
      assert ns.OwnerOk(x);
    }
    forall x, j | x in ns'.tree && 0 <= j < |ns'.tree[x]| ensures ns'.LinkOk(x, j) {
      assert j < |ns.tree[x]| ==> ns.LinkOk(x, j);
    }
  }

  /** Two slots never own the same chain. */
  lemma OneOwner(ns: Namespace, d: nat, k: nat, d2: nat, k2: nat)
    requires ns.Ok() && d in ns.tree && d2 in ns.tree && k < |ns.tree[d]| && k2 < |ns.tree[d2]|
    requires !ns.tree[d][k].Nothing? && ns.tree[d2][k2].Owns(ns.tree[d][k].cluster)
    ensures d == d2 && k == k2
  {
    assert ns.LinkOk(d, k) && ns.LinkOk(d2, k2);
  }
}
