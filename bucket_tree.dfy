/** The bucket hierarchy as a value: the parent-chain walk of `Bucket.clean`, the check
    `clean` makes, and what that check guarantees about the shape of the tree. */
module BucketTree {

  import opened Common
  import opened Records

  /** Every parent reference names a row of the table. */
  predicate ParentsInRange(rows: seq<Bucket>)
  {
    forall i | 0 <= i < |rows| :: rows[i].parent.Some? ==> rows[i].parent.value < |rows|
  }

  /** The slug column is unique. */
  predicate UniqueSlugs(rows: seq<Bucket>)
  {
    forall i, j | 0 <= i < |rows| && 0 <= j < |rows| && i != j :: rows[i].slug != rows[j].slug
  }

  function AllSlugs(rows: seq<Bucket>): set<string>
  {
    set i | 0 <= i < |rows| :: rows[i].slug
  }

  /** The walk of `clean`: starting at `current`, follow parent links; answer true at the
      first bucket `hit` accepts, false at the end of the chain or at a bucket whose slug
      was already visited. */
  function ChainWalk(rows: seq<Bucket>, current: Option<nat>, hit: nat -> bool,
                     visited: set<string>): (found: bool)
    requires ParentsInRange(rows)
    requires current.Some? ==> current.value < |rows|
    ensures found ==> current.Some?
    decreases |AllSlugs(rows) - visited|
  {
    match current
    case None => false
    case Some(c) =>
      if hit(c) then true
      else if rows[c].slug in visited then false
      else
        VisitShrinks(AllSlugs(rows), visited, rows[c].slug);
        ChainWalk(rows, rows[c].parent, hit, visited + {rows[c].slug})
  }

  /** What the walk of `clean` looks for: a bucket carrying the slug being saved. */
  function SlugHit(rows: seq<Bucket>, slug: string): nat -> bool
  {
    (c: nat) => c < |rows| && rows[c].slug == slug
  }

  datatype CleanError = OwnerMismatch | SelfParent | CircularParent

  /** `Bucket.clean` on bucket `b`, whose primary key is `self` (`None` before the first
      save), against the stored table: a parent of another owner is refused first, then
      the bucket itself as parent, then (only when `b` has a slug) a parent chain that
      reaches a bucket with `b`'s slug. A bucket without a parent always passes. */
  function CleanCheck(rows: seq<Bucket>, self: Option<nat>, b: Bucket): (err: Option<CleanError>)
    requires ParentsInRange(rows)
    requires b.parent.Some? ==> b.parent.value < |rows|
    ensures b.parent.None? ==> err.None?
    ensures b.parent.Some? && rows[b.parent.value].owner != b.owner ==> err == Some(OwnerMismatch)
    ensures b.parent.Some? && rows[b.parent.value].owner == b.owner && self == b.parent
            ==> err == Some(SelfParent)
    ensures err == Some(CircularParent) <==>
              b.parent.Some? && rows[b.parent.value].owner == b.owner && self != b.parent
              && b.slug != "" && ChainWalk(rows, b.parent, SlugHit(rows, b.slug), {})
  {
    match b.parent
    case None => None
    case Some(p) =>
      if rows[p].owner != b.owner then Some(OwnerMismatch)
      else if self == Some(p) then Some(SelfParent)
      else if b.slug != "" && ChainWalk(rows, Some(p), SlugHit(rows, b.slug), {}) then Some(CircularParent)
      else None
  }

  /** The `n`-th bucket up the parent chain from `j` (`j` itself for `n == 0`), or `None`
      when the chain ends first. */
  function Ancestor(rows: seq<Bucket>, j: nat, n: nat): (a: Option<nat>)
    ensures a.Some? ==> a.value < |rows|
    decreases n
  {
    if j >= |rows| then None
    else if n == 0 then Some(j)
    else match rows[j].parent
      case None => None
      case Some(q) => Ancestor(rows, q, n - 1)
  }

  /** `target` lies on the parent chain of `j` (`j` included). */
  ghost predicate OnChain(rows: seq<Bucket>, j: nat, target: nat)
  {
    exists n: nat :: Ancestor(rows, j, n) == Some(target)
  }

  /** `rank` strictly decreases from every bucket to its parent. */
  ghost predicate RankedBy(rows: seq<Bucket>, rank: seq<nat>)
  {
    && |rank| == |rows|
    && forall i | 0 <= i < |rows| ::
         rows[i].parent.Some? && rows[i].parent.value < |rows| ==> rank[rows[i].parent.value] < rank[i]
  }

  /** The parent links form a forest: no bucket is its own ancestor. */
  ghost predicate Acyclic(rows: seq<Bucket>)
  {
    exists rank: seq<nat> :: RankedBy(rows, rank)
  }

  /** A successful walk found a bucket `hit` accepts on the chain. */
  lemma WalkSound(rows: seq<Bucket>, cur: nat, hit: nat -> bool, visited: set<string>)
    requires ParentsInRange(rows) && cur < |rows|
    requires ChainWalk(rows, Some(cur), hit, visited)
    ensures exists n: nat :: Ancestor(rows, cur, n).Some? && hit(Ancestor(rows, cur, n).value)
    decreases |AllSlugs(rows) - visited|
  {
    if hit(cur) {
      assert Ancestor(rows, cur, 0) == Some(cur);
    } else {
      var q := rows[cur].parent.value;
      VisitShrinks(AllSlugs(rows), visited, rows[cur].slug);
      WalkSound(rows, q, hit, visited + {rows[cur].slug});
      var n: nat :| Ancestor(rows, q, n).Some? && hit(Ancestor(rows, q, n).value);
      assert Ancestor(rows, cur, n + 1) == Ancestor(rows, q, n);
    }
  }

  /** On a ranked table with unique slugs the walk cannot stop early: every slug it has
      visited belongs to a bucket ranked above the one it stands on, so it reaches any
      accepted bucket of the chain. */
  lemma {:induction false} WalkComplete(rows: seq<Bucket>, rank: seq<nat>, cur: nat, i: nat, n: nat,
                                        hit: nat -> bool, visited: set<string>)
    requires ParentsInRange(rows) && UniqueSlugs(rows) && RankedBy(rows, rank)
    requires cur < |rows| && i < |rows| && hit(i)
    requires Ancestor(rows, cur, n) == Some(i)
    requires forall v | v in visited ::
               exists k :: 0 <= k < |rows| && rows[k].slug == v && rank[k] > rank[cur]
    ensures ChainWalk(rows, Some(cur), hit, visited)
    decreases n
  {
    if !hit(cur) {
      assert cur != i;
      forall k | 0 <= k < |rows| && rows[k].slug == rows[cur].slug
        ensures rank[k] <= rank[cur]
      {
        assert k == cur;
      }
      assert rows[cur].slug !in visited;
      var q := rows[cur].parent.value;
      assert Ancestor(rows, q, n - 1) == Some(i);
      var visited' := visited + {rows[cur].slug};
      forall v | v in visited'
        ensures exists k :: 0 <= k < |rows| && rows[k].slug == v && rank[k] > rank[q]
      {
        if v == rows[cur].slug {
          assert rank[cur] > rank[q];
        }
      }
      WalkComplete(rows, rank, q, i, n - 1, hit, visited');
    }
  }

  /** On a table with unique slugs and no cycle, a walk from `p` succeeds whenever an
      accepted bucket lies on `p`'s chain. */
  lemma WalkReachesChain(rows: seq<Bucket>, p: nat, i: nat, hit: nat -> bool)
    requires ParentsInRange(rows) && UniqueSlugs(rows) && Acyclic(rows)
    requires p < |rows| && i < |rows| && hit(i)
    ensures OnChain(rows, p, i) ==> ChainWalk(rows, Some(p), hit, {})
  {
    if OnChain(rows, p, i) {
      var rank: seq<nat> :| RankedBy(rows, rank);
      var n: nat :| Ancestor(rows, p, n) == Some(i);
      WalkComplete(rows, rank, p, i, n, hit, {});
    }
  }

  /** With unique slugs and no cycle, the walk for bucket `i`'s slug from `p` succeeds
      exactly when `i` is on `p`'s chain. */
  lemma WalkFindsExactly(rows: seq<Bucket>, p: nat, i: nat)
    requires ParentsInRange(rows) && UniqueSlugs(rows) && Acyclic(rows)
    requires p < |rows| && i < |rows|
    ensures ChainWalk(rows, Some(p), SlugHit(rows, rows[i].slug), {}) <==> OnChain(rows, p, i)
  {
    var hit := SlugHit(rows, rows[i].slug);
    WalkReachesChain(rows, p, i, hit);
    if ChainWalk(rows, Some(p), hit, {}) {
      WalkSound(rows, p, hit, {});
      var n: nat :| Ancestor(rows, p, n).Some? && hit(Ancestor(rows, p, n).value);
      assert Ancestor(rows, p, n) == Some(i);
    }
  }

  /** Moving bucket `i` under a parent not below it keeps the table acyclic: ranks of `i`
      and everything below it are lifted above the new parent. */
  lemma ReparentKeepsAcyclic(rows: seq<Bucket>, i: nat, b: Bucket)
    requires ParentsInRange(rows) && Acyclic(rows) && i < |rows|
    requires b.parent.Some? ==> b.parent.value < |rows| && !OnChain(rows, b.parent.value, i)
    ensures Acyclic(rows[i := b])
  {
    var rank: seq<nat> :| RankedBy(rows, rank);
    var rows' := rows[i := b];
    var shift := if b.parent.Some? then rank[b.parent.value] + 1 else 0;
    var rank' := Lift(rows, rank, i, shift);
    forall j | 0 <= j < |rows'| && rows'[j].parent.Some? && rows'[j].parent.value < |rows'|
      ensures rank'[rows'[j].parent.value] < rank'[j]
    {
      var q := rows'[j].parent.value;
      if j == i {
        assert Ancestor(rows, i, 0) == Some(i);
      } else {
        ChainStep(rows, j, q, i);
      }
    }
    assert RankedBy(rows', rank');
  }

  /** `rank` with everything at or below bucket `i` raised by `shift`. */
  ghost function Lift(rows: seq<Bucket>, rank: seq<nat>, i: nat, shift: nat): (r: seq<nat>)
    requires |rank| == |rows|
    ensures |r| == |rows|
    ensures forall j | 0 <= j < |rows| :: r[j] == rank[j] + (if OnChain(rows, j, i) then shift else 0)
  {
    seq(|rows|, j requires 0 <= j < |rows| => rank[j] + (if OnChain(rows, j, i) then shift else 0))
  }

  /** A bucket lies on the chain of each of its children. */
  lemma ChainStep(rows: seq<Bucket>, j: nat, q: nat, i: nat)
    requires j < |rows| && rows[j].parent == Some(q)
    ensures OnChain(rows, q, i) ==> OnChain(rows, j, i)
  {
    if OnChain(rows, q, i) {
      var n: nat :| Ancestor(rows, q, n) == Some(i);
      assert Ancestor(rows, j, n + 1) == Some(i);
    }
  }

  /** `clean` as written protects the tree when the slug being saved is the bucket's
      stored slug: a save that passes the check cannot close a cycle. */
  lemma CleanKeepsAcyclic(rows: seq<Bucket>, i: nat, b: Bucket)
    requires ParentsInRange(rows) && UniqueSlugs(rows) && Acyclic(rows)
    requires i < |rows| && b.slug == rows[i].slug && b.slug != ""
    requires b.parent.Some? ==> b.parent.value < |rows|
    requires CleanCheck(rows, Some(i), b) == None
    ensures Acyclic(rows[i := b])
  {
    if b.parent.Some? {
      WalkFindsExactly(rows, b.parent.value, i);
    }
    ReparentKeepsAcyclic(rows, i, b);
  }

  /** Inserting a bucket never closes a cycle: nothing can point at a row that did not
      exist. */
  lemma AppendKeepsAcyclic(rows: seq<Bucket>, b: Bucket)
    requires ParentsInRange(rows) && Acyclic(rows)
    requires b.parent.Some? ==> b.parent.value < |rows|
    ensures Acyclic(rows + [b])
  {
    var rank: seq<nat> :| RankedBy(rows, rank);
    var top := if b.parent.Some? then rank[b.parent.value] + 1 else 0;
    var rows' := rows + [b];
    var rank' := rank + [top];
    forall j | 0 <= j < |rows'| && rows'[j].parent.Some? && rows'[j].parent.value < |rows'|
      ensures rank'[rows'[j].parent.value] < rank'[j]
    {
      if j < |rows| {
        assert rows'[j] == rows[j];
      }
    }
    assert RankedBy(rows', rank');
  }

  /** Following `m` links and then `d` more is following `m + d` links. */
  lemma {:induction false} AncestorCompose(rows: seq<Bucket>, j: nat, m: nat, d: nat)
    requires Ancestor(rows, j, m).Some?
    ensures Ancestor(rows, j, m + d) == Ancestor(rows, Ancestor(rows, j, m).value, d)
    decreases m
  {
    if m > 0 {
      AncestorCompose(rows, rows[j].parent.value, m - 1, d);
    }
  }

  /** A chain that is `n` links long is also `m` links long for every `m <= n`. */
  lemma {:induction false} AncestorPrefix(rows: seq<Bucket>, j: nat, m: nat, n: nat)
    requires m <= n && Ancestor(rows, j, n).Some?
    ensures Ancestor(rows, j, m).Some?
    decreases m
  {
    if m > 0 {
      AncestorPrefix(rows, rows[j].parent.value, m - 1, n - 1);
    }
  }

  /** Every link of a chain loses at least one unit of rank. */
  lemma {:induction false} AncestorRank(rows: seq<Bucket>, rank: seq<nat>, j: nat, d: nat)
    requires RankedBy(rows, rank)
    requires Ancestor(rows, j, d).Some?
    ensures rank[Ancestor(rows, j, d).value] + d <= rank[j]
    decreases d
  {
    if d > 0 {
      AncestorRank(rows, rank, rows[j].parent.value, d - 1);
    }
  }

  /** A chain on an acyclic table visits distinct buckets, so it is shorter than the table. */
  lemma ChainShorterThanTable(rows: seq<Bucket>, rank: seq<nat>, j: nat, n: nat)
    requires RankedBy(rows, rank)
    ensures Ancestor(rows, j, n).Some? ==> n < |rows|
  {
    if Ancestor(rows, j, n).Some? {
      var node := (m: nat) => match Ancestor(rows, j, m) case Some(x) => x case None => 0;
      forall a: nat, b: nat | a < b < n + 1
        ensures node(a) != node(b)
      {
        AncestorPrefix(rows, j, a, n);
        AncestorPrefix(rows, j, b, n);
        AncestorCompose(rows, j, a, b - a);
        AncestorRank(rows, rank, Ancestor(rows, j, a).value, b - a);
      }
      InjectiveImageSize(node, n + 1);
      var chain := set m: nat | m < n + 1 :: node(m);
      var id := (x: nat) => x;
      var all := set x: nat | x < |rows| :: id(x);
      forall m: nat | m < n + 1
        ensures node(m) in all
      {
        AncestorPrefix(rows, j, m, n);
        assert id(node(m)) == node(m);
      }
      SubsetSize(chain, all);
      InjectiveImageSize(id, |rows|);
    }
  }

  /** On an acyclic table every parent chain ends within as many links as there are
      buckets, which is why the walk of `clean` never needs its visited set there. */
  lemma AcyclicChainsEnd(rows: seq<Bucket>, j: nat)
    requires Acyclic(rows)
    ensures Ancestor(rows, j, |rows|) == None
  {
    var rank: seq<nat> :| RankedBy(rows, rank);
    ChainShorterThanTable(rows, rank, j, |rows|);
  }

  /** `save` regenerates the slug of a renamed bucket before `clean` runs, while the
      stored copy of the bucket on the parent chain still carries the old slug: renaming
      bucket "a" and moving it under its own child "c" in one save passes the check and
      closes the cycle a -> c -> a. */
  lemma RenameHidesCycle()
    ensures var rows := [Bucket("a", "A", 7, None, {}, true), Bucket("c", "C", 7, Some(0), {}, true)];
            var moved := Bucket("b", "B", 7, Some(1), {}, true);
            && ParentsInRange(rows) && UniqueSlugs(rows) && Acyclic(rows)
            && CleanCheck(rows, Some(0), moved) == None
            && !Acyclic(rows[0 := moved])
  {
    var rows := [Bucket("a", "A", 7, None, {}, true), Bucket("c", "C", 7, Some(0), {}, true)];
    var moved := Bucket("b", "B", 7, Some(1), {}, true);
    assert RankedBy(rows, [0, 1]);
    var hit := SlugHit(rows, "b");
    assert !hit(1) && !hit(0);
    assert ChainWalk(rows, None, hit, {"c", "a"}) == false;
    assert ChainWalk(rows, Some(0), hit, {"c"}) == false;
    assert ChainWalk(rows, Some(1), hit, {}) == false;
    var rows' := rows[0 := moved];
    forall rank: seq<nat> ensures !RankedBy(rows', rank)
    {
      assert rows'[0].parent == Some(1) && rows'[1].parent == Some(0);
    }
  }

  /** What the walk should look for: the bucket being saved itself, by primary key. */
  function IdHit(self: nat): nat -> bool
  {
    (c: nat) => c == self
  }

  /** `clean` with the cycle test comparing primary keys instead of slugs; a bucket that
      was never saved cannot be anybody's ancestor, so it needs no walk. */
  function CleanCheckById(rows: seq<Bucket>, self: Option<nat>, b: Bucket): (err: Option<CleanError>)
    requires ParentsInRange(rows)
    requires b.parent.Some? ==> b.parent.value < |rows|
    ensures b.parent.None? ==> err.None?
    ensures b.parent.Some? && rows[b.parent.value].owner != b.owner ==> err == Some(OwnerMismatch)
    ensures err == Some(CircularParent) ==> self.Some? && b.parent.Some?
  {
    match b.parent
    case None => None
    case Some(p) =>
      if rows[p].owner != b.owner then Some(OwnerMismatch)
      else if self == Some(p) then Some(SelfParent)
      else if self.Some? && ChainWalk(rows, Some(p), IdHit(self.value), {}) then Some(CircularParent)
      else None
  }

  /** The corrected check refuses a cycle whatever the slug: it reports a circular parent
      exactly when the bucket lies above its new parent, and every save it lets through
      keeps the table acyclic. */
  lemma CleanByIdKeepsAcyclic(rows: seq<Bucket>, i: nat, b: Bucket)
    requires ParentsInRange(rows) && UniqueSlugs(rows) && Acyclic(rows) && i < |rows|
    requires b.parent.Some? ==> b.parent.value < |rows|
    ensures CleanCheckById(rows, Some(i), b) == Some(CircularParent) ==> OnChain(rows, b.parent.value, i)
    ensures (b.parent.Some? && rows[b.parent.value].owner == b.owner && b.parent.value != i
             && OnChain(rows, b.parent.value, i))
            ==> CleanCheckById(rows, Some(i), b) == Some(CircularParent)
    ensures CleanCheckById(rows, Some(i), b) == None ==> Acyclic(rows[i := b])
  {
    if b.parent.Some? {
      var p := b.parent.value;
      WalkReachesChain(rows, p, i, IdHit(i));
      if ChainWalk(rows, Some(p), IdHit(i), {}) {
        WalkSound(rows, p, IdHit(i), {});
        var n: nat :| Ancestor(rows, p, n).Some? && IdHit(i)(Ancestor(rows, p, n).value);
        assert Ancestor(rows, p, n) == Some(i);
      }
      if p == i {
        assert Ancestor(rows, p, 0) == Some(i);
      }
    }
    if CleanCheckById(rows, Some(i), b) == None {
      ReparentKeepsAcyclic(rows, i, b);
    }
  }
}
