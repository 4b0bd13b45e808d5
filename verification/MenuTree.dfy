/**
 The menu tree: elements name their parent, "0" is the parent of the roots, and the tree is
 built by one query per node for its children.
 */
module MenuTree {
  import opened Prelude

  datatype Element = Element(id: string, parent: string, order: int, authority: set<string>)
  datatype Tree = Node(element: Element, children: seq<Tree>)

  const ROOT := "0"

  /**
   What the queries see: the table in ORDER BY order, the authority asked for (None: the
   unrestricted tree), and the parents whose query fails: they are logged and get no children.
   */
  datatype World = World(table: seq<Element>, authority: Option<string>, down: set<string>)

  predicate Allowed(w: World, e: Element) {
    w.authority.Some? ==> w.authority.value in e.authority
  }

  function Filter(w: World, table: seq<Element>, p: string): seq<Element> {
    if table == [] then []
    else (if table[0].parent == p && Allowed(w, table[0]) then [table[0]] else []) + Filter(w, table[1..], p)
  }

  lemma {:induction false} InFilter(w: World, table: seq<Element>, p: string)
    ensures forall e :: e in Filter(w, table, p) <==> e in table && e.parent == p && Allowed(w, e)
  {
    if table != [] {
      InFilter(w, table[1..], p);
    }
  }

  /** The children query of one parent. */
  function Kids(w: World, p: string): (r: seq<Element>)
    ensures forall e :: e in r <==> p !in w.down && e in w.table && e.parent == p && Allowed(w, e)
  {
    InFilter(w, w.table, p);
    if p in w.down then [] else Filter(w, w.table, p)
  }

  predicate Ascending(s: seq<Element>) {
    forall i, j :: 0 <= i < j < |s| ==> s[i].order <= s[j].order
  }

  predicate DistinctIds(s: seq<Element>) {
    forall i, j :: 0 <= i < j < |s| ==> s[i].id != s[j].id
  }

  lemma {:induction false} FilterKeeps(w: World, table: seq<Element>, p: string)
    ensures Ascending(table) ==> Ascending(Filter(w, table, p))
    ensures DistinctIds(table) ==> DistinctIds(Filter(w, table, p))
  {
    if table != [] {
      var rest := table[1..];
      assert forall i :: 0 <= i < |rest| ==> rest[i] == table[i + 1];
      FilterKeeps(w, rest, p);
      InFilter(w, rest, p);
    }
  }

  /** Does the element's parent list it, if the parent is asked for its children? */
  predicate Listed(w: World, e: Element) {
    Allowed(w, e) && e.parent !in w.down
  }

  // ---------------------------------------------------------------- ranking the reachable ids

  /**
   A ranking of the ids that hang from the roots' parent: it ranks them, and every element
   listed under a parent it ranks, above the parent. Elements elsewhere need no rank.
   */
  datatype Ranking = Ranking(depth: map<string, nat>, bound: nat)

  ghost predicate Ranks(w: World, k: Ranking) {
    && DistinctIds(w.table)
    && ROOT in k.depth
    && (forall id :: id in k.depth ==> k.depth[id] <= k.bound)
    && (forall e :: e in w.table && e.parent in k.depth && Listed(w, e) ==>
          e.id in k.depth && k.depth[e.parent] < k.depth[e.id])
  }

  ghost function Find(w: World, id: string): Option<Element> {
    if e :| e in w.table && e.id == id then Some(e) else None
  }

  lemma FindsIt(w: World, e: Element)
    requires DistinctIds(w.table) && e in w.table
    ensures Find(w, e.id) == Some(e)
  {
    var f := Find(w, e.id).value;
    var i :| 0 <= i < |w.table| && w.table[i] == e;
    var j :| 0 <= j < |w.table| && w.table[j] == f;
  }

  /**
   The element and its ancestors up to below `p`, `n` of them, carry the authority, and the
   query of each parent on the way succeeds.
   */
  ghost predicate Climbs(w: World, p: string, id: string, n: nat)
    decreases n
  {
    var e := Find(w, id);
    && e.Some? && Listed(w, e.value)
    && if n == 0 then e.value.parent == p else Climbs(w, p, e.value.parent, n - 1)
  }

  ghost predicate InMenu(w: World, id: string) {
    exists n: nat :: Climbs(w, ROOT, id, n)
  }

  /** `n` such steps lead to the roots' parent. */
  ghost predicate Level(w: World, n: nat, id: string) {
    if n == 0 then id == ROOT else Climbs(w, ROOT, id, n - 1)
  }

  /** The roots' parent id is not itself an element of the menu. */
  ghost predicate Rooted(w: World) {
    !InMenu(w, ROOT)
  }

  lemma {:induction false} LevelUnique(w: World, m: nat, n: nat, id: string)
    requires Rooted(w) && Level(w, m, id) && Level(w, n, id)
    ensures m == n
  {
    if m > 0 && n > 0 {
      LevelUnique(w, m - 1, n - 1, Find(w, id).value.parent);
    }
  }

  ghost function LevelOf(w: World, id: string): Option<nat> {
    if n: nat :| Level(w, n, id) then Some(n) else None
  }

  lemma LevelOfChild(w: World, e: Element)
    requires Rooted(w) && DistinctIds(w.table) && e in w.table && Listed(w, e) && LevelOf(w, e.parent).Some?
    ensures LevelOf(w, e.id) == Some(LevelOf(w, e.parent).value + 1)
  {
    FindsIt(w, e);
    var n := LevelOf(w, e.parent).value;
    assert Level(w, n + 1, e.id);
    LevelUnique(w, n + 1, LevelOf(w, e.id).value, e.id);
  }

  lemma {:induction false} Bounded(m: map<string, nat>, ids: set<string>) returns (bound: nat)
    ensures forall id :: id in ids && id in m ==> m[id] <= bound
  {
    if ids == {} {
      bound := 0;
    } else {
      var id :| id in ids;
      bound := Bounded(m, ids - {id});
      bound := bound + if id in m then m[id] else 0;
    }
  }

  /** Any table can be ranked, cycles elsewhere included, unless the roots' parent id is in its own menu. */
  lemma RankingExists(w: World) returns (k: Ranking)
    requires Rooted(w) && DistinctIds(w.table)
    ensures Ranks(w, k)
  {
    var ids := (set e | e in w.table :: e.id) + {ROOT};
    var depth := map id | id in ids && LevelOf(w, id).Some? :: LevelOf(w, id).value;
    assert Level(w, 0, ROOT);
    forall e | e in w.table && e.parent in depth && Listed(w, e)
      ensures e.id in depth && depth[e.parent] < depth[e.id]
    {
      LevelOfChild(w, e);
      assert e.id in ids;
    }
    var bound := Bounded(depth, ids);
    k := Ranking(depth, bound);
  }

  /** A forest as the queries give it: the children of a parent, in query order, and so on below each. */
  ghost predicate Faithful(w: World, p: string, f: seq<Tree>)
    decreases f
  {
    && |f| == |Kids(w, p)|
    && forall i :: 0 <= i < |f| ==> f[i].element == Kids(w, p)[i] && Faithful(w, f[i].element.id, f[i].children)
  }

  // ---------------------------------------------------------------- occurrences

  function CountTree(t: Tree, id: string): nat {
    (if t.element.id == id then 1 else 0) + Count(t.children, id)
  }

  /** How often an element occurs in a forest. */
  function Count(f: seq<Tree>, id: string): nat {
    if f == [] then 0 else Count(f[..|f| - 1], id) + CountTree(f[|f| - 1], id)
  }

  function Height(k: Ranking, id: string): nat {
    if id in k.depth then k.depth[id] + 1 else 0
  }

  /** The same, by recursion on the rank. */
  ghost predicate Reaches(w: World, k: Ranking, p: string, id: string)
    requires Ranks(w, k)
    decreases Height(k, id)
  {
    var e := Find(w, id);
    && e.Some? && Listed(w, e.value) && e.value.parent in k.depth
    && (e.value.parent == p || Reaches(w, k, p, e.value.parent))
  }

  lemma {:induction false} ReachesClimbs(w: World, k: Ranking, p: string, id: string)
    requires Ranks(w, k) && Reaches(w, k, p, id)
    ensures exists n: nat :: Climbs(w, p, id, n)
    decreases Height(k, id)
  {
    var e := Find(w, id).value;
    if e.parent == p {
      assert Climbs(w, p, id, 0);
    } else {
      ReachesClimbs(w, k, p, e.parent);
      var n: nat :| Climbs(w, p, e.parent, n);
      assert Climbs(w, p, id, n + 1);
    }
  }

  lemma {:induction false} ClimbsReaches(w: World, k: Ranking, p: string, id: string, n: nat)
    requires Ranks(w, k) && p in k.depth && Climbs(w, p, id, n)
    ensures Reaches(w, k, p, id) && id in k.depth
    decreases n
  {
    var e := Find(w, id).value;
    if n > 0 {
      ClimbsReaches(w, k, p, e.parent, n - 1);
    }
  }

  /** The child of `p` through which it reaches the element. */
  ghost function Via(w: World, k: Ranking, p: string, id: string): string
    requires Ranks(w, k) && Reaches(w, k, p, id)
    decreases Height(k, id)
  {
    var e := Find(w, id).value;
    if e.parent == p then id else Via(w, k, p, e.parent)
  }

  lemma {:induction false} ReachesDeeper(w: World, k: Ranking, p: string, id: string)
    requires Ranks(w, k) && Reaches(w, k, p, id)
    ensures Height(k, p) < Height(k, id)
    decreases Height(k, id)
  {
    var e := Find(w, id).value;
    if e.parent != p {
      ReachesDeeper(w, k, p, e.parent);
    }
  }

  /** A child of `p` is on the way to the element exactly if it is the one the path goes through. */
  lemma {:induction false} ViaIff(w: World, k: Ranking, p: string, c: Element, id: string)
    requires Ranks(w, k) && p in k.depth && c in Kids(w, p)
    ensures c.id == id || Reaches(w, k, c.id, id) <==> Reaches(w, k, p, id) && Via(w, k, p, id) == c.id
    decreases Height(k, id)
  {
    FindsIt(w, c);
    var e := Find(w, id);
    if e.Some? && e.value.parent == p {
      if Reaches(w, k, c.id, id) && p != c.id {
        ReachesDeeper(w, k, c.id, p);
      }
    } else if e.Some? && Listed(w, e.value) && e.value.parent in k.depth {
      ViaIff(w, k, p, c, e.value.parent);
    }
  }

  lemma {:induction false} ViaIsKid(w: World, k: Ranking, p: string, id: string)
    requires Ranks(w, k) && Reaches(w, k, p, id)
    ensures exists c :: c in Kids(w, p) && c.id == Via(w, k, p, id)
    decreases Height(k, id)
  {
    var e := Find(w, id).value;
    if e.parent == p {
      assert e in Kids(w, p);
    } else {
      ViaIsKid(w, k, p, e.parent);
    }
  }

  /** In a faithful forest an element occurs exactly once if the parent reaches it, and never otherwise. */
  lemma {:induction false} FaithfulCount(w: World, k: Ranking, p: string, f: seq<Tree>, id: string)
    requires Ranks(w, k) && p in k.depth && Faithful(w, p, f)
    ensures Count(f, id) == if Reaches(w, k, p, id) then 1 else 0
    decreases f, 1
  {
    PrefixCount(w, k, p, f, |f|, id);
    assert f[..|f|] == f;
    if Reaches(w, k, p, id) {
      ViaIsKid(w, k, p, id);
      var c :| c in Kids(w, p) && c.id == Via(w, k, p, id);
      var j :| 0 <= j < |f| && Kids(w, p)[j] == c;
      assert Heads(f, |f|, Via(w, k, p, id));
    }
  }

  /** One of the first `i` trees has this element on top. */
  predicate Heads(f: seq<Tree>, i: nat, id: string)
    requires i <= |f|
  {
    exists j :: 0 <= j < i && f[j].element.id == id
  }

  /** One of the first `i` trees is the one the path to the element goes through. */
  ghost predicate Hits(w: World, k: Ranking, p: string, f: seq<Tree>, i: nat, id: string)
    requires Ranks(w, k) && i <= |f|
  {
    Reaches(w, k, p, id) && Heads(f, i, Via(w, k, p, id))
  }

  predicate DistinctHeads(f: seq<Tree>) {
    forall i, j :: 0 <= i < j < |f| ==> f[i].element.id != f[j].element.id
  }

  lemma FaithfulHeads(w: World, p: string, f: seq<Tree>)
    requires DistinctIds(w.table) && Faithful(w, p, f)
    ensures DistinctHeads(f)
  {
    KidsDistinct(w, p);
    forall i, j | 0 <= i < j < |f|
      ensures f[i].element.id != f[j].element.id
    {
      assert f[i].element == Kids(w, p)[i] && f[j].element == Kids(w, p)[j];
    }
  }

  lemma HeadsMore(f: seq<Tree>, i: nat, id: string)
    requires DistinctHeads(f) && i < |f|
    ensures Heads(f, i + 1, id) <==> Heads(f, i, id) || f[i].element.id == id
    ensures !(Heads(f, i, id) && f[i].element.id == id)
  {
  }

  lemma {:induction false} PrefixCount(w: World, k: Ranking, p: string, f: seq<Tree>, i: nat, id: string)
    requires Ranks(w, k) && p in k.depth && Faithful(w, p, f) && i <= |f|
    ensures Count(f[..i], id) == if Hits(w, k, p, f, i, id) then 1 else 0
    decreases f, 0, i
  {
    if i > 0 {
      PrefixCount(w, k, p, f, i - 1, id);
      TreeCount(w, k, p, f, i - 1, id);
      if Reaches(w, k, p, id) {
        FaithfulHeads(w, p, f);
        HeadsMore(f, i - 1, Via(w, k, p, id));
      }
      CountMore(f, i - 1, id);
    }
  }

  lemma CountMore(f: seq<Tree>, i: nat, id: string)
    requires i < |f|
    ensures Count(f[..i + 1], id) == Count(f[..i], id) + CountTree(f[i], id)
  {
    assert f[..i + 1][..i] == f[..i];
  }

  lemma KidsDistinct(w: World, p: string)
    requires DistinctIds(w.table)
    ensures DistinctIds(Kids(w, p))
  {
    FilterKeeps(w, w.table, p);
  }

  lemma {:induction false} TreeCount(w: World, k: Ranking, p: string, f: seq<Tree>, i: nat, id: string)
    requires Ranks(w, k) && p in k.depth && Faithful(w, p, f) && i < |f|
    ensures CountTree(f[i], id) == if Reaches(w, k, p, id) && f[i].element.id == Via(w, k, p, id) then 1 else 0
    decreases f, 0, i
  {
    var c := f[i].element;
    assert c in Kids(w, p);
    FaithfulCount(w, k, c.id, f[i].children, id);
    ViaIff(w, k, p, c, id);
    if Reaches(w, k, c.id, id) {
      ReachesDeeper(w, k, c.id, id);
    }
  }

  /**
   In the whole menu an element occurs exactly once if it and all its ancestors up to a root
   carry the authority, and otherwise not.
   */
  lemma MenuCount(w: World, f: seq<Tree>, id: string)
    requires Rooted(w) && DistinctIds(w.table) && Faithful(w, ROOT, f)
    ensures Count(f, id) == if InMenu(w, id) then 1 else 0
  {
    var k := RankingExists(w);
    FaithfulCount(w, k, ROOT, f, id);
    if Reaches(w, k, ROOT, id) {
      ReachesClimbs(w, k, ROOT, id);
    }
    if InMenu(w, id) {
      var n: nat :| Climbs(w, ROOT, id, n);
      ClimbsReaches(w, k, ROOT, id, n);
    }
  }

  /** Elements of the table that carry the authority, each the parent of the next, from a root down to the id. */
  ghost predicate Chain(w: World, path: seq<Element>, id: string) {
    && path != [] && path[0].parent == "0" && path[|path| - 1].id == id
    && (forall i :: 0 < i < |path| ==> path[i].parent == path[i - 1].id)
    && forall e :: e in path ==>
         e in w.table && e.parent !in w.down && (w.authority.Some? ==> w.authority.value in e.authority)
  }

  lemma {:induction false} ClimbsChain(w: World, id: string, n: nat) returns (path: seq<Element>)
    requires Climbs(w, ROOT, id, n)
    ensures Chain(w, path, id)
    decreases n
  {
    var e := Find(w, id).value;
    if n == 0 {
      path := [e];
    } else {
      var init := ClimbsChain(w, e.parent, n - 1);
      path := init + [e];
    }
  }

  lemma {:induction false} ChainClimbs(w: World, path: seq<Element>, id: string)
    requires DistinctIds(w.table) && Chain(w, path, id)
    ensures Climbs(w, ROOT, id, |path| - 1)
  {
    var n := |path| - 1;
    var e := path[n];
    assert e in path;
    FindsIt(w, e);
    if n > 0 {
      assert forall d :: d in path[..n] ==> d in path;
      ChainClimbs(w, path[..n], e.parent);
    }
  }

  /**
   In plain terms: an id occurs in the whole menu, and then once, exactly if a chain of elements
   with the authority leads from a root down to it.
   */
  lemma MenuIs(w: World, f: seq<Tree>, id: string)
    requires Rooted(w) && DistinctIds(w.table) && Faithful(w, ROOT, f)
    ensures Count(f, id) <= 1
    ensures Count(f, id) == 1 <==> exists path :: Chain(w, path, id)
  {
    MenuCount(w, f, id);
    if n: nat :| Climbs(w, ROOT, id, n) {
      var path := ClimbsChain(w, id, n);
    }
    if path :| Chain(w, path, id) {
      ChainClimbs(w, path, id);
    }
  }

  /**
   No node lacks the authority asked for, each hangs from the node above it, top nodes from `p`,
   and siblings come in their order if the table does.
   */
  ghost predicate Permitted(w: World, p: string, f: seq<Tree>)
    decreases f
  {
    && (Ascending(w.table) ==> forall i, j :: 0 <= i < j < |f| ==> f[i].element.order <= f[j].element.order)
    && forall i :: 0 <= i < |f| ==>
      && f[i].element in w.table && f[i].element.parent == p
      && (w.authority.Some? ==> w.authority.value in f[i].element.authority)
      && Permitted(w, f[i].element.id, f[i].children)
  }

  lemma {:induction false} FaithfulPermitted(w: World, p: string, f: seq<Tree>)
    requires Faithful(w, p, f)
    ensures Permitted(w, p, f)
    decreases f
  {
    if Ascending(w.table) {
      SiblingsOrdered(w, p);
      forall i, j | 0 <= i < j < |f|
        ensures f[i].element.order <= f[j].element.order
      {
        assert f[i].element == Kids(w, p)[i] && f[j].element == Kids(w, p)[j];
      }
    }
    forall i | 0 <= i < |f|
      ensures f[i].element in w.table && f[i].element.parent == p
      ensures w.authority.Some? ==> w.authority.value in f[i].element.authority
      ensures Permitted(w, f[i].element.id, f[i].children)
    {
      assert Kids(w, p)[i] in Kids(w, p);
      FaithfulPermitted(w, f[i].element.id, f[i].children);
    }
  }

  function Size(f: seq<Tree>): nat {
    if f == [] then 0 else Size(f[..|f| - 1]) + 1 + Size(f[|f| - 1].children)
  }

  lemma {:induction false} ChildSmaller(f: seq<Tree>, i: nat)
    requires i < |f|
    ensures Size(f[i].children) < Size(f)
  {
    if i < |f| - 1 {
      ChildSmaller(f[..|f| - 1], i);
    }
  }

  /** There is a faithful forest below the parent, of at most so many nodes. */
  ghost predicate Fits(w: World, p: string, size: nat) {
    exists f: seq<Tree> :: Faithful(w, p, f) && Size(f) <= size
  }

  lemma ChildFits(w: World, p: string, size: nat, e: Element)
    requires Fits(w, p, size) && e in Kids(w, p)
    ensures size > 0 && Fits(w, e.id, size - 1)
  {
    var f: seq<Tree> :| Faithful(w, p, f) && Size(f) <= size;
    var i :| 0 <= i < |f| && Kids(w, p)[i] == e;
    ChildSmaller(f, i);
    assert Faithful(w, e.id, f[i].children);
  }

  /** An element that climbs is listed by its parent, which climbs in its turn or is the goal. */
  lemma ClimbsKid(w: World, p: string, id: string, n: nat) returns (e: Element)
    requires Climbs(w, p, id, n)
    ensures e.id == id && e in Kids(w, e.parent)
    ensures if n == 0 then e.parent == p else Climbs(w, p, e.parent, n - 1)
  {
    e := Find(w, id).value;
  }

  /** Inside a faithful forest every element that climbs to the parent has a smaller forest of its own. */
  lemma {:induction false} Inside(w: World, p: string, size: nat, id: string, n: nat)
    requires Fits(w, p, size) && Climbs(w, p, id, n)
    ensures size > 0 && Fits(w, id, size - 1)
    decreases n
  {
    var e := ClimbsKid(w, p, id, n);
    if n == 0 {
      ChildFits(w, p, size, e);
    } else {
      Inside(w, p, size, e.parent, n - 1);
      assert Fits(w, e.parent, size - 1) && e in Kids(w, e.parent);
      ChildFits(w, e.parent, size - 1, e);
      FitsMore(w, id, size - 2);
    }
  }

  lemma FitsMore(w: World, p: string, size: nat)
    requires Fits(w, p, size)
    ensures Fits(w, p, size + 1)
  {
    var f: seq<Tree> :| Faithful(w, p, f) && Size(f) <= size;
    assert Faithful(w, p, f) && Size(f) <= size + 1;
  }

  lemma {:induction false} FitsOnlyIfRooted(w: World, size: nat)
    requires Fits(w, ROOT, size)
    ensures Rooted(w)
  {
    if n: nat :| Climbs(w, ROOT, ROOT, n) {
      Inside(w, ROOT, size, ROOT, n);
      FitsOnlyIfRooted(w, size - 1);
    }
  }

  /** A finite menu exists only if the roots' parent id is not in it: otherwise the recursion never ends. */
  lemma FiniteOnlyIfRooted(w: World, f: seq<Tree>)
    requires Faithful(w, ROOT, f)
    ensures Rooted(w)
  {
    assert Fits(w, ROOT, Size(f));
    FitsOnlyIfRooted(w, Size(f));
  }

  /** One root with the id "0" is enough: it lists itself without end. */
  lemma SelfListedRoot(f: seq<Tree>)
    ensures !Faithful(World([Element(ROOT, ROOT, 0, {})], None, {}), ROOT, f)
  {
    var e := Element(ROOT, ROOT, 0, {});
    var w := World([e], None, {});
    assert w.table[0] == e;
    FindsIt(w, e);
    assert Climbs(w, ROOT, ROOT, 0);
    if Faithful(w, ROOT, f) {
      FiniteOnlyIfRooted(w, f);
    }
  }

  /** With the table in ORDER BY order, so are all siblings. */
  lemma SiblingsOrdered(w: World, p: string)
    requires Ascending(w.table)
    ensures Ascending(Kids(w, p))
  {
    FilterKeeps(w, w.table, p);
  }

  // ---------------------------------------------------------------- the recursion itself

  lemma KidRanks(w: World, k: Ranking, p: string, i: nat)
    requires Ranks(w, k) && p in k.depth && i < |Kids(w, p)|
    ensures var id := Kids(w, p)[i].id; id in k.depth && k.depth[p] < k.depth[id] <= k.bound
  {
    assert Kids(w, p)[i] in Kids(w, p);
  }

  ghost predicate Grown(w: World, e: Element, t: Tree) {
    t.element == e && Faithful(w, e.id, t.children)
  }

  /** The first trees of the forest below a parent. */
  ghost predicate Started(w: World, kids: seq<Element>, f: seq<Tree>) {
    f != [] ==>
      var n := |f| - 1;
      n < |kids| && Started(w, kids, f[..n]) && Grown(w, kids[n], f[n])
  }

  lemma StartedMore(w: World, kids: seq<Element>, f: seq<Tree>, t: Tree)
    requires Started(w, kids, f) && |f| < |kids| && Grown(w, kids[|f|], t)
    ensures Started(w, kids, f + [t])
  {
    assert (f + [t])[..|f|] == f;
  }

  lemma {:induction false} StartedAt(w: World, kids: seq<Element>, f: seq<Tree>, j: nat)
    requires Started(w, kids, f) && j < |f| <= |kids|
    ensures Grown(w, kids[j], f[j])
  {
    if j < |f| - 1 {
      StartedAt(w, kids, f[..|f| - 1], j);
    }
  }

  lemma StartedAll(w: World, p: string, f: seq<Tree>)
    requires Started(w, Kids(w, p), f) && |f| == |Kids(w, p)|
    ensures Faithful(w, p, f)
  {
    forall j | 0 <= j < |f|
      ensures f[j].element == Kids(w, p)[j] && Faithful(w, f[j].element.id, f[j].children)
    {
      StartedAt(w, Kids(w, p), f, j);
    }
  }

  /** Appends each child to the parent's list and fills it in turn. */
  method QueryChildrenByAuthority(w: World, ghost k: Ranking, parent: Element) returns (t: Tree)
    requires Ranks(w, k) && parent.id in k.depth
    ensures t.element == parent && Faithful(w, parent.id, t.children)
    decreases k.bound - k.depth[parent.id]
  {
    var rows, children := Kids(w, parent.id), [];
    for i := 0 to |rows|
      invariant |children| == i && Started(w, rows, children)
    {
      KidRanks(w, k, parent.id, i);
      var child := QueryChildrenByAuthority(w, k, rows[i]);
      StartedMore(w, rows, children, child);
      children := children + [child];
    }
    StartedAll(w, parent.id, children);
    t := Node(parent, children);
  }

  /**
   Terminates on every table whose menu does not contain the roots' parent id, whatever
   cycles the parents form elsewhere; on the others no finite menu exists. Only a failing
   query for the roots is an error to the caller.
   */
  method ServeUiElementsListByAuthority(w: World) returns (ok: bool, forest: seq<Tree>)
    requires Rooted(w) && DistinctIds(w.table)
    ensures ok <==> ROOT !in w.down
    ensures !ok ==> forest == []
    ensures Faithful(w, ROOT, forest)
    ensures forall id :: Count(forest, id) == if InMenu(w, id) then 1 else 0
    ensures Permitted(w, "0", forest)
    ensures forall id :: Count(forest, id) <= 1 && (Count(forest, id) == 1 <==> exists path :: Chain(w, path, id))
  {
    ghost var k := RankingExists(w);
    var roots := Kids(w, ROOT);
    ok, forest := ROOT !in w.down, [];
    for i := 0 to |roots|
      invariant |forest| == i && Started(w, roots, forest)
    {
      KidRanks(w, k, ROOT, i);
      var tree := QueryChildrenByAuthority(w, k, roots[i]);
      StartedMore(w, roots, forest, tree);
      forest := forest + [tree];
    }
    StartedAll(w, ROOT, forest);
    forall id
      ensures Count(forest, id) == if InMenu(w, id) then 1 else 0
      ensures Count(forest, id) <= 1 && (Count(forest, id) == 1 <==> exists path :: Chain(w, path, id))
    {
      MenuCount(w, forest, id);
      MenuIs(w, forest, id);
    }
    FaithfulPermitted(w, ROOT, forest);
  }
}
