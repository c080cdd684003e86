/** The shape of the handle forest as a value: who is whose child, in which order. */
module HandleTree {
  import opened Rings

  /**
   * kids lists the children of every handle in link order; home gives the parent of a linked handle and its place
   * among the siblings. Ranks, below top, grow from a child to its parent: there is no cycle of parents.
   */
  datatype Tree<H(==)> = Tree(kids: map<H, seq<H>>, home: map<H, (H, nat)>, rank: map<H, nat>, top: nat)

  ghost predicate Sited<H>(t: Tree<H>, c: H)
    requires c in t.home
  {
    && c in t.kids && t.home[c].0 in t.kids && t.home[c].1 < |t.kids[t.home[c].0]|
    && t.kids[t.home[c].0][t.home[c].1] == c
  }

  ghost predicate Edge<H>(t: Tree<H>, c: H)
    requires c in t.home
  {
    Sited(t, c) && c in t.rank && t.home[c].0 in t.rank && t.rank[c] < t.rank[t.home[c].0]
  }

  ghost predicate Listed<H>(t: Tree<H>, p: H)
    requires p in t.kids
  {
    && p in t.rank && t.rank[p] < t.top
    && forall i {:trigger t.kids[p][i]} :: 0 <= i < |t.kids[p]| ==>
         t.kids[p][i] in t.home && t.home[t.kids[p][i]] == (p, i)
  }

  /** Rings of siblings; parents may form a cycle. */
  ghost predicate InRings<H>(t: Tree<H>) {
    forall c {:trigger Sited(t, c)} :: c in t.home ==> Sited(t, c)
  }

  ghost predicate WellFormed<H>(t: Tree<H>) {
    && t.rank.Keys == t.kids.Keys && InRings(t)
    && (forall c {:trigger Edge(t, c)} :: c in t.home ==> Edge(t, c))
    && (forall p {:trigger Listed(t, p)} :: p in t.kids ==> Listed(t, p))
  }

  /** x is h or one of its descendants. */
  ghost predicate Below<H>(t: Tree<H>, x: H, h: H)
    requires WellFormed(t) && x in t.kids
    decreases t.top - t.rank[x]
  {
    x == h || (x in t.home && Edge(t, x) && Listed(t, t.home[x].0) && Below(t, t.home[x].0, h))
  }

  ghost predicate SameValue<H, V>(m: map<H, V>, n: map<H, V>, x: H) {
    (x in m <==> x in n) && (x in m && x in n ==> m[x] == n[x])
  }

  /** Two forests agree about x. */
  ghost predicate SameAt<H>(t: Tree<H>, u: Tree<H>, x: H) {
    SameValue(t.kids, u.kids, x) && SameValue(t.home, u.home, x)
  }

  lemma SameEverywhere<H>(t: Tree<H>, u: Tree<H>)
    requires t.rank == u.rank && t.top == u.top && forall x :: SameAt(t, u, x)
    ensures t == u
  {
    assert forall x :: x in t.kids || x in u.kids || x in t.home || x in u.home ==> SameAt(t, u, x);
    assert t.kids == u.kids && t.home == u.home;
  }

  // ---- unlinking and linking ----

  ghost function Remove<H>(t: Tree<H>, c: H): Tree<H>
    requires WellFormed(t)
  {
    if c !in t.home then t else
      assert Edge(t, c);
      var (p, i) := t.home[c];
      t.(kids := t.kids[p := Without(t.kids[p], i)],
         home := map x | x in t.home && x != c :: Shifted(t.home[x], t.home[c]))
  }

  /** The place of x after c is unlinked. */
  function Shifted<H(==)>(place: (H, nat), gone: (H, nat)): (H, nat) {
    if place.0 == gone.0 && place.1 > gone.1 then (gone.0, place.1 - 1) else place
  }

  lemma RemovedHome<H>(t: Tree<H>, c: H, x: H)
    requires WellFormed(t)
    ensures x in Remove(t, c).home <==> x in t.home && x != c
    ensures x in t.home && x != c ==>
              Remove(t, c).home[x] == if c in t.home then Shifted(t.home[x], t.home[c]) else t.home[x]
  {}

  lemma RemoveWellFormed<H>(t: Tree<H>, c: H)
    requires WellFormed(t)
    ensures WellFormed(Remove(t, c))
  {
    var u := Remove(t, c);
    if c in t.home {
      var (p, i) := t.home[c];
      assert Edge(t, c) && Listed(t, p);
      forall x | x in u.home ensures Edge(u, x) {
        assert Edge(t, x);
      }
      forall q | q in u.kids ensures Listed(u, q) {
        assert Listed(t, q);
        forall j | 0 <= j < |u.kids[q]| ensures u.kids[q][j] in u.home && u.home[u.kids[q][j]] == (q, j) {
          var k := if q == p && j >= i then j + 1 else j;
          assert u.kids[q][j] == t.kids[q][k];
        }
      }
    }
  }

  /** Linking c, which has no parent, as the last child of p: the ranks of p and its ancestors move above c. */
  ghost function Insert<H>(t: Tree<H>, c: H, p: H): Tree<H>
    requires WellFormed(t) && c in t.kids && p in t.kids
  {
    assert Listed(t, c);
    var lift := t.rank[c] + 1;
    Tree(t.kids[p := t.kids[p] + [c]], t.home[c := (p, |t.kids[p]|)],
         map x | x in t.kids :: (assert Listed(t, x); if Below(t, p, x) then t.rank[x] + lift else t.rank[x]),
         t.top + lift)
  }

  lemma InsertInRings<H>(t: Tree<H>, c: H, p: H)
    requires WellFormed(t) && c in t.kids && p in t.kids && c !in t.home
    ensures InRings(Insert(t, c, p))
  {
    var u := Insert(t, c, p);
    forall x | x in u.home ensures Sited(u, x) {
      assert x != c ==> Edge(t, x);
    }
  }

  /** It stays a forest unless c is linked under itself or under a descendant of its own. */
  lemma InsertWellFormed<H>(t: Tree<H>, c: H, p: H)
    requires WellFormed(t) && c in t.kids && p in t.kids && c !in t.home
    ensures WellFormed(Insert(t, c, p)) <==> !Below(t, p, c)
  {
    var u := Insert(t, c, p);
    assert Listed(t, p) && Listed(t, c);
    InsertInRings(t, c, p);
    if Below(t, p, c) {
      BelowRank(t, p, c);
      assert Below(t, p, p) && !Edge(u, c);
    } else {
      InsertStaysForest(t, c, p);
    }
  }

  lemma InsertStaysForest<H>(t: Tree<H>, c: H, p: H)
    requires WellFormed(t) && c in t.kids && p in t.kids && c !in t.home && !Below(t, p, c)
    ensures WellFormed(Insert(t, c, p))
  {
    var u := Insert(t, c, p);
    InsertInRings(t, c, p);
    assert Listed(t, p) && Listed(t, c);
    forall x | x in u.home ensures Edge(u, x) {
      if x != c {
        assert Edge(t, x) && Listed(t, t.home[x].0);
        if Below(t, p, x) {
          BelowUp(t, p, x);
        }
      }
    }
    forall q | q in u.kids ensures Listed(u, q) {
      assert Listed(t, q);
      forall j | 0 <= j < |u.kids[q]| ensures u.kids[q][j] in u.home && u.home[u.kids[q][j]] == (q, j) {
        if q != p || j < |t.kids[p]| {
          assert t.kids[q][j] in t.home;
        }
      }
    }
  }

  // ---- descent ----

  /** What is below a child is below its parent. */
  lemma {:induction false} BelowUp<H>(t: Tree<H>, x: H, h: H)
    requires WellFormed(t) && x in t.kids && h in t.home && Below(t, x, h)
    ensures Below(t, x, t.home[h].0)
    decreases t.top - t.rank[x]
  {
    assert Listed(t, x);
    if x != h {
      assert Edge(t, x) && Listed(t, t.home[x].0);
      BelowUp(t, t.home[x].0, h);
    } else {
      assert Edge(t, x) && Listed(t, t.home[x].0);
      assert Below(t, t.home[x].0, t.home[x].0);
    }
  }

  lemma {:induction false} BelowRank<H>(t: Tree<H>, x: H, h: H)
    requires WellFormed(t) && x in t.kids && Below(t, x, h)
    ensures h in t.kids && t.rank[x] <= t.rank[h] && (x != h ==> t.rank[x] < t.rank[h])
    decreases t.top - t.rank[x]
  {
    assert Listed(t, x);
    if x != h {
      assert Edge(t, x) && Listed(t, t.home[x].0);
      BelowRank(t, t.home[x].0, h);
    }
  }

  lemma {:induction false} BelowRemoved<H>(t: Tree<H>, u: Tree<H>, c: H, x: H, h: H)
    requires WellFormed(t) && u == Remove(t, c) && WellFormed(u) && x in t.kids && Below(u, x, h)
    ensures Below(t, x, h)
    decreases t.top - t.rank[x]
  {
    assert Listed(t, x);
    if x != h {
      assert Edge(u, x) && Edge(t, x) && Listed(t, t.home[x].0);
      BelowRemoved(t, u, c, t.home[x].0, h);
    }
  }

  /** The subtree of c keeps its members when c is unlinked. */
  lemma {:induction false} BelowKept<H>(t: Tree<H>, u: Tree<H>, c: H, x: H)
    requires WellFormed(t) && u == Remove(t, c) && WellFormed(u) && x in t.kids && Below(t, x, c)
    ensures Below(u, x, c)
    decreases t.top - t.rank[x]
  {
    assert Listed(t, x) && Listed(u, x);
    if x != c {
      assert Edge(t, x) && Edge(u, x) && Listed(t, t.home[x].0) && Listed(u, u.home[x].0);
      BelowKept(t, u, c, t.home[x].0);
    }
  }

  lemma BelowIffRemoved<H>(t: Tree<H>, c: H, x: H)
    requires WellFormed(t) && x in t.kids
    ensures WellFormed(Remove(t, c)) && (Below(Remove(t, c), x, c) <==> Below(t, x, c))
  {
    RemoveWellFormed(t, c);
    if Below(t, x, c) {
      BelowKept(t, Remove(t, c), c, x);
    } else if Below(Remove(t, c), x, c) {
      BelowRemoved(t, Remove(t, c), c, x, c);
    }
  }

  /** The ancestors of one handle form a chain. */
  lemma {:induction false} BelowChain<H>(t: Tree<H>, x: H, a: H, b: H)
    requires WellFormed(t) && x in t.kids && a in t.kids && b in t.kids && Below(t, x, a) && Below(t, x, b)
    ensures Below(t, a, b) || Below(t, b, a)
    decreases t.top - t.rank[x]
  {
    assert Listed(t, x);
    if x != a && x != b {
      assert Edge(t, x) && Listed(t, t.home[x].0);
      BelowChain(t, t.home[x].0, a, b);
    }
  }

  /** A proper descendant is below one of the children. */
  lemma {:induction false} BelowChild<H>(t: Tree<H>, x: H, h: H) returns (i: nat)
    requires WellFormed(t) && x in t.kids && Below(t, x, h) && x != h
    ensures h in t.kids && i < |t.kids[h]| && Below(t, x, t.kids[h][i])
    decreases t.top - t.rank[x]
  {
    assert Listed(t, x) && Edge(t, x) && Listed(t, t.home[x].0);
    if t.home[x].0 == h {
      i := t.home[x].1;
    } else {
      i := BelowChild(t, t.home[x].0, h);
    }
  }

  /** Nothing is below two siblings. */
  lemma SiblingsApart<H>(t: Tree<H>, x: H, p: H, i: nat, j: nat)
    requires WellFormed(t) && x in t.kids && p in t.kids && i < |t.kids[p]| && j < |t.kids[p]| && i != j
    ensures !(Below(t, x, t.kids[p][i]) && Below(t, x, t.kids[p][j]))
  {
    var a, b := t.kids[p][i], t.kids[p][j];
    assert Listed(t, p) && a in t.home && b in t.home && Edge(t, a) && Edge(t, b);
    if Below(t, x, a) && Below(t, x, b) {
      BelowChain(t, x, a, b);
      if Below(t, a, b) {
        BelowRank(t, p, b);
      } else {
        BelowRank(t, p, a);
      }
    }
  }

  // ---- no cycle ----

  /** Ranks that grow along every link of a forest. */
  ghost predicate Ranks<H>(home: map<H, (H, nat)>, r: H -> int) {
    forall x {:trigger home[x]} :: x in home ==> r(x) < r(home[x].0)
  }

  lemma {:induction false} RanksGrow<H>(t: Tree<H>, r: H -> int, x: H, h: H)
    requires WellFormed(t) && x in t.kids && Ranks(t.home, r) && Below(t, x, h)
    ensures r(x) <= r(h)
    decreases t.top - t.rank[x]
  {
    assert Listed(t, x);
    if x != h {
      assert Edge(t, x) && Listed(t, t.home[x].0);
      RanksGrow(t, r, t.home[x].0, h);
    }
  }

  /** Linking c under p, from wherever it was, closes a cycle of parents exactly when c is p or an ancestor of p. */
  lemma CycleIffAncestor<H>(t: Tree<H>, c: H, p: H)
    requires WellFormed(t) && c in t.kids && p in t.kids
    ensures WellFormed(Remove(t, c)) && c !in Remove(t, c).home
    ensures (exists r: H -> int :: Ranks(Insert(Remove(t, c), c, p).home, r)) <==> !Below(t, p, c)
  {
    RemoveWellFormed(t, c);
    BelowIffRemoved(t, c, p);
    CycleIffBelow(Remove(t, c), c, p);
  }

  lemma CycleIffBelow<H>(t: Tree<H>, c: H, p: H)
    requires WellFormed(t) && c in t.kids && p in t.kids && c !in t.home
    ensures (exists r: H -> int :: Ranks(Insert(t, c, p).home, r)) <==> !Below(t, p, c)
  {
    var u := Insert(t, c, p);
    if !Below(t, p, c) {
      InsertWellFormed(t, c, p);
      var r := (x: H) => if x in u.rank then u.rank[x] else 0;
      forall x | x in u.home ensures r(x) < r(u.home[x].0) {
        assert Edge(u, x);
      }
      assert Ranks(u.home, r);
    } else if r: H -> int :| Ranks(u.home, r) {
      assert forall x :: x in t.home ==> u.home[x] == t.home[x];
      assert u.home[c].0 == p;
      RanksGrow(t, r, p, c);
    }
  }

  // ---- freeing a subtree ----

  /** The forest after h and everything below it are detached from their parents and from their children. */
  ghost function Freed<H>(t: Tree<H>, h: H): Tree<H>
    requires WellFormed(t) && h in t.kids
  {
    var u := Remove(t, h);
    t.(kids := map x | x in t.kids :: if Below(t, x, h) then [] else u.kids[x],
       home := map x | x in u.home && (assert Edge(t, x); !Below(t, x, h)) :: u.home[x])
  }

  lemma FreedHome<H>(t: Tree<H>, h: H, x: H)
    requires WellFormed(t) && h in t.kids && x in t.home
    ensures x in t.kids && (x in Freed(t, h).home <==> !Below(t, x, h))
    ensures !Below(t, x, h) ==>
              Freed(t, h).home[x] == if h in t.home then Shifted(t.home[x], t.home[h]) else t.home[x]
  {
    assert Edge(t, x);
    RemovedHome(t, h, x);
  }

  /** x is below one of the first k children of h. */
  ghost predicate Gone<H>(t: Tree<H>, h: H, k: nat, x: H)
    requires WellFormed(t) && h in t.kids && k <= |t.kids[h]| && x in t.kids
  {
    exists j {:trigger t.kids[h][j]} :: 0 <= j < k && Below(t, x, t.kids[h][j])
  }

  /** The forest after the first k children of h have been freed. */
  ghost function FreedUpTo<H>(t: Tree<H>, h: H, k: nat): Tree<H>
    requires WellFormed(t) && h in t.kids && k <= |t.kids[h]|
  {
    t.(kids := map x | x in t.kids :: if Gone(t, h, k, x) then [] else if x == h then t.kids[h][k..] else t.kids[x],
       home := map x | x in t.home && (assert Edge(t, x); !Gone(t, h, k, x)) ::
                 assert Edge(t, x); assert Listed(t, t.home[x].0);
                 if t.home[x].0 == h then (NotGone(t, h, k, x); (h, (t.home[x].1 - k) as nat)) else t.home[x])
  }

  lemma NotGone<H>(t: Tree<H>, h: H, k: nat, x: H)
    requires WellFormed(t) && h in t.kids && k <= |t.kids[h]| && x in t.home && x in t.kids
    requires t.home[x].0 == h && !Gone(t, h, k, x)
    ensures t.home[x].1 >= k
  {
    assert Edge(t, x) && Below(t, x, x) && t.kids[h][t.home[x].1] == x;
  }

  lemma FreedUpToHome<H>(t: Tree<H>, h: H, k: nat, x: H)
    requires WellFormed(t) && h in t.kids && k <= |t.kids[h]| && x in t.home
    ensures x in t.kids && (x in FreedUpTo(t, h, k).home <==> !Gone(t, h, k, x))
    ensures !Gone(t, h, k, x) && t.home[x].0 != h ==> FreedUpTo(t, h, k).home[x] == t.home[x]
    ensures !Gone(t, h, k, x) && t.home[x].0 == h ==>
              t.home[x].1 >= k && FreedUpTo(t, h, k).home[x] == (h, t.home[x].1 - k)
  {
    assert Edge(t, x);
    if t.home[x].0 == h && !Gone(t, h, k, x) {
      NotGone(t, h, k, x);
    }
  }

  /** The root of the freed subtree and what is outside it are never among what is gone. */
  lemma GoneIsBelow<H>(t: Tree<H>, h: H, k: nat, x: H)
    requires WellFormed(t) && h in t.kids && k <= |t.kids[h]| && x in t.kids && Gone(t, h, k, x)
    ensures Below(t, x, h) && x != h
  {
    var j :| 0 <= j < k && Below(t, x, t.kids[h][j]);
    assert Listed(t, h) && Edge(t, t.kids[h][j]);
    BelowUp(t, x, t.kids[h][j]);
    BelowRank(t, x, t.kids[h][j]);
  }

  lemma ChildStays<H>(t: Tree<H>, h: H, k: nat, i: nat)
    requires WellFormed(t) && h in t.kids && k <= i < |t.kids[h]| && t.kids[h][i] in t.kids
    ensures !Gone(t, h, k, t.kids[h][i])
  {
    var x := t.kids[h][i];
    if j :| 0 <= j < k && Below(t, x, t.kids[h][j]) {
      assert Below(t, x, x);
      SiblingsApart(t, x, h, i, j);
    }
  }

  /** The subtree of the next child is untouched by the freeing of the earlier ones. */
  lemma {:induction false} BelowStays<H>(t: Tree<H>, h: H, k: nat, x: H)
    requires WellFormed(t) && h in t.kids && k < |t.kids[h]| && x in t.kids
    requires WellFormed(FreedUpTo(t, h, k))
    ensures Below(FreedUpTo(t, h, k), x, t.kids[h][k]) <==> Below(t, x, t.kids[h][k])
    ensures Below(t, x, t.kids[h][k]) ==> x != h && !Gone(t, h, k, x) && FreedUpTo(t, h, k).kids[x] == t.kids[x]
    decreases t.top - t.rank[x]
  {
    var u, c := FreedUpTo(t, h, k), t.kids[h][k];
    assert Listed(t, x) && Listed(t, h) && Edge(t, c) && Listed(t, c) && Listed(u, x);
    if Below(t, x, c) {
      BelowRank(t, x, c);
      if j :| 0 <= j < k && Below(t, x, t.kids[h][j]) {
        SiblingsApart(t, x, h, j, k);
      }
    }
    if x != c && x in t.home {
      var q := t.home[x].0;
      assert Edge(t, x) && Listed(t, q);
      BelowStays(t, h, k, q);
      if x in u.home {
        assert Edge(u, x) && Listed(u, q);
      }
    }
  }

  lemma GoneNext<H>(t: Tree<H>, h: H, k: nat, x: H)
    requires WellFormed(t) && h in t.kids && k < |t.kids[h]| && x in t.kids
    ensures Gone(t, h, k + 1, x) <==> Gone(t, h, k, x) || Below(t, x, t.kids[h][k])
  {
    if j :| 0 <= j < k + 1 && Below(t, x, t.kids[h][j]) {
      assert j < k ==> Gone(t, h, k, x);
    }
    if j :| 0 <= j < k && Below(t, x, t.kids[h][j]) {
      assert Gone(t, h, k + 1, x);
    }
    if Below(t, x, t.kids[h][k]) {
      assert Gone(t, h, k + 1, x);
    }
  }

  /** The next child to free is the first one left. */
  lemma NextChild<H>(t: Tree<H>, h: H, k: nat)
    requires WellFormed(t) && h in t.kids && k < |t.kids[h]|
    ensures var u, c := FreedUpTo(t, h, k), t.kids[h][k];
            c in t.kids && c in u.home && u.home[c] == (h, 0) && !Gone(t, h, k, h) && u.kids[h] == t.kids[h][k..]
  {
    assert Listed(t, h) && t.kids[h][k] in t.home && Edge(t, t.kids[h][k]);
    ChildStays(t, h, k, k);
    if Gone(t, h, k, h) {
      GoneIsBelow(t, h, k, h);
    }
  }

  lemma FreeNextKids<H>(t: Tree<H>, u: Tree<H>, h: H, k: nat, x: H)
    requires WellFormed(t) && h in t.kids && k < |t.kids[h]| && t.kids[h][k] in t.kids
    requires u == FreedUpTo(t, h, k) && WellFormed(u)
    ensures SameValue(Freed(u, t.kids[h][k]).kids, FreedUpTo(t, h, k + 1).kids, x)
  {
    NextChild(t, h, k);
    if x in t.kids {
      BelowStays(t, h, k, x);
      GoneNext(t, h, k, x);
      assert Without(t.kids[h][k..], 0) == t.kids[h][k + 1..];
    }
  }

  /** Which handles stay linked when the next child is freed. */
  lemma FreeNextStays<H>(t: Tree<H>, u: Tree<H>, h: H, k: nat, x: H)
    requires WellFormed(t) && h in t.kids && k < |t.kids[h]| && t.kids[h][k] in t.kids && x in t.home && x in t.kids
    requires u == FreedUpTo(t, h, k) && WellFormed(u)
    ensures x in u.home && !Below(u, x, t.kids[h][k]) <==> !Gone(t, h, k + 1, x)
  {
    FreedUpToHome(t, h, k, x);
    BelowStays(t, h, k, x);
    GoneNext(t, h, k, x);
  }

  /** The places of the handles that stay linked. */
  lemma FreeNextPlace<H>(t: Tree<H>, u: Tree<H>, h: H, k: nat, x: H)
    requires WellFormed(t) && h in t.kids && k < |t.kids[h]| && t.kids[h][k] in t.kids && x in t.home && x in t.kids
    requires u == FreedUpTo(t, h, k) && WellFormed(u) && !Gone(t, h, k + 1, x)
    requires x in u.home && x in u.kids && !Below(u, x, t.kids[h][k])
    requires t.kids[h][k] in u.home && u.home[t.kids[h][k]] == (h, 0)
    ensures x in Freed(u, t.kids[h][k]).home && x in FreedUpTo(t, h, k + 1).home
    ensures Freed(u, t.kids[h][k]).home[x] == FreedUpTo(t, h, k + 1).home[x]
  {
    FreedHome(u, t.kids[h][k], x);
    FreedUpToPlace(t, u, h, k, x);
  }

  lemma FreedUpToPlace<H>(t: Tree<H>, u: Tree<H>, h: H, k: nat, x: H)
    requires WellFormed(t) && h in t.kids && k < |t.kids[h]| && x in t.home && x in t.kids
    requires u == FreedUpTo(t, h, k) && !Gone(t, h, k + 1, x) && x in u.home
    ensures x in FreedUpTo(t, h, k + 1).home && FreedUpTo(t, h, k + 1).home[x] == Shifted(u.home[x], (h, 0))
  {
    FreedUpToHome(t, h, k, x);
    FreedUpToHome(t, h, k + 1, x);
  }

  lemma FreeNextHome<H>(t: Tree<H>, u: Tree<H>, h: H, k: nat, x: H)
    requires WellFormed(t) && h in t.kids && k < |t.kids[h]| && t.kids[h][k] in t.kids
    requires u == FreedUpTo(t, h, k) && WellFormed(u)
    ensures SameValue(Freed(u, t.kids[h][k]).home, FreedUpTo(t, h, k + 1).home, x)
  {
    if x in t.home {
      FreedUpToHome(t, h, k + 1, x);
      FreeNextStays(t, u, h, k, x);
      if !Gone(t, h, k + 1, x) {
        NextChild(t, h, k);
        FreeNextPlace(t, u, h, k, x);
      } else if x in u.home {
        FreedHome(u, t.kids[h][k], x);
      }
    }
  }

  /** Freeing the next child of h takes the forest from k freed children to k + 1. */
  lemma FreeNext<H>(t: Tree<H>, u: Tree<H>, h: H, k: nat)
    requires WellFormed(t) && h in t.kids && k < |t.kids[h]|
    requires u == FreedUpTo(t, h, k) && WellFormed(u)
    ensures t.kids[h][k] in t.kids && Freed(u, t.kids[h][k]) == FreedUpTo(t, h, k + 1)
  {
    NextChild(t, h, k);
    var v, w := Freed(u, t.kids[h][k]), FreedUpTo(t, h, k + 1);
    forall x ensures SameAt(v, w, x) {
      FreeNextKids(t, u, h, k, x);
      FreeNextHome(t, u, h, k, x);
    }
    SameEverywhere(v, w);
  }

  lemma FreeNone<H>(t: Tree<H>, h: H)
    requires WellFormed(t) && h in t.kids
    ensures FreedUpTo(t, h, 0) == t
  {
    var u := FreedUpTo(t, h, 0);
    forall x | x in t.kids ensures u.kids[x] == t.kids[x] {
      assert !Gone(t, h, 0, x);
    }
    assert u.kids == t.kids;
    forall x | x in t.home ensures x in u.home && u.home[x] == t.home[x] {
      assert Edge(t, x) && !Gone(t, h, 0, x);
    }
    assert u.home == t.home;
  }

  lemma GoneAll<H>(t: Tree<H>, h: H, x: H)
    requires WellFormed(t) && h in t.kids && x in t.kids
    ensures Below(t, x, h) <==> x == h || Gone(t, h, |t.kids[h]|, x)
  {
    if Gone(t, h, |t.kids[h]|, x) {
      GoneIsBelow(t, h, |t.kids[h]|, x);
    }
    if Below(t, x, h) && x != h {
      var i := BelowChild(t, x, h);
    }
  }

  lemma ParentStays<H>(t: Tree<H>, h: H)
    requires WellFormed(t) && h in t.home
    ensures Edge(t, h) && t.home[h].0 != h && !Below(t, t.home[h].0, h)
    ensures !Gone(t, h, |t.kids[h]|, h) && !Gone(t, h, |t.kids[h]|, t.home[h].0)
  {
    var p := t.home[h].0;
    assert Edge(t, h) && Listed(t, p);
    if Below(t, p, h) {
      BelowRank(t, p, h);
    }
    if Gone(t, h, |t.kids[h]|, p) {
      GoneIsBelow(t, h, |t.kids[h]|, p);
    }
    if Gone(t, h, |t.kids[h]|, h) {
      GoneIsBelow(t, h, |t.kids[h]|, h);
    }
  }

  lemma FreeLastKids<H>(t: Tree<H>, u: Tree<H>, h: H, x: H)
    requires WellFormed(t) && h in t.kids
    requires u == FreedUpTo(t, h, |t.kids[h]|) && WellFormed(u)
    ensures SameValue(Remove(u, h).kids, Freed(t, h).kids, x)
  {
    if h in t.home {
      ParentStays(t, h);
    }
    if x in t.kids {
      GoneAll(t, h, x);
    }
  }

  lemma FreeLastHome<H>(t: Tree<H>, u: Tree<H>, h: H, x: H)
    requires WellFormed(t) && h in t.kids
    requires u == FreedUpTo(t, h, |t.kids[h]|) && WellFormed(u)
    ensures SameValue(Remove(u, h).home, Freed(t, h).home, x)
  {
    RemovedHome(u, h, x);
    if h in t.home {
      ParentStays(t, h);
      FreedUpToHome(t, h, |t.kids[h]|, h);
    }
    if x in t.home {
      FreedUpToHome(t, h, |t.kids[h]|, x);
      FreedHome(t, h, x);
      GoneAll(t, h, x);
    }
  }

  /** After all children are freed, unlinking h leaves the freed forest. */
  lemma FreeLast<H>(t: Tree<H>, u: Tree<H>, h: H)
    requires WellFormed(t) && h in t.kids
    requires u == FreedUpTo(t, h, |t.kids[h]|) && WellFormed(u)
    ensures Remove(u, h) == Freed(t, h)
  {
    var v, w := Remove(u, h), Freed(t, h);
    forall x ensures SameAt(v, w, x) {
      FreeLastKids(t, u, h, x);
      FreeLastHome(t, u, h, x);
    }
    SameEverywhere(v, w);
  }

  // ---- the order of the callbacks ----

  ghost function PostKids<H>(t: Tree<H>, h: H, n: nat): seq<H>
    requires WellFormed(t) && h in t.kids && n <= |t.kids[h]|
    decreases t.rank[h], 0, n
  {
    if n == 0 then [] else
      var c := t.kids[h][n - 1];
      assert Listed(t, h) && Edge(t, c) && Listed(t, c);
      PostKids(t, h, n - 1) + PostOrder(t, c)
  }

  /** The subtrees of the children in link order, then h itself. */
  ghost function PostOrder<H>(t: Tree<H>, h: H): seq<H>
    requires WellFormed(t) && h in t.kids
    decreases t.rank[h], 1, 0
  {
    PostKids(t, h, |t.kids[h]|) + [h]
  }

  /** The order depends only on the subtree. */
  lemma {:induction false} PostOrderStays<H>(t: Tree<H>, u: Tree<H>, h: H)
    requires WellFormed(t) && WellFormed(u) && h in t.kids && h in u.kids && t.kids.Keys == u.kids.Keys
    requires forall x {:trigger Below(t, x, h)} :: x in t.kids && Below(t, x, h) ==> u.kids[x] == t.kids[x]
    ensures PostOrder(u, h) == PostOrder(t, h)
    decreases t.rank[h], 1, 0
  {
    assert Below(t, h, h) && Listed(t, h);
    PostKidsStay(t, u, h, |t.kids[h]|);
  }

  lemma {:induction false} PostKidsStay<H>(t: Tree<H>, u: Tree<H>, h: H, n: nat)
    requires WellFormed(t) && WellFormed(u) && h in t.kids && h in u.kids && t.kids.Keys == u.kids.Keys
    requires u.kids[h] == t.kids[h] && n <= |t.kids[h]|
    requires forall x {:trigger Below(t, x, h)} :: x in t.kids && Below(t, x, h) ==> u.kids[x] == t.kids[x]
    ensures PostKids(u, h, n) == PostKids(t, h, n)
    decreases t.rank[h], 0, n
  {
    if n > 0 {
      var c := t.kids[h][n - 1];
      assert Listed(t, h) && c in t.home && Edge(t, c) && Listed(t, c);
      PostKidsStay(t, u, h, n - 1);
      forall x | x in t.kids && Below(t, x, c) ensures u.kids[x] == t.kids[x] {
        BelowUp(t, x, c);
      }
      PostOrderStays(t, u, c);
    }
  }

  /** Every element is a handle of the subtree, and none is followed by itself or by one of its descendants. */
  ghost predicate ChildrenFirst<H>(t: Tree<H>, s: seq<H>) {
    WellFormed(t) && (forall i :: 0 <= i < |s| ==> s[i] in t.kids)
    && forall i, j :: 0 <= i < j < |s| ==> !Below(t, s[j], s[i])
  }

  /** Freeing calls exactly the members of the subtree, each once, children before parents. */
  lemma {:induction false} PostOrderExact<H>(t: Tree<H>, h: H)
    requires WellFormed(t) && h in t.kids
    ensures ChildrenFirst(t, PostOrder(t, h))
    ensures forall x :: x in PostOrder(t, h) <==> x in t.kids && Below(t, x, h)
    decreases t.rank[h], 1, 0
  {
    var n := |t.kids[h]|;
    PostKidsExact(t, h, n);
    var s := PostKids(t, h, n);
    forall x ensures x in PostOrder(t, h) <==> x in t.kids && Below(t, x, h) {
      if x in t.kids {
        GoneAll(t, h, x);
      }
    }
    forall i | 0 <= i < |s| ensures !Below(t, h, s[i]) {
      assert s[i] in s;
      GoneIsBelow(t, h, n, s[i]);
      BelowRank(t, s[i], h);
      if Below(t, h, s[i]) {
        BelowRank(t, h, s[i]);
      }
    }
  }

  lemma {:induction false} BelowTransitive<H>(t: Tree<H>, x: H, y: H, z: H)
    requires WellFormed(t) && x in t.kids && y in t.kids && Below(t, x, y) && Below(t, y, z)
    ensures Below(t, x, z)
    decreases t.top - t.rank[x]
  {
    assert Listed(t, x);
    if x != y {
      assert Edge(t, x) && Listed(t, t.home[x].0);
      BelowTransitive(t, t.home[x].0, y, z);
    }
  }

  lemma {:induction false} PostKidsExact<H>(t: Tree<H>, h: H, n: nat)
    requires WellFormed(t) && h in t.kids && n <= |t.kids[h]|
    ensures ChildrenFirst(t, PostKids(t, h, n))
    ensures forall x :: x in PostKids(t, h, n) <==> x in t.kids && Gone(t, h, n, x)
    decreases t.rank[h], 0, n
  {
    if n == 0 {
      assert forall x :: x in t.kids ==> !Gone(t, h, 0, x);
    } else {
      var c := t.kids[h][n - 1];
      assert Listed(t, h) && c in t.home && Edge(t, c) && Listed(t, c);
      PostKidsExact(t, h, n - 1);
      PostOrderExact(t, c);
      JoinSubtrees(t, h, n - 1, PostKids(t, h, n - 1), PostOrder(t, c));
    }
  }

  lemma JoinSubtrees<H>(t: Tree<H>, h: H, n: nat, a: seq<H>, b: seq<H>)
    requires WellFormed(t) && h in t.kids && n < |t.kids[h]| && t.kids[h][n] in t.kids
    requires ChildrenFirst(t, a) && ChildrenFirst(t, b)
    requires forall x :: x in a <==> x in t.kids && Gone(t, h, n, x)
    requires forall x :: x in b <==> x in t.kids && Below(t, x, t.kids[h][n])
    ensures ChildrenFirst(t, a + b)
    ensures forall x :: x in a + b <==> x in t.kids && Gone(t, h, n + 1, x)
  {
    forall x ensures x in a + b <==> x in t.kids && Gone(t, h, n + 1, x) {
      if x in t.kids {
        GoneNext(t, h, n, x);
      }
    }
    forall x, y | x in a && y in b ensures !Below(t, y, x) {
      SubtreesApart(t, h, n, x, y);
    }
    JoinChildrenFirst(t, a, b);
  }

  lemma SubtreesApart<H>(t: Tree<H>, h: H, n: nat, x: H, y: H)
    requires WellFormed(t) && h in t.kids && n < |t.kids[h]| && x in t.kids && y in t.kids
    requires Gone(t, h, n, x) && Below(t, y, t.kids[h][n])
    ensures !Below(t, y, x)
  {
    var j :| 0 <= j < n && Below(t, x, t.kids[h][j]);
    if Below(t, y, x) {
      BelowTransitive(t, y, x, t.kids[h][j]);
      SiblingsApart(t, y, h, j, n);
    }
  }

  lemma JoinChildrenFirst<H>(t: Tree<H>, a: seq<H>, b: seq<H>)
    requires ChildrenFirst(t, a) && ChildrenFirst(t, b)
    requires forall x, y :: x in a && y in b ==> !Below(t, y, x)
    ensures ChildrenFirst(t, a + b)
  {
    var s := a + b;
    forall i, j | 0 <= i < j < |s| ensures !Below(t, s[j], s[i]) {
      assert i < |a| <= j ==> s[i] in a && s[j] in b;
    }
  }

  // ---- the rings of siblings ----

  /** The sibling after h, the first one after the last; a handle without a parent is its own ring. */
  ghost function Next<H>(t: Tree<H>, h: H): H
    requires InRings(t)
  {
    if h !in t.home then h else
      assert Sited(t, h);
      var (p, i) := t.home[h];
      t.kids[p][After(|t.kids[p]|, i)]
  }

  ghost function Prev<H>(t: Tree<H>, h: H): H
    requires InRings(t)
  {
    if h !in t.home then h else
      assert Sited(t, h);
      var (p, i) := t.home[h];
      t.kids[p][Before(|t.kids[p]|, i)]
  }

  lemma PrevNext<H>(t: Tree<H>, h: H)
    requires WellFormed(t) && h in t.kids
    ensures Next(t, h) in t.kids && Prev(t, h) in t.kids
    ensures Prev(t, Next(t, h)) == h && Next(t, Prev(t, h)) == h
    ensures h in t.home ==> Next(t, h) in t.home && Prev(t, h) in t.home
                            && t.home[Next(t, h)].0 == t.home[h].0 && t.home[Prev(t, h)].0 == t.home[h].0
    ensures h in t.home ==> t.home[h].0 in t.kids && (Next(t, h) == h <==> |t.kids[t.home[h].0]| == 1)
  {
    if h in t.home {
      assert Edge(t, h) && Listed(t, t.home[h].0);
      assert Edge(t, Next(t, h)) && Edge(t, Prev(t, h));
    }
  }

  /** Unlinking c leaves the parents of the others, and their places but for a shift among its siblings. */
  lemma RemoveHome<H>(t: Tree<H>, u: Tree<H>, c: H, h: H)
    requires WellFormed(t) && u == Remove(t, c) && WellFormed(u) && c in t.home && h in t.home && h != c
    ensures Edge(t, c) && Edge(t, h) && Edge(u, h) && u.home[h].0 == t.home[h].0
    ensures t.home[h].0 != t.home[c].0 ==> u.home[h] == t.home[h] && u.kids[t.home[h].0] == t.kids[t.home[h].0]
    ensures t.home[h].0 == t.home[c].0 ==>
              u.kids[t.home[h].0] == Without(t.kids[t.home[c].0], t.home[c].1) && t.home[h].1 != t.home[c].1
              && u.home[h].1 == if t.home[h].1 > t.home[c].1 then t.home[h].1 - 1 else t.home[h].1
  {
    assert Edge(t, c) && Edge(t, h) && Edge(u, h);
  }

  /** Unlinking c takes it out of its ring and leaves every other link as it was. */
  lemma RemoveNext<H>(t: Tree<H>, u: Tree<H>, c: H, h: H)
    requires WellFormed(t) && u == Remove(t, c) && WellFormed(u) && c in t.home && h in t.kids && h != c
    ensures Next(u, h) == if h == Prev(t, c) then Next(t, c) else Next(t, h)
  {
    assert Edge(t, c);
    PrevNext(t, c);
    if h in t.home {
      RemoveHome(t, u, c, h);
      PrevNext(t, h);
      if t.home[h].0 == t.home[c].0 {
        assert Listed(t, t.home[c].0);
        RingWithout(t.kids[t.home[c].0], t.home[c].1, t.home[h].1);
      }
    }
  }

  lemma RemovePrev<H>(t: Tree<H>, u: Tree<H>, c: H, h: H)
    requires WellFormed(t) && u == Remove(t, c) && WellFormed(u) && c in t.home && h in t.kids && h != c
    ensures Prev(u, h) == if h == Next(t, c) then Prev(t, c) else Prev(t, h)
  {
    assert Edge(t, c);
    PrevNext(t, c);
    if h in t.home {
      RemoveHome(t, u, c, h);
      PrevNext(t, h);
      if t.home[h].0 == t.home[c].0 {
        assert Listed(t, t.home[c].0);
        RingWithout(t.kids[t.home[c].0], t.home[c].1, t.home[h].1);
      }
    }
  }

  /** The first child of the parent moves on when it is the one unlinked. */
  lemma RemoveFirst<H>(t: Tree<H>, u: Tree<H>, c: H)
    requires WellFormed(t) && u == Remove(t, c) && WellFormed(u) && c in t.home
    ensures Edge(t, c)
    ensures var p := t.home[c].0;
            (u.kids[p] == [] <==> Next(t, c) == c)
            && (u.kids[p] != [] ==> u.kids[p][0] == if t.kids[p][0] == c then Next(t, c) else t.kids[p][0])
  {
    assert Edge(t, c) && Listed(t, t.home[c].0);
    assert t.kids[t.home[c].0][0] in t.home;
    PrevNext(t, c);
  }

  /** Linking c makes it the last of the ring of p and leaves every other link as it was. */
  lemma InsertLinks<H>(t: Tree<H>, u: Tree<H>, c: H, p: H, h: H)
    requires WellFormed(t) && c in t.kids && p in t.kids && c !in t.home
    requires u == Insert(t, c, p) && InRings(u) && h in t.kids && h != c
    ensures Next(u, h) == if t.kids[p] != [] && h == Prev(t, t.kids[p][0]) then c else Next(t, h)
    ensures Prev(u, h) == if t.kids[p] != [] && h == t.kids[p][0] then c else Prev(t, h)
    ensures h in u.home <==> h in t.home
    ensures h in t.home ==> u.home[h].0 == t.home[h].0
  {
    assert Listed(t, p);
    if t.kids[p] != [] {
      assert t.kids[p][0] in t.home && Edge(t, t.kids[p][0]);
    }
    if h in t.home {
      assert Edge(t, h) && Sited(u, h) && Listed(t, t.home[h].0);
    }
  }

  lemma InsertedLinks<H>(t: Tree<H>, u: Tree<H>, c: H, p: H)
    requires WellFormed(t) && c in t.kids && p in t.kids && c !in t.home
    requires u == Insert(t, c, p) && InRings(u)
    ensures Next(u, c) == if t.kids[p] == [] then c else t.kids[p][0]
    ensures Prev(u, c) == if t.kids[p] == [] then c else Prev(t, t.kids[p][0])
  {
    assert Listed(t, p) && Sited(u, c);
    if t.kids[p] != [] {
      assert t.kids[p][0] in t.home && Edge(t, t.kids[p][0]);
    }
  }
}
