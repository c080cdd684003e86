/** OCI handles: intrusive rings of children under a parent, and the recursive free of a subtree. */
module HandleForest {
  import opened Basics
  import opened HandleTree

  // Values of oci.h: handle types begin at 1, descriptor types at 50.
  const OCI_HTYPE_FIRST := 1
  const OCI_HTYPE_BIND := 5
  const OCI_HTYPE_DEFINE := 6
  const OCI_DTYPE_FIRST := 50

  /** What oci8_base_free gives back to OCI after the free callback has run. */
  datatype Release = Nothing | Descriptor(ptr: nat, typ: nat) | HandleOf(ptr: nat, typ: nat)

  function ReleaseOf(typ: nat, ptr: nat): Release {
    if typ >= OCI_DTYPE_FIRST then Descriptor(ptr, typ)
    else if typ == OCI_HTYPE_BIND || typ == OCI_HTYPE_DEFINE then Nothing
    else if typ >= OCI_HTYPE_FIRST then HandleOf(ptr, typ)
    else Nothing
  }

  /** oci8_base_t. A callback may take over what the handle holds: then it leaves the type zero. */
  class Handle {
    const takesOver: bool
    var next: Handle
    var prev: Handle
    var parent: Handle?
    var children: Handle?
    var typ: nat
    var closed: bool
    var ptr: nat

    /** oci8_allocate_typeddata */
    constructor (takesOver: bool)
      ensures this.takesOver == takesOver && next == this && prev == this && parent == null && children == null
      ensures typ == 0 && !closed && ptr == 0
    {
      this.takesOver := takesOver;
      next, prev, parent, children := this, this, null, null;
      typ, closed, ptr := 0, false, 0;
    }
  }

  /** What a handle holds: its type, whether it is closed, the OCI pointer. */
  datatype Holding = Holding(typ: nat, closed: bool, ptr: nat)

  /** What freeing a handle gives back. */
  ghost function Owed(h: Handle, x: Holding): Release {
    if h.takesOver then Nothing else ReleaseOf(x.typ, x.ptr)
  }

  /** What each of these handles holds now. */
  ghost function Held(hs: set<Handle>): (m: map<Handle, Holding>)
    reads hs`typ, hs`closed, hs`ptr
    ensures m.Keys == hs
  {
    map h | h in hs :: Holding(h.typ, h.closed, h.ptr)
  }

  /** One call of a free callback, and what was released after it. */
  datatype Event = Event(handle: Handle, release: Release)

  /**
   * What freeing a handle of this type has given back, according to the events: each handle type from 1 on is freed
   * as a handle, but for those of binds and defines, 5 and 6, and those from 50 on as descriptors; and nothing is if
   * its callback took over.
   */
  ghost predicate GivenBack(h: Handle, typ: nat, ptr: nat, added: seq<Event>, i: nat)
    requires i < |added|
  {
    && added[i].handle == h
    && added[i].release == if h.takesOver || typ == 0 || typ == 5 || typ == 6 then Nothing
                           else if typ < 50 then HandleOf(ptr, typ) else Descriptor(ptr, typ)
  }

  /** And it was freed once. */
  ghost predicate Settled(h: Handle, typ: nat, ptr: nat, added: seq<Event>) {
    && (exists i :: 0 <= i < |added| && GivenBack(h, typ, ptr, added, i))
    && forall i, j :: 0 <= i < j < |added| ==> !(added[i].handle == h && added[j].handle == h)
  }

  class Runtime {
    ghost var tree: Tree<Handle>
    ghost var log: seq<Event>

    /** The fields of h say what the tree says. */
    ghost predicate Linked(h: Handle)
      reads this`tree, h`parent, h`children, h`next, h`prev
      requires InRings(tree) && h in tree.kids
    {
      && h.parent == (if h in tree.home then tree.home[h].0 else null)
      && h.children == (if tree.kids[h] == [] then null else tree.kids[h][0])
      && h.next == Next(tree, h) && h.prev == Prev(tree, h)
    }

    /** The pointers are as the tree says; whether that is a forest is another question. */
    ghost predicate Described()
      reads this`tree, tree.kids.Keys`parent, tree.kids.Keys`children, tree.kids.Keys`next, tree.kids.Keys`prev
    {
      InRings(tree) && forall h {:trigger Linked(h)} :: h in tree.kids ==> Linked(h)
    }

    ghost predicate Valid()
      reads this`tree, tree.kids.Keys`parent, tree.kids.Keys`children, tree.kids.Keys`next, tree.kids.Keys`prev
    {
      WellFormed(tree) && Described()
    }

    constructor ()
      ensures Valid() && tree.kids == map[] && log == []
    {
      tree, log := Tree(map[], map[], map[], 0), [];
    }

    method Allocate(takesOver: bool) returns (h: Handle)
      requires Valid()
      modifies this`tree
      ensures Valid() && fresh(h) && h.takesOver == takesOver
      ensures tree.kids == old(tree).kids[h := []] && tree.home == old(tree).home
    {
      h := new Handle(takesOver);
      ghost var t := tree;
      tree := Tree(t.kids[h := []], t.home, t.rank[h := 0], t.top + 1);
      assert WellFormed(tree) by {
        forall c | c in tree.home ensures Edge(tree, c) {
          assert Edge(t, c);
        }
        forall p | p in tree.kids ensures Listed(tree, p) {
          assert p != h ==> Listed(t, p);
        }
      }
      forall x | x in tree.kids ensures Linked(x) {
        if x != h {
          assert old(Linked(x)) && Listed(t, x);
        }
      }
    }

    /** The pointer surgery of oci8_unlink_from_parent: neighbours are joined, the first child moves on. */
    method CutOut(base: Handle)
      requires base.parent != null
      requires base in tree.kids && base.next in tree.kids && base.prev in tree.kids && base.parent in tree.kids
      requires base.next == base <==> base.prev == base
      modifies tree.kids.Keys`next, tree.kids.Keys`prev, tree.kids.Keys`parent, tree.kids.Keys`children
      ensures base.next == base && base.prev == base && base.parent == null
      ensures forall h :: h in tree.kids && h != base ==>
                h.next == if h == old(base.prev) then old(base.next) else old(h.next)
      ensures forall h :: h in tree.kids && h != base ==>
                h.prev == if h == old(base.next) then old(base.prev) else old(h.prev)
      ensures forall h :: h in tree.kids && h != base ==> h.parent == old(h.parent)
      ensures forall h :: h in tree.kids ==>
                h.children == if h != old(base.parent) then old(h.children)
                              else if old(base.next) == base then null
                              else if old(h.children) == base then old(base.next) else old(h.children)
    {
      if base.next == base {
        base.parent.children := null;
      } else {
        if base.parent.children == base {
          base.parent.children := base.next;
        }
        base.next.prev := base.prev;
        base.prev.next := base.next;
        base.next := base;
        base.prev := base;
      }
      base.parent := null;
    }

    /** oci8_unlink_from_parent */
    method Unlink(base: Handle)
      requires Valid() && base in tree.kids
      modifies this`tree, tree.kids.Keys`next, tree.kids.Keys`prev, tree.kids.Keys`parent, tree.kids.Keys`children
      ensures Valid() && tree == Remove(old(tree), base)
    {
      assert Linked(base);
      if base.parent == null {
        return;
      }
      ghost var t := tree;
      assert Edge(t, base);
      PrevNext(t, base);
      CutOut(base);
      RemoveWellFormed(t, base);
      tree := Remove(t, base);
      forall h | h in tree.kids ensures Linked(h) {
        UnlinkedFields(t, base, h);
        assert old(Linked(h));
        assert old(Linked(base));
      }
    }

    /** The fields the forest asks for after base is unlinked, in terms of those it asked for before. */
    lemma UnlinkedFields(t: Tree<Handle>, base: Handle, h: Handle)
      requires WellFormed(t) && base in t.home && h in t.kids
      requires tree == Remove(t, base) && WellFormed(tree)
      ensures base in t.kids && h != base ==>
                Next(tree, h) == (if h == Prev(t, base) then Next(t, base) else Next(t, h))
                && Prev(tree, h) == (if h == Next(t, base) then Prev(t, base) else Prev(t, h))
                && (h in tree.home <==> h in t.home) && (h in t.home ==> tree.home[h].0 == t.home[h].0)
      ensures h == base ==> h !in tree.home && Next(tree, h) == h && Prev(tree, h) == h
      ensures h != t.home[base].0 ==> tree.kids[h] == t.kids[h]
      ensures h == t.home[base].0 ==>
                t.kids[h] != [] && (tree.kids[h] == [] <==> Next(t, base) == base)
                && (tree.kids[h] != [] ==>
                      tree.kids[h][0] == if t.kids[h][0] == base then Next(t, base) else t.kids[h][0])
    {
      assert Edge(t, base);
      RemoveFirst(t, tree, base);
      if h != base {
        RemoveNext(t, tree, base, h);
        RemovePrev(t, tree, base, h);
        if h in t.home {
          RemoveHome(t, tree, base, h);
        }
      }
    }

    /** The pointer surgery of oci8_link_to_parent for a handle without a parent. */
    method PutLast(base: Handle, parent: Handle)
      requires base in tree.kids && parent in tree.kids && base.next == base && base.prev == base
      requires parent.children != null ==> parent.children in tree.kids && parent.children.prev in tree.kids
                                           && parent.children != base && parent.children.prev != base
      modifies tree.kids.Keys`next, tree.kids.Keys`prev, tree.kids.Keys`parent, tree.kids.Keys`children
      ensures base.parent == parent
      ensures var first := old(parent.children);
              && base.next == (if first == null then base else first)
              && base.prev == (if first == null then base else old(first.prev))
              && forall h :: h in tree.kids && h != base ==>
                   && h.next == (if first != null && h == old(first.prev) then base else old(h.next))
                   && h.prev == (if first != null && h == first then base else old(h.prev))
                   && h.parent == old(h.parent)
      ensures forall h :: h in tree.kids ==>
                h.children == if h == parent && old(h.children) == null then base else old(h.children)
    {
      if parent.children == null {
        parent.children := base;
      } else {
        base.next := parent.children;
        base.prev := parent.children.prev;
        parent.children.prev.next := base;
        parent.children.prev := base;
      }
      base.parent := parent;
    }

    /** oci8_link_to_parent: relinks a handle that has a parent, and closes a cycle if it is told to. */
    method Link(base: Handle, parent: Handle)
      requires Valid() && base in tree.kids && parent in tree.kids
      modifies this`tree, tree.kids.Keys`next, tree.kids.Keys`prev, tree.kids.Keys`parent, tree.kids.Keys`children
      ensures WellFormed(Remove(old(tree), base)) && tree == Insert(Remove(old(tree), base), base, parent)
      ensures Described() && (Valid() <==> !Below(old(tree), parent, base))
    {
      assert Linked(base);
      BelowIffRemoved(tree, base, parent);
      if base.parent != null {
        Unlink(base);
      }
      LinkUnlinked(base, parent);
    }

    method LinkUnlinked(base: Handle, parent: Handle)
      requires Valid() && base in tree.kids && parent in tree.kids && base !in tree.home
      modifies this`tree, tree.kids.Keys`next, tree.kids.Keys`prev, tree.kids.Keys`parent, tree.kids.Keys`children
      ensures tree == Insert(old(tree), base, parent)
      ensures Described() && (Valid() <==> !Below(old(tree), parent, base))
    {
      ghost var t, first := tree, parent.children;
      assert Linked(base) && Linked(parent);
      assert first == if t.kids[parent] == [] then null else t.kids[parent][0];
      if parent.children != null {
        assert Listed(t, parent) && parent.children == t.kids[parent][0] && parent.children in t.home;
        assert Edge(t, parent.children) && Linked(parent.children);
        PrevNext(t, parent.children);
      }
      PutLast(base, parent);
      InsertInRings(t, base, parent);
      InsertWellFormed(t, base, parent);
      tree := Insert(t, base, parent);
      forall h | h in tree.kids ensures Linked(h) {
        LinkedFields(t, base, parent, h);
        assert old(Linked(h));
      }
    }

    /** The fields the forest asks for after base is linked, in terms of those it asked for before. */
    lemma LinkedFields(t: Tree<Handle>, base: Handle, parent: Handle, h: Handle)
      requires WellFormed(t) && base in t.kids && parent in t.kids && base !in t.home && h in t.kids
      requires tree == Insert(t, base, parent) && InRings(tree)
      ensures h != base ==>
                var first := if t.kids[parent] == [] then null else t.kids[parent][0];
                Next(tree, h) == (if first != null && h == Prev(t, first) then base else Next(t, h))
                && Prev(tree, h) == (if first != null && h == first then base else Prev(t, h))
                && (h in tree.home <==> h in t.home) && (h in t.home ==> tree.home[h].0 == t.home[h].0)
      ensures h == base ==>
                h in tree.home && tree.home[h].0 == parent
                && Next(tree, h) == (if t.kids[parent] == [] then h else t.kids[parent][0])
                && Prev(tree, h) == (if t.kids[parent] == [] then h else Prev(t, t.kids[parent][0]))
      ensures tree.kids[h] == if h == parent then t.kids[h] + [base] else t.kids[h]
    {
      if h != base {
        InsertLinks(t, tree, base, parent, h);
      } else {
        InsertedLinks(t, tree, base, parent);
      }
    }

    /** oci8_handle_dont_free, oci8_lob_free and others: a callback that takes over leaves nothing to release. */
    method Callback(base: Handle)
      modifies base`typ
      ensures base.typ == if base.takesOver then 0 else old(base.typ)
    {
      if base.takesOver {
        base.typ := 0;
      }
    }

    /** oci8_base_free */
    method BaseFree(base: Handle)
      requires Valid() && base in tree.kids
      modifies this, tree.kids.Keys
      ensures tree == Freed(old(tree), base) && Valid()
      ensures Held(tree.kids.Keys) == Closed(old(tree), base, old(Held(tree.kids.Keys)))
      ensures log == old(log) + Events(PostOrder(old(tree), base), old(Held(tree.kids.Keys)))
      ensures forall h :: h in old(tree).kids && Below(old(tree), h, base) ==>
                Settled(h, old(h.typ), old(h.ptr), log[|old(log)|..]) && Emptied(h)
      ensures forall h :: h in old(tree).kids && !Below(old(tree), h, base) ==>
                h.typ == old(h.typ) && h.closed == old(h.closed) && h.ptr == old(h.ptr) && h.parent == old(h.parent)
      decreases tree.rank[base], 1
    {
      ghost var t, held, before := tree, Held(tree.kids.Keys), log;
      FreeChildren(base);
      LastRound(t, tree, base, held, before);
      Finish(base);
      forall h | h in t.kids && Below(t, h, base)
        ensures Settled(h, old(h.typ), old(h.ptr), log[|before|..]) && Emptied(h)
      {
        SettledEvents(t, base, held, h);
        EmptiedFields(t, base, h);
      }
      forall h | h in t.kids && !Below(t, h, base)
        ensures h.typ == old(h.typ) && h.closed == old(h.closed) && h.ptr == old(h.ptr) && h.parent == old(h.parent)
      {
        assert old(Linked(h));
        OtherFields(t, base, h);
      }
    }

    /** A handle that was freed. */
    ghost predicate Emptied(h: Handle)
      reads h
    {
      && h.typ == 0 && h.closed && h.ptr == 0
      && h.parent == null && h.children == null && h.next == h && h.prev == h
    }

    lemma EmptiedFields(t: Tree<Handle>, base: Handle, h: Handle)
      requires WellFormed(t) && base in t.kids && h in t.kids && Below(t, h, base) && Valid() && tree == Freed(t, base)
      requires Held(tree.kids.Keys)[h] == Holding(0, true, 0)
      ensures Emptied(h)
    {
      assert Linked(h);
      if h in t.home {
        FreedHome(t, base, h);
      }
    }

    lemma OtherFields(t: Tree<Handle>, base: Handle, h: Handle)
      requires WellFormed(t) && base in t.kids && h in t.kids && !Below(t, h, base) && Valid() && tree == Freed(t, base)
      ensures h.parent == if h in t.home then t.home[h].0 else null
    {
      assert Linked(h);
      if h in t.home {
        FreedHome(t, base, h);
      }
    }

    /** The rest of oci8_base_free, when no child is left. */
    method Finish(base: Handle)
      requires Valid() && base in tree.kids
      modifies this, tree.kids.Keys
      ensures Valid() && tree == Remove(old(tree), base)
      ensures Held(tree.kids.Keys) == old(Held(tree.kids.Keys))[base := Holding(0, true, 0)]
      ensures log == old(log) + Events([base], old(Held(tree.kids.Keys)))
    {
      ghost var t, held := tree, Held(tree.kids.Keys);
      Unlink(base);
      assert tree.kids.Keys == t.kids.Keys && Held(t.kids.Keys) == held;
      Release(base);
    }

    /** The callback of base, then what OCI is given back, then the handle is closed. */
    method Release(base: Handle)
      requires base in tree.kids
      modifies this`log, base`typ, base`closed, base`ptr
      ensures log == old(log) + Events([base], old(Held(tree.kids.Keys)))
      ensures Held(tree.kids.Keys) == old(Held(tree.kids.Keys))[base := Holding(0, true, 0)]
    {
      Callback(base);
      log := log + [Event(base, ReleaseOf(base.typ, base.ptr))];
      base.typ := 0;
      base.closed := true;
      base.ptr := 0;
    }

    /** While there is a child, the first one is freed. */
    method FreeChildren(base: Handle)
      requires Valid() && base in tree.kids
      modifies this, tree.kids.Keys
      ensures Freeing(old(tree), old(Held(tree.kids.Keys)), base, |old(tree).kids[base]|, old(log))
      decreases tree.rank[base], 0, 1
    {
      ghost var t, held, before, k := tree, Held(tree.kids.Keys), log, 0;
      FreeingStarts(base);
      while base.children != null
        invariant Freeing(t, held, base, k, before)
        decreases |t.kids[base]| - k
      {
        FreeChild(t, held, base, k, before);
        k := k + 1;
      }
      FreeingEnds(t, held, base, k, before);
    }

    /** The first k children of base are freed. */
    ghost predicate Freeing(t: Tree<Handle>, held: map<Handle, Holding>, base: Handle, k: nat, before: seq<Event>)
      requires WellFormed(t) && base in t.kids
      reads this, tree.kids.Keys, base
    {
      && tree.kids.Keys == t.kids.Keys && k <= |t.kids[base]| && tree == FreedUpTo(t, base, k) && Valid()
      && base.children == (if k < |t.kids[base]| then t.kids[base][k] else null)
      && Held(tree.kids.Keys) == ClosedUpTo(t, base, k, held)
      && log == before + Events(PostKids(t, base, k), held)
    }

    lemma FreeingStarts(base: Handle)
      requires Valid() && base in tree.kids
      ensures Freeing(tree, Held(tree.kids.Keys), base, 0, log)
    {
      CloseNone(tree, base, Held(tree.kids.Keys));
      assert Linked(base);
    }

    lemma FreeingEnds(t: Tree<Handle>, held: map<Handle, Holding>, base: Handle, k: nat, before: seq<Event>)
      requires WellFormed(t) && base in t.kids && Freeing(t, held, base, k, before) && base.children == null
      ensures k == |t.kids[base]|
    {}

    /** One round of the loop: the first child left is freed with its subtree. */
    method FreeChild(ghost t: Tree<Handle>, ghost held: map<Handle, Holding>, base: Handle, ghost k: nat,
                     ghost before: seq<Event>)
      requires WellFormed(t) && base in t.kids && Freeing(t, held, base, k, before) && base.children != null
      modifies this, tree.kids.Keys
      ensures Freeing(t, held, base, k + 1, before)
      decreases t.rank[base], 0, 0
    {
      Round(t, tree, base, k, held, before);
      BaseFree(base.children);
      assert Linked(base);
    }
  }

  /** The handles of a subtree are closed and empty. */
  ghost function Closed(t: Tree<Handle>, base: Handle, held: map<Handle, Holding>): map<Handle, Holding>
    requires WellFormed(t)
  {
    map h | h in held :: if h in t.kids && Below(t, h, base) then Holding(0, true, 0) else held[h]
  }

  ghost function ClosedUpTo(t: Tree<Handle>, base: Handle, k: nat, held: map<Handle, Holding>): map<Handle, Holding>
    requires WellFormed(t) && base in t.kids && k <= |t.kids[base]|
  {
    map h | h in held :: if h in t.kids && Gone(t, base, k, h) then Holding(0, true, 0) else held[h]
  }

  /** The events of freeing these handles in this order. */
  ghost function Events(order: seq<Handle>, held: map<Handle, Holding>): (e: seq<Event>)
    ensures |e| == |order|
  {
    seq(|order|, i requires 0 <= i < |order| =>
      Event(order[i], if order[i] in held then Owed(order[i], held[order[i]]) else Nothing))
  }

  lemma EventsAppend(a: seq<Handle>, b: seq<Handle>, held: map<Handle, Holding>)
    ensures Events(a + b, held) == Events(a, held) + Events(b, held)
  {}

  /** What the events of freeing a subtree say of one of its handles. */
  lemma SettledEvents(t: Tree<Handle>, base: Handle, held: map<Handle, Holding>, h: Handle)
    requires WellFormed(t) && base in t.kids && h in t.kids && Below(t, h, base) && h in held
    ensures Settled(h, held[h].typ, held[h].ptr, Events(PostOrder(t, base), held))
  {
    var order := PostOrder(t, base);
    PostOrderExact(t, base);
    var i :| 0 <= i < |order| && order[i] == h;
    assert GivenBack(h, held[h].typ, held[h].ptr, Events(order, held), i);
  }

  lemma NotGoneItself(t: Tree<Handle>, base: Handle, k: nat)
    requires WellFormed(t) && base in t.kids && k <= |t.kids[base]|
    ensures !Gone(t, base, k, base) && FreedUpTo(t, base, k).kids[base] == t.kids[base][k..]
  {
    if Gone(t, base, k, base) {
      GoneIsBelow(t, base, k, base);
    }
  }

  lemma CloseNone(t: Tree<Handle>, base: Handle, held: map<Handle, Holding>)
    requires WellFormed(t) && base in t.kids
    ensures FreedUpTo(t, base, 0) == t && ClosedUpTo(t, base, 0, held) == held
  {
    FreeNone(t, base);
    assert forall h :: h in t.kids ==> !Gone(t, base, 0, h);
  }

  /** What the forest says about the next child, in the partly freed forest and in the original one. */
  lemma NextSubtree(t: Tree<Handle>, u: Tree<Handle>, base: Handle, k: nat)
    requires WellFormed(t) && base in t.kids && k < |t.kids[base]|
    requires u == FreedUpTo(t, base, k) && WellFormed(u)
    ensures t.kids[base][k] in t.kids && t.rank[t.kids[base][k]] < t.rank[base]
    ensures forall h :: h in t.kids ==>
              && (Below(u, h, t.kids[base][k]) <==> Below(t, h, t.kids[base][k]))
              && (Below(t, h, t.kids[base][k]) ==> !Gone(t, base, k, h) && u.kids[h] == t.kids[h])
              && (Gone(t, base, k + 1, h) <==> Gone(t, base, k, h) || Below(t, h, t.kids[base][k]))
    ensures PostOrder(u, t.kids[base][k]) == PostOrder(t, t.kids[base][k])
    ensures Freed(u, t.kids[base][k]) == FreedUpTo(t, base, k + 1)
  {
    assert Listed(t, base) && t.kids[base][k] in t.home && Edge(t, t.kids[base][k]);
    forall h | h in t.kids
      ensures (Below(u, h, t.kids[base][k]) <==> Below(t, h, t.kids[base][k]))
              && (Below(t, h, t.kids[base][k]) ==> !Gone(t, base, k, h) && u.kids[h] == t.kids[h])
              && (Gone(t, base, k + 1, h) <==> Gone(t, base, k, h) || Below(t, h, t.kids[base][k]))
    {
      BelowStays(t, base, k, h);
      GoneNext(t, base, k, h);
    }
    PostOrderStays(t, u, t.kids[base][k]);
    FreeNext(t, u, base, k);
  }

  /** Freeing the next child adds its handles to the closed ones. */
  lemma CloseNext(t: Tree<Handle>, u: Tree<Handle>, base: Handle, k: nat, held: map<Handle, Holding>)
    requires WellFormed(t) && base in t.kids && k < |t.kids[base]|
    requires u == FreedUpTo(t, base, k) && WellFormed(u)
    ensures Closed(u, t.kids[base][k], ClosedUpTo(t, base, k, held)) == ClosedUpTo(t, base, k + 1, held)
  {
    var v, w := Closed(u, t.kids[base][k], ClosedUpTo(t, base, k, held)), ClosedUpTo(t, base, k + 1, held);
    NextSubtree(t, u, base, k);
    assert forall h :: h in held ==> v[h] == w[h];
  }

  /** Freeing the next child adds its events to the log: its handles still hold what they held at first. */
  lemma LogNext(t: Tree<Handle>, u: Tree<Handle>, base: Handle, k: nat, held: map<Handle, Holding>)
    requires WellFormed(t) && base in t.kids && k < |t.kids[base]|
    requires u == FreedUpTo(t, base, k) && WellFormed(u)
    ensures t.kids[base][k] in t.kids
    ensures Events(PostKids(t, base, k), held) + Events(PostOrder(u, t.kids[base][k]), ClosedUpTo(t, base, k, held))
         == Events(PostKids(t, base, k + 1), held)
  {
    NextSubtree(t, u, base, k);
    var order, mid := PostOrder(t, t.kids[base][k]), ClosedUpTo(t, base, k, held);
    PostOrderExact(t, t.kids[base][k]);
    forall i | 0 <= i < |order| ensures Events(order, mid)[i] == Events(order, held)[i] {
      assert order[i] in order;
    }
    assert Events(order, mid) == Events(order, held);
    EventsAppend(PostKids(t, base, k), order, held);
  }

  /** What one round of the loop does to the forest, to the handles and to the log. */
  lemma Round(t: Tree<Handle>, u: Tree<Handle>, base: Handle, k: nat, held: map<Handle, Holding>, before: seq<Event>)
    requires WellFormed(t) && base in t.kids && k < |t.kids[base]|
    requires u == FreedUpTo(t, base, k) && WellFormed(u)
    ensures t.kids[base][k] in t.kids && t.rank[t.kids[base][k]] < t.rank[base]
    ensures Freed(u, t.kids[base][k]) == FreedUpTo(t, base, k + 1)
    ensures FreedUpTo(t, base, k + 1).kids[base] == t.kids[base][k + 1..]
    ensures Closed(u, t.kids[base][k], ClosedUpTo(t, base, k, held)) == ClosedUpTo(t, base, k + 1, held)
    ensures before + Events(PostKids(t, base, k), held)
            + Events(PostOrder(u, t.kids[base][k]), ClosedUpTo(t, base, k, held))
         == before + Events(PostKids(t, base, k + 1), held)
  {
    NextSubtree(t, u, base, k);
    CloseNext(t, u, base, k, held);
    LogNext(t, u, base, k, held);
    Assoc(before, Events(PostKids(t, base, k), held),
          Events(PostOrder(u, t.kids[base][k]), ClosedUpTo(t, base, k, held)));
    NotGoneItself(t, base, k + 1);
  }

  /** What the end of the loop leaves to do. */
  lemma LastRound(t: Tree<Handle>, u: Tree<Handle>, base: Handle, held: map<Handle, Holding>, before: seq<Event>)
    requires WellFormed(t) && base in t.kids && base in held
    requires u == FreedUpTo(t, base, |t.kids[base]|) && WellFormed(u)
    ensures Remove(u, base) == Freed(t, base)
    ensures ClosedUpTo(t, base, |t.kids[base]|, held)[base := Holding(0, true, 0)] == Closed(t, base, held)
    ensures before + Events(PostKids(t, base, |t.kids[base]|), held)
            + Events([base], ClosedUpTo(t, base, |t.kids[base]|, held))
         == before + Events(PostOrder(t, base), held)
  {
    CloseLast(t, u, base, held);
    EventsAppend(PostKids(t, base, |t.kids[base]|), [base], held);
    Assoc(before, Events(PostKids(t, base, |t.kids[base]|), held), Events([base], held));
  }

  /** When no child is left, unlinking base completes the freed forest. */
  lemma CloseLast(t: Tree<Handle>, u: Tree<Handle>, base: Handle, held: map<Handle, Holding>)
    requires WellFormed(t) && base in t.kids && base in held
    requires u == FreedUpTo(t, base, |t.kids[base]|) && WellFormed(u)
    ensures Remove(u, base) == Freed(t, base)
    ensures ClosedUpTo(t, base, |t.kids[base]|, held)[base := Holding(0, true, 0)] == Closed(t, base, held)
    ensures Events([base], ClosedUpTo(t, base, |t.kids[base]|, held)) == Events([base], held)
  {
    var v, w := ClosedUpTo(t, base, |t.kids[base]|, held)[base := Holding(0, true, 0)], Closed(t, base, held);
    NotGoneItself(t, base, |t.kids[base]|);
    forall h | h in held ensures v[h] == w[h] {
      if h in t.kids {
        GoneAll(t, base, h);
      }
    }
    assert v.Keys == w.Keys;
    FreeLast(t, u, base);
  }
}
