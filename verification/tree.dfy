/**
 * The outline document tree of src/tree.ts.
 *
 * The source links `BulletNode` objects to each other by reference: every
 * container (the `RootNode` or a bullet) owns an ordered `children` array and
 * every bullet points back at its container through `parent`; a `SilverTree`
 * owns the root and a map `nodes` from id to bullet. Here the bullets live in
 * an arena: `nodes` maps an id to the bullet's record, a container is named by
 * `Root` or `Bullet(id)`, and both `parent` and `children` hold ids. Reference
 * equality (`indexOf`) becomes id equality.
 */
module Tree {

  /** A node that owns a child list: the single root or a bullet (by id). */
  datatype Container = Root | Bullet(id: string)

  /**
   * A bullet's fields. Its id is its key in the arena; `kind` is the source's
   * `type`; `meta` is kept as an opaque token.
   */
  datatype BulletRec = BulletRec(kind: string, meta: string, content: string, parent: Container, children: seq<string>)

  /** The root's children and the id index: the whole state of a tree. */
  datatype Arena = Arena(rootChildren: seq<string>, nodes: map<string, BulletRec>)

  /** A tree holding the root alone. */
  const Empty: Arena := Arena([], map[])

  /** `c` names a container of `a`. */
  predicate Holds(a: Arena, c: Container)
  {
    c.Root? || c.id in a.nodes
  }

  function ChildrenOf(a: Arena, c: Container): seq<string>
    requires Holds(a, c)
  {
    if c.Root? then a.rootChildren else a.nodes[c.id].children
  }

  /** The two records agree in every field except `children`. */
  predicate SameLabel(x: BulletRec, y: BulletRec)
  {
    x.kind == y.kind && x.meta == y.meta && x.content == y.content && x.parent == y.parent
  }

  /** `a` with the child list of `c` replaced by `cs` and nothing else changed. */
  function WithChildren(a: Arena, c: Container, cs: seq<string>): (r: Arena)
    requires Holds(a, c)
    ensures r.nodes.Keys == a.nodes.Keys
    ensures ChildrenOf(r, c) == cs
    ensures forall d {:trigger ChildrenOf(r, d)} :: Holds(a, d) && d != c ==> ChildrenOf(r, d) == ChildrenOf(a, d)
    ensures forall k {:trigger r.nodes[k]} :: k in a.nodes ==> SameLabel(r.nodes[k], a.nodes[k])
  {
    if c.Root? then a.(rootChildren := cs)
    else a.(nodes := a.nodes[c.id := a.nodes[c.id].(children := cs)])
  }

  // ---------------------------------------------------------------------
  // Child lists (src/tree.ts:7-38)
  // ---------------------------------------------------------------------

  predicate NoDup(s: seq<string>)
  {
    forall i, j :: 0 <= i < j < |s| ==> s[i] != s[j]
  }

  /** `Array.prototype.indexOf`: the first index holding `x`, or -1. */
  function IndexOf(s: seq<string>, x: string): (i: int)
    ensures -1 <= i < |s|
    ensures i == -1 <==> x !in s
    ensures 0 <= i ==> s[i] == x && x !in s[..i]
  {
    if s == [] then -1
    else if s[0] == x then 0
    else
      var j := IndexOf(s[1..], x);
      assert s[1..][..j + 1] == s[1..j + 2] by { }
      if j == -1 then -1 else j + 1
  }

  /**
   * Where `splice(p, 0, x)` inserts into an array of length `n`: a negative
   * start counts from the end, and a start beyond either end is clamped.
   */
  function SpliceStart(p: int, n: nat): (q: nat)
    ensures q <= n
    ensures 0 <= p <= n ==> q == p
    ensures p > n ==> q == n
  {
    if p < 0 then (if n + p < 0 then 0 else n + p)
    else if p > n then n
    else p
  }

  /** The list after `splice(p, 0, x)`. */
  function InsertedAt(cs: seq<string>, p: int, x: string): (r: seq<string>)
    ensures |r| == |cs| + 1
    ensures r[SpliceStart(p, |cs|)] == x
    ensures forall j :: 0 <= j < SpliceStart(p, |cs|) ==> r[j] == cs[j]
    ensures forall j :: SpliceStart(p, |cs|) <= j < |cs| ==> r[j + 1] == cs[j]
  {
    var q := SpliceStart(p, |cs|);
    cs[..q] + [x] + cs[q..]
  }

  /** The list after `addChildAfter(x, reference)`. */
  function InsertedAfter(cs: seq<string>, x: string, reference: string): (r: seq<string>)
    ensures reference !in cs ==> r == cs + [x]
    ensures reference in cs ==>
      var i := IndexOf(cs, reference);
      |r| == |cs| + 1 && r[i] == reference && r[i + 1] == x &&
      r[..i + 1] == cs[..i + 1] && r[i + 2..] == cs[i + 1..]
  {
    var index := IndexOf(cs, reference);
    if index != -1 then InsertedAt(cs, index + 1, x) else cs + [x]
  }

  /** Inserting an absent element anywhere keeps a list free of duplicates and adds exactly that element. */
  lemma InsertFresh(cs: seq<string>, q: nat, x: string)
    requires NoDup(cs) && x !in cs && q <= |cs|
    ensures NoDup(cs[..q] + [x] + cs[q..])
    ensures forall y :: y in cs[..q] + [x] + cs[q..] <==> y in cs || y == x
  {
    var r := cs[..q] + [x] + cs[q..];
    forall i, j | 0 <= i < j < |r| ensures r[i] != r[j] {
      if i < q && j < q {
      } else if i < q && j == q {
      } else if i < q {
        assert r[j] == cs[j - 1];
      } else if i == q {
        assert r[j] == cs[j - 1];
      } else {
        assert r[i] == cs[i - 1] && r[j] == cs[j - 1];
      }
    }
    assert cs == cs[..q] + cs[q..];
  }

  /** Removing the element at `i` keeps a list free of duplicates and drops exactly that element. */
  lemma RemoveAt(cs: seq<string>, i: nat)
    requires NoDup(cs) && i < |cs|
    ensures NoDup(cs[..i] + cs[i + 1..])
    ensures forall y :: y in cs[..i] + cs[i + 1..] <==> y in cs && y != cs[i]
  {
    var r := cs[..i] + cs[i + 1..];
    forall j, k | 0 <= j < k < |r| ensures r[j] != r[k] {
      if k < i {
      } else if j < i {
        assert r[k] == cs[k + 1];
      } else {
        assert r[j] == cs[j + 1] && r[k] == cs[k + 1];
      }
    }
    forall y ensures y in r <==> y in cs && y != cs[i] {
      if y in cs && y != cs[i] {
        var j :| 0 <= j < |cs| && cs[j] == y;
        if j < i { assert r[j] == y; } else { assert r[j - 1] == y; }
      }
      if y in r {
        var j :| 0 <= j < |r| && r[j] == y;
        if j < i { assert cs[j] == y; } else { assert cs[j + 1] == y; }
      }
    }
  }

  /** Two duplicate-free lists with no common element concatenate into a duplicate-free list. */
  lemma NoDupConcat(x: seq<string>, y: seq<string>)
    requires NoDup(x) && NoDup(y)
    requires forall e :: e in x ==> e !in y
    ensures NoDup(x + y)
  {
    var r := x + y;
    forall i, j | 0 <= i < j < |r| ensures r[i] != r[j] {
      if i < |x| && |x| <= j {
        assert r[i] in x && r[j] == y[j - |x|];
      } else if |x| <= i {
        assert r[i] == y[i - |x|] && r[j] == y[j - |x|];
      }
    }
  }

  /** The parts of a duplicate-free concatenation are duplicate-free and share no element. */
  lemma NoDupParts(x: seq<string>, y: seq<string>)
    requires NoDup(x + y)
    ensures NoDup(x) && NoDup(y)
    ensures forall e :: e in x ==> e !in y
  {
    var r := x + y;
    forall i, j | 0 <= i < j < |x| ensures x[i] != x[j] {
      assert r[i] == x[i] && r[j] == x[j];
    }
    forall i, j | 0 <= i < j < |y| ensures y[i] != y[j] {
      assert r[|x| + i] == y[i] && r[|x| + j] == y[j];
    }
    forall i, j | 0 <= i < |x| && 0 <= j < |y| ensures x[i] != y[j] {
      assert r[i] == x[i] && r[|x| + j] == y[j];
    }
  }

  // ---------------------------------------------------------------------
  // The tree invariant
  // ---------------------------------------------------------------------

  /** Every listed id names a bullet of `a`, and every bullet's parent exists. */
  predicate Closed(a: Arena)
  {
    && (forall x :: x in a.rootChildren ==> x in a.nodes)
    && (forall k :: k in a.nodes ==> Holds(a, a.nodes[k].parent))
    && (forall k, x :: k in a.nodes && x in a.nodes[k].children ==> x in a.nodes)
  }

  /** Every entry of `cs` is a bullet whose `parent` is `c`, and no entry is listed twice. */
  predicate ListedUnder(a: Arena, c: Container, cs: seq<string>)
  {
    NoDup(cs) && forall x :: x in cs ==> x in a.nodes && a.nodes[x].parent == c
  }

  /** The depth of a bullet placed under `c`: 0 under the root, one more than `c` otherwise. */
  function DepthBelow(depth: map<string, nat>, c: Container): nat
    requires c.Root? || c.id in depth
  {
    if c.Root? then 0 else depth[c.id] + 1
  }

  /** The bullet `id` is listed by the container its `parent` names and lies one level below it. */
  ghost predicate LinkedUp(a: Arena, depth: map<string, nat>, id: string)
    requires id in a.nodes
  {
    var p := a.nodes[id].parent;
    && Holds(a, p)
    && id in ChildrenOf(a, p)
    && (p.Root? || p.id in depth)
    && id in depth
    && depth[id] == DepthBelow(depth, p)
  }

  /** Every container's list is a duplicate-free list of bullets that name it as parent. */
  ghost predicate AllListed(a: Arena)
  {
    forall c {:trigger ListedUnder(a, c, ChildrenOf(a, c))} :: Holds(a, c) ==> ListedUnder(a, c, ChildrenOf(a, c))
  }

  /** Every bullet is listed by its parent and lies one level below it. */
  ghost predicate AllLinked(a: Arena, depth: map<string, nat>)
  {
    forall id {:trigger LinkedUp(a, depth, id)} :: id in a.nodes ==> LinkedUp(a, depth, id)
  }

  /**
   * The tree invariant: each bullet appears exactly once, in the list of the
   * container its `parent` names, and nowhere else; every listed id is indexed;
   * and `depth` (the number of bullets above) strictly grows from parent to
   * child, so following `parent` always reaches the root: there is no cycle.
   */
  ghost predicate WellFormed(a: Arena, depth: map<string, nat>)
  {
    Closed(a) && depth.Keys == a.nodes.Keys && AllListed(a) && AllLinked(a, depth)
  }

  /** Listing and linking alone already make a tree closed. */
  lemma ListedLinkedClosed(a: Arena, depth: map<string, nat>)
    requires AllListed(a) && AllLinked(a, depth)
    ensures Closed(a)
  {
    assert ListedUnder(a, Root, ChildrenOf(a, Root));
    forall k | k in a.nodes ensures Holds(a, a.nodes[k].parent) {
      assert LinkedUp(a, depth, k);
    }
    forall k, x | k in a.nodes && x in a.nodes[k].children ensures x in a.nodes {
      assert ListedUnder(a, Bullet(k), ChildrenOf(a, Bullet(k)));
    }
  }

  /** The empty tree is well formed. */
  lemma EmptyWellFormed()
    ensures WellFormed(Empty, map[])
  {
  }

  // ---------------------------------------------------------------------
  // Insertion (src/tree.ts:69-88)
  // ---------------------------------------------------------------------

  /** `a` with the bullet `id` (record `rec`) registered and `c`'s list replaced by `cs`. */
  function Attach(a: Arena, c: Container, cs: seq<string>, id: string, rec: BulletRec): (r: Arena)
    requires Holds(a, c) && id !in a.nodes
    ensures r.nodes.Keys == a.nodes.Keys + {id}
    ensures r.nodes[id] == rec
    ensures ChildrenOf(r, c) == cs
    ensures forall d {:trigger ChildrenOf(r, d)} :: Holds(a, d) && d != c ==> ChildrenOf(r, d) == ChildrenOf(a, d)
    ensures forall k {:trigger r.nodes[k]} :: k in a.nodes ==> SameLabel(r.nodes[k], a.nodes[k])
  {
    var b := WithChildren(a, c, cs);
    b.(nodes := b.nodes[id := rec])
  }

  /** `addNode`: a new childless bullet appended as `parent`'s last child. */
  function AddedLast(a: Arena, id: string, kind: string, meta: string, content: string, parent: Container): (r: Arena)
    requires Holds(a, parent) && id !in a.nodes
    ensures r.nodes.Keys == a.nodes.Keys + {id}
    ensures r.nodes[id] == BulletRec(kind, meta, content, parent, [])
    ensures ChildrenOf(r, parent) == ChildrenOf(a, parent) + [id]
  {
    Attach(a, parent, ChildrenOf(a, parent) + [id], id, BulletRec(kind, meta, content, parent, []))
  }

  /** `addNodeFirst`: a new childless bullet placed first among `parent`'s children. */
  function AddedFirst(a: Arena, id: string, kind: string, meta: string, content: string, parent: Container): (r: Arena)
    requires Holds(a, parent) && id !in a.nodes
    ensures r.nodes.Keys == a.nodes.Keys + {id}
    ensures r.nodes[id] == BulletRec(kind, meta, content, parent, [])
    ensures ChildrenOf(r, parent) == [id] + ChildrenOf(a, parent)
  {
    Attach(a, parent, [id] + ChildrenOf(a, parent), id, BulletRec(kind, meta, content, parent, []))
  }

  /** `addNodeAfter`: a new childless bullet placed right after `reference`, or last when `reference` is not a child. */
  function AddedAfter(a: Arena, id: string, kind: string, meta: string, content: string, parent: Container, reference: string): (r: Arena)
    requires Holds(a, parent) && id !in a.nodes
    ensures r.nodes.Keys == a.nodes.Keys + {id}
    ensures r.nodes[id] == BulletRec(kind, meta, content, parent, [])
    ensures ChildrenOf(r, parent) == InsertedAfter(ChildrenOf(a, parent), id, reference)
  {
    Attach(a, parent, InsertedAfter(ChildrenOf(a, parent), id, reference), id, BulletRec(kind, meta, content, parent, []))
  }

  /**
   * Registering a fresh bullet under an existing container, with the
   * container's list gaining exactly that id, keeps the tree invariant; the
   * new bullet's depth is one below its container.
   */
  lemma AttachKeepsWellFormed(a: Arena, depth: map<string, nat>, c: Container, cs: seq<string>, id: string, rec: BulletRec)
    requires WellFormed(a, depth) && Holds(a, c) && id !in a.nodes
    requires rec.parent == c && rec.children == []
    requires NoDup(cs) && forall y :: y in cs <==> y in ChildrenOf(a, c) || y == id
    ensures WellFormed(Attach(a, c, cs, id, rec), depth[id := DepthBelow(depth, c)])
  {
    var r := Attach(a, c, cs, id, rec);
    var d := depth[id := DepthBelow(depth, c)];
    forall e | Holds(r, e) ensures ListedUnder(r, e, ChildrenOf(r, e)) {
      AttachListed(a, depth, c, cs, id, rec, e);
    }
    forall k | k in r.nodes ensures LinkedUp(r, d, k) {
      AttachLinked(a, depth, c, cs, id, rec, k);
    }
    ListedLinkedClosed(r, d);
  }

  lemma AttachListed(a: Arena, depth: map<string, nat>, c: Container, cs: seq<string>, id: string, rec: BulletRec, e: Container)
    requires WellFormed(a, depth) && Holds(a, c) && id !in a.nodes
    requires rec.parent == c && rec.children == []
    requires NoDup(cs) && forall y :: y in cs <==> y in ChildrenOf(a, c) || y == id
    requires Holds(Attach(a, c, cs, id, rec), e)
    ensures ListedUnder(Attach(a, c, cs, id, rec), e, ChildrenOf(Attach(a, c, cs, id, rec), e))
  {
    var r := Attach(a, c, cs, id, rec);
    if e == Bullet(id) {
      assert ChildrenOf(r, e) == [];
    } else {
      assert Holds(a, e);
      assert ListedUnder(a, e, ChildrenOf(a, e));
      if e == c {
        forall y | y in cs ensures y in r.nodes && r.nodes[y].parent == e {
          if y != id {
            assert SameLabel(r.nodes[y], a.nodes[y]);
          }
        }
      } else {
        assert ChildrenOf(r, e) == ChildrenOf(a, e);
        forall y | y in ChildrenOf(a, e) ensures y in r.nodes && r.nodes[y].parent == e {
          assert SameLabel(r.nodes[y], a.nodes[y]);
        }
      }
    }
  }

  lemma AttachLinked(a: Arena, depth: map<string, nat>, c: Container, cs: seq<string>, id: string, rec: BulletRec, k: string)
    requires WellFormed(a, depth) && Holds(a, c) && id !in a.nodes
    requires rec.parent == c && rec.children == []
    requires NoDup(cs) && forall y :: y in cs <==> y in ChildrenOf(a, c) || y == id
    requires k in Attach(a, c, cs, id, rec).nodes
    ensures LinkedUp(Attach(a, c, cs, id, rec), depth[id := DepthBelow(depth, c)], k)
  {
    var r := Attach(a, c, cs, id, rec);
    if k != id {
      assert LinkedUp(a, depth, k);
      var p := a.nodes[k].parent;
      assert SameLabel(r.nodes[k], a.nodes[k]);
      if p != c {
        assert ChildrenOf(r, p) == ChildrenOf(a, p);
      }
    }
  }

  /** The three positions `addNode`, `addNodeFirst` and `addNodeAfter` use all add exactly the new id. */
  lemma PlacementsAddExactlyId(cs: seq<string>, id: string, reference: string)
    requires NoDup(cs) && id !in cs
    ensures NoDup(cs + [id]) && forall y :: y in cs + [id] <==> y in cs || y == id
    ensures NoDup([id] + cs) && forall y :: y in [id] + cs <==> y in cs || y == id
    ensures var r := InsertedAfter(cs, id, reference);
      NoDup(r) && forall y :: y in r <==> y in cs || y == id
  {
    InsertFresh(cs, |cs|, id);
    assert cs[..|cs|] + [id] + cs[|cs|..] == cs + [id];
    InsertFresh(cs, 0, id);
    assert cs[..0] + [id] + cs[0..] == [id] + cs;
    var i := IndexOf(cs, reference);
    if i != -1 {
      InsertFresh(cs, i + 1, id);
      assert InsertedAfter(cs, id, reference) == cs[..i + 1] + [id] + cs[i + 1..];
    }
  }

  // ---------------------------------------------------------------------
  // Ancestry
  // ---------------------------------------------------------------------

  /** The ancestor of `x` (or `x` itself) that lies at depth `d`. */
  ghost function AncestorAt(a: Arena, depth: map<string, nat>, x: string, d: nat): (y: string)
    requires WellFormed(a, depth) && x in a.nodes && d <= depth[x]
    ensures y in a.nodes && depth[y] == d
    decreases depth[x]
  {
    if depth[x] == d then x
    else
      assert LinkedUp(a, depth, x);
      AncestorAt(a, depth, a.nodes[x].parent.id, d)
  }

  /** `x` is `top` or lies below it. */
  ghost predicate InSubtree(a: Arena, depth: map<string, nat>, x: string, top: string)
    requires WellFormed(a, depth) && x in a.nodes && top in a.nodes
  {
    depth[top] <= depth[x] && AncestorAt(a, depth, x, depth[top]) == top
  }

  /** A bullet other than `top` is in `top`'s subtree exactly when its parent is. */
  lemma SubtreeStep(a: Arena, depth: map<string, nat>, x: string, top: string)
    requires WellFormed(a, depth) && x in a.nodes && top in a.nodes && x != top
    requires a.nodes[x].parent.Bullet?
    ensures a.nodes[x].parent.id in a.nodes
    ensures InSubtree(a, depth, x, top) <==> InSubtree(a, depth, a.nodes[x].parent.id, top)
  {
    assert LinkedUp(a, depth, x);
  }

  // ---------------------------------------------------------------------
  // Indentation (src/tree.ts:90-100)
  // ---------------------------------------------------------------------

  /**
   * `indentBullet`: when `id` has a preceding sibling, it leaves its parent's
   * list and becomes the last child of that sibling; otherwise nothing changes.
   */
  function Indented(a: Arena, id: string): (r: Arena)
    requires Closed(a) && id in a.nodes
    ensures r.nodes.Keys == a.nodes.Keys
  {
    var p := a.nodes[id].parent;
    var sibs := ChildrenOf(a, p);
    var nodeIndex := IndexOf(sibs, id);
    if nodeIndex < 1 then a
    else MovedTo(a, id, p, sibs[nodeIndex - 1], sibs[..nodeIndex] + sibs[nodeIndex + 1..])
  }

  /**
   * `id` relisted: `p`'s list becomes `rest`, then `id` is adopted by `s`
   * (read from `rest`, where it sits at the same index as before the removal).
   */
  function MovedTo(a: Arena, id: string, p: Container, s: string, rest: seq<string>): (r: Arena)
    requires Holds(a, p) && s in a.nodes && id in a.nodes
    ensures r.nodes.Keys == a.nodes.Keys
  {
    Adopted(WithChildren(a, p, rest), id, s)
  }

  /** `newParent.addChild(node); node.parent = newParent`: `id` is appended to `s`'s list and relinked to `s`. */
  function Adopted(b: Arena, id: string, s: string): (r: Arena)
    requires s in b.nodes && id in b.nodes
    ensures r.nodes.Keys == b.nodes.Keys
    ensures ChildrenOf(r, Bullet(s)) == ChildrenOf(b, Bullet(s)) + [id]
    ensures r.nodes[id].parent == Bullet(s)
  {
    var c := WithChildren(b, Bullet(s), ChildrenOf(b, Bullet(s)) + [id]);
    c.(nodes := c.nodes[id := c.nodes[id].(parent := Bullet(s))])
  }

  /** The depths after indenting `id`: its whole subtree moves one level down. */
  ghost function IndentedDepth(a: Arena, depth: map<string, nat>, id: string): map<string, nat>
    requires WellFormed(a, depth) && id in a.nodes
  {
    if IndexOf(ChildrenOf(a, a.nodes[id].parent), id) < 1 then depth
    else map k | k in a.nodes :: if InSubtree(a, depth, k, id) then depth[k] + 1 else depth[k]
  }

  /**
   * `r` is `a` after moving `id` from its parent's list (where it sits at
   * index `i >= 1`) to the end of the list of `s`, its preceding sibling.
   */
  ghost predicate MovedUnder(a: Arena, r: Arena, id: string, s: string)
    requires id in a.nodes && Holds(a, a.nodes[id].parent)
  {
    var p := a.nodes[id].parent;
    var sibs := ChildrenOf(a, p);
    var i := IndexOf(sibs, id);
    && 1 <= i && s == sibs[i - 1] && s in a.nodes && Bullet(s) != p && s != id
    && r.nodes.Keys == a.nodes.Keys
    && ChildrenOf(r, p) == sibs[..i] + sibs[i + 1..]
    && ChildrenOf(r, Bullet(s)) == ChildrenOf(a, Bullet(s)) + [id]
    && r.nodes[id] == a.nodes[id].(parent := Bullet(s))
    && (forall d {:trigger ChildrenOf(r, d)} :: Holds(a, d) && d != p && d != Bullet(s) ==> ChildrenOf(r, d) == ChildrenOf(a, d))
    && (forall k {:trigger r.nodes[k]} :: k in a.nodes && k != id ==> SameLabel(r.nodes[k], a.nodes[k]))
  }

  /** `Indented` performs that move whenever the preceding sibling is not the parent itself. */
  lemma IndentShape(a: Arena, id: string)
    requires Closed(a) && id in a.nodes
    requires var p := a.nodes[id].parent; var i := IndexOf(ChildrenOf(a, p), id);
      p != Bullet(id) && i >= 1 && Bullet(ChildrenOf(a, p)[i - 1]) != p
    ensures var p := a.nodes[id].parent; var sibs := ChildrenOf(a, p);
      MovedUnder(a, Indented(a, id), id, sibs[IndexOf(sibs, id) - 1])
  {
    var p := a.nodes[id].parent;
    var sibs := ChildrenOf(a, p);
    var i := IndexOf(sibs, id);
    assert sibs[i - 1] != id && sibs[i - 1] in a.nodes;
    assert MoveArgs(a, id, p, sibs[i - 1]);
    MoveEffect(a, id, p, sibs[i - 1], i, sibs[..i] + sibs[i + 1..]);
  }

  /** Removing `id` from its parent's list, appending it to `s`'s list and relinking it is the move under `s`. */
  lemma MoveEffect(a: Arena, id: string, p: Container, s: string, i: int, xs: seq<string>)
    requires MoveArgs(a, id, p, s)
    requires i == IndexOf(ChildrenOf(a, p), id) && 1 <= i && s == ChildrenOf(a, p)[i - 1]
    requires xs == ChildrenOf(a, p)[..i] + ChildrenOf(a, p)[i + 1..]
    ensures MovedUnder(a, MovedTo(a, id, p, s, xs), id, s)
  {
    MoveLists(a, id, p, s, xs);
    MoveOthers(a, id, p, s, xs);
    MoveLabels(a, id, p, s, xs);
  }

  /** `id` sits under `p`, and `s` is another bullet that is not `p`: the move to `s` is possible. */
  predicate MoveArgs(a: Arena, id: string, p: Container, s: string)
  {
    Closed(a) && id in a.nodes && p == a.nodes[id].parent && p != Bullet(id) && Holds(a, p)
    && s in a.nodes && Bullet(s) != p && s != id
  }

  /** The two lists the move touches, and the moved bullet's new parent. */
  lemma MoveLists(a: Arena, id: string, p: Container, s: string, xs: seq<string>)
    requires MoveArgs(a, id, p, s)
    ensures var r := MovedTo(a, id, p, s, xs);
      && ChildrenOf(r, p) == xs
      && ChildrenOf(r, Bullet(s)) == ChildrenOf(a, Bullet(s)) + [id]
      && r.nodes[id] == a.nodes[id].(parent := Bullet(s))
  {
    var b := WithChildren(a, p, xs);
    var c := WithChildren(b, Bullet(s), ChildrenOf(b, Bullet(s)) + [id]);
    assert ChildrenOf(b, Bullet(s)) == ChildrenOf(a, Bullet(s));
    assert c.nodes[id] == a.nodes[id] by {
      if p.Bullet? { assert id != p.id; }
    }
    assert ChildrenOf(MovedTo(a, id, p, s, xs), p) == ChildrenOf(c, p) by {
      if p.Bullet? { assert id != p.id; }
    }
  }

  /** The move leaves every other container's list as it was. */
  lemma MoveOthers(a: Arena, id: string, p: Container, s: string, xs: seq<string>)
    requires MoveArgs(a, id, p, s)
    ensures var r := MovedTo(a, id, p, s, xs);
      forall d {:trigger ChildrenOf(r, d)} :: Holds(a, d) && d != p && d != Bullet(s) ==> ChildrenOf(r, d) == ChildrenOf(a, d)
  {
    var b := WithChildren(a, p, xs);
    var c := WithChildren(b, Bullet(s), ChildrenOf(b, Bullet(s)) + [id]);
    var r := MovedTo(a, id, p, s, xs);
    forall d | Holds(a, d) && d != p && d != Bullet(s) ensures ChildrenOf(r, d) == ChildrenOf(a, d) {
      assert ChildrenOf(b, d) == ChildrenOf(a, d);
      assert ChildrenOf(c, d) == ChildrenOf(b, d);
      if d == Bullet(id) {
        assert ChildrenOf(r, d) == ChildrenOf(c, d);
      }
    }
  }

  /** The move leaves every other bullet's fields as they were. */
  lemma MoveLabels(a: Arena, id: string, p: Container, s: string, xs: seq<string>)
    requires MoveArgs(a, id, p, s)
    ensures var r := MovedTo(a, id, p, s, xs);
      forall k {:trigger r.nodes[k]} :: k in a.nodes && k != id ==> SameLabel(r.nodes[k], a.nodes[k])
  {
    var b := WithChildren(a, p, xs);
    var c := WithChildren(b, Bullet(s), ChildrenOf(b, Bullet(s)) + [id]);
    var r := MovedTo(a, id, p, s, xs);
    forall k | k in a.nodes && k != id ensures SameLabel(r.nodes[k], a.nodes[k]) {
      assert SameLabel(b.nodes[k], a.nodes[k]);
      assert SameLabel(c.nodes[k], b.nodes[k]);
    }
  }

  /**
   * What `indentBullet` does to a well-formed tree: nothing when `id` is first
   * among its siblings; otherwise `id` leaves its parent's list, keeping the
   * other siblings in order, and becomes the last child of the sibling that
   * preceded it, with its own children untouched.
   */
  lemma IndentEffect(a: Arena, depth: map<string, nat>, id: string)
    requires WellFormed(a, depth) && id in a.nodes
    ensures Closed(a)
    ensures
      var p := a.nodes[id].parent;
      var sibs := ChildrenOf(a, p);
      var i := IndexOf(sibs, id);
      && 0 <= i
      && (i == 0 ==> Indented(a, id) == a)
      && (i >= 1 ==> MovedUnder(a, Indented(a, id), id, sibs[i - 1]))
  {
    var p := a.nodes[id].parent;
    assert LinkedUp(a, depth, id);
    var sibs := ChildrenOf(a, p);
    var i := IndexOf(sibs, id);
    if i >= 1 {
      var s := sibs[i - 1];
      assert ListedUnder(a, p, sibs);
      assert s in sibs;
      assert LinkedUp(a, depth, s);
      IndentShape(a, id);
    }
  }

  /** After the move, every container's list is still a duplicate-free list of its children. */
  lemma MovedListed(a: Arena, depth: map<string, nat>, r: Arena, id: string, s: string, e: Container)
    requires WellFormed(a, depth) && id in a.nodes && Holds(a, a.nodes[id].parent)
    requires MovedUnder(a, r, id, s) && Holds(a, e)
    ensures ListedUnder(r, e, ChildrenOf(r, e))
  {
    assert ListedUnder(a, e, ChildrenOf(a, e));
    if e == a.nodes[id].parent {
      ListedAfterRemoval(a, r, id, s);
    } else {
      ListedAfterAppend(a, r, id, s, e);
    }
  }

  /** The old parent's list, with `id` removed, still lists exactly bullets naming it. */
  lemma ListedAfterRemoval(a: Arena, r: Arena, id: string, s: string)
    requires id in a.nodes && Holds(a, a.nodes[id].parent) && MovedUnder(a, r, id, s)
    requires ListedUnder(a, a.nodes[id].parent, ChildrenOf(a, a.nodes[id].parent))
    ensures ListedUnder(r, a.nodes[id].parent, ChildrenOf(r, a.nodes[id].parent))
  {
    var sibs := ChildrenOf(a, a.nodes[id].parent);
    RemoveAt(sibs, IndexOf(sibs, id));
  }

  /** Any other list, possibly with `id` appended (for `s`), still lists exactly bullets naming its owner. */
  lemma ListedAfterAppend(a: Arena, r: Arena, id: string, s: string, e: Container)
    requires id in a.nodes && Holds(a, a.nodes[id].parent) && MovedUnder(a, r, id, s)
    requires Holds(a, e) && e != a.nodes[id].parent && ListedUnder(a, e, ChildrenOf(a, e))
    ensures ListedUnder(r, e, ChildrenOf(r, e))
  {
    var cs := ChildrenOf(a, e);
    assert id !in cs;
    if e == Bullet(s) {
      InsertFresh(cs, |cs|, id);
      assert cs[..|cs|] + [id] + cs[|cs|..] == cs + [id];
    }
  }


  /** After the move, with the moved subtree one level deeper, every bullet is listed by its parent one level above. */
  lemma MovedLinked(a: Arena, depth: map<string, nat>, r: Arena, id: string, s: string, k: string)
    requires WellFormed(a, depth) && id in a.nodes && Holds(a, a.nodes[id].parent)
    requires MovedUnder(a, r, id, s) && k in a.nodes
    ensures LinkedUp(r, IndentedDepth(a, depth, id), k)
  {
    if k == id {
      MovedLinkedSelf(a, depth, r, id, s);
    } else {
      MovedKeptListed(a, depth, r, id, s, k);
      MovedKeptDepth(a, depth, id, k);
    }
  }

  /** The moved bullet is listed by its new parent `s`, one level below it. */
  lemma MovedLinkedSelf(a: Arena, depth: map<string, nat>, r: Arena, id: string, s: string)
    requires WellFormed(a, depth) && id in a.nodes && Holds(a, a.nodes[id].parent)
    requires MovedUnder(a, r, id, s)
    ensures LinkedUp(r, IndentedDepth(a, depth, id), id)
  {
    var d := IndentedDepth(a, depth, id);
    var p := a.nodes[id].parent;
    var sibs := ChildrenOf(a, p);
    assert d == map k | k in a.nodes :: if InSubtree(a, depth, k, id) then depth[k] + 1 else depth[k];
    assert LinkedUp(a, depth, id);
    assert ListedUnder(a, p, sibs);
    assert s in sibs;
    assert LinkedUp(a, depth, s);
    assert InSubtree(a, depth, id, id);
    assert !InSubtree(a, depth, s, id);
  }

  /** Any other bullet is still listed by its parent after the move. */
  lemma MovedKeptListed(a: Arena, depth: map<string, nat>, r: Arena, id: string, s: string, k: string)
    requires WellFormed(a, depth) && id in a.nodes && Holds(a, a.nodes[id].parent)
    requires MovedUnder(a, r, id, s) && k in a.nodes && k != id
    ensures r.nodes[k].parent == a.nodes[k].parent && Holds(r, a.nodes[k].parent)
    ensures k in ChildrenOf(r, a.nodes[k].parent)
  {
    var p := a.nodes[id].parent;
    var sibs := ChildrenOf(a, p);
    var q := a.nodes[k].parent;
    assert LinkedUp(a, depth, k);
    assert SameLabel(r.nodes[k], a.nodes[k]);
    if q == p {
      assert ListedUnder(a, p, sibs);
      RemoveAt(sibs, IndexOf(sibs, id));
    }
  }

  /** Any other bullet stays one level below its parent under the new depths. */
  lemma MovedKeptDepth(a: Arena, depth: map<string, nat>, id: string, k: string)
    requires WellFormed(a, depth) && id in a.nodes && k in a.nodes && k != id
    requires IndexOf(ChildrenOf(a, a.nodes[id].parent), id) >= 1
    ensures var d := IndentedDepth(a, depth, id); var q := a.nodes[k].parent;
      && k in d && (q.Root? || q.id in d) && d[k] == DepthBelow(d, q)
  {
    var d := IndentedDepth(a, depth, id);
    assert d == map k | k in a.nodes :: if InSubtree(a, depth, k, id) then depth[k] + 1 else depth[k];
    assert LinkedUp(a, depth, k);
    if a.nodes[k].parent.Bullet? {
      SubtreeStep(a, depth, k, id);
    }
  }


  /** The move keeps the tree invariant, with the moved subtree one level deeper. */
  lemma MovedWellFormed(a: Arena, depth: map<string, nat>, r: Arena, id: string, s: string)
    requires WellFormed(a, depth) && id in a.nodes && Holds(a, a.nodes[id].parent)
    requires MovedUnder(a, r, id, s)
    ensures WellFormed(r, IndentedDepth(a, depth, id))
  {
    var d := IndentedDepth(a, depth, id);
    assert d.Keys == a.nodes.Keys;
    forall e | Holds(r, e) ensures ListedUnder(r, e, ChildrenOf(r, e)) {
      MovedListed(a, depth, r, id, s, e);
    }
    forall k | k in r.nodes ensures LinkedUp(r, d, k) {
      MovedLinked(a, depth, r, id, s, k);
    }
    ListedLinkedClosed(r, d);
  }

  /** The tree invariant survives `indentBullet`: the new parent is a former sibling, never a descendant. */
  lemma IndentKeepsWellFormed(a: Arena, depth: map<string, nat>, id: string)
    requires WellFormed(a, depth) && id in a.nodes
    ensures Closed(a)
    ensures WellFormed(Indented(a, id), IndentedDepth(a, depth, id))
  {
    IndentEffect(a, depth, id);
    var p := a.nodes[id].parent;
    var sibs := ChildrenOf(a, p);
    var i := IndexOf(sibs, id);
    if i >= 1 {
      MovedWellFormed(a, depth, Indented(a, id), id, sibs[i - 1]);
    }
  }

  // ---------------------------------------------------------------------
  // The tree object
  // ---------------------------------------------------------------------

  /**
   * `SilverTree`: the root's child list and the id index. The ghost `depth`
   * map witnesses that the parent links are acyclic.
   */
  class SilverTree {
    var rootChildren: seq<string>
    var nodes: map<string, BulletRec>
    ghost var depth: map<string, nat>

    ghost predicate Valid()
      reads this
    {
      WellFormed(Snapshot(), depth)
    }

    /** The current state as a value. */
    function Snapshot(): Arena
      reads this
    {
      Arena(rootChildren, nodes)
    }

    /** A new tree holds the root alone and an empty index. */
    constructor ()
      ensures Valid() && Snapshot() == Empty
    {
      rootChildren := [];
      nodes := map[];
      depth := map[];
    }

    /** Replaces the child list of `c`; a missing `children` array is the empty list. */
    method SetChildren(c: Container, cs: seq<string>)
      requires Holds(Snapshot(), c)
      modifies this
      ensures Snapshot() == WithChildren(old(Snapshot()), c, cs)
      ensures depth == old(depth)
    {
      if c.Root? {
        rootChildren := cs;
      } else {
        nodes := nodes[c.id := nodes[c.id].(children := cs)];
      }
    }

    /** `addChild`: `child` becomes the last entry of `parent`'s list. */
    method AddChild(parent: Container, child: string)
      requires Holds(Snapshot(), parent)
      modifies this
      ensures Snapshot() == WithChildren(old(Snapshot()), parent, old(ChildrenOf(Snapshot(), parent)) + [child])
      ensures depth == old(depth)
    {
      SetChildren(parent, ChildrenOf(Snapshot(), parent) + [child]);
    }

    /** `addChildAtPosition`: `splice(position, 0, child)` on `parent`'s list. */
    method AddChildAtPosition(parent: Container, child: string, position: int)
      requires Holds(Snapshot(), parent)
      modifies this
      ensures Snapshot() == WithChildren(old(Snapshot()), parent, InsertedAt(old(ChildrenOf(Snapshot(), parent)), position, child))
      ensures depth == old(depth)
    {
      SetChildren(parent, InsertedAt(ChildrenOf(Snapshot(), parent), position, child));
    }

    /** `addChildAfter`: `child` right after `reference`, or last when `reference` is not listed. */
    method AddChildAfter(parent: Container, child: string, reference: string)
      requires Holds(Snapshot(), parent)
      modifies this
      ensures Snapshot() == WithChildren(old(Snapshot()), parent, InsertedAfter(old(ChildrenOf(Snapshot(), parent)), child, reference))
      ensures depth == old(depth)
    {
      var index := IndexOf(ChildrenOf(Snapshot(), parent), reference);
      if index != -1 {
        AddChildAtPosition(parent, child, index + 1);
      } else {
        AddChild(parent, child);
      }
    }

    /** `addChildFirst`: `child` becomes the first entry of `parent`'s list. */
    method AddChildFirst(parent: Container, child: string)
      requires Holds(Snapshot(), parent)
      modifies this
      ensures Snapshot() == WithChildren(old(Snapshot()), parent, [child] + old(ChildrenOf(Snapshot(), parent)))
      ensures depth == old(depth)
    {
      SetChildren(parent, [child] + ChildrenOf(Snapshot(), parent));
    }

    /** `addNode`: a new bullet, last among `parent`'s children, registered under `id`. */
    method AddNode(id: string, kind: string, meta: string, content: string, parent: Container)
      requires Valid() && id !in nodes && Holds(Snapshot(), parent)
      modifies this
      ensures Valid()
      ensures Snapshot() == AddedLast(old(Snapshot()), id, kind, meta, content, parent)
    {
      ghost var a, d := Snapshot(), depth;
      assert ListedUnder(a, parent, ChildrenOf(a, parent));
      AddChild(parent, id);
      nodes := nodes[id := BulletRec(kind, meta, content, parent, [])];
      depth := depth[id := DepthBelow(depth, parent)];
      PlacementsAddExactlyId(ChildrenOf(a, parent), id, id);
      AttachKeepsWellFormed(a, d, parent, ChildrenOf(a, parent) + [id], id, BulletRec(kind, meta, content, parent, []));
    }

    /** `addNodeFirst`: a new bullet, first among `parent`'s children, registered under `id`. */
    method AddNodeFirst(id: string, kind: string, meta: string, content: string, parent: Container)
      requires Valid() && id !in nodes && Holds(Snapshot(), parent)
      modifies this
      ensures Valid()
      ensures Snapshot() == AddedFirst(old(Snapshot()), id, kind, meta, content, parent)
    {
      ghost var a, d := Snapshot(), depth;
      assert ListedUnder(a, parent, ChildrenOf(a, parent));
      AddChildFirst(parent, id);
      nodes := nodes[id := BulletRec(kind, meta, content, parent, [])];
      depth := depth[id := DepthBelow(depth, parent)];
      PlacementsAddExactlyId(ChildrenOf(a, parent), id, id);
      AttachKeepsWellFormed(a, d, parent, [id] + ChildrenOf(a, parent), id, BulletRec(kind, meta, content, parent, []));
    }

    /** `addNodeAfter`: a new bullet right after `reference` among `parent`'s children (last if absent). */
    method AddNodeAfter(id: string, kind: string, meta: string, content: string, parent: Container, reference: string)
      requires Valid() && id !in nodes && Holds(Snapshot(), parent)
      modifies this
      ensures Valid()
      ensures Snapshot() == AddedAfter(old(Snapshot()), id, kind, meta, content, parent, reference)
    {
      ghost var a, d := Snapshot(), depth;
      assert ListedUnder(a, parent, ChildrenOf(a, parent));
      AddChildAfter(parent, id, reference);
      nodes := nodes[id := BulletRec(kind, meta, content, parent, [])];
      depth := depth[id := DepthBelow(depth, parent)];
      PlacementsAddExactlyId(ChildrenOf(a, parent), id, reference);
      AttachKeepsWellFormed(a, d, parent, InsertedAfter(ChildrenOf(a, parent), id, reference), id, BulletRec(kind, meta, content, parent, []));
    }

    /** `indentBullet`: re-parent `id` under its preceding sibling, if it has one. */
    method IndentBullet(id: string)
      requires Valid() && id in nodes
      modifies this
      ensures Valid()
      ensures Snapshot() == Indented(old(Snapshot()), id)
    {
      ghost var a, d := Snapshot(), depth;
      assert Closed(a);
      MoveUnderPrevious(id);
      depth := IndentedDepth(a, d, id);
      IndentKeepsWellFormed(a, d, id);
    }

    /** The in-place steps of `indentBullet`, on a tree whose links are closed. */
    method MoveUnderPrevious(id: string)
      requires Closed(Snapshot()) && id in nodes
      modifies this
      ensures Snapshot() == Indented(old(Snapshot()), id)
    {
      var p := nodes[id].parent;
      var nodeIndex := IndexOf(ChildrenOf(Snapshot(), p), id);
      if nodeIndex >= 1 {
        SpliceAndAdopt(id, p, nodeIndex);
      }
    }

    /** The `nodeIndex >= 1` branch: `id` leaves `p`'s list and is adopted by the sibling now at `nodeIndex - 1`. */
    method SpliceAndAdopt(id: string, p: Container, nodeIndex: nat)
      requires Holds(Snapshot(), p) && id in nodes
      requires 1 <= nodeIndex < |ChildrenOf(Snapshot(), p)| && ChildrenOf(Snapshot(), p)[nodeIndex - 1] in nodes
      modifies this
      ensures var sibs := old(ChildrenOf(Snapshot(), p));
        Snapshot() == MovedTo(old(Snapshot()), id, p, sibs[nodeIndex - 1], sibs[..nodeIndex] + sibs[nodeIndex + 1..])
    {
      var sibs := ChildrenOf(Snapshot(), p);
      SetChildren(p, sibs[..nodeIndex] + sibs[nodeIndex + 1..]);
      var newParent := ChildrenOf(Snapshot(), p)[nodeIndex - 1];
      assert newParent == sibs[nodeIndex - 1];
      AdoptUnder(newParent, id);
    }

    /** `newParent.addChild(node)` followed by `node.parent = newParent`. */
    method AdoptUnder(newParent: string, id: string)
      requires newParent in nodes && id in nodes
      modifies this
      ensures Snapshot() == Adopted(old(Snapshot()), id, newParent)
    {
      AddChild(Bullet(newParent), id);
      nodes := nodes[id := nodes[id].(parent := Bullet(newParent))];
    }

    /** `clear`: back to the root alone and an empty index. */
    method Clear()
      modifies this
      ensures Valid() && Snapshot() == Empty
    {
      rootChildren := [];
      nodes := map[];
      depth := map[];
    }
  }
}
