/**
 * The tree seen as a forest of values, in the order in which `serializeTree`
 * (src/fs.ts) walks it, and the rebuild that decoding performs: inserting a
 * forest's bullets in pre-order, each as the last child of its container.
 */
module Forest {
  import opened Tree

  /** A bullet with its fields and its children, in list order. */
  datatype Node = Node(id: string, kind: string, meta: string, content: string, children: seq<Node>)

  /** The ids of the top-level nodes, in order. */
  function Tops(f: seq<Node>): (ids: seq<string>)
    ensures |ids| == |f|
    ensures forall i :: 0 <= i < |f| ==> ids[i] == f[i].id
  {
    if f == [] then [] else [f[0].id] + Tops(f[1..])
  }

  /** Every id of the forest in pre-order: a node, then its subtree, then its later siblings. */
  function Ids(f: seq<Node>): seq<string>
    decreases f
  {
    if f == [] then [] else [f[0].id] + Ids(f[0].children) + Ids(f[1..])
  }

  /**
   * The forest hanging from the listed ids. `avail` holds the bullets not yet
   * entered on the current path; it only bounds the recursion, and in a
   * well-formed tree it never hides a listed bullet (see ToNodesSound).
   */
  function ToNodes(a: Arena, ids: seq<string>, avail: set<string>): seq<Node>
    decreases avail, |ids|
  {
    if ids == [] then []
    else if ids[0] in a.nodes && ids[0] in avail then
      var rec := a.nodes[ids[0]];
      [Node(ids[0], rec.kind, rec.meta, rec.content, ToNodes(a, rec.children, avail - {ids[0]}))]
        + ToNodes(a, ids[1..], avail)
    else ToNodes(a, ids[1..], avail)
  }

  /** `n` names an indexed bullet and carries that bullet's type, meta and content. */
  predicate Carries(a: Arena, n: Node)
  {
    n.id in a.nodes && a.nodes[n.id].kind == n.kind && a.nodes[n.id].meta == n.meta && a.nodes[n.id].content == n.content
  }

  /** The forest below the root: what `serializeNode(tree.root)` visits. */
  function Outline(a: Arena): (f: seq<Node>)
    ensures forall i :: 0 <= i < |f| ==> f[i].id in a.rootChildren && Carries(a, f[i])
  {
    ToNodesCarries(a, a.rootChildren, a.nodes.Keys);
    ToNodes(a, a.rootChildren, a.nodes.Keys)
  }

  /** Each top node of the walk is a listed, indexed bullet with that bullet's fields. */
  lemma {:induction false} ToNodesCarries(a: Arena, ids: seq<string>, avail: set<string>)
    ensures forall i :: 0 <= i < |ToNodes(a, ids, avail)| ==>
      ToNodes(a, ids, avail)[i].id in ids && Carries(a, ToNodes(a, ids, avail)[i])
    decreases |ids|
  {
    if ids != [] {
      ToNodesCarries(a, ids[1..], avail);
      var f := ToNodes(a, ids, avail);
      var g := ToNodes(a, ids[1..], avail);
      var head := ids[0] in a.nodes && ids[0] in avail;
      if head {
        var rec := a.nodes[ids[0]];
        assert f == [Node(ids[0], rec.kind, rec.meta, rec.content, ToNodes(a, rec.children, avail - {ids[0]}))] + g;
      }
      forall i | 0 <= i < |f| ensures f[i].id in ids && Carries(a, f[i]) {
        if !head || i > 0 {
          var j := if head then i - 1 else i;
          assert f[i] == g[j];
          assert g[j].id in ids[1..];
        }
      }
    }
  }

  /** `f` is exactly what `a` holds below `c`, node by node: fields, parent and child order. */
  ghost predicate Sound(a: Arena, c: Container, f: seq<Node>)
    decreases f
  {
    f != [] ==>
      && f[0].id in a.nodes
      && a.nodes[f[0].id] == BulletRec(f[0].kind, f[0].meta, f[0].content, c, Tops(f[0].children))
      && Sound(a, Bullet(f[0].id), f[0].children)
      && Sound(a, c, f[1..])
  }

  // ---------------------------------------------------------------------
  // The forest view is faithful
  // ---------------------------------------------------------------------

  /**
   * Walking a list of bullets that all name `c` as parent yields those bullets,
   * in order, each with its own record and its whole subtree.
   */
  lemma {:induction false} ToNodesSound(a: Arena, depth: map<string, nat>, c: Container, cs: seq<string>, avail: set<string>)
    requires WellFormed(a, depth) && Holds(a, c)
    requires forall x :: x in cs ==> x in a.nodes && a.nodes[x].parent == c
    requires forall x :: x in a.nodes && depth[x] >= DepthBelow(depth, c) ==> x in avail
    ensures Tops(ToNodes(a, cs, avail)) == cs
    ensures Sound(a, c, ToNodes(a, cs, avail))
    decreases avail, |cs|
  {
    if cs != [] {
      var x := cs[0];
      assert LinkedUp(a, depth, x);
      var rec := a.nodes[x];
      assert ListedUnder(a, Bullet(x), ChildrenOf(a, Bullet(x)));
      ToNodesSound(a, depth, Bullet(x), rec.children, avail - {x});
      ToNodesSound(a, depth, c, cs[1..], avail);
      SoundCons(a, c, Node(x, rec.kind, rec.meta, rec.content, ToNodes(a, rec.children, avail - {x})), ToNodes(a, cs[1..], avail));
      assert cs == [x] + cs[1..];
    }
  }

  /** A bullet whose record and subtree match, followed by matching later siblings, is a matching forest. */
  lemma SoundCons(a: Arena, c: Container, n: Node, rest: seq<Node>)
    requires n.id in a.nodes && a.nodes[n.id] == BulletRec(n.kind, n.meta, n.content, c, Tops(n.children))
    requires Sound(a, Bullet(n.id), n.children) && Sound(a, c, rest)
    ensures Sound(a, c, [n] + rest) && Tops([n] + rest) == [n.id] + Tops(rest)
  {
    assert ([n] + rest)[1..] == rest;
  }

  /** The forest below the root lists the root's children and mirrors every record it reaches. */
  lemma OutlineSound(a: Arena, depth: map<string, nat>)
    requires WellFormed(a, depth)
    ensures Tops(Outline(a)) == a.rootChildren
    ensures Sound(a, Root, Outline(a))
  {
    assert ListedUnder(a, Root, ChildrenOf(a, Root));
    ToNodesSound(a, depth, Root, a.rootChildren, a.nodes.Keys);
  }

  lemma {:induction false} TopsInIds(f: seq<Node>)
    ensures forall x :: x in Tops(f) ==> x in Ids(f)
    decreases f
  {
    if f != [] {
      TopsInIds(f[1..]);
    }
  }

  /** Along a sound forest, the children of every visited bullet are visited too. */
  lemma {:induction false} SoundChildren(a: Arena, c: Container, f: seq<Node>, y: string)
    requires Sound(a, c, f) && y in Ids(f)
    ensures y in a.nodes
    ensures forall z :: z in a.nodes[y].children ==> z in Ids(f)
    decreases f
  {
    if y == f[0].id {
      TopsInIds(f[0].children);
    } else if y in Ids(f[0].children) {
      SoundChildren(a, Bullet(f[0].id), f[0].children, y);
    } else {
      SoundChildren(a, c, f[1..], y);
    }
  }

  lemma {:induction false} InOutline(a: Arena, depth: map<string, nat>, x: string)
    requires WellFormed(a, depth) && x in a.nodes
    requires Tops(Outline(a)) == a.rootChildren && Sound(a, Root, Outline(a))
    ensures x in Ids(Outline(a))
    decreases depth[x]
  {
    assert LinkedUp(a, depth, x);
    var p := a.nodes[x].parent;
    if p.Root? {
      TopsInIds(Outline(a));
    } else {
      InOutline(a, depth, p.id);
      SoundChildren(a, Root, Outline(a), p.id);
    }
  }

  /** The walk from the root visits exactly the indexed bullets: none is missed, none is invented. */
  lemma OutlineComplete(a: Arena, depth: map<string, nat>)
    requires WellFormed(a, depth)
    ensures forall x :: x in a.nodes <==> x in Ids(Outline(a))
  {
    OutlineSound(a, depth);
    forall x | x in Ids(Outline(a)) ensures x in a.nodes {
      SoundChildren(a, Root, Outline(a), x);
    }
    forall x | x in a.nodes ensures x in Ids(Outline(a)) {
      InOutline(a, depth, x);
    }
  }

  /** Going up to depth `e` and then to depth `d` is going up to depth `d`. */
  lemma {:induction false} AncestorCompose(a: Arena, depth: map<string, nat>, x: string, e: nat, d: nat)
    requires WellFormed(a, depth) && x in a.nodes && d <= e <= depth[x]
    ensures AncestorAt(a, depth, x, d) == AncestorAt(a, depth, AncestorAt(a, depth, x, e), d)
    decreases depth[x]
  {
    if depth[x] != e {
      assert LinkedUp(a, depth, x);
      AncestorCompose(a, depth, a.nodes[x].parent.id, e, d);
    }
  }

  /** Everything in a sound forest below bullet `t` lies deeper than `t` and has `t` as ancestor. */
  lemma {:induction false} UnderTop(a: Arena, depth: map<string, nat>, t: string, g: seq<Node>)
    requires WellFormed(a, depth) && t in a.nodes && Sound(a, Bullet(t), g)
    ensures forall x :: x in Ids(g) ==> x in a.nodes && depth[x] > depth[t] && AncestorAt(a, depth, x, depth[t]) == t
    decreases g
  {
    if g != [] {
      var y := g[0].id;
      assert LinkedUp(a, depth, y);
      assert AncestorAt(a, depth, y, depth[t]) == t;
      UnderTop(a, depth, y, g[0].children);
      UnderTop(a, depth, t, g[1..]);
      forall x | x in Ids(g[0].children) ensures AncestorAt(a, depth, x, depth[t]) == t {
        AncestorCompose(a, depth, x, depth[y], depth[t]);
      }
    }
  }

  /** Everything in a sound forest below `c` descends from one of its top-level bullets. */
  lemma {:induction false} TopAncestor(a: Arena, depth: map<string, nat>, c: Container, f: seq<Node>)
    requires WellFormed(a, depth) && Holds(a, c) && Sound(a, c, f)
    ensures forall x :: x in Ids(f) ==>
      x in a.nodes && depth[x] >= DepthBelow(depth, c) && AncestorAt(a, depth, x, DepthBelow(depth, c)) in Tops(f)
    decreases f
  {
    if f != [] {
      var y := f[0].id;
      assert LinkedUp(a, depth, y);
      UnderTop(a, depth, y, f[0].children);
      TopAncestor(a, depth, c, f[1..]);
    }
  }

  /** A sound forest whose top level repeats no id repeats no id anywhere. */
  lemma {:induction false} SoundDistinct(a: Arena, depth: map<string, nat>, c: Container, f: seq<Node>)
    requires WellFormed(a, depth) && Holds(a, c) && Sound(a, c, f) && NoDup(Tops(f))
    ensures NoDup(Ids(f))
    decreases f
  {
    if f != [] {
      var y := f[0].id;
      var ch := f[0].children;
      var rest := f[1..];
      var d := DepthBelow(depth, c);
      assert LinkedUp(a, depth, y);
      assert ListedUnder(a, Bullet(y), ChildrenOf(a, Bullet(y)));
      SoundDistinct(a, depth, Bullet(y), ch);
      assert Tops(f) == [y] + Tops(rest);
      NoDupParts([y], Tops(rest));
      SoundDistinct(a, depth, c, rest);
      UnderTop(a, depth, y, ch);
      TopAncestor(a, depth, c, rest);
      NoDupConcat([y], Ids(ch));
      forall e | e in [y] + Ids(ch) ensures e !in Ids(rest) {
        if e in Ids(rest) {
          assert false;
        }
      }
      NoDupConcat([y] + Ids(ch), Ids(rest));
    }
  }

  /** The forest below the root names every bullet once. */
  lemma OutlineDistinct(a: Arena, depth: map<string, nat>)
    requires WellFormed(a, depth)
    ensures NoDup(Ids(Outline(a)))
  {
    OutlineSound(a, depth);
    assert ListedUnder(a, Root, ChildrenOf(a, Root));
    SoundDistinct(a, depth, Root, Outline(a));
  }

  // ---------------------------------------------------------------------
  // Rebuilding a tree from a forest
  // ---------------------------------------------------------------------

  /** No id of `f` is repeated or already indexed in `a`. */
  predicate Fresh(a: Arena, f: seq<Node>)
  {
    NoDup(Ids(f)) && forall x :: x in Ids(f) ==> x !in a.nodes
  }

  /** How freshness of a forest splits over its first node, that node's subtree and the later siblings. */
  lemma FreshSplit(a: Arena, f: seq<Node>)
    requires Fresh(a, f) && f != []
    ensures f[0].id !in a.nodes
    ensures NoDup(Ids(f[0].children)) && NoDup(Ids(f[1..]))
    ensures forall x :: x in Ids(f[0].children) ==> x !in a.nodes && x != f[0].id
    ensures forall x :: x in Ids(f[1..]) ==> x !in a.nodes && x != f[0].id && x !in Ids(f[0].children)
  {
    var n := f[0];
    assert Ids(f) == [n.id] + Ids(n.children) + Ids(f[1..]);
    NoDupParts([n.id] + Ids(n.children), Ids(f[1..]));
    NoDupParts([n.id], Ids(n.children));
  }

  /** `r` is `a` with the ids `added` indexed, `tops` appended to `c`'s list and nothing else of `a` changed. */
  ghost predicate Extends(a: Arena, r: Arena, c: Container, tops: seq<string>, added: seq<string>)
  {
    && Holds(a, c)
    && (forall x :: x in r.nodes <==> x in a.nodes || x in added)
    && ChildrenOf(r, c) == ChildrenOf(a, c) + tops
    && (forall d {:trigger ChildrenOf(r, d)} :: Holds(a, d) && d != c ==> ChildrenOf(r, d) == ChildrenOf(a, d))
    && (forall k {:trigger r.nodes[k]} :: k in a.nodes ==> SameLabel(r.nodes[k], a.nodes[k]))
  }

  /** Adding one bullet under `c`, then its subtree under it, then its later siblings under `c`. */
  lemma ExtendsStep(a: Arena, a1: Arena, a2: Arena, r: Arena, c: Container, id: string,
                    tops1: seq<string>, ids1: seq<string>, tops2: seq<string>, ids2: seq<string>)
    requires id !in a.nodes
    requires Extends(a, a1, c, [id], [id])
    requires Extends(a1, a2, Bullet(id), tops1, ids1)
    requires Extends(a2, r, c, tops2, ids2)
    ensures Extends(a, r, c, [id] + tops2, [id] + ids1 + ids2)
  {
    StepList(a, a1, a2, r, c, id, tops1, ids1, tops2, ids2);
    StepOthers(a, a1, a2, r, c, id, tops1, ids1, tops2, ids2);
    StepLabels(a, a1, a2, r, c, id, tops1, ids1, tops2, ids2);
  }

  lemma StepList(a: Arena, a1: Arena, a2: Arena, r: Arena, c: Container, id: string,
                 tops1: seq<string>, ids1: seq<string>, tops2: seq<string>, ids2: seq<string>)
    requires id !in a.nodes
    requires Extends(a, a1, c, [id], [id])
    requires Extends(a1, a2, Bullet(id), tops1, ids1)
    requires Extends(a2, r, c, tops2, ids2)
    ensures Holds(r, c) && ChildrenOf(r, c) == ChildrenOf(a, c) + ([id] + tops2)
  {
    assert Holds(a1, c);
    assert ChildrenOf(a2, c) == ChildrenOf(a1, c);
  }

  lemma StepOthers(a: Arena, a1: Arena, a2: Arena, r: Arena, c: Container, id: string,
                   tops1: seq<string>, ids1: seq<string>, tops2: seq<string>, ids2: seq<string>)
    requires id !in a.nodes
    requires Extends(a, a1, c, [id], [id])
    requires Extends(a1, a2, Bullet(id), tops1, ids1)
    requires Extends(a2, r, c, tops2, ids2)
    ensures forall d {:trigger ChildrenOf(r, d)} :: Holds(a, d) && d != c ==> ChildrenOf(r, d) == ChildrenOf(a, d)
  {
    forall d | Holds(a, d) && d != c ensures ChildrenOf(r, d) == ChildrenOf(a, d) {
      assert ChildrenOf(a1, d) == ChildrenOf(a, d);
      assert ChildrenOf(a2, d) == ChildrenOf(a1, d);
    }
  }

  lemma StepLabels(a: Arena, a1: Arena, a2: Arena, r: Arena, c: Container, id: string,
                   tops1: seq<string>, ids1: seq<string>, tops2: seq<string>, ids2: seq<string>)
    requires id !in a.nodes
    requires Extends(a, a1, c, [id], [id])
    requires Extends(a1, a2, Bullet(id), tops1, ids1)
    requires Extends(a2, r, c, tops2, ids2)
    ensures forall k {:trigger r.nodes[k]} :: k in a.nodes ==> SameLabel(r.nodes[k], a.nodes[k])
  {
    forall k | k in a.nodes ensures SameLabel(r.nodes[k], a.nodes[k]) {
      assert SameLabel(a1.nodes[k], a.nodes[k]);
      assert SameLabel(a2.nodes[k], a1.nodes[k]);
    }
  }


  /**
   * The forest's bullets added in pre-order, each appended to its container
   * with `addNode`: the order in which the decoder meets them in a file.
   */
  function Graft(a: Arena, c: Container, f: seq<Node>): (r: Arena)
    requires Holds(a, c) && Fresh(a, f)
    ensures Extends(a, r, c, Tops(f), Ids(f))
    decreases f
  {
    if f == [] then a
    else
      var n := f[0];
      FreshSplit(a, f);
      var a1 := AddedLast(a, n.id, n.kind, n.meta, n.content, c);
      var a2 := Graft(a1, Bullet(n.id), n.children);
      var r := Graft(a2, c, f[1..]);
      ExtendsStep(a, a1, a2, r, c, n.id, Tops(n.children), Ids(n.children), Tops(f[1..]), Ids(f[1..]));
      r
  }

  /** Grafting a forest is grafting its first tree, then the later ones. */
  lemma GraftCons(a: Arena, c: Container, f: seq<Node>, a1: Arena)
    requires Holds(a, c) && Fresh(a, f) && f != [] && f[0].id !in a.nodes
    requires a1 == AddedLast(a, f[0].id, f[0].kind, f[0].meta, f[0].content, c)
    ensures Holds(a1, Bullet(f[0].id)) && Fresh(a1, f[0].children)
    ensures var a2 := Graft(a1, Bullet(f[0].id), f[0].children);
      Holds(a2, c) && Fresh(a2, f[1..]) && Graft(a, c, f) == Graft(a2, c, f[1..])
  {
    FreshSplit(a, f);
  }

  /** Records that stay the same keep a forest sound. */
  lemma {:induction false} SoundKept(a: Arena, b: Arena, c: Container, f: seq<Node>)
    requires Sound(a, c, f)
    requires forall x :: x in Ids(f) ==> x in a.nodes && x in b.nodes && b.nodes[x] == a.nodes[x]
    ensures Sound(b, c, f)
    decreases f
  {
    if f != [] {
      SoundKept(a, b, Bullet(f[0].id), f[0].children);
      SoundKept(a, b, c, f[1..]);
    }
  }

  /** Bullets that existed before an extension and are not its container keep their records. */
  lemma ExtendsKeeps(a: Arena, r: Arena, c: Container, tops: seq<string>, added: seq<string>, xs: seq<string>)
    requires Extends(a, r, c, tops, added)
    requires forall x :: x in xs ==> x in a.nodes && Bullet(x) != c
    ensures forall x :: x in xs ==> x in r.nodes && r.nodes[x] == a.nodes[x]
  {
    forall x | x in xs ensures x in r.nodes && r.nodes[x] == a.nodes[x] {
      assert ChildrenOf(r, Bullet(x)) == ChildrenOf(a, Bullet(x));
    }
  }

  /** After grafting, the tree holds the forest below `c` exactly as given. */
  lemma {:induction false} GraftSound(a: Arena, c: Container, f: seq<Node>)
    requires Holds(a, c) && Fresh(a, f)
    ensures Sound(Graft(a, c, f), c, f)
    decreases f
  {
    if f != [] {
      var n := f[0];
      FreshSplit(a, f);
      var a1 := AddedLast(a, n.id, n.kind, n.meta, n.content, c);
      var a2 := Graft(a1, Bullet(n.id), n.children);
      var r := Graft(a2, c, f[1..]);
      GraftSound(a1, Bullet(n.id), n.children);
      GraftSound(a2, c, f[1..]);
      assert a2.nodes[n.id] == BulletRec(n.kind, n.meta, n.content, c, Tops(n.children)) by {
        assert SameLabel(a2.nodes[n.id], a1.nodes[n.id]);
        assert ChildrenOf(a2, Bullet(n.id)) == ChildrenOf(a1, Bullet(n.id)) + Tops(n.children);
      }
      ExtendsKeeps(a2, r, c, Tops(f[1..]), Ids(f[1..]), [n.id] + Ids(n.children));
      SoundKept(a2, r, Bullet(n.id), n.children);
      assert Graft(a, c, f) == r;
    }
  }

  /** Two trees that both hold the same forest below `c` agree on every bullet in it. */
  lemma {:induction false} SoundAgree(a: Arena, b: Arena, c: Container, f: seq<Node>)
    requires Sound(a, c, f) && Sound(b, c, f)
    ensures forall x :: x in Ids(f) ==> x in a.nodes && x in b.nodes && a.nodes[x] == b.nodes[x]
    decreases f
  {
    if f != [] {
      SoundAgree(a, b, Bullet(f[0].id), f[0].children);
      SoundAgree(a, b, c, f[1..]);
    }
  }

  /** Adding a well-formed tree's bullets in pre-order to an empty tree rebuilds that tree. */
  lemma GraftOutline(a: Arena, depth: map<string, nat>)
    requires WellFormed(a, depth)
    ensures Fresh(Empty, Outline(a))
    ensures Graft(Empty, Root, Outline(a)) == a
  {
    GraftOutlineNodes(a, depth);
    OutlineSound(a, depth);
    var r := Graft(Empty, Root, Outline(a));
    assert r.rootChildren == a.rootChildren;
  }

  /** The rebuilt tree has the same bullet records as the original. */
  lemma GraftOutlineNodes(a: Arena, depth: map<string, nat>)
    requires WellFormed(a, depth)
    ensures Fresh(Empty, Outline(a))
    ensures Graft(Empty, Root, Outline(a)).nodes == a.nodes
  {
    var f := Outline(a);
    OutlineSound(a, depth);
    OutlineDistinct(a, depth);
    OutlineComplete(a, depth);
    GraftSound(Empty, Root, f);
    SameRecords(a, Graft(Empty, Root, f), f);
  }

  /** Two trees that hold the same forest below the root, and nothing else, have the same records. */
  lemma SameRecords(a: Arena, r: Arena, f: seq<Node>)
    requires Sound(a, Root, f) && Sound(r, Root, f)
    requires forall x :: x in a.nodes <==> x in Ids(f)
    requires forall x :: x in r.nodes <==> x in Ids(f)
    ensures r.nodes == a.nodes
  {
    SoundAgree(a, r, Root, f);
    assert r.nodes.Keys == a.nodes.Keys;
  }
}
