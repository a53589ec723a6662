/**
 * The line format of src/fs.ts. A file holds one bullet per line, written
 * `level|id|type|meta|content`: `serializeTree` walks the tree in pre-order
 * and writes each bullet at its depth, `saveToFile` joins the lines with
 * newlines, and `parseSilverFile` reads the lines back, keeping in `lastNode`
 * the container most recently placed at each level so that a bullet at level
 * `n` goes below the one last seen at level `n - 1`.
 */
module Codec {
  import opened Wrappers
  import opened Text
  import opened Tree
  import opened Forest
  import opened Defaults

  /** One line of a file with its fields separated; `kind` is the `type` field. */
  datatype Line = Line(level: nat, id: string, kind: string, meta: string, content: string)

  /** Why loading stopped; each error quotes the offending line. */
  datatype DecodeError =
    | MalformedLine(line: string)
    | InvalidLevel(line: string)
    | DuplicateId(line: string)

  /** The text of a line: the five fields separated by `|`. */
  function FormatLine(l: Line): (s: string)
    ensures ShowNat(l.level) + ['|'] <= s
  {
    Join([ShowNat(l.level), l.id, l.kind, l.meta, l.content], '|')
  }

  /**
   * Reading one line: fewer than five `|`-separated fields is a malformed line,
   * a first field that is not a decimal number is an invalid level, and every
   * field from the fifth on belongs to the content, rejoined with `|`.
   */
  function ParseLine(s: string): (r: Result<Line, DecodeError>)
    ensures r.Err? ==> r.error == MalformedLine(s) || r.error == InvalidLevel(s)
    ensures r.Ok? ==> Clean(r.value)
  {
    var parts := Split(s, '|');
    if |parts| < 5 then Err(MalformedLine(s))
    else
      match ParseLevel(parts[0])
      case None => Err(InvalidLevel(s))
      case Some(level) => Ok(Line(level, parts[1], parts[2], parts[3], Join(parts[4..], '|')))
  }

  /**
   * A line is refused exactly when it has fewer than five fields (a malformed
   * line) or its first field is not a decimal number (an invalid level); the
   * error quotes the line; an accepted line's id, type and meta hold no `|`.
   */
  lemma ParseLineErrors(s: string)
    ensures ParseLine(s).Err? <==> |Split(s, '|')| < 5 || !(|Split(s, '|')[0]| >= 1 && AllDigits(Split(s, '|')[0]))
    ensures ParseLine(s).Err? ==> ParseLine(s).error == (if |Split(s, '|')| < 5 then MalformedLine(s) else InvalidLevel(s))
    ensures ParseLine(s).Ok? ==> Clean(ParseLine(s).value)
  {
  }

  /** `id`, `type` and `meta` hold no `|`; the content may hold anything. */
  predicate Clean(l: Line)
  {
    '|' !in l.id && '|' !in l.kind && '|' !in l.meta
  }

  /** A parsed line is exactly its text: only the spelling of the level may differ. */
  lemma ParseLineKeepsText(s: string)
    requires ParseLine(s).Ok?
    ensures var l := ParseLine(s).value;
      Join([Split(s, '|')[0], l.id, l.kind, l.meta, l.content], '|') == s
  {
    var parts := Split(s, '|');
    var l := ParseLine(s).value;
    JoinSplit(s, '|');
    assert parts == parts[..4] + parts[4..];
    JoinAppend(parts[..4], parts[4..], '|');
    assert [parts[0], l.id, l.kind, l.meta, l.content] == parts[..4] + [l.content];
    JoinAppend(parts[..4], [l.content], '|');
  }

  /** Reading a written line gives the line back, whatever its content holds. */
  lemma ParseFormat(l: Line)
    requires Clean(l)
    ensures ParseLine(FormatLine(l)) == Ok(l)
  {
    var front := [ShowNat(l.level), l.id, l.kind, l.meta];
    assert '|' !in ShowNat(l.level) by {
      var digits := ShowNat(l.level);
      assert forall i :: 0 <= i < |digits| ==> IsDigit(digits[i]);
    }
    assert front + [l.content] == [ShowNat(l.level), l.id, l.kind, l.meta, l.content];
    JoinAppend(front, [l.content], '|');
    SplitAfterPieces(front, l.content, '|');
    var parts := front + Split(l.content, '|');
    assert Split(FormatLine(l), '|') == parts;
    assert parts[4..] == Split(l.content, '|');
    JoinSplit(l.content, '|');
    ParseShowNat(l.level);
  }

  /** A written line is never empty and holds a newline only if one of its fields does. */
  lemma FormatLineShape(l: Line)
    requires '\n' !in l.id && '\n' !in l.kind && '\n' !in l.meta && '\n' !in l.content
    ensures FormatLine(l) != "" && '\n' !in FormatLine(l)
  {
    var parts := [ShowNat(l.level), l.id, l.kind, l.meta, l.content];
    assert '\n' !in ShowNat(l.level) by {
      var digits := ShowNat(l.level);
      assert forall i :: 0 <= i < |digits| ==> IsDigit(digits[i]);
    }
    JoinAvoids(parts, '|', '\n');
    assert FormatLine(l) == parts[0] + ['|'] + Join(parts[1..], '|');
  }

  // ---------------------------------------------------------------------
  // Encoding (src/fs.ts:33-57)
  // ---------------------------------------------------------------------

  /** The lines `serializeNode` emits for the forest `f` placed at `level`: a bullet, its subtree one level deeper, then its later siblings. */
  function Records(f: seq<Node>, level: nat): seq<Line>
    decreases f
  {
    if f == [] then []
    else [Line(level, f[0].id, f[0].kind, f[0].meta, f[0].content)] + Records(f[0].children, level + 1) + Records(f[1..], level)
  }

  function FormatAll(rs: seq<Line>): (lines: seq<string>)
    ensures |lines| == |rs|
    ensures forall i :: 0 <= i < |rs| ==> lines[i] == FormatLine(rs[i])
  {
    if rs == [] then [] else [FormatLine(rs[0])] + FormatAll(rs[1..])
  }

  lemma {:induction false} FormatAllAppend(x: seq<Line>, y: seq<Line>)
    ensures FormatAll(x + y) == FormatAll(x) + FormatAll(y)
    decreases |x|
  {
    if x == [] {
      assert x + y == y;
    } else {
      assert (x + y)[0] == x[0] && (x + y)[1..] == x[1..] + y;
      FormatAllAppend(x[1..], y);
    }
  }

  /** `serializeTree`: one line per bullet, the root's children at level 0. */
  function SerializeTree(a: Arena): (lines: seq<string>)
    ensures |lines| == |Ids(Outline(a))|
    ensures forall i :: 0 <= i < |lines| ==> lines[i] != ""
  {
    RecordsIds(Outline(a), 0);
    FormatAll(Records(Outline(a), 0))
  }

  /** The text `saveToFile` writes. */
  function SaveText(a: Arena): (text: string)
    ensures text == [] <==> Ids(Outline(a)) == []
  {
    Join(SerializeTree(a), '\n')
  }

  function LineIds(rs: seq<Line>): (ids: seq<string>)
    ensures |ids| == |rs|
    ensures forall i :: 0 <= i < |rs| ==> ids[i] == rs[i].id
  {
    if rs == [] then [] else [rs[0].id] + LineIds(rs[1..])
  }

  lemma LineIdsAppend(x: seq<Line>, y: seq<Line>)
    ensures LineIds(x + y) == LineIds(x) + LineIds(y)
  {
    assert |LineIds(x + y)| == |LineIds(x) + LineIds(y)|;
    forall i | 0 <= i < |x + y| ensures LineIds(x + y)[i] == (LineIds(x) + LineIds(y))[i] {
      if i >= |x| {
        assert (x + y)[i] == y[i - |x|];
      }
    }
  }

  /** The lines carry the forest's ids in pre-order, one line per node. */
  lemma {:induction false} RecordsIds(f: seq<Node>, level: nat)
    ensures LineIds(Records(f, level)) == Ids(f)
    decreases f
  {
    if f != [] {
      var first := Line(level, f[0].id, f[0].kind, f[0].meta, f[0].content);
      RecordsIds(f[0].children, level + 1);
      RecordsIds(f[1..], level);
      LineIdsAppend([first] + Records(f[0].children, level + 1), Records(f[1..], level));
      LineIdsAppend([first], Records(f[0].children, level + 1));
    }
  }

  /**
   * The levels of the emitted lines: the first is the starting level, none is
   * below it, and each is at most one more than the level before it.
   */
  lemma {:induction false} RecordsLevels(f: seq<Node>, level: nat)
    ensures forall r :: r in Records(f, level) ==> r.level >= level
    ensures Records(f, level) != [] ==> Records(f, level)[0].level == level
    ensures forall i :: 0 < i < |Records(f, level)| ==> Records(f, level)[i].level <= Records(f, level)[i - 1].level + 1
    decreases f
  {
    if f != [] {
      var first := Line(level, f[0].id, f[0].kind, f[0].meta, f[0].content);
      var sub := Records(f[0].children, level + 1);
      var later := Records(f[1..], level);
      RecordsLevels(f[0].children, level + 1);
      RecordsLevels(f[1..], level);
      var rs := [first] + sub + later;
      assert Records(f, level) == rs;
      forall i | 0 < i < |rs| ensures rs[i].level <= rs[i - 1].level + 1 {
        if i <= |sub| {
          assert rs[i] == sub[i - 1];
          if i > 1 {
            assert rs[i - 1] == sub[i - 2];
          }
        } else {
          assert rs[i] == later[i - 1 - |sub|];
          if i > 1 + |sub| {
            assert rs[i - 1] == later[i - 2 - |sub|];
          } else {
            assert rs[i - 1] in [first] + sub;
          }
        }
      }
    }
  }

  /** Along a sound forest, each line carries its bullet's fields and its depth as level. */
  lemma {:induction false} RecordsFaithful(a: Arena, depth: map<string, nat>, c: Container, f: seq<Node>, level: nat)
    requires WellFormed(a, depth) && Holds(a, c) && Sound(a, c, f) && level == DepthBelow(depth, c)
    ensures forall r :: r in Records(f, level) ==>
      && r.id in a.nodes
      && r.kind == a.nodes[r.id].kind && r.meta == a.nodes[r.id].meta && r.content == a.nodes[r.id].content
      && r.level == depth[r.id]
    decreases f
  {
    if f != [] {
      assert LinkedUp(a, depth, f[0].id);
      RecordsFaithful(a, depth, Bullet(f[0].id), f[0].children, level + 1);
      RecordsFaithful(a, depth, c, f[1..], level);
    }
  }

  /**
   * `serializeTree` writes every bullet of a well-formed tree exactly once, in
   * pre-order, never the root, each line with the bullet's own fields and its
   * depth (0 for the root's children) as level; the first line is at level 0
   * and each level is at most one more than the previous one.
   */
  lemma SerializeTreeLines(a: Arena, depth: map<string, nat>)
    requires WellFormed(a, depth)
    ensures var rs := Records(Outline(a), 0);
      && |SerializeTree(a)| == |rs|
      && (forall i :: 0 <= i < |rs| ==> SerializeTree(a)[i] == FormatLine(rs[i]))
      && LineIds(rs) == Ids(Outline(a))
      && NoDup(LineIds(rs))
      && (forall x :: x in a.nodes <==> x in LineIds(rs))
      && (forall r :: r in rs ==>
            r.id in a.nodes && r.level == depth[r.id] && r.kind == a.nodes[r.id].kind
            && r.meta == a.nodes[r.id].meta && r.content == a.nodes[r.id].content)
      && (rs != [] ==> rs[0].level == 0)
      && (forall i :: 0 < i < |rs| ==> rs[i].level <= rs[i - 1].level + 1)
  {
    OutlineSound(a, depth);
    OutlineDistinct(a, depth);
    OutlineComplete(a, depth);
    RecordsIds(Outline(a), 0);
    RecordsLevels(Outline(a), 0);
    RecordsFaithful(a, depth, Root, Outline(a), 0);
  }

  // ---------------------------------------------------------------------
  // Decoding (src/fs.ts:7-31)
  // ---------------------------------------------------------------------

  /** `lastNode`: the container most recently placed at each level. */
  type Stack = map<nat, Container>

  /** `lastNode` starts out holding the root at level 0. */
  const InitialStack: Stack := map[0 := Root]

  /** Every container on the stack is in the tree. */
  predicate StackIn(a: Arena, stack: Stack)
  {
    forall n :: n in stack ==> Holds(a, stack[n])
  }

  /** `lastNode[level - 1] ?? tree.root`: an unrecorded level, and level 0, fall back to the root. */
  function ParentFor(stack: Stack, level: nat): (c: Container)
    ensures level >= 1 && level - 1 in stack ==> c == stack[level - 1]
    ensures level == 0 || level - 1 !in stack ==> c == Root
  {
    if level >= 1 && level - 1 in stack then stack[level - 1] else Root
  }

  /**
   * The insertion half of one turn of the decode loop: the bullet of line `l`
   * is appended below `ParentFor(stack, l.level)` and becomes the stack entry
   * for its level. An id already in the tree is refused (`None`).
   */
  function Place(a: Arena, stack: Stack, l: Line): (r: Option<(Arena, Stack)>)
    requires StackIn(a, stack)
    ensures r.None? <==> l.id in a.nodes
    ensures r.Some? ==> StackIn(r.value.0, r.value.1)
  {
    if l.id in a.nodes then None
    else
      var parent := ParentFor(stack, l.level);
      Some((AddedLast(a, l.id, l.kind, l.meta, l.content, parent), stack[l.level := Bullet(l.id)]))
  }

  /**
   * A placed bullet is new, holds the line's fields, has `ParentFor(stack,
   * level)` as parent and is that container's last child; no other container's
   * list and no other bullet's fields change; the stack records the bullet at
   * its level and keeps every other level.
   */
  lemma PlaceEffect(a: Arena, stack: Stack, l: Line)
    requires StackIn(a, stack) && l.id !in a.nodes
    ensures var p := ParentFor(stack, l.level);
      var b := Place(a, stack, l).value.0;
      var s := Place(a, stack, l).value.1;
      && Holds(a, p)
      && b.nodes.Keys == a.nodes.Keys + {l.id}
      && b.nodes[l.id] == BulletRec(l.kind, l.meta, l.content, p, [])
      && ChildrenOf(b, p) == ChildrenOf(a, p) + [l.id]
      && (forall d {:trigger ChildrenOf(b, d)} :: Holds(a, d) && d != p ==> ChildrenOf(b, d) == ChildrenOf(a, d))
      && (forall k {:trigger b.nodes[k]} :: k in a.nodes ==> SameLabel(b.nodes[k], a.nodes[k]))
      && s.Keys == stack.Keys + {l.level}
      && s[l.level] == Bullet(l.id)
      && (forall n :: n in stack && n != l.level ==> s[n] == stack[n])
  {
  }

  /** Where the decode loop stands: the tree, the stack, and the error that stopped it, if any. */
  datatype Progress = Progress(tree: Arena, stack: Stack, failure: Option<DecodeError>)

  /** The decode loop over `lines`: it stops at the first error and keeps what earlier lines built. */
  function Replay(a: Arena, stack: Stack, lines: seq<string>): Progress
    requires StackIn(a, stack)
    decreases |lines|
  {
    if lines == [] then Progress(a, stack, None)
    else
      match ParseLine(lines[0])
      case Err(e) => Progress(a, stack, Some(e))
      case Ok(l) =>
        match Place(a, stack, l)
        case None => Progress(a, stack, Some(DuplicateId(lines[0])))
        case Some(next) => Replay(next.0, next.1, lines[1..])
  }

  /** A decode that reports no error adds one bullet per line. */
  lemma {:induction false} ReplayCount(a: Arena, stack: Stack, lines: seq<string>)
    requires StackIn(a, stack)
    ensures Replay(a, stack, lines).failure.None? ==> |Replay(a, stack, lines).tree.nodes| == |a.nodes| + |lines|
    decreases |lines|
  {
    if lines != [] && ParseLine(lines[0]).Ok? {
      var l := ParseLine(lines[0]).value;
      if l.id !in a.nodes {
        var next := Place(a, stack, l).value;
        PlaceEffect(a, stack, l);
        assert next.0.nodes.Keys == a.nodes.Keys + {l.id};
        ReplayCount(next.0, next.1, lines[1..]);
      }
    }
  }

  /** Decoding never removes a bullet or changes the fields of one that was there. */
  lemma {:induction false} ReplayKeeps(a: Arena, stack: Stack, lines: seq<string>)
    requires StackIn(a, stack)
    ensures forall k :: k in a.nodes ==>
      k in Replay(a, stack, lines).tree.nodes && SameLabel(Replay(a, stack, lines).tree.nodes[k], a.nodes[k])
    decreases |lines|
  {
    if lines != [] && ParseLine(lines[0]).Ok? {
      var l := ParseLine(lines[0]).value;
      if l.id !in a.nodes {
        var next := Place(a, stack, l).value;
        PlaceEffect(a, stack, l);
        ReplayKeeps(next.0, next.1, lines[1..]);
      }
    }
  }

  /** Decoding two runs of lines is decoding the first and, unless it failed, the second from where it stopped. */
  lemma {:induction false} ReplayAppend(a: Arena, stack: Stack, xs: seq<string>, ys: seq<string>)
    requires StackIn(a, stack)
    ensures var p := Replay(a, stack, xs);
      p.failure.None? ==> StackIn(p.tree, p.stack) && Replay(a, stack, xs + ys) == Replay(p.tree, p.stack, ys)
    ensures var p := Replay(a, stack, xs);
      p.failure.Some? ==> Replay(a, stack, xs + ys) == p
    decreases |xs|
  {
    if xs != [] {
      assert (xs + ys)[0] == xs[0] && (xs + ys)[1..] == xs[1..] + ys;
      if ParseLine(xs[0]).Ok? && ParseLine(xs[0]).value.id !in a.nodes {
        var next := Place(a, stack, ParseLine(xs[0]).value).value;
        ReplayAppend(next.0, next.1, xs[1..], ys);
      }
    } else {
      assert xs + ys == ys;
    }
  }

  /**
   * A line that cannot be decoded stops the load with an error quoting it; no
   * bullet is added for it and the bullets of the lines before it stay.
   */
  lemma BadLineStops(a: Arena, stack: Stack, before: seq<string>, line: string, after: seq<string>)
    requires StackIn(a, stack)
    requires Replay(a, stack, before).failure.None?
    requires ParseLine(line).Err?
    ensures Replay(a, stack, before + [line] + after)
      == Progress(Replay(a, stack, before).tree, Replay(a, stack, before).stack, Some(ParseLine(line).error))
    ensures ParseLine(line).error == MalformedLine(line) || ParseLine(line).error == InvalidLevel(line)
  {
    assert before + [line] + after == before + ([line] + after);
    ReplayAppend(a, stack, before, [line] + after);
  }

  /**
   * `parseSilverFile` as a value: decode the lines starting from the root
   * alone on the stack and, when the decode succeeded but the tree is still
   * empty, add the default bullet.
   */
  function Load(a: Arena, lines: seq<string>): (r: (Arena, Option<DecodeError>))
    ensures r.1 == Replay(a, InitialStack, lines).failure
    ensures r.1.None? ==> |r.0.nodes| == if a.nodes == map[] && lines == [] then 1 else |a.nodes| + |lines|
  {
    ReplayCount(a, InitialStack, lines);
    var p := Replay(a, InitialStack, lines);
    if p.failure.None? && p.tree.nodes == map[] then (AddDefault(p.tree), None)
    else (p.tree, p.failure)
  }

  /**
   * A load that reports no error never leaves the tree empty: when the lines
   * added no bullet to an empty tree, exactly the default bullet is added,
   * and otherwise nothing is; an empty file loaded into an empty tree yields
   * the default bullet alone.
   */
  lemma LoadNeverEmpty(a: Arena, lines: seq<string>)
    ensures Load(a, lines).1.None? ==> Load(a, lines).0.nodes != map[]
    ensures var p := Replay(a, InitialStack, lines);
      p.failure.None? && p.tree.nodes == map[] ==> Load(a, lines).0.nodes.Keys == {"hello-0"}
    ensures var p := Replay(a, InitialStack, lines);
      p.failure.None? && p.tree.nodes != map[] ==> Load(a, lines).0 == p.tree
    ensures Load(Empty, []) == (AddDefault(Empty), None)
  {
    ReplayCount(a, InitialStack, lines);
    var p := Replay(a, InitialStack, lines);
    if p.failure.None? && p.tree.nodes == map[] {
      assert "hello-0" in AddDefault(p.tree).nodes;
    }
  }

  /**
   * `parseSilverFile` on already-split lines: each line is parsed, validated and
   * added with `addNode`; the first bad line stops the loop, with an error and
   * with the bullets added so far left in place; an empty result gets the
   * default bullet.
   */
  method ParseSilverFile(tree: SilverTree, lines: seq<string>) returns (err: Option<DecodeError>)
    requires tree.Valid()
    modifies tree
    ensures tree.Valid()
    ensures (tree.Snapshot(), err) == Load(old(tree.Snapshot()), lines)
  {
    var lastNode: Stack := InitialStack;
    var i := 0;
    while i < |lines|
      invariant 0 <= i <= |lines|
      invariant tree.Valid() && StackIn(tree.Snapshot(), lastNode)
      invariant Replay(tree.Snapshot(), lastNode, lines[i..]) == Replay(old(tree.Snapshot()), InitialStack, lines)
    {
      var line := lines[i];
      assert lines[i..][0] == line && lines[i..][1..] == lines[i + 1..];
      var parsed := ParseLine(line);
      if parsed.Err? {
        return Some(parsed.error);
      }
      var l := parsed.value;
      if l.id in tree.nodes {
        return Some(DuplicateId(line));
      }
      var parent := ParentFor(lastNode, l.level);
      tree.AddNode(l.id, l.kind, l.meta, l.content, parent);
      lastNode := lastNode[l.level := Bullet(l.id)];
      i := i + 1;
    }
    assert lines[i..] == [];
    if tree.nodes == map[] {
      DefaultTree(tree);
    }
    return None;
  }

  // ---------------------------------------------------------------------
  // Round trip
  // ---------------------------------------------------------------------

  /** The stack after decoding the lines `rs` successfully. */
  function StackAfter(s: Stack, rs: seq<Line>): Stack
    decreases |rs|
  {
    if rs == [] then s else StackAfter(s[rs[0].level := Bullet(rs[0].id)], rs[1..])
  }

  lemma {:induction false} StackAfterAppend(s: Stack, x: seq<Line>, y: seq<Line>)
    ensures StackAfter(s, x + y) == StackAfter(StackAfter(s, x), y)
    decreases |x|
  {
    if x != [] {
      assert (x + y)[0] == x[0] && (x + y)[1..] == x[1..] + y;
      StackAfterAppend(s[x[0].level := Bullet(x[0].id)], x[1..], y);
    } else {
      assert x + y == y;
    }
  }

  /** Lines at `level` or deeper leave the parent chosen for `level` as it was. */
  lemma {:induction false} StackAfterKeepsParent(s: Stack, rs: seq<Line>, level: nat)
    requires forall r :: r in rs ==> r.level >= level
    ensures ParentFor(StackAfter(s, rs), level) == ParentFor(s, level)
    decreases |rs|
  {
    if rs != [] {
      StackAfterKeepsParent(s[rs[0].level := Bullet(rs[0].id)], rs[1..], level);
    }
  }

  /** The lines of a subtree one level down leave the parent chosen for `level` as it was. */
  lemma SubtreeKeepsParent(s: Stack, b: Container, children: seq<Node>, level: nat)
    ensures ParentFor(StackAfter(s[level := b], Records(children, level + 1)), level) == ParentFor(s, level)
  {
    RecordsLevels(children, level + 1);
    StackAfterKeepsParent(s[level := b], Records(children, level + 1), level);
  }

  lemma {:induction false} StackAfterIn(b: Arena, s: Stack, rs: seq<Line>)
    requires StackIn(b, s)
    requires forall r :: r in rs ==> r.id in b.nodes
    ensures StackIn(b, StackAfter(s, rs))
    decreases |rs|
  {
    if rs != [] {
      StackAfterIn(b, s[rs[0].level := Bullet(rs[0].id)], rs[1..]);
    }
  }

  /** The decode loop over lines already split into fields. */
  function Run(a: Arena, s: Stack, rs: seq<Line>): Progress
    requires StackIn(a, s)
    decreases |rs|
  {
    if rs == [] then Progress(a, s, None)
    else
      match Place(a, s, rs[0])
      case None => Progress(a, s, Some(DuplicateId(FormatLine(rs[0]))))
      case Some(next) => Run(next.0, next.1, rs[1..])
  }

  lemma {:induction false} RunAppend(a: Arena, s: Stack, x: seq<Line>, y: seq<Line>)
    requires StackIn(a, s)
    ensures var p := Run(a, s, x);
      p.failure.None? ==> StackIn(p.tree, p.stack) && Run(a, s, x + y) == Run(p.tree, p.stack, y)
    ensures var p := Run(a, s, x);
      p.failure.Some? ==> Run(a, s, x + y) == p
    decreases |x|
  {
    if x != [] {
      assert (x + y)[0] == x[0] && (x + y)[1..] == x[1..] + y;
      if x[0].id !in a.nodes {
        var next := Place(a, s, x[0]).value;
        RunAppend(next.0, next.1, x[1..], y);
      }
    } else {
      assert x + y == y;
    }
  }

  /** Decoding the text of lines whose id, type and meta avoid `|` is decoding the lines themselves. */
  lemma {:induction false} ReplayFormatted(a: Arena, s: Stack, rs: seq<Line>, rest: seq<string>)
    requires StackIn(a, s)
    requires forall r :: r in rs ==> Clean(r)
    ensures var p := Run(a, s, rs);
      p.failure.None? ==> StackIn(p.tree, p.stack) && Replay(a, s, FormatAll(rs) + rest) == Replay(p.tree, p.stack, rest)
    ensures var p := Run(a, s, rs);
      p.failure.Some? ==> Replay(a, s, FormatAll(rs) + rest) == p
    decreases |rs|
  {
    if rs == [] {
      assert FormatAll(rs) + rest == rest;
    } else {
      var lines := FormatAll(rs) + rest;
      assert lines[0] == FormatLine(rs[0]) && lines[1..] == FormatAll(rs[1..]) + rest;
      ParseFormat(rs[0]);
      if rs[0].id !in a.nodes {
        var next := Place(a, s, rs[0]).value;
        ReplayFormatted(next.0, next.1, rs[1..], rest);
      }
    }
  }

  /** The stack after the lines of a grafted forest names only containers of the grown tree. */
  lemma GraftStackIn(a: Arena, s: Stack, level: nat, c: Container, f: seq<Node>)
    requires StackIn(a, s) && Holds(a, c) && Fresh(a, f)
    ensures StackIn(Graft(a, c, f), StackAfter(s, Records(f, level)))
  {
    var g := Graft(a, c, f);
    RecordsIds(f, level);
    forall r | r in Records(f, level) ensures r.id in g.nodes {
      var i :| 0 <= i < |Records(f, level)| && Records(f, level)[i] == r;
      assert LineIds(Records(f, level))[i] == r.id;
    }
    StackAfterIn(g, s, Records(f, level));
  }

  /** Decoding `x` then `y` from where `x` left off is decoding `x + y`. */
  lemma RunChain(a: Arena, s: Stack, x: seq<Line>, y: seq<Line>, p: Progress, q: Progress)
    requires StackIn(a, s)
    requires Run(a, s, x) == p && p.failure == None && StackIn(p.tree, p.stack)
    requires Run(p.tree, p.stack, y) == q
    ensures Run(a, s, x + y) == q
  {
    RunAppend(a, s, x, y);
  }

  /** A single line with a fresh id places its bullet and fails nowhere. */
  lemma RunFirst(a: Arena, s: Stack, first: Line, c: Container)
    requires StackIn(a, s) && ParentFor(s, first.level) == c && first.id !in a.nodes
    ensures Holds(a, c)
    ensures var a1 := AddedLast(a, first.id, first.kind, first.meta, first.content, c);
      var s1 := s[first.level := Bullet(first.id)];
      && StackIn(a1, s1)
      && Run(a, s, [first]) == Progress(a1, s1, None)
  {
  }

  /** The lines of a forest's first node, of its subtree and of its later trees, decoded one group after the other. */
  lemma RunCons(a: Arena, s: Stack, level: nat, c: Container, f: seq<Node>,
                a1: Arena, s1: Stack, a2: Arena, s2: Stack, a3: Arena, s3: Stack)
    requires f != [] && StackIn(a, s) && ParentFor(s, level) == c && f[0].id !in a.nodes
    requires Holds(a, c) && a1 == AddedLast(a, f[0].id, f[0].kind, f[0].meta, f[0].content, c)
    requires s1 == s[level := Bullet(f[0].id)] && StackIn(a1, s1)
    requires Run(a1, s1, Records(f[0].children, level + 1)) == Progress(a2, s2, None)
    requires StackIn(a2, s2) && Run(a2, s2, Records(f[1..], level)) == Progress(a3, s3, None)
    ensures Run(a, s, Records(f, level)) == Progress(a3, s3, None)
  {
    var first := Line(level, f[0].id, f[0].kind, f[0].meta, f[0].content);
    var sub := Records(f[0].children, level + 1);
    RunFirst(a, s, first, c);
    RunChain(a, s, [first], sub, Progress(a1, s1, None), Progress(a2, s2, None));
    RunChain(a, s, [first] + sub, Records(f[1..], level), Progress(a2, s2, None), Progress(a3, s3, None));
  }

  /** The stack after a forest's lines, one group after the other. */
  lemma StackAfterCons(s: Stack, level: nat, f: seq<Node>)
    requires f != []
    ensures StackAfter(s, Records(f, level))
      == StackAfter(StackAfter(s[level := Bullet(f[0].id)], Records(f[0].children, level + 1)), Records(f[1..], level))
  {
    var first := Line(level, f[0].id, f[0].kind, f[0].meta, f[0].content);
    var sub := Records(f[0].children, level + 1);
    StackAfterAppend(s, [first], sub);
    StackAfterAppend(s, [first] + sub, Records(f[1..], level));
  }

  /** What decoding a forest's lines at `level` below `c` needs: the stack in the tree, `c` chosen for the level, fresh ids. */
  ghost predicate Ready(a: Arena, s: Stack, level: nat, c: Container, f: seq<Node>)
  {
    StackIn(a, s) && Holds(a, c) && ParentFor(s, level) == c && Fresh(a, f)
  }

  /** After the first line of a forest, its children's lines are ready to decode below the new bullet. */
  lemma ChildrenReady(a: Arena, s: Stack, level: nat, c: Container, f: seq<Node>)
    requires Ready(a, s, level, c, f) && f != []
    ensures f[0].id !in a.nodes && Holds(a, c)
    ensures var first := Line(level, f[0].id, f[0].kind, f[0].meta, f[0].content);
      var a1 := AddedLast(a, f[0].id, f[0].kind, f[0].meta, f[0].content, c);
      var s1 := s[level := Bullet(f[0].id)];
      && Run(a, s, [first]) == Progress(a1, s1, None)
      && Ready(a1, s1, level + 1, Bullet(f[0].id), f[0].children)
  {
    FreshSplit(a, f);
    RunFirst(a, s, Line(level, f[0].id, f[0].kind, f[0].meta, f[0].content), c);
  }

  /** After a forest's first tree, the later trees' lines are ready to decode below `c`. */
  lemma LaterReady(a: Arena, s: Stack, level: nat, c: Container, f: seq<Node>, a1: Arena, s1: Stack)
    requires Ready(a, s, level, c, f) && f != [] && f[0].id !in a.nodes
    requires a1 == AddedLast(a, f[0].id, f[0].kind, f[0].meta, f[0].content, c)
    requires s1 == s[level := Bullet(f[0].id)]
    requires Ready(a1, s1, level + 1, Bullet(f[0].id), f[0].children)
    ensures Ready(Graft(a1, Bullet(f[0].id), f[0].children), StackAfter(s1, Records(f[0].children, level + 1)), level, c, f[1..])
  {
    GraftCons(a, c, f, a1);
    GraftStackIn(a1, s1, level + 1, Bullet(f[0].id), f[0].children);
    SubtreeKeepsParent(s, Bullet(f[0].id), f[0].children, level);
  }

  /** A forest's lines decode to its graft once its first tree's lines and its later trees' lines do. */
  lemma RunForestCons(a: Arena, s: Stack, level: nat, c: Container, f: seq<Node>, a1: Arena, s1: Stack, a2: Arena, s2: Stack)
    requires Ready(a, s, level, c, f) && f != [] && f[0].id !in a.nodes
    requires a1 == AddedLast(a, f[0].id, f[0].kind, f[0].meta, f[0].content, c)
    requires s1 == s[level := Bullet(f[0].id)] && StackIn(a1, s1)
    requires Holds(a1, Bullet(f[0].id)) && Fresh(a1, f[0].children)
    requires a2 == Graft(a1, Bullet(f[0].id), f[0].children) && s2 == StackAfter(s1, Records(f[0].children, level + 1))
    requires Run(a1, s1, Records(f[0].children, level + 1)) == Progress(a2, s2, None)
    requires Ready(a2, s2, level, c, f[1..])
    requires Run(a2, s2, Records(f[1..], level)) == Progress(Graft(a2, c, f[1..]), StackAfter(s2, Records(f[1..], level)), None)
    ensures Run(a, s, Records(f, level)) == Progress(Graft(a, c, f), StackAfter(s, Records(f, level)), None)
  {
    RunCons(a, s, level, c, f, a1, s1, a2, s2, Graft(a2, c, f[1..]), StackAfter(s2, Records(f[1..], level)));
    StackAfterCons(s, level, f);
    GraftCons(a, c, f, a1);
  }

  /**
   * Decoding the lines written for a forest at `level`, with `c` chosen as
   * parent for that level, adds the forest below `c` in pre-order: it is
   * grafting, and it fails on none of the lines.
   */
  lemma {:induction false} RunForest(a: Arena, s: Stack, level: nat, c: Container, f: seq<Node>)
    requires Ready(a, s, level, c, f)
    ensures Holds(a, c) && Fresh(a, f)
    ensures Run(a, s, Records(f, level)) == Progress(Graft(a, c, f), StackAfter(s, Records(f, level)), None)
    decreases f
  {
    if f != [] {
      var n := f[0];
      ChildrenReady(a, s, level, c, f);
      var a1 := AddedLast(a, n.id, n.kind, n.meta, n.content, c);
      var s1 := s[level := Bullet(n.id)];
      RunForest(a1, s1, level + 1, Bullet(n.id), n.children);
      var a2 := Graft(a1, Bullet(n.id), n.children);
      var s2 := StackAfter(s1, Records(n.children, level + 1));
      LaterReady(a, s, level, c, f, a1, s1);
      RunForest(a2, s2, level, c, f[1..]);
      RunForestCons(a, s, level, c, f, a1, s1, a2, s2);
    }
  }

  /** Every bullet's id, type and meta avoid `|`, and no field holds a newline. */
  predicate Storable(a: Arena)
  {
    forall k :: k in a.nodes ==>
      && '|' !in k && '|' !in a.nodes[k].kind && '|' !in a.nodes[k].meta
      && '\n' !in k && '\n' !in a.nodes[k].kind && '\n' !in a.nodes[k].meta && '\n' !in a.nodes[k].content
  }

  /** The lines of a well-formed tree's outline, decoded into an empty tree, rebuild it. */
  lemma RunOutline(a: Arena, depth: map<string, nat>)
    requires WellFormed(a, depth)
    ensures var rs := Records(Outline(a), 0);
      Run(Empty, InitialStack, rs) == Progress(a, StackAfter(InitialStack, rs), None)
  {
    GraftOutline(a, depth);
    RunForest(Empty, InitialStack, 0, Root, Outline(a));
  }

  /** The lines of a storable tree hold no `|` in their id, type or meta. */
  lemma OutlineClean(a: Arena, depth: map<string, nat>)
    requires WellFormed(a, depth) && Storable(a)
    ensures forall r :: r in Records(Outline(a), 0) ==> Clean(r)
  {
    OutlineSound(a, depth);
    RecordsFaithful(a, depth, Root, Outline(a), 0);
  }

  /** Decoding what `serializeTree` wrote, into an empty tree, rebuilds the tree without error. */
  lemma DecodeSerialized(a: Arena, depth: map<string, nat>)
    requires WellFormed(a, depth) && Storable(a)
    ensures Replay(Empty, InitialStack, SerializeTree(a)).tree == a
    ensures Replay(Empty, InitialStack, SerializeTree(a)).failure == None
  {
    var rs := Records(Outline(a), 0);
    RunOutline(a, depth);
    OutlineClean(a, depth);
    ReplayFormatted(Empty, InitialStack, rs, []);
    assert SerializeTree(a) + [] == SerializeTree(a);
  }

  /** The file text of a storable tree reads back as the lines `serializeTree` wrote. */
  lemma ReadSaved(a: Arena, depth: map<string, nat>)
    requires WellFormed(a, depth) && Storable(a)
    ensures ReadLines(SaveText(a)) == SerializeTree(a)
  {
    var lines := SerializeTree(a);
    var rs := Records(Outline(a), 0);
    SerializeTreeLines(a, depth);
    forall i | 0 <= i < |rs| ensures '\n' !in lines[i] && lines[i] != "" {
      assert rs[i] in rs;
      FormatLineShape(rs[i]);
    }
    ReadJoinedLines(lines);
  }

  /**
   * Saving a tree and loading the file into a cleared tree gives the same
   * tree back: same bullets, fields and child order. The empty tree is the
   * exception: its file is empty, and loading it yields the default bullet.
   */
  lemma SaveLoadRoundTrip(a: Arena, depth: map<string, nat>)
    requires WellFormed(a, depth) && Storable(a)
    ensures Load(Empty, ReadLines(SaveText(a))) == if a.nodes == map[] then (AddDefault(Empty), None) else (a, None)
  {
    ReadSaved(a, depth);
    DecodeSerialized(a, depth);
    assert a.nodes == map[] ==> a == Empty;
  }

  // ---------------------------------------------------------------------
  // The level stack against the lines read (src/fs.ts:8, 24-26)
  // ---------------------------------------------------------------------

  /** Every line parses. */
  predicate AllParse(lines: seq<string>)
  {
    forall i :: 0 <= i < |lines| ==> ParseLine(lines[i]).Ok?
  }

  /** The parsed form of lines that all parse, line by line. */
  function ParsedLines(lines: seq<string>): (rs: seq<Line>)
    requires AllParse(lines)
    ensures |rs| == |lines|
    ensures forall i :: 0 <= i < |lines| ==> rs[i] == ParseLine(lines[i]).value
  {
    if lines == [] then [] else [ParseLine(lines[0]).value] + ParsedLines(lines[1..])
  }

  /** The id of the last of the lines `rs` at `level`, if there is one. */
  function LastAt(rs: seq<Line>, level: nat): Option<string>
    decreases |rs|
  {
    if rs == [] then None
    else if rs[|rs| - 1].level == level then Some(rs[|rs| - 1].id)
    else LastAt(rs[..|rs| - 1], level)
  }

  /**
   * The parent the decoder picks for line `k` of `rs`: the bullet of the last
   * earlier line one level up, or the root when there is none (level 0, or no
   * earlier line at the level above).
   */
  function LineParent(rs: seq<Line>, k: nat): Container
    requires k < |rs|
  {
    var n := rs[k].level;
    if n >= 1 && LastAt(rs[..k], n - 1).Some? then Bullet(LastAt(rs[..k], n - 1).value) else Root
  }

  /**
   * After the lines `rs`, the stack entry for a level is the bullet of the
   * last line at that level; a level no line used keeps its old entry.
   */
  lemma {:induction false} StackAfterLast(s: Stack, rs: seq<Line>, n: nat)
    ensures LastAt(rs, n).Some? ==> n in StackAfter(s, rs) && StackAfter(s, rs)[n] == Bullet(LastAt(rs, n).value)
    ensures LastAt(rs, n).None? ==> (n in StackAfter(s, rs) <==> n in s) && (n in s ==> StackAfter(s, rs)[n] == s[n])
    decreases |rs|
  {
    if rs != [] {
      var init := rs[..|rs| - 1];
      var last := rs[|rs| - 1];
      assert rs == init + [last];
      StackAfterAppend(s, init, [last]);
      StackAfterLast(s, init, n);
    }
  }

  /** A decode that reports no error parsed every line and left the stack at `StackAfter` of the parsed lines. */
  lemma {:induction false} ReplayStack(a: Arena, s: Stack, lines: seq<string>)
    requires StackIn(a, s)
    ensures Replay(a, s, lines).failure.None? ==>
      AllParse(lines) && Replay(a, s, lines).stack == StackAfter(s, ParsedLines(lines))
    decreases |lines|
  {
    if lines != [] && ParseLine(lines[0]).Ok? && ParseLine(lines[0]).value.id !in a.nodes {
      var l := ParseLine(lines[0]).value;
      var next := Place(a, s, l).value;
      ReplayStack(next.0, next.1, lines[1..]);
      if Replay(a, s, lines).failure.None? {
        AllParseCons(lines);
        assert ParsedLines(lines) == [l] + ParsedLines(lines[1..]);
      }
    }
  }

  /** Lines all parse when the first one does and the rest all do. */
  lemma {:induction false} AllParseCons(lines: seq<string>)
    requires lines != [] && ParseLine(lines[0]).Ok? && AllParse(lines[1..])
    ensures AllParse(lines)
  {
    assert forall i :: 1 <= i < |lines| ==> lines[1..][i - 1] == lines[i];
  }

  /** The parsed prefix of lines that all parse is the parse of the prefix. */
  lemma {:induction false} ParsedPrefix(lines: seq<string>, k: nat)
    requires AllParse(lines) && k <= |lines|
    ensures AllParse(lines[..k]) && ParsedLines(lines)[..k] == ParsedLines(lines[..k])
  {
    assert forall i :: 0 <= i < k ==> lines[..k][i] == lines[i];
    var x := ParsedLines(lines)[..k];
    var y := ParsedLines(lines[..k]);
    assert forall i :: 0 <= i < k ==> x[i] == y[i];
  }

  /** The parent `lastNode` yields for a level is `LineParent`'s choice from the lines before. */
  lemma {:induction false} StackParent(rs: seq<Line>, k: nat)
    requires k < |rs|
    ensures ParentFor(StackAfter(InitialStack, rs[..k]), rs[k].level) == LineParent(rs, k)
  {
    var n := rs[k].level;
    if n >= 1 {
      StackAfterLast(InitialStack, rs[..k], n - 1);
    }
  }

  /** The last turn of a decode that reports no error: the lines before succeeded, and the last line's bullet is appended below `ParentFor`. */
  lemma {:induction false} ReplayLast(a: Arena, s: Stack, xs: seq<string>, line: string)
    requires StackIn(a, s) && Replay(a, s, xs + [line]).failure.None?
    ensures var p := Replay(a, s, xs);
      && p.failure.None? && ParseLine(line).Ok? && StackIn(p.tree, p.stack)
      && var l := ParseLine(line).value;
      && l.id !in p.tree.nodes && Holds(p.tree, ParentFor(p.stack, l.level))
      && Replay(a, s, xs + [line]).tree == AddedLast(p.tree, l.id, l.kind, l.meta, l.content, ParentFor(p.stack, l.level))
  {
    ReplayAppend(a, s, xs, [line]);
    var p := Replay(a, s, xs);
    var l := ParseLine(line).value;
    var next := Place(p.tree, p.stack, l).value;
    assert [line][1..] == [];
    assert Replay(p.tree, p.stack, [line]) == Replay(next.0, next.1, []);
  }

  /** `DecodeParent` for the last of the lines `xs + [line]`. */
  lemma {:induction false} DecodeLast(a: Arena, xs: seq<string>, line: string)
    requires StackIn(a, InitialStack) && Replay(a, InitialStack, xs + [line]).failure.None?
    ensures AllParse(xs + [line])
    ensures var rs := ParsedLines(xs + [line]);
      var l := rs[|xs|];
      var p := LineParent(rs, |xs|);
      var before := Replay(a, InitialStack, xs).tree;
      && l.id !in before.nodes && Holds(before, p)
      && Replay(a, InitialStack, xs + [line]).tree == AddedLast(before, l.id, l.kind, l.meta, l.content, p)
  {
    var ys := xs + [line];
    ReplayLast(a, InitialStack, xs, line);
    ReplayStack(a, InitialStack, xs);
    ReplayStack(a, InitialStack, ys);
    var rs := ParsedLines(ys);
    ParsedPrefix(ys, |xs|);
    assert ys[..|xs|] == xs;
    assert rs[|xs|] == ParseLine(line).value;
    StackParent(rs, |xs|);
  }

  /**
   * When the lines up to line `k` decode without error, line `k`'s bullet is
   * added with `addNode` to the tree the earlier lines built, below the
   * bullet of the last earlier line one level up, or below the root when
   * there is none.
   */
  lemma {:induction false} DecodeParent(a: Arena, lines: seq<string>, k: nat)
    requires k < |lines| && Replay(a, InitialStack, lines[..k + 1]).failure.None?
    ensures AllParse(lines[..k + 1])
    ensures var l := ParsedLines(lines[..k + 1])[k];
      var p := LineParent(ParsedLines(lines[..k + 1]), k);
      var before := Replay(a, InitialStack, lines[..k]).tree;
      && l.id !in before.nodes && Holds(before, p)
      && Replay(a, InitialStack, lines[..k + 1]).tree == AddedLast(before, l.id, l.kind, l.meta, l.content, p)
  {
    assert lines[..k + 1] == lines[..k] + [lines[k]];
    DecodeLast(a, lines[..k], lines[k]);
  }
}
