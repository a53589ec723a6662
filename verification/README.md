# Silver outline document: tree and file codec in Dafny

Silver is an outline editor. A document is a tree of *bullets*. Each bullet
has an id, a type, a `meta` value and a text content, and owns an ordered
list of child bullets. A single root sits above the top-level bullets.
`SilverTree` owns the root and an index `nodes` from id to bullet. A
document is saved as text, one line per bullet, written
`level|id|type|meta|content`. Loading reads the lines back and uses the
levels to rebuild the nesting.

This project models that core and proves its properties:

- `tree.dfy` (module `Tree`) models the document tree of `src/tree.ts`.
  - The class `SilverTree` holds the root's child list and the index as
    fields that its methods update in place.
  - Bullets live in an arena: `nodes` maps an id to a record holding type,
    meta, content, parent and child ids. A container is `Root` or
    `Bullet(id)`.
  - The tree invariant `WellFormed` says four things. Each bullet is listed
    exactly once, by the container its `parent` names. Every listed id is
    indexed. No list repeats an id. A ghost depth map grows by one from
    parent to child, so the parent links have no cycle.
  - The insertions keep the invariant, and so does `indentBullet`.
- `forest.dfy` (module `Forest`) gives the same tree as a value: a forest of
  nodes in child order.
  - `Outline` is the forest that `serializeNode` walks; it is proved to
    mirror the tree exactly.
  - `Graft` is the forest added in pre-order with `addNode`; grafting a
    tree's outline into an empty tree rebuilds that tree.
- `codec.dfy` (module `Codec`) models the file format of `src/fs.ts`:
  - `FormatLine`/`ParseLine` for one line;
  - `SerializeTree` and the newline join of `saveToFile`;
  - the decode loop of `parseSilverFile`, both as the method
    `ParseSilverFile` over a live `SilverTree` and as the function `Load`.
    Its `lastNode` level stack is a `map<nat, Container>`.

  It proves the per-line error cases, the parent chosen by the stack, the
  shape of the written lines and the round trip: saving a tree and loading
  the file into a cleared tree gives the same tree back. The round trip
  needs the tree to be *storable* (`Codec.Storable`): no id, type or meta
  holds a `|`, and no field holds a newline. The source writes such fields
  unescaped, and they do not read back.
- `text.dfy` (module `Text`) holds `String.split`, `Array.join`, reading
  lines from a text, and rendering and reading decimal levels.
- `defaults.dfy` (module `Defaults`) holds `DEFAULT_TREE` from
  `src/constants.ts`.
- `wrappers.dfy` holds `Option` and `Result`.

Reading and writing the file are outside the model. A file's text enters as
a string and is split into lines by `Text.ReadLines`; `ParseSilverFile`
takes those lines as a parameter.

## Model

| member | source | states |
|---|---|---|
| Tree.IndexOf | src/tree.ts:24 | `indexOf`: the result is -1 exactly when the element is absent; otherwise it holds the element and no earlier index does |
| Tree.InsertedAt | src/tree.ts:15-21 | `splice(p, 0, x)`: length grows by one, `x` sits at the clamped start, earlier entries stay, later ones shift by one |
| Tree.InsertedAfter | src/tree.ts:23-30 | `addChildAfter`: with `reference` at index `i` the new child lands at `i + 1` and the rest keep their order; without it the child is appended |
| Tree.PlacementsAddExactlyId | src/tree.ts:7-38 | appending, prepending and inserting after a reference each add exactly the new id to a duplicate-free list and keep it duplicate-free |
| Tree.RemoveAt | src/tree.ts:94 | `splice(i, 1)` on a duplicate-free list drops exactly the entry at `i` and keeps the list duplicate-free |
| Tree.SilverTree.AddChild | src/tree.ts:7-13 | the child becomes the last entry of the container's list; no other list and no bullet field changes |
| Tree.SilverTree.AddChildAtPosition | src/tree.ts:15-21 | the container's list becomes `InsertedAt(old list, position, child)`; nothing else changes |
| Tree.SilverTree.AddChildAfter | src/tree.ts:23-30 | the container's list becomes `InsertedAfter(old list, child, reference)`, through `addChildAtPosition` or `addChild` |
| Tree.SilverTree.AddChildFirst | src/tree.ts:32-38 | the child becomes the first entry of the container's list; nothing else changes |
| Tree.SilverTree.constructor | src/tree.ts:64-67 | a new tree is the root alone with an empty index, and satisfies the invariant |
| Tree.EmptyWellFormed | src/tree.ts:64-67 | the root alone is a well-formed tree |
| Tree.Attach | src/tree.ts:69-88 | registering a bullet adds exactly its id to the index with the given record, replaces one container's list and leaves every other list and bullet field as it was |
| Tree.AddedLast | src/tree.ts:69-74 | `addNode` on values: the index gains exactly the new id, holding a childless record with the given fields and parent; the parent's list gains the id at its end |
| Tree.AddedFirst | src/tree.ts:76-81 | the same, with the id placed first in the parent's list |
| Tree.AddedAfter | src/tree.ts:83-88 | the same, with the parent's list becoming `InsertedAfter(old list, id, reference)` |
| Tree.AttachKeepsWellFormed | src/tree.ts:69-88 | adding a fresh, childless bullet under an existing container, whose list gains exactly that id, keeps the tree invariant, with the new bullet one level below its container |
| Tree.SilverTree.AddNode | src/tree.ts:69-74 | a fresh id becomes a childless bullet with the given fields and parent, last in the parent's list; the invariant is kept |
| Tree.SilverTree.AddNodeFirst | src/tree.ts:76-81 | the same, with the bullet first in the parent's list |
| Tree.SilverTree.AddNodeAfter | src/tree.ts:83-88 | the same, with the bullet right after `reference`, or last when `reference` is not a child |
| Tree.Adopted | src/tree.ts:97-98 | `newParent.addChild(node); node.parent = newParent`: the index keeps its ids, the node is appended to the new parent's list and points back at it |
| Tree.Indented | src/tree.ts:90-100 | `indentBullet` on values keeps the set of indexed bullets; `IndentEffect` states the move itself |
| Tree.IndentEffect | src/tree.ts:90-100 | in a well-formed tree the bullet is always found; at index 0 nothing changes; at index `i >= 1` it leaves its parent's list (the rest in order) and becomes the last child of the sibling at `i - 1`; its own children, every other list and every other bullet stay as they were |
| Tree.IndentShape | src/tree.ts:91-99 | when the bullet has a preceding sibling other than itself and its parent, `Indented` is exactly that move |
| Tree.IndentKeepsWellFormed | src/tree.ts:90-100 | indenting keeps the tree invariant: the moved subtree goes one level deeper and no cycle appears, since the new parent is a former sibling |
| Tree.SilverTree.IndentBullet | src/tree.ts:90-100 | the tree becomes `Indented(old tree, id)` and stays well formed |
| Tree.SilverTree.MoveUnderPrevious | src/tree.ts:91-99 | the in-place steps of `indentBullet` produce `Indented(old tree, id)` |
| Tree.SilverTree.SpliceAndAdopt | src/tree.ts:94-98 | removing the bullet from its parent's list, reading the new parent at `nodeIndex - 1` after the removal and adopting the bullet there is the move `MovedTo` to the former preceding sibling |
| Tree.SilverTree.AdoptUnder | src/tree.ts:97-98 | the tree becomes `Adopted(old tree, id, newParent)` |
| Tree.SilverTree.Clear | src/tree.ts:102-105 | the root has no children, the index is empty and the invariant holds |
| Forest.Outline | src/fs.ts:36-49 | every top-level node of the walk from the root is a child of the root and carries its bullet's type, meta and content |
| Forest.ToNodesSound | src/fs.ts:42-46 | visiting a container's children in order yields one node per child, carrying that bullet's record and its whole subtree |
| Forest.OutlineSound | src/fs.ts:36-49 | the walk from the root lists the root's children and mirrors every record it reaches |
| Forest.OutlineComplete | src/fs.ts:36-49 | the walk reaches exactly the indexed bullets |
| Forest.OutlineDistinct | src/fs.ts:36-49 | the walk visits no bullet twice |
| Forest.Graft | src/fs.ts:24-26 | adding a forest in pre-order with `addNode` below `c` adds exactly its ids, appends its top-level ids to `c`'s list and leaves every other list and bullet field as it was |
| Forest.GraftSound | src/fs.ts:24-26 | after grafting, the tree holds the forest below `c` exactly as given |
| Forest.GraftOutline | src/fs.ts:24-46 | grafting a well-formed tree's outline into an empty tree rebuilds that tree |
| Text.Split | src/fs.ts:11 | `split` yields at least one piece and no piece holds the separator |
| Text.JoinSplit | src/fs.ts:11 | joining the pieces of a split gives the original string back |
| Text.SplitJoin | src/fs.ts:55 | splitting the join of separator-free pieces gives the pieces back |
| Text.ReadLines | src/fs.ts:9 | the lines read from a text hold no newline, and an empty text has none |
| Text.ReadJoinedLines | src/fs.ts:55 | newline-free lines, the last one non-empty, are read back unchanged from their newline join |
| Text.ShowNat | src/fs.ts:39 | a level is written as a non-empty run of decimal digits with no leading zero |
| Text.ParseLevel | src/fs.ts:15-18 | a level field is accepted exactly when it is a non-empty run of decimal digits |
| Text.ParseShowNat | src/fs.ts:15 | reading a written level gives the level back |
| Codec.FormatLine | src/fs.ts:39 | a written line starts with its level in decimal followed by `|`; `ParseFormat` reads the whole line back |
| Codec.ParseLine | src/fs.ts:11-22 | a refused line reports a malformed-line or invalid-level error quoting it; an accepted line's id, type and meta hold no `|` |
| Codec.ParseLineErrors | src/fs.ts:11-22 | a line is refused exactly when it has fewer than five fields (malformed line) or a bad level field (invalid level); the error quotes the line; an accepted line's id, type and meta hold no `|` |
| Codec.ParseLineKeepsText | src/fs.ts:19-22 | an accepted line is its text field by field: content is fields five onward rejoined with `|` |
| Codec.ParseFormat | src/fs.ts:11-22 | reading a written line gives it back, whatever its content holds, when id, type and meta avoid `|` |
| Codec.FormatLineShape | src/fs.ts:39 | a written line is never empty and holds no newline when its fields hold none |
| Codec.RecordsIds | src/fs.ts:36-47 | the lines carry the forest's ids in pre-order, one per node |
| Codec.RecordsLevels | src/fs.ts:36-47 | the first line is at the starting level, none is below it, and each is at most one more than the previous |
| Codec.RecordsFaithful | src/fs.ts:37-44 | each line carries its bullet's type, meta and content, with the bullet's depth as level |
| Codec.SerializeTree | src/fs.ts:33-51 | one line per node of the walk from the root, and no line is empty |
| Codec.SaveText | src/fs.ts:53-56 | the text written is empty exactly when the walk from the root meets no bullet |
| Codec.SerializeTreeLines | src/fs.ts:33-51 | `serializeTree` writes every bullet exactly once, in pre-order, never the root, each with its fields and depth; the first level is 0 and each level is at most one more than the previous |
| Codec.StackAfterLast | src/fs.ts:24-26 | after a run of lines, `lastNode[n]` holds the bullet of the last line at level `n`; a level that no line used keeps its earlier entry |
| Codec.ReplayStack | src/fs.ts:10-27 | a decode without error parsed every line, and its final `lastNode` is the one that line history gives (`StackAfter`) |
| Codec.DecodeParent | src/fs.ts:8-26 | line `k` of a decode without error becomes a new bullet, appended with `addNode` to the tree the earlier lines built. Its parent is the bullet of the last earlier line at level `n - 1` for a line at level `n >= 1`, and the root when there is none. So a level-0 line, and a line whose level skips a step (such as a first line at level 1), go under the root |
| Codec.ReplayCount | src/fs.ts:10-27 | each line of a decode without error adds exactly one bullet |
| Codec.Place | src/fs.ts:24-26 | a line is placed exactly when its id is new, and the stack then names only containers of the tree |
| Codec.PlaceEffect | src/fs.ts:24-26 | the new bullet holds the line's fields and is the last child of the chosen parent; no other list or bullet changes; the stack records the bullet at its level and keeps every other level |
| Codec.ReplayKeeps | src/fs.ts:10-27 | decoding never removes a bullet or changes the fields of one that was there |
| Codec.ReplayAppend | src/fs.ts:10-27 | decoding two runs of lines is decoding the first and then, unless it failed, the second from where it stopped |
| Codec.BadLineStops | src/fs.ts:11-18 | a line that does not parse stops the load with a malformed-line or invalid-level error quoting it; the bullets of the earlier lines stay and none is added for it |
| Codec.Load | src/fs.ts:7-31 | the error reported is the decode loop's; without an error each line adds one bullet, except that an empty file loaded into an empty tree yields the default bullet alone |
| Codec.LoadNeverEmpty | src/fs.ts:28-30 | a load without error never leaves the tree empty: exactly the default bullet is added when no bullet was decoded, and nothing when one was |
| Codec.ParseSilverFile | src/fs.ts:7-31 | the decode loop over the lines leaves the live tree and the reported error equal to `Load`, and keeps the tree invariant |
| Codec.RunForest | src/fs.ts:24-26 | decoding the lines written for a forest grafts that forest, in pre-order, with no error |
| Codec.RunOutline | src/fs.ts:24-46 | the lines of a well-formed tree's outline, decoded into an empty tree, rebuild it |
| Codec.DecodeSerialized | src/fs.ts:7-51 | for a storable tree (no `|` in any id, type or meta; no newline in any field), decoding what `serializeTree` wrote into an empty tree rebuilds the tree without error |
| Codec.ReadSaved | src/fs.ts:53-57 | for a storable tree, the text `saveToFile` writes reads back as the lines `serializeTree` produced |
| Codec.SaveLoadRoundTrip | src/fs.ts:7-57 | for a storable tree, saving it and loading the file into a cleared tree gives the same bullets, fields and child order; an empty tree comes back as the default bullet alone |
| Defaults.AddDefault | src/constants.ts:4 | exactly one bullet is added: id "hello-0", type "text", empty meta, content "Hello!", parent the root, last in the root's list; every other bullet stays |
| Defaults.DefaultTree | src/constants.ts:4 | `DEFAULT_TREE` on a live tree performs `AddDefault` with one `addNode` and keeps the invariant |

## Left out

- The return value of `addNode`, `addNodeFirst` and `addNodeAfter` (the new `BulletNode`) is not modelled; the new bullet is `nodes[id]` afterwards.
- Tree.SilverTree.AddNode: requires an id that is not yet indexed. The source has no duplicate check: it would list a second bullet and overwrite the index entry, a state the arena cannot represent.
- Tree.SilverTree.AddNodeFirst: requires a fresh id, for the same reason.
- Tree.SilverTree.AddNodeAfter: requires a fresh id, for the same reason.
- Codec.ParseSilverFile: a line whose id is already in the tree stops the load with a `DuplicateId` error. The source (src/fs.ts:25, src/tree.ts:70-72) instead lists a second bullet with that id and overwrites the index entry. This follows from the fresh-id requirement of `addNode` above.
- Codec.Place: returns `None` for an id already in the tree, where the source adds the bullet anyway, as above.
- Codec.Replay: stops with `DuplicateId` at the first repeated id, where the source goes on with the next line, as above.
- Codec.Load: reports `DuplicateId` for a file that repeats an id or reuses one already in the tree; the source loads such a file without error, as above.
- Codec.ReplayKeeps: holds because a repeated id is refused; in the source a repeated id replaces the earlier bullet in the index, so an earlier bullet's entry does not survive.
- A missing `children` array (`children?` undefined) is modelled as the empty list; the source's `[child]` branches in `addChild`, `addChildAtPosition` and `addChildFirst` give the same list.
- Tree.SilverTree.IndentBullet: it requires a bullet of a well-formed tree, so the source's not-found case (`indexOf` returning -1) cannot arise. `Indented` still treats every index below 1 as "no change".
- `meta` is an opaque string. In the source it is any value (`meta: any`, src/tree.ts:46). The loader builds a `Map` from the field with `JSON.parse`, and an empty field gives an empty map (src/fs.ts:21). The writer applies `JSON.stringify(Object.fromEntries(meta))` (src/fs.ts:38). JSON is not modelled. An empty map written as `{}` and read back is not distinguished from the empty token.
- Codec.SerializeTree: never fails. In the source, a bullet whose meta is `null` makes `Object.fromEntries` throw (src/fs.ts:38), so the save fails. The plus icon creates exactly such bullets (src/views.ts:46).
- Codec.ParseLineErrors: accepts any meta field. In the source, a non-empty meta field that is not valid JSON makes `JSON.parse` throw (src/fs.ts:21), and the load stops there with that exception rather than a line-format error.
- Codec.ParseLine: accepts such a line too.
- Text.ParseLevel: it accepts only a non-empty run of decimal digits. `parseInt` also accepts leading whitespace, a sign, `-0` and trailing junk, and that leniency is not modelled.
- Text.ParseLevel: the level is an exact `nat`. The source's `parseInt` returns a JavaScript number, a double that is inexact above 2^53, so two distinct huge levels can read as the same number there.
- Reading and writing the file (`readTextFileLines`, `writeTextFile`, `async`/`await`) are left out. A text enters as a string, and `Text.ReadLines` splits it on `'\n'` without a final empty line. Carriage-return handling by the line reader is not modelled.
- The process-global `tree` of `src/main.ts` becomes an explicit `SilverTree` parameter.
- No rollback on decode failure: the bullets from lines before a bad line stay, as in the source, and the model does not claim all-or-nothing loading.
- `Forest.ToNodes` carries a set of not-yet-visited ids that shrinks on every descent. It only makes the walk terminate: on a well-formed tree every bullet is still available when the walk reaches it.
- Tree.SilverTree.SpliceAndAdopt reads the new parent from the list after the removal at `nodeIndex - 1`, as the source does. That is the sibling that preceded the bullet, so `Indented` states the move with the list before the removal.
