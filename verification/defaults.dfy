/**
 * The fallback document of src/constants.ts: `DEFAULT_TREE` adds one bullet,
 * id "hello-0", type "text", no metadata, content "Hello!", below the root.
 */
module Defaults {
  import opened Tree

  /** `DEFAULT_TREE` as a value. An empty `meta` token stands for the empty `Map`. */
  function AddDefault(a: Arena): (r: Arena)
    requires "hello-0" !in a.nodes
    ensures r.nodes.Keys == a.nodes.Keys + {"hello-0"}
    ensures r.nodes["hello-0"] == BulletRec("text", "", "Hello!", Root, [])
    ensures r.rootChildren == a.rootChildren + ["hello-0"]
    ensures forall k :: k in a.nodes ==> r.nodes[k] == a.nodes[k]
  {
    AddedLast(a, "hello-0", "text", "", "Hello!", Root)
  }

  /** `DEFAULT_TREE(tree)`: one `addNode` call on the live tree. */
  method DefaultTree(tree: SilverTree)
    requires tree.Valid() && "hello-0" !in tree.nodes
    modifies tree
    ensures tree.Valid()
    ensures tree.Snapshot() == AddDefault(old(tree.Snapshot()))
  {
    tree.AddNode("hello-0", "text", "", "Hello!", Root);
  }
}
