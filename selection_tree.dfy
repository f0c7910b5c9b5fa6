/** The selection tree of include/AST/Selection.h: the AST nodes a selection
    touches, from the root down, each tagged with how far it covers the
    selection, and the query for the farthest node that still covers it.

    The nodes live in a `std::deque` and point at their children; here a node
    is a value that holds its children, which is the same tree without the
    storage and the parent pointers. The clang node itself is left out: the
    query never looks at it. */
module SelectionTree {
  import opened Wrappers

  /** `CoverageKind`. */
  datatype Coverage = Full | Partial

  /** `SelectionTree::Node`: coverage and children, in order. */
  datatype Node = Node(kind: Coverage, children: seq<Node>)

  /** `SelectionTree`: the root, or nothing when nothing is selected. */
  datatype Tree = Tree(root: Option<Node>)
  {
    /** `hasValue`: something is selected. */
    predicate HasValue() {
      root.Some?
    }

    /** `operator bool`. */
    predicate ToBool() {
      HasValue()
    }

    /** `getRoot`: the root, or null. */
    function GetRoot(): Option<Node> {
      root
    }
  }

  /** A tree is true, has a value and has a root all at once. */
  lemma TruthIsRoot(t: Tree)
    ensures t.ToBool() <==> t.HasValue()
    ensures t.HasValue() <==> t.GetRoot().Some?
    ensures t.GetRoot().Some? ==> t.GetRoot().value == t.root.value
  {
  }

  /** The node `d` first-child steps below `n`, if the chain is that long. */
  function Follow(n: Node, d: nat): Option<Node>
    decreases d
  {
    if d == 0 then Some(n)
    else if n.children == [] then None
    else Follow(n.children[0], d - 1)
  }

  /** The walk goes on from `n` exactly when `n` covers fully and has a child. */
  predicate Descends(n: Node) {
    n.kind == Full && n.children != []
  }

  /** The farthest node of the first-child chain reached through nodes that
      cover fully: the first node on the chain the walk cannot descend from. */
  function FarthestFull(n: Node): Node
    decreases n
  {
    if Descends(n) then FarthestFull(n.children[0]) else n
  }

  /** How many steps the walk takes from `n`. */
  function FullDepth(n: Node): nat
    decreases n
  {
    if Descends(n) then 1 + FullDepth(n.children[0]) else 0
  }

  /** The length of the first-child chain below `n`. */
  function ChainLength(n: Node): nat
    decreases n
  {
    if n.children == [] then 0 else 1 + ChainLength(n.children[0])
  }

  /** The answer lies on the first-child chain, `FullDepth` steps down; every
      node before it covers fully and has a child; the answer itself is a leaf
      or does not cover fully. */
  lemma {:induction false} FarthestFullOnChain(n: Node)
    ensures Follow(n, FullDepth(n)) == Some(FarthestFull(n))
    ensures forall k :: 0 <= k < FullDepth(n) ==> Follow(n, k).Some? && Descends(Follow(n, k).value)
    ensures !Descends(FarthestFull(n))
    decreases n
  {
    if Descends(n) {
      var c := n.children[0];
      FarthestFullOnChain(c);
      forall k | 0 <= k < FullDepth(n)
        ensures Follow(n, k).Some? && Descends(Follow(n, k).value)
      {
        if k > 0 {
          assert Follow(n, k) == Follow(c, k - 1);
        }
      }
    }
  }

  /** `FullDepth` is the first step at which the walk must stop: no other
      depth has all the nodes before it descending and itself not. */
  lemma {:induction false} FullDepthIsFirstStop(n: Node, d: nat)
    requires Follow(n, d).Some? && !Descends(Follow(n, d).value)
    requires forall k :: 0 <= k < d ==> Follow(n, k).Some? && Descends(Follow(n, k).value)
    ensures d == FullDepth(n)
    decreases d
  {
    if d > 0 {
      assert Descends(Follow(n, 0).value);
      var c := n.children[0];
      forall k | 0 <= k < d - 1
        ensures Follow(c, k).Some? && Descends(Follow(c, k).value)
      {
        assert Follow(n, k + 1) == Follow(c, k);
      }
      FullDepthIsFirstStop(c, d - 1);
    } else {
      assert Follow(n, 0) == Some(n);
    }
  }

  /** `getFarestFullCoverageNode`: from the root, step to the first child while
      the current node covers fully and has children. Null exactly when there
      is no root. */
  method FarthestFullCoverageNode(tree: Tree) returns (current: Option<Node>)
    ensures current.None? <==> tree.root.None?
    ensures current.Some? ==> current.value == FarthestFull(tree.root.value)
  {
    current := tree.root;
    while current.Some? && current.value.kind == Full
      invariant current.Some? <==> tree.root.Some?
      invariant current.Some? ==> FarthestFull(current.value) == FarthestFull(tree.root.value)
      decreases if current.Some? then ChainLength(current.value) else 0
    {
      if current.value.children == [] {
        break;
      }
      current := Some(current.value.children[0]);
    }
  }

  /** The answer need not cover the selection fully: a fully covering root
      whose first child covers only partly gives that child. */
  lemma FarthestMayBePartial()
    ensures FarthestFull(Node(Full, [Node(Partial, [Node(Full, [])])])) == Node(Partial, [Node(Full, [])])
  {
  }
}
