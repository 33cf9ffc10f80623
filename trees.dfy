/** NLTK's `Tree`: a labelled node whose children are trees or plain word strings. */
module Trees {

  /** `Node` is an `nltk.Tree` (its label and child list); `Leaf` is a word string among a tree's children. */
  datatype Tree = Node(tag: string, children: seq<Tree>) | Leaf(word: string)

  /**
   * `Tree.subtrees()`: the node itself, then, child by child, the subtrees of
   * each child that is a tree (pre-order). Leaves are never yielded.
   */
  function Subtrees(t: Tree): seq<Tree> {
    match t
    case Leaf(_) => []
    case Node(_, cs) => [t] + SubtreesOf(cs)
  }

  function SubtreesOf(cs: seq<Tree>): seq<Tree> {
    if cs == [] then [] else Subtrees(cs[0]) + SubtreesOf(cs[1..])
  }

  /**
   * What `subtrees()` yields: nothing for a word, the node itself first for
   * a tree, and only trees, never words.
   */
  lemma {:induction false} SubtreesAreNodes(t: Tree)
    ensures t.Leaf? ==> Subtrees(t) == []
    ensures t.Node? ==> Subtrees(t) != [] && Subtrees(t)[0] == t
    ensures forall s :: s in Subtrees(t) ==> s.Node?
  {
    if t.Node? {
      SubtreesOfAreNodes(t.children);
    }
  }

  lemma {:induction false} SubtreesOfAreNodes(cs: seq<Tree>)
    ensures forall s :: s in SubtreesOf(cs) ==> s.Node?
  {
    if cs != [] {
      SubtreesAreNodes(cs[0]);
      SubtreesOfAreNodes(cs[1..]);
    }
  }

  /** The subtrees strictly below `t`, in pre-order. */
  function Descendants(t: Tree): seq<Tree> {
    match t
    case Leaf(_) => []
    case Node(_, cs) => SubtreesOf(cs)
  }

  /** `Tree.leaves()`: the words at the bottom of `t`, read left to right. */
  function Leaves(t: Tree): seq<string> {
    match t
    case Leaf(w) => [w]
    case Node(_, cs) => LeavesOf(cs)
  }

  /** The leaves of a list of trees, one tree after the other (for chunks, the `np.flatten()` words of each, joined). */
  function LeavesOf(cs: seq<Tree>): seq<string> {
    if cs == [] then [] else Leaves(cs[0]) + LeavesOf(cs[1..])
  }

  lemma {:induction false} LeavesOfAppend(a: seq<Tree>, b: seq<Tree>)
    ensures LeavesOf(a + b) == LeavesOf(a) + LeavesOf(b)
  {
    if a == [] {
      assert a + b == b;
    } else {
      assert (a + b)[0] == a[0] && (a + b)[1..] == a[1..] + b;
      LeavesOfAppend(a[1..], b);
    }
  }
}
