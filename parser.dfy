/**
 * The parser program's own logic around NLTK: the word filter of
 * `preprocess` and the noun-phrase chunker `np_chunk`, in two versions —
 * the code as written, whose line-96 test also sees the NP node itself, and
 * the chunker its doc-comment describes.
 */
module Parser {
  import opened Seqs
  import opened Text
  import opened Trees
  import opened Grammar

  /**
   * The filter step of `preprocess`: keep the words that contain an
   * alphabetic character (tokenizing and lowercasing happen before it).
   */
  function Preprocess(words: seq<string>, isAlpha: char -> bool): (kept: seq<string>)
    ensures IsSubsequence(kept, words)
    ensures forall w :: w in kept <==> w in words && HasAlpha(w, isAlpha)
    ensures forall w :: multiset(kept)[w] == if HasAlpha(w, isAlpha) then multiset(words)[w] else 0
  {
    FilterIsSubsequence(words, w => HasAlpha(w, isAlpha));
    FilterCount(words, w => HasAlpha(w, isAlpha));
    Filter(words, w => HasAlpha(w, isAlpha))
  }

  predicate IsNp(t: Tree) {
    t.Node? && t.tag == "NP"
  }

  /**
   * Python truthiness of what `subtrees` yields: a `Tree` is a list, true
   * when it has children; a word is a string, true when non-empty.
   */
  predicate Truthy(t: Tree) {
    match t
    case Node(_, cs) => cs != []
    case Leaf(w) => w != ""
  }

  /** The built-in `any` over the yielded values. */
  predicate AnyTruthy(ts: seq<Tree>) {
    exists i :: 0 <= i < |ts| && Truthy(ts[i])
  }

  /**
   * The test `np_chunk` applies, as written: `s` is an NP and nothing that
   * `s.subtrees(NP-filter)` yields — `s` itself first — is truthy.
   */
  predicate KeptAsWritten(s: Tree) {
    IsNp(s) && !AnyTruthy(Filter(Subtrees(s), IsNp))
  }

  /** The doc-comment's chunk: an NP with no NP among its proper descendants. */
  predicate IsChunk(s: Tree) {
    IsNp(s) && forall d :: d in Descendants(s) ==> !IsNp(d)
  }

  /** The NP nodes without children, in pre-order. */
  function ChildlessNps(t: Tree): seq<Tree> {
    match t
    case Leaf(_) => []
    case Node(tag, cs) => (if tag == "NP" && cs == [] then [t] else []) + ChildlessNpsOf(cs)
  }

  function ChildlessNpsOf(cs: seq<Tree>): seq<Tree> {
    if cs == [] then [] else ChildlessNps(cs[0]) + ChildlessNpsOf(cs[1..])
  }

  /**
   * Minimal noun phrases, found depth first: an NP with no NP beneath it is
   * recorded and not descended into; every other node is descended into.
   */
  function MinimalNps(t: Tree): seq<Tree> {
    match t
    case Leaf(_) => []
    case Node(_, cs) => if IsChunk(t) then [t] else MinimalNpsOf(cs)
  }

  function MinimalNpsOf(cs: seq<Tree>): seq<Tree> {
    if cs == [] then [] else MinimalNps(cs[0]) + MinimalNpsOf(cs[1..])
  }

  /** `np_chunk` as written: walk `tree.subtrees()` and keep the NPs that pass the line-96 test. */
  method NpChunkLiteral(tree: Tree) returns (nounPhrases: seq<Tree>)
    ensures nounPhrases == ChildlessNps(tree)
  {
    var subtrees := Subtrees(tree);
    nounPhrases := [];
    for i := 0 to |subtrees|
      invariant nounPhrases == Filter(subtrees[..i], KeptAsWritten)
    {
      var subtree := subtrees[i];
      FilterPrefix(subtrees, i, KeptAsWritten);
      if subtree.Node? && subtree.tag == "NP" {
        if !AnyTruthy(Filter(Subtrees(subtree), IsNp)) {
          nounPhrases := nounPhrases + [subtree];
        }
      }
    }
    assert subtrees[..|subtrees|] == subtrees;
    FilterKeptAsWritten(tree);
  }

  /** `np_chunk` as its doc-comment specifies: keep the NPs with no NP among their proper descendants. */
  method NpChunkIntended(tree: Tree) returns (nounPhrases: seq<Tree>)
    ensures nounPhrases == MinimalNps(tree)
  {
    var subtrees := Subtrees(tree);
    nounPhrases := [];
    for i := 0 to |subtrees|
      invariant nounPhrases == Filter(subtrees[..i], IsChunk)
    {
      var subtree := subtrees[i];
      FilterPrefix(subtrees, i, IsChunk);
      if subtree.Node? && subtree.tag == "NP" {
        if forall d :: d in Descendants(subtree) ==> !IsNp(d) {
          nounPhrases := nounPhrases + [subtree];
        }
      }
    }
    assert subtrees[..|subtrees|] == subtrees;
    FilterChunks(tree);
  }

  /** The line-96 test passes exactly for the NP nodes that have no children. */
  lemma KeptAsWrittenIff(s: Tree)
    ensures KeptAsWritten(s) <==> IsNp(s) && s.children == []
  {
    if IsNp(s) {
      var yielded := Filter(Subtrees(s), IsNp);
      assert Subtrees(s) == [s] + SubtreesOf(s.children);
      FilterAppend([s], SubtreesOf(s.children), IsNp);
      assert yielded[0] == s;
      if s.children == [] {
        assert Subtrees(s) == [s];
        assert yielded == [s];
      }
    }
  }

  /** Walking the pre-order with the line-96 test gives the childless NPs. */
  lemma {:induction false} FilterKeptAsWritten(t: Tree)
    ensures Filter(Subtrees(t), KeptAsWritten) == ChildlessNps(t)
  {
    if t.Node? {
      KeptAsWrittenIff(t);
      FilterAppend([t], SubtreesOf(t.children), KeptAsWritten);
      FilterKeptAsWrittenOf(t.children);
    }
  }

  lemma {:induction false} FilterKeptAsWrittenOf(cs: seq<Tree>)
    ensures Filter(SubtreesOf(cs), KeptAsWritten) == ChildlessNpsOf(cs)
  {
    if cs != [] {
      FilterAppend(Subtrees(cs[0]), SubtreesOf(cs[1..]), KeptAsWritten);
      FilterKeptAsWritten(cs[0]);
      FilterKeptAsWrittenOf(cs[1..]);
    }
  }

  /** Walking the pre-order with the doc-comment's test gives the depth-first minimal NPs. */
  lemma {:induction false} FilterChunks(t: Tree)
    ensures Filter(Subtrees(t), IsChunk) == MinimalNps(t)
  {
    if t.Node? {
      FilterAppend([t], SubtreesOf(t.children), IsChunk);
      FilterChunksOf(t.children);
      if IsChunk(t) {
        FilterNone(SubtreesOf(t.children), IsChunk);
      }
    }
  }

  lemma {:induction false} FilterChunksOf(cs: seq<Tree>)
    ensures Filter(SubtreesOf(cs), IsChunk) == MinimalNpsOf(cs)
  {
    if cs != [] {
      FilterAppend(Subtrees(cs[0]), SubtreesOf(cs[1..]), IsChunk);
      FilterChunks(cs[0]);
      FilterChunksOf(cs[1..]);
    }
  }

  /**
   * As written, `np_chunk` returns exactly the NP subtrees that have no
   * children, each from its own pre-order position, in pre-order.
   */
  lemma ChildlessNpsExact(t: Tree)
    ensures forall s :: s in ChildlessNps(t) <==> s in Subtrees(t) && IsNp(s) && s.children == []
    ensures IsSubsequence(ChildlessNps(t), Subtrees(t))
  {
    FilterKeptAsWritten(t);
    FilterIsSubsequence(Subtrees(t), KeptAsWritten);
    forall s ensures KeptAsWritten(s) <==> IsNp(s) && s.children == [] {
      KeptAsWrittenIff(s);
    }
  }

  /** In a tree built from rules with non-empty right-hand sides, no node is childless, so `np_chunk` as written finds nothing. */
  lemma {:induction false} ChildlessNpsOfConforming(g: Rules, t: Tree)
    requires NoEmptyAlternatives(g) && Conforms(g, t)
    ensures ChildlessNps(t) == []
  {
    if t.Node? {
      assert SymbolsOf(t.children) in g[t.tag];
      ChildlessNpsOfConformingSeq(g, t.children);
    }
  }

  lemma {:induction false} ChildlessNpsOfConformingSeq(g: Rules, cs: seq<Tree>)
    requires NoEmptyAlternatives(g) && forall i :: 0 <= i < |cs| ==> Conforms(g, cs[i])
    ensures ChildlessNpsOf(cs) == []
  {
    if cs != [] {
      ChildlessNpsOfConforming(g, cs[0]);
      ChildlessNpsOfConformingSeq(g, cs[1..]);
    }
  }

  /** As written, `np_chunk` returns no chunk for any tree the parser produces from the fixed grammar. */
  lemma NpChunkLiteralEmptyOnParses(t: Tree, tokens: seq<string>)
    requires IsDerivation(Cfg, t, tokens)
    ensures ChildlessNps(t) == []
  {
    CfgWellFormed();
    ChildlessNpsOfConforming(Cfg, t);
  }

  /**
   * As the doc-comment specifies, a subtree is returned iff it is an NP
   * with no NP among its proper descendants; each comes from its own
   * pre-order position, in pre-order.
   */
  lemma MinimalNpsExact(t: Tree)
    ensures forall s :: s in MinimalNps(t) <==> s in Subtrees(t) && IsNp(s) && forall d :: d in Descendants(s) ==> !IsNp(d)
    ensures IsSubsequence(MinimalNps(t), Subtrees(t))
  {
    FilterChunks(t);
    FilterIsSubsequence(Subtrees(t), IsChunk);
  }

  /** Chunks are pairwise non-nested: none lies strictly below another. */
  lemma MinimalNpsNotNested(t: Tree)
    ensures forall a, b :: a in MinimalNps(t) && b in MinimalNps(t) ==> a !in Descendants(b)
  {
    MinimalNpsExact(t);
  }

  /** The chunks' words, joined in order, are a subsequence of the sentence's words. */
  lemma {:induction false} MinimalNpsLeaves(t: Tree)
    ensures IsSubsequence(LeavesOf(MinimalNps(t)), Leaves(t))
  {
    match t
    case Leaf(w) =>
    case Node(_, cs) =>
      if IsChunk(t) {
        assert [t][1..] == [];
        assert LeavesOf([t]) == Leaves(t) + LeavesOf([]) == Leaves(t);
        SubsequenceRefl(Leaves(t));
      } else {
        MinimalNpsOfLeaves(cs);
      }
  }

  lemma {:induction false} MinimalNpsOfLeaves(cs: seq<Tree>)
    ensures IsSubsequence(LeavesOf(MinimalNpsOf(cs)), LeavesOf(cs))
  {
    if cs != [] {
      MinimalNpsLeaves(cs[0]);
      MinimalNpsOfLeaves(cs[1..]);
      LeavesOfAppend(MinimalNps(cs[0]), MinimalNpsOf(cs[1..]));
      SubsequenceConcat(LeavesOf(MinimalNps(cs[0])), Leaves(cs[0]),
                        LeavesOf(MinimalNpsOf(cs[1..])), LeavesOf(cs[1..]));
    }
  }

  /** The parse of "holmes sat": S(NP(N holmes), VP(V sat)). */
  const HolmesNp := Node("NP", [Node("N", [Leaf("holmes")])])
  const HolmesSat := Node("S", [HolmesNp, Node("VP", [Node("V", [Leaf("sat")])])])

  const SatVp := Node("VP", [Node("V", [Leaf("sat")])])

  lemma HolmesNpConforms()
    ensures Conforms(Cfg, HolmesNp)
  {
    var n := Node("N", [Leaf("holmes")]);
    assert Cfg["N"] == TerminalRules["N"];
    assert [Terminal("holmes")] == TerminalRules["N"][7];
    assert SymbolsOf([Leaf("holmes")]) == [Terminal("holmes")];
    assert Conforms(Cfg, n);
    assert Cfg["NP"] == NonterminalRules["NP"];
    assert SymbolsOf([n]) == [Nonterminal("N")] == Cfg["NP"][0];
  }

  lemma SatVpConforms()
    ensures Conforms(Cfg, SatVp)
  {
    var v := Node("V", [Leaf("sat")]);
    assert Cfg["V"] == TerminalRules["V"];
    assert [Terminal("sat")] == TerminalRules["V"][6];
    assert SymbolsOf([Leaf("sat")]) == [Terminal("sat")];
    assert Conforms(Cfg, v);
    assert Cfg["VP"] == NonterminalRules["VP"];
    assert SymbolsOf([v]) == [Nonterminal("V")] == Cfg["VP"][0];
  }

  lemma SentenceRuleNpVp()
    ensures "S" in Cfg && [Nonterminal("NP"), Nonterminal("VP")] in Cfg["S"]
  {
    assert Cfg["S"] == NonterminalRules["S"];
    assert Cfg["S"][0] == [Nonterminal("NP"), Nonterminal("VP")];
  }

  lemma HolmesSatConforms()
    ensures Conforms(Cfg, HolmesSat)
  {
    HolmesNpConforms();
    SatVpConforms();
    SentenceRuleNpVp();
    assert SymbolsOf([HolmesNp, SatVp]) == [Nonterminal("NP"), Nonterminal("VP")];
  }

  /** S(NP(N holmes), VP(V sat)) is a parse of "holmes sat" under the fixed grammar. */
  lemma HolmesSatIsDerivation()
    ensures IsDerivation(Cfg, HolmesSat, ["holmes", "sat"])
  {
    HolmesSatConforms();
    assert Leaves(HolmesNp) == ["holmes"] by {
      assert Leaves(Node("N", [Leaf("holmes")])) == ["holmes"];
    }
    assert LeavesOf([SatVp]) == ["sat"] by {
      assert Leaves(Node("V", [Leaf("sat")])) == ["sat"];
      assert Leaves(SatVp) == ["sat"];
    }
    assert LeavesOf([HolmesNp, SatVp]) == Leaves(HolmesNp) + LeavesOf([SatVp]);
  }

  /**
   * For "holmes sat" the doc-comment's chunker finds the one chunk
   * NP(N holmes), while `np_chunk` as written returns nothing.
   */
  lemma HolmesSatChunks()
    ensures MinimalNps(HolmesSat) == [HolmesNp]
    ensures ChildlessNps(HolmesSat) == []
  {
    HolmesSatIsDerivation();
    NpChunkLiteralEmptyOnParses(HolmesSat, ["holmes", "sat"]);
    var n := Node("N", [Leaf("holmes")]);
    assert SubtreesOf([Leaf("holmes")]) == [];
    assert Descendants(n) == [] && Subtrees(n) == [n];
    assert Descendants(HolmesNp) == [n];
    assert IsChunk(HolmesNp);
    assert Descendants(HolmesSat) == Subtrees(HolmesNp) + SubtreesOf([SatVp]);
    assert Subtrees(HolmesNp)[0] == HolmesNp;
    assert !IsChunk(HolmesSat);
    assert MinimalNps(HolmesNp) == [HolmesNp];
    assert !IsChunk(SatVp) && !IsChunk(Node("V", [Leaf("sat")]));
    assert MinimalNps(SatVp) == [];
    assert MinimalNpsOf([HolmesNp, SatVp]) == [HolmesNp] + MinimalNpsOf([SatVp]);
  }
}
