/**
 * The parser's fixed context-free grammar, as data: the terminal rules
 * (`TERMINALS`) and the phrase rules (`NONTERMINALS`) that are joined and
 * handed to `nltk.CFG.fromstring`. The start symbol is the left-hand side of
 * the first rule, `S`.
 */
module Grammar {
  import opened Trees

  datatype Symbol = Terminal(word: string) | Nonterminal(name: string)

  /** Each nonterminal name mapped to its alternatives, each a right-hand side, in source order. */
  type Rules = map<string, seq<seq<Symbol>>>

  const Start := "S"

  /** One single-terminal alternative per word: `X -> "w1" | "w2" | ...`. */
  function WordAlternatives(words: seq<string>): seq<seq<Symbol>> {
    seq(|words|, i requires 0 <= i < |words| => [Terminal(words[i])])
  }

  const TerminalRules: Rules := map[
    "Adj" := WordAlternatives(["country", "dreadful", "enigmatical", "little", "moist", "red"]),
    "Adv" := WordAlternatives(["down", "here", "never"]),
    "Conj" := WordAlternatives(["and", "until"]),
    "Det" := WordAlternatives(["a", "an", "his", "my", "the"]),
    "N" := WordAlternatives(["armchair", "companion", "day", "door", "hand", "he", "himself",
                             "holmes", "home", "i", "mess", "paint", "palm", "pipe", "she",
                             "smile", "thursday", "walk", "we", "word"]),
    "P" := WordAlternatives(["at", "before", "in", "of", "on", "to"]),
    "V" := WordAlternatives(["arrived", "came", "chuckled", "had", "lit", "said", "sat",
                             "smiled", "tell", "were"])
  ]

  const NonterminalRules: Rules := map[
    "S" := [[Nonterminal("NP"), Nonterminal("VP")],
            [Nonterminal("NP"), Nonterminal("VP"), Nonterminal("PP")],
            [Nonterminal("S"), Nonterminal("Conj"), Nonterminal("S")],
            [Nonterminal("S"), Nonterminal("Conj"), Nonterminal("VP")]],
    "NP" := [[Nonterminal("N")],
             [Nonterminal("Det"), Nonterminal("NP")],
             [Nonterminal("Adj"), Nonterminal("NP")],
             [Nonterminal("Det"), Nonterminal("Adj"), Nonterminal("NP")],
             [Nonterminal("NP"), Nonterminal("Adv")],
             [Nonterminal("NP"), Nonterminal("PP")]],
    "VP" := [[Nonterminal("V")],
             [Nonterminal("VP"), Nonterminal("NP")],
             [Nonterminal("Adv"), Nonterminal("VP")],
             [Nonterminal("V"), Nonterminal("PP")],
             [Nonterminal("V"), Nonterminal("Adv")]],
    "PP" := [[Nonterminal("P"), Nonterminal("NP")]]
  ]

  /** The grammar the parser is built from: `NONTERMINALS + TERMINALS`. */
  const Cfg: Rules := NonterminalRules + TerminalRules

  /** No dangling nonterminals: every nonterminal on a right-hand side has a rule of its own. */
  predicate Closed(g: Rules) {
    forall x, alt, s :: x in g && alt in g[x] && s in alt && s.Nonterminal? ==> s.name in g
  }

  /** Every alternative has at least one symbol (the grammar has no empty productions). */
  predicate NoEmptyAlternatives(g: Rules) {
    forall x, alt :: x in g && alt in g[x] ==> alt != []
  }

  /** The symbol a child stands for in its parent's production. */
  function SymbolOf(t: Tree): Symbol {
    match t
    case Node(tag, _) => Nonterminal(tag)
    case Leaf(w) => Terminal(w)
  }

  function SymbolsOf(cs: seq<Tree>): (syms: seq<Symbol>)
    ensures |syms| == |cs|
    ensures forall i :: 0 <= i < |cs| ==> syms[i] == SymbolOf(cs[i])
  {
    if cs == [] then [] else [SymbolOf(cs[0])] + SymbolsOf(cs[1..])
  }

  /** Every node of `t` is expanded by one of the grammar's alternatives for its label. */
  predicate Conforms(g: Rules, t: Tree) {
    match t
    case Leaf(_) => true
    case Node(tag, cs) =>
      tag in g && SymbolsOf(cs) in g[tag] && forall i :: 0 <= i < |cs| ==> Conforms(g, cs[i])
  }

  /**
   * `t` is one of the trees `parser.parse(tokens)` can yield: rooted at the
   * start symbol, every node expanded by a rule, leaves reading `tokens`.
   */
  predicate IsDerivation(g: Rules, t: Tree, tokens: seq<string>) {
    t.Node? && t.tag == Start && Conforms(g, t) && Leaves(t) == tokens
  }

  /** A tree built from rules without empty productions has at least one word below every node. */
  lemma {:induction false} ConformingHasLeaves(g: Rules, t: Tree)
    requires NoEmptyAlternatives(g) && Conforms(g, t)
    ensures Leaves(t) != []
  {
    if t.Node? {
      var cs := t.children;
      assert SymbolsOf(cs) in g[t.tag];
      assert cs != [];
      ConformingHasLeaves(g, cs[0]);
      assert LeavesOf(cs) == Leaves(cs[0]) + LeavesOf(cs[1..]);
    }
  }

  /** Every parse under the fixed grammar reads at least one word. */
  lemma DerivationHasWords(t: Tree, tokens: seq<string>)
    requires IsDerivation(Cfg, t, tokens)
    ensures tokens != []
  {
    CfgWellFormed();
    ConformingHasLeaves(Cfg, t);
  }

  /** The grammar has rules for exactly these eleven symbols. */
  lemma CfgSymbols()
    ensures Cfg.Keys == {"S", "NP", "VP", "PP", "Adj", "Adv", "Conj", "Det", "N", "P", "V"}
  {
  }

  /** Every right-hand side in `alts` is non-empty and names only nonterminals in `names`. */
  predicate AlternativesWithin(alts: seq<seq<Symbol>>, names: set<string>) {
    forall alt :: alt in alts ==> alt != [] && forall s :: s in alt && s.Nonterminal? ==> s.name in names
  }

  lemma {:induction false} WordAlternativesWithin(words: seq<string>, names: set<string>)
    ensures AlternativesWithin(WordAlternatives(words), names)
    ensures forall alt :: alt in WordAlternatives(words) ==> alt != []
  {
    var alts := WordAlternatives(words);
    forall alt, s | alt in alts && s in alt ensures s.Terminal? {
      var i :| 0 <= i < |alts| && alts[i] == alt;
    }
    forall alt | alt in alts ensures alt != [] {
      var i :| 0 <= i < |alts| && alts[i] == alt;
    }
  }

  lemma TerminalRulesWithin(names: set<string>)
    ensures forall x :: x in TerminalRules ==> AlternativesWithin(TerminalRules[x], names)
  {
    forall x | x in TerminalRules ensures AlternativesWithin(TerminalRules[x], names) {
      if x == "Adj" {
        WordAlternativesWithin(["country", "dreadful", "enigmatical", "little", "moist", "red"], names);
      } else if x == "Adv" {
        WordAlternativesWithin(["down", "here", "never"], names);
      } else if x == "Conj" {
        WordAlternativesWithin(["and", "until"], names);
      } else if x == "Det" {
        WordAlternativesWithin(["a", "an", "his", "my", "the"], names);
      } else if x == "N" {
        WordAlternativesWithin(["armchair", "companion", "day", "door", "hand", "he", "himself",
                                "holmes", "home", "i", "mess", "paint", "palm", "pipe", "she",
                                "smile", "thursday", "walk", "we", "word"], names);
      } else if x == "P" {
        WordAlternativesWithin(["at", "before", "in", "of", "on", "to"], names);
      } else {
        WordAlternativesWithin(["arrived", "came", "chuckled", "had", "lit", "said", "sat",
                                "smiled", "tell", "were"], names);
      }
    }
  }

  lemma NonterminalRulesWithin(names: set<string>)
    requires {"S", "NP", "VP", "PP", "Adj", "Adv", "Conj", "Det", "N", "P", "V"} <= names
    ensures forall x :: x in NonterminalRules ==> AlternativesWithin(NonterminalRules[x], names)
  {
  }

  /** The fixed grammar is well formed: closed, without empty productions, and with rules for its start symbol. */
  lemma CfgWellFormed()
    ensures Closed(Cfg) && NoEmptyAlternatives(Cfg) && Start in Cfg
  {
    var names := Cfg.Keys;
    assert {"S", "NP", "VP", "PP", "Adj", "Adv", "Conj", "Det", "N", "P", "V"} <= names;
    TerminalRulesWithin(names);
    NonterminalRulesWithin(names);
    forall x | x in Cfg ensures AlternativesWithin(Cfg[x], names) {
      if x in TerminalRules {
        assert Cfg[x] == TerminalRules[x];
      } else {
        assert Cfg[x] == NonterminalRules[x];
      }
    }
  }
}
