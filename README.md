# Noun-phrase chunking and TF-IDF retrieval, modelled in Dafny

This project models two small programs from a natural-language-processing
course repository.

**`cs50/parser/parser.py`** parses sentences with a fixed context-free grammar
and prints their noun-phrase chunks. The model covers:

- the grammar (`TERMINALS` and `NONTERMINALS`) as a constant value `Grammar.Cfg`;
- a predicate `Grammar.IsDerivation` for the parse trees the chart parser can
  hand back;
- the word filter of `preprocess`;
- the chunker `np_chunk`, in two versions:
  - `Parser.NpChunkLiteral`, as the code is written;
  - `Parser.NpChunkIntended`, as its doc-comment specifies.

Parse trees are the datatype `Trees.Tree`. `Trees.Subtrees` is NLTK's
`Tree.subtrees()`: a pre-order walk that yields the node itself first and never
yields leaf strings.

**`cs50/questions/questions.py`** answers questions from a corpus. The model
covers:

- `tokenize`'s filter;
- `compute_idfs`, as the loop method `Questions.ComputeIdfs`, proved equal to
  the map `Questions.Idfs`, which is defined from document counts;
- `tfidf`, as the accumulator loop `Questions.TfIdf`, proved equal to the sum
  `Questions.QueryScore`;
- `query_term_density`;
- `top_files` and `top_sentences`, which sort by a key in descending order and
  keep the first `n`.

Python's `sorted(..., reverse=True)` and `list.sort(..., reverse=True)` are
stable and compare tuples lexicographically. The module `Ranking` models them
as a stable insertion sort, `SortDesc`, with the lexicographic order `Above`.
Python's `[:n]` slice, including negative `n`, is `SliceTo`. A Python dict
that maps names to word lists is a sequence of `Questions.Document` in
insertion order, with distinct names (`DistinctKeys`).

Inputs the programs get from libraries become parameters:

- tokens, stopword sets and parse trees;
- `str.isalpha` as `isAlpha: char -> bool`;
- `math.log` as `log: real -> real`.

## Model

| member | source | states |
|---|---|---|
| Text.HasAlpha | cs50/parser/parser.py:82 | stands for `any(char.isalpha() for char in word)`: some character of the word is alphabetic, with `isalpha` a parameter |
| Parser.Preprocess | cs50/parser/parser.py:82 | keeps, in order, exactly the tokens containing an alphabetic character, each with its full multiplicity |
| Grammar.Cfg | cs50/parser/parser.py:5-28 | stands for `NONTERMINALS + TERMINALS`: each nonterminal mapped to its alternatives in source order, the three `N` lines and two `V` lines joined |
| Grammar.CfgSymbols | cs50/parser/parser.py:5-26 | the grammar has rules for exactly S, NP, VP, PP, Adj, Adv, Conj, Det, N, P and V |
| Grammar.Conforms | cs50/parser/parser.py:28-29 | stands for a tree the chart parser can build: every node's children spell out one of the alternatives for its label |
| Grammar.IsDerivation | cs50/parser/parser.py:57 | stands for a tree in `parser.parse(s)`: rooted at S, conforming, its leaves reading the tokens |
| Grammar.ConformingHasLeaves | cs50/parser/parser.py:19-25 | with no empty productions, every node of a conforming tree has at least one word below it |
| Grammar.DerivationHasWords | cs50/parser/parser.py:57 | every parse under the fixed grammar reads at least one word |
| Trees.Subtrees | cs50/parser/parser.py:94 | stands for NLTK's `tree.subtrees()`: the node itself, then the subtrees of its tree children, in pre-order |
| Trees.SubtreesAreNodes | cs50/parser/parser.py:94-96 | `subtrees()` yields the node itself first and only trees, never words |
| Grammar.CfgWellFormed | cs50/parser/parser.py:5-26 | the grammar is closed (every right-hand-side nonterminal S, NP, VP, PP, Adj, Adv, Conj, Det, N, P, V has a rule), has no empty production, and has rules for the start symbol S |
| Parser.NpChunkLiteral | cs50/parser/parser.py:93-98 | the pre-order loop with the line-96 test returns exactly the childless NP subtrees (ChildlessNps), in pre-order |
| Parser.KeptAsWrittenIff | cs50/parser/parser.py:96 | `not any(subtree.subtrees(NP-filter))` holds for an NP exactly when it has no children, because the node itself is yielded first and is truthy iff it has children |
| Parser.ChildlessNpsExact | cs50/parser/parser.py:94-97 | as written, a subtree is returned iff it is an NP with no children; results are taken from their own pre-order positions, in order |
| Parser.ChildlessNpsOfConforming | cs50/parser/parser.py:23 | in any tree built from rules with non-empty right-hand sides, the as-written chunker finds nothing |
| Parser.NpChunkLiteralEmptyOnParses | cs50/parser/parser.py:96 | as written, `np_chunk` returns `[]` for every tree the parser can produce from the fixed grammar |
| Parser.NpChunkIntended | cs50/parser/parser.py:86-98 | the same pre-order loop with the doc-comment's test returns the depth-first minimal NPs (MinimalNps) |
| Parser.MinimalNpsExact | cs50/parser/parser.py:88-91 | a subtree is returned iff it is labelled NP and no proper descendant is labelled NP; results are taken from their own pre-order positions, in order |
| Parser.MinimalNpsNotNested | cs50/parser/parser.py:88-91 | no returned chunk lies strictly below another returned chunk |
| Parser.MinimalNpsLeaves | cs50/parser/parser.py:70-71 | the chunks' words (`np.flatten()` of each chunk), joined in order, are a subsequence of the sentence's words |
| Parser.HolmesSatIsDerivation | cs50/parser/parser.py:11-24 | S(NP(N holmes), VP(V sat)) is a parse of "holmes sat" under the fixed grammar |
| Parser.HolmesSatChunks | cs50/parser/parser.py:86-98 | on that parse the doc-comment's chunker returns NP(N holmes), while the code as written returns nothing |
| Questions.Tokenize | cs50/questions/questions.py:70 | keeps, in order, exactly the tokens that are not stopwords and contain an alphabetic character, each with its full multiplicity |
| Questions.Vocabulary | cs50/questions/questions.py:83-85 | a word is in the vocabulary iff some document contains it |
| Questions.DocCount | cs50/questions/questions.py:83-85 | each document contributes at most once (`set(words)`), so the count is at most the number of documents, and positive iff some document contains the word |
| Questions.DocCountSnoc | cs50/questions/questions.py:83-85 | processing one more document adds one to a word's count exactly when that document contains the word |
| Questions.DocCountBounds | cs50/questions/questions.py:83-85 | a word is counted iff its count is between 1 and the number of documents |
| Questions.CountDocument | cs50/questions/questions.py:84-85 | the inner loop over `set(words)` adds the document's words to the keys and raises each one's count by exactly one |
| Questions.ComputeIdfs | cs50/questions/questions.py:82-89 | the two loops produce exactly Idfs: one entry per word that occurs in some document, valued `log(len(documents) / doc_count)` |
| Questions.Idfs | cs50/questions/questions.py:86-88 | the key set is exactly the words that occur in at least one document |
| Questions.IdfArgumentAtLeastOne | cs50/questions/questions.py:88 | `len(documents) / doc_counts[word]` is at least 1 |
| Questions.IdfsNonNegative | cs50/questions/questions.py:88 | when `log` is non-negative on [1, ∞), every IDF value is non-negative |
| Questions.Term | cs50/questions/questions.py:95 | one query word's `words.count(word) * idfs.get(word, 0)`; 0 when the word does not occur or has no IDF |
| Questions.QueryScore | cs50/questions/questions.py:93-95 | stands for the sum the loop accumulates: the terms of the query words, in visiting order |
| Questions.TfIdf | cs50/questions/questions.py:92-96 | the accumulator loop returns the sum, over query words, of the word's count in `words` times its IDF (0 when it has no entry) |
| Questions.QueryScoreNoMatch | cs50/questions/questions.py:92-96 | the score is 0 when no query word occurs in `words` |
| Questions.QueryScoreNonNegative | cs50/questions/questions.py:92-96 | with non-negative IDF values the score is non-negative |
| Questions.QueryScoreRemove | cs50/questions/questions.py:94-95 | the score is the term of any single query word plus the score of the rest of the query |
| Questions.QueryScorePermutation | cs50/questions/questions.py:94 | the score does not depend on the order in which the query set is iterated |
| Questions.TfIdfNonNegative | cs50/questions/questions.py:88-96 | scores against IDF values computed by `compute_idfs` are non-negative |
| Questions.QueryHits | cs50/questions/questions.py:118 | the number of words in the query is at most the sentence length, 0 iff no word is in the query, and the full length iff every word is |
| Questions.QueryTermDensity | cs50/questions/questions.py:117-118 | for a non-empty sentence the density lies in [0, 1]; it is 0 iff no word is in the query and 1 iff every word is |
| Questions.WordsOf | cs50/questions/questions.py:106 | stands for `files[file]`: the words stored under a name |
| Questions.WordsOfName | cs50/questions/questions.py:106 | looking up an entry's own name yields its own word list |
| Questions.FileRankingNames | cs50/questions/questions.py:106 | ranking the files keeps exactly `files.keys()`, in dictionary order |
| Questions.FileRankingEntry | cs50/questions/questions.py:106 | each ranked entry is a file name paired with that file's tf-idf score |
| Questions.TopFiles | cs50/questions/questions.py:99-106 | returns min(n, number of files) file names when n ≥ 0 (Python slice length otherwise); the names are distinct keys of `files`, in non-increasing score order, and no omitted file scores higher than an included one |
| Questions.TopFilesKeys | cs50/questions/questions.py:106 | the selected names are distinct keys of `files` |
| Questions.TopFilesOrdered | cs50/questions/questions.py:106 | the selected names are in non-increasing tf-idf order |
| Questions.TopFilesOmitted | cs50/questions/questions.py:106 | no omitted file scores higher than a selected one |
| Questions.SentenceRankingNames | cs50/questions/questions.py:120-122 | the list built from the sentences holds exactly their keys, in dictionary order |
| Questions.TopSentences | cs50/questions/questions.py:117-124 | returns the names of the first n of the stable descending sort by (tfidf, density); the count is the slice length, and the sentences are distinct keys |
| Questions.SentenceRankingKeys | cs50/questions/questions.py:124 | the selected sentences are distinct keys of `sentences` |
| Ranking.AboveIrreflexive | cs50/questions/questions.py:123 | no key tuple is greater than itself |
| Ranking.AboveTransitive | cs50/questions/questions.py:123 | the tuple order is transitive |
| Ranking.AboveTotal | cs50/questions/questions.py:123 | any two key tuples are equal or ordered one way or the other |
| Ranking.AboveSingle | cs50/questions/questions.py:106 | on one-element keys the order is the order of the scores |
| Ranking.Names | cs50/questions/questions.py:124 | `[sentence[0] for sentence in ...]` keeps the names in order |
| Ranking.Insert | cs50/questions/questions.py:123 | one insertion step of the stable descending sort: the entry goes after the entries whose key is above its own and before the rest, so it precedes equal keys; the list grows by one |
| Ranking.SortDesc | cs50/questions/questions.py:106 | stands for `sorted(..., reverse=True)` and `list.sort(..., reverse=True)` as a stable insertion sort; the length is kept (permutation, order and stability in the lemmas below) |
| Ranking.InsertPermutation | cs50/questions/questions.py:123 | inserting adds exactly one element |
| Ranking.SortDescPermutation | cs50/questions/questions.py:106 | sorting is a permutation of its input |
| Ranking.InsertSorted | cs50/questions/questions.py:123 | inserting into a descending list keeps it descending |
| Ranking.SortDescSorted | cs50/questions/questions.py:106 | the result is in non-increasing key order |
| Ranking.DistinctNamesIff | cs50/questions/questions.py:124 | entries have distinct names iff the list of their names has no duplicates |
| Ranking.InsertDistinctNames | cs50/questions/questions.py:123 | inserting an entry under a new name keeps names distinct |
| Ranking.SortDescDistinctNames | cs50/questions/questions.py:106 | sorting keeps names distinct |
| Ranking.WithKey | cs50/questions/questions.py:123 | an entry is kept iff it is in the list and has the given key |
| Ranking.InsertStable | cs50/questions/questions.py:123 | the inserted element goes before all equal-keyed entries and their order is unchanged |
| Ranking.SortDescStable | cs50/questions/questions.py:123 | the sort is stable: entries with equal keys keep their input order, even with `reverse=True` |
| Ranking.SortedPrefixDominates | cs50/questions/questions.py:124 | no entry left out of a prefix of the sorted list has a greater key than one in it |
| Ranking.SortedPrefixTies | cs50/questions/questions.py:124 | among equal keys, a prefix of the sorted list keeps the earliest entries in input order |
| Ranking.SliceTo | cs50/questions/questions.py:124 | stands for Python's `[:n]`: the first `SliceLen(len, n)` elements, so a negative `n` drops that many from the end |
| Ranking.SliceLen | cs50/questions/questions.py:124 | the length of `[:n]` is at most the list's length |
| Ranking.TopN | cs50/questions/questions.py:123-124 | the first n of the stable descending sort: the slice length, a sub-multiset of the input, descending, nothing omitted above anything kept, equal keys in input order, and names stay distinct |
| Ranking.TopNMember | cs50/questions/questions.py:124 | everything selected comes from the input |

## Left out

- The two `main` functions and `load_files`, which handle command-line arguments, `input()`, `print`, directory listing and file reading.
- NLTK's `word_tokenize`, `sent_tokenize`, the English stopword corpus, `CFG.fromstring` and `ChartParser`. These are library code. Tokens, the stopword set and parse trees are inputs, and parse trees are constrained by `Grammar.IsDerivation`. No chart parser is modelled.
- `tree.pretty_print()` and the printing of chunks; the words one chunk prints are `Trees.Leaves(chunk)`, and all chunks' words joined in order are `Trees.LeavesOf`.
- Lowercasing with `.lower()`, which is treated as part of tokenization. `str.isalpha` is a parameter.
- Floating-point arithmetic. Scores are `real`, and `math.log` is an uninterpreted parameter. Facts about IDF values assume `log` is non-negative on [1, ∞).
- `Questions.TopSentences` ranks by `(tfidf, density)`, as line 122 of cs50/questions/questions.py does. The doc-comment at lines 113-115 says "ranked according to idf", which would count each matching query word once; under tf-idf a query word that occurs twice in a sentence counts twice. The model follows the code.
- `Questions.TfIdf`, `Questions.QueryScore`: the query is a Python set, whose iteration order is not specified. It is modelled as a sequence of words in iteration order, and `Questions.QueryScorePermutation` shows the order does not matter.
- `Questions.ComputeIdfs`: the returned dict's insertion order is not modelled, because the result is a `map`. Only its keys and values are stated.
- `Questions.TopSentences`: `list.sort` sorts in place. It is modelled on values: the method builds the list with a loop and then sorts it with the function `Ranking.SortDesc`.
- `Questions.TopSentences` requires every sentence's word list to be non-empty. This is the caller's `if tokens:` filter in `main`, and without it the density would divide by zero.
- `Questions.TopFiles`, `Questions.TopSentences`: the dictionary arguments must have distinct names. This always holds for Python dict keys.
- `Parser.MinimalNpsExact`, `Parser.ChildlessNpsExact`: trees are values, so two identical subtrees compare equal. "No duplicates" is therefore stated as "each result taken from its own pre-order position" (a subsequence of the pre-order walk), not as distinctness of values.

## Findings

| source | as written | input that shows it | evidently intended | confidence | as-written member | corrected member |
|---|---|---|---|---|---|---|
| cs50/parser/parser.py:96 | `subtree.subtrees(filter)` also yields `subtree` itself, which is an NP and is truthy whenever it has children, so `any(...)` is true for every NP that has children and only childless NPs are kept; no parse from the grammar has one, so `np_chunk` always returns `[]` | the parse S(NP(N holmes), VP(V sat)) of "holmes sat" | keep the NPs with no NP among their proper descendants, as the doc-comment says; here NP(N holmes) | not executed | Parser.NpChunkLiteral (shown by Parser.HolmesSatChunks and Parser.NpChunkLiteralEmptyOnParses) | Parser.NpChunkIntended (Parser.MinimalNpsExact, Parser.MinimalNpsNotNested) |
