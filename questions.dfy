/**
 * The question-answering program's retrieval core: the token filter of
 * `tokenize`, document frequencies and inverse document frequencies
 * (`compute_idfs`), the tf-idf score of a query against a word list
 * (`tfidf`), query term density, and the two rankings `top_files` and
 * `top_sentences`.
 *
 * A Python dictionary from names to word lists is a sequence of `Document`s
 * in insertion order with distinct names. A query (a Python set) is a
 * sequence in the set's iteration order without duplicates; the score does
 * not depend on that order (`QueryScorePermutation`). `math.log` is the
 * parameter `log`.
 */
module Questions {
  import opened Seqs
  import opened Text
  import opened Ranking

  /** One entry of a dictionary mapping a name (a file name or a sentence) to its words. */
  datatype Document = Document(name: string, words: seq<string>)

  /** The dictionary's keys, in insertion order. */
  function Keys(docs: seq<Document>): seq<string> {
    seq(|docs|, i requires 0 <= i < |docs| => docs[i].name)
  }

  /** A dictionary has each key once. */
  predicate DistinctKeys(docs: seq<Document>) {
    NoDuplicates(Keys(docs))
  }

  /** `files[name]`: the words stored under `name` (the first entry with that name; no entry gives no words). */
  function WordsOf(docs: seq<Document>, name: string): seq<string> {
    if docs == [] then []
    else if docs[0].name == name then docs[0].words
    else WordsOf(docs[1..], name)
  }

  /** With distinct keys, looking up an entry's own name finds that entry's words. */
  lemma {:induction false} WordsOfName(docs: seq<Document>, i: nat)
    requires DistinctKeys(docs) && i < |docs|
    ensures WordsOf(docs, docs[i].name) == docs[i].words
  {
    if i > 0 {
      assert Keys(docs)[0] != Keys(docs)[i];
      assert DistinctKeys(docs[1..]) by {
        forall a, b | 0 <= a < b < |docs| - 1 ensures Keys(docs[1..])[a] != Keys(docs[1..])[b] {
          assert Keys(docs)[a + 1] != Keys(docs)[b + 1];
        }
      }
      WordsOfName(docs[1..], i - 1);
    }
  }

  // ---------------------------------------------------------------------
  // tokenize

  /**
   * The filter step of `tokenize`: keep, in order, each token that is not an
   * English stopword and contains an alphabetic character.
   */
  function Tokenize(words: seq<string>, stopwords: set<string>, isAlpha: char -> bool): (kept: seq<string>)
    ensures IsSubsequence(kept, words)
    ensures forall w :: w in kept <==> w in words && w !in stopwords && HasAlpha(w, isAlpha)
    ensures forall w :: multiset(kept)[w] == if w !in stopwords && HasAlpha(w, isAlpha) then multiset(words)[w] else 0
  {
    FilterIsSubsequence(words, w => w !in stopwords && HasAlpha(w, isAlpha));
    FilterCount(words, w => w !in stopwords && HasAlpha(w, isAlpha));
    Filter(words, w => w !in stopwords && HasAlpha(w, isAlpha))
  }

  // ---------------------------------------------------------------------
  // compute_idfs

  /** The words that occur in at least one document. */
  function Vocabulary(docs: seq<Document>): (vocab: set<string>)
    ensures forall w :: w in vocab <==> exists i :: 0 <= i < |docs| && w in docs[i].words
  {
    if docs == [] then {}
    else
      var last := docs[|docs| - 1];
      var v := Vocabulary(docs[..|docs| - 1]);
      assert forall i :: 0 <= i < |docs| - 1 ==> docs[..|docs| - 1][i] == docs[i];
      v + (set w | w in last.words)
  }

  /** The number of documents that contain `w`, each document counted once. */
  function DocCount(docs: seq<Document>, w: string): (c: nat)
    ensures c <= |docs|
    ensures c > 0 <==> exists i :: 0 <= i < |docs| && w in docs[i].words
  {
    if docs == [] then 0
    else
      var prefix := docs[..|docs| - 1];
      assert forall i :: 0 <= i < |docs| - 1 ==> prefix[i] == docs[i];
      DocCount(prefix, w) + if w in docs[|docs| - 1].words then 1 else 0
  }

  /** One more document adds one to the count of every word it contains and to no other. */
  lemma DocCountSnoc(docs: seq<Document>, d: Document, w: string)
    ensures DocCount(docs + [d], w) == DocCount(docs, w) + if w in d.words then 1 else 0
    ensures w in Vocabulary(docs + [d]) <==> w in Vocabulary(docs) || w in d.words
  {
    assert (docs + [d])[..|docs|] == docs;
  }

  /** A vocabulary word occurs in at least one and at most all of the documents. */
  lemma DocCountBounds(docs: seq<Document>, w: string)
    ensures w in Vocabulary(docs) <==> 1 <= DocCount(docs, w)
    ensures DocCount(docs, w) <= |docs|
  {
  }

  /** `math.log(len(documents) / doc_counts[word])`. */
  function Idf(docs: seq<Document>, w: string, log: real -> real): real
    requires w in Vocabulary(docs)
  {
    log(|docs| as real / DocCount(docs, w) as real)
  }

  /** The dictionary `compute_idfs` returns: one entry per vocabulary word. */
  function Idfs(docs: seq<Document>, log: real -> real): (idfs: map<string, real>)
    ensures idfs.Keys == Vocabulary(docs)
  {
    map w | w in Vocabulary(docs) :: Idf(docs, w, log)
  }

  lemma RatioAtLeastOne(n: real, c: real)
    requires 0.0 < c <= n
    ensures n / c >= 1.0
  {
    assert n / c * c == n;
  }

  /** The argument of every logarithm is at least 1: a word is in at most all the documents. */
  lemma IdfArgumentAtLeastOne(docs: seq<Document>, w: string)
    requires w in Vocabulary(docs)
    ensures |docs| as real / DocCount(docs, w) as real >= 1.0
  {
    RatioAtLeastOne(|docs| as real, DocCount(docs, w) as real);
  }

  /** With a logarithm that is non-negative from 1 on, every IDF value is non-negative. */
  lemma IdfsNonNegative(docs: seq<Document>, log: real -> real)
    requires forall x :: x >= 1.0 ==> log(x) >= 0.0
    ensures forall w :: w in Idfs(docs, log) ==> Idfs(docs, log)[w] >= 0.0
  {
    forall w | w in Idfs(docs, log) ensures Idfs(docs, log)[w] >= 0.0 {
      IdfArgumentAtLeastOne(docs, w);
    }
  }

  /** `doc_counts.get(word, 0)`. */
  function CountOrZero(counts: map<string, nat>, w: string): nat {
    if w in counts then counts[w] else 0
  }

  /**
   * The inner loop of `compute_idfs`: every distinct word of one document
   * adds one to its count, starting from 0 for a word not counted yet.
   */
  method CountDocument(docCounts: map<string, nat>, words: seq<string>) returns (counts: map<string, nat>)
    ensures forall w :: w in counts <==> w in docCounts || w in words
    ensures forall w :: w in counts ==> counts[w] == CountOrZero(docCounts, w) + if w in words then 1 else 0
  {
    counts := docCounts;
    var unseen := set w | w in words;
    ghost var done: set<string> := {};
    while unseen != {}
      invariant forall w :: w in words <==> w in done || w in unseen
      invariant forall w :: w in done ==> w !in unseen
      invariant forall w :: w in counts <==> w in docCounts || w in done
      invariant forall w :: w in counts ==> counts[w] == CountOrZero(docCounts, w) + if w in done then 1 else 0
      decreases |unseen|
    {
      var word :| word in unseen;
      counts := counts[word := CountOrZero(counts, word) + 1];
      unseen := unseen - {word};
      done := done + {word};
    }
  }

  /**
   * `compute_idfs`: count, per word, the documents whose word set holds it
   * (`doc_counts`), then map each counted word to the log of the number of
   * documents over its count.
   */
  method ComputeIdfs(documents: seq<Document>, log: real -> real) returns (idfs: map<string, real>)
    ensures idfs == Idfs(documents, log)
  {
    var docCounts: map<string, nat> := map[];
    for i := 0 to |documents|
      invariant forall w :: w in docCounts <==> w in Vocabulary(documents[..i])
      invariant forall w :: w in docCounts ==> docCounts[w] == DocCount(documents[..i], w)
    {
      docCounts := CountDocument(docCounts, documents[i].words);
      assert documents[..i + 1] == documents[..i] + [documents[i]];
      forall w ensures w in docCounts <==> w in Vocabulary(documents[..i + 1])
        ensures w in docCounts ==> docCounts[w] == DocCount(documents[..i + 1], w)
      {
        DocCountSnoc(documents[..i], documents[i], w);
      }
    }
    assert documents[..|documents|] == documents;
    idfs := map[];
    var pending := docCounts.Keys;
    while pending != {}
      invariant forall w :: w in pending ==> w in docCounts
      invariant forall w :: w in idfs <==> w in docCounts && w !in pending
      invariant forall w :: w in idfs ==> w in Vocabulary(documents) && idfs[w] == Idf(documents, w, log)
      decreases |pending|
    {
      var word :| word in pending;
      idfs := idfs[word := log(|documents| as real / docCounts[word] as real)];
      pending := pending - {word};
    }
    assert idfs.Keys == Idfs(documents, log).Keys;
  }

  // ---------------------------------------------------------------------
  // tfidf

  /** `idfs.get(word, 0)`. */
  function IdfOrZero(idfs: map<string, real>, w: string): real {
    if w in idfs then idfs[w] else 0.0
  }

  /** One query word's share of the score: its occurrences in `words` (`words.count(word)`) times its IDF. */
  function Term(w: string, words: seq<string>, idfs: map<string, real>): (r: real)
    ensures w !in words ==> r == 0.0
    ensures w !in idfs ==> r == 0.0
  {
    multiset(words)[w] as real * IdfOrZero(idfs, w)
  }

  /** The sum of `Term` over the query words, in the order they are visited. */
  function QueryScore(query: seq<string>, words: seq<string>, idfs: map<string, real>): real {
    if query == [] then 0.0
    else QueryScore(query[..|query| - 1], words, idfs) + Term(query[|query| - 1], words, idfs)
  }

  /** `tfidf`: accumulate each query word's occurrences times its IDF. */
  method TfIdf(query: seq<string>, words: seq<string>, idfs: map<string, real>) returns (tfidf: real)
    ensures tfidf == QueryScore(query, words, idfs)
  {
    tfidf := 0.0;
    for i := 0 to |query|
      invariant tfidf == QueryScore(query[..i], words, idfs)
    {
      assert query[..i + 1][..i] == query[..i];
      tfidf := tfidf + multiset(words)[query[i]] as real * IdfOrZero(idfs, query[i]);
    }
    assert query[..|query|] == query;
  }

  /** A word list that contains no query word scores 0. */
  lemma {:induction false} QueryScoreNoMatch(query: seq<string>, words: seq<string>, idfs: map<string, real>)
    requires forall q :: q in query ==> q !in words
    ensures QueryScore(query, words, idfs) == 0.0
  {
    if query != [] {
      assert query[|query| - 1] in query;
      assert forall q :: q in query[..|query| - 1] ==> q in query;
      QueryScoreNoMatch(query[..|query| - 1], words, idfs);
    }
  }

  /** With non-negative IDF values every score is non-negative. */
  lemma {:induction false} QueryScoreNonNegative(query: seq<string>, words: seq<string>, idfs: map<string, real>)
    requires forall w :: w in idfs ==> idfs[w] >= 0.0
    ensures QueryScore(query, words, idfs) >= 0.0
  {
    if query != [] {
      QueryScoreNonNegative(query[..|query| - 1], words, idfs);
    }
  }

  /** A non-empty query's score is its front's score plus its last word's term. */
  lemma QueryScoreLast(query: seq<string>, words: seq<string>, idfs: map<string, real>)
    requires query != []
    ensures QueryScore(query, words, idfs) ==
      QueryScore(query[..|query| - 1], words, idfs) + Term(query[|query| - 1], words, idfs)
  {
  }

  /** Taking one query word out lowers the score by exactly that word's term. */
  lemma {:induction false} QueryScoreRemove(query: seq<string>, i: nat, words: seq<string>, idfs: map<string, real>)
    requires i < |query|
    ensures QueryScore(query, words, idfs) == QueryScore(query[..i] + query[i + 1..], words, idfs) + Term(query[i], words, idfs)
  {
    var n := |query|;
    var front := query[..n - 1];
    var rest := query[..i] + query[i + 1..];
    QueryScoreLast(query, words, idfs);
    if i == n - 1 {
      assert rest == front;
    } else {
      QueryScoreRemove(front, i, words, idfs);
      var frontRest := front[..i] + front[i + 1..];
      assert rest == frontRest + [query[n - 1]];
      QueryScoreLast(rest, words, idfs);
      assert rest[..|rest| - 1] == frontRest;
      var s1, s2 := QueryScore(frontRest, words, idfs), QueryScore(front, words, idfs);
      var tLast, tI := Term(query[n - 1], words, idfs), Term(query[i], words, idfs);
      assert s2 == s1 + tI;
      assert QueryScore(rest, words, idfs) == s1 + tLast;
      assert QueryScore(query, words, idfs) == s2 + tLast;
    }
  }

  /** The score does not depend on the order in which the query set is visited. */
  lemma {:induction false} QueryScorePermutation(a: seq<string>, b: seq<string>, words: seq<string>, idfs: map<string, real>)
    requires multiset(a) == multiset(b)
    ensures QueryScore(a, words, idfs) == QueryScore(b, words, idfs)
    decreases |a|
  {
    if a == [] {
      assert |b| == |multiset(b)| == 0;
    } else {
      var n := |a|;
      var last := a[n - 1];
      assert last in multiset(b);
      var i :| 0 <= i < |b| && b[i] == last;
      var rest := b[..i] + b[i + 1..];
      assert multiset(a[..n - 1]) == multiset(rest) by {
        MultisetRemove(a, n - 1);
        MultisetRemove(b, i);
        assert a[..n - 1] == a[..n - 1] + a[n..];
      }
      QueryScorePermutation(a[..n - 1], rest, words, idfs);
      QueryScoreRemove(b, i, words, idfs);
      QueryScoreLast(a, words, idfs);
    }
  }

  /** Scores against the IDFs of `compute_idfs` are non-negative when `log` is non-negative from 1 on. */
  lemma TfIdfNonNegative(query: seq<string>, words: seq<string>, docs: seq<Document>, log: real -> real)
    requires forall x :: x >= 1.0 ==> log(x) >= 0.0
    ensures QueryScore(query, words, Idfs(docs, log)) >= 0.0
  {
    IdfsNonNegative(docs, log);
    QueryScoreNonNegative(query, words, Idfs(docs, log));
  }

  // ---------------------------------------------------------------------
  // query_term_density

  /** `sum([word in query for word in words])`: the positions of `words` holding a query word. */
  function QueryHits(query: seq<string>, words: seq<string>): (hits: nat)
    ensures hits <= |words|
    ensures hits == 0 <==> forall w :: w in words ==> w !in query
    ensures hits == |words| <==> forall w :: w in words ==> w in query
  {
    if words == [] then 0
    else
      assert forall w :: w in words <==> w == words[0] || w in words[1..];
      (if words[0] in query then 1 else 0) + QueryHits(query, words[1..])
  }

  lemma FractionBounds(a: real, b: real)
    requires 0.0 <= a <= b && 0.0 < b
    ensures 0.0 <= a / b <= 1.0
    ensures a / b == 0.0 <==> a == 0.0
    ensures a / b == 1.0 <==> a == b
  {
    assert a / b * b == a;
  }

  /**
   * `query_term_density`: the share of the sentence's words that are query
   * words; 0 exactly when none is, 1 exactly when all are. The program only
   * stores sentences with at least one token, so the division is defined.
   */
  function QueryTermDensity(query: seq<string>, words: seq<string>): (d: real)
    requires words != []
    ensures 0.0 <= d <= 1.0
    ensures d == 0.0 <==> forall w :: w in words ==> w !in query
    ensures d == 1.0 <==> forall w :: w in words ==> w in query
  {
    FractionBounds(QueryHits(query, words) as real, |words| as real);
    QueryHits(query, words) as real / |words| as real
  }

  // ---------------------------------------------------------------------
  // top_files and top_sentences

  /** A file's ranking entry: its name and the one-number key `tfidf(query, files[file], idfs)`. */
  function FileEntry(query: seq<string>, d: Document, idfs: map<string, real>): Scored {
    Scored(d.name, [QueryScore(query, d.words, idfs)])
  }

  function FileRanking(query: seq<string>, files: seq<Document>, idfs: map<string, real>): seq<Scored> {
    seq(|files|, i requires 0 <= i < |files| => FileEntry(query, files[i], idfs))
  }

  /** Ranking the files keeps `files.keys()`, in dictionary order. */
  lemma FileRankingNames(query: seq<string>, files: seq<Document>, idfs: map<string, real>)
    ensures Names(FileRanking(query, files, idfs)) == Keys(files)
  {
    var ranked := FileRanking(query, files, idfs);
    assert forall i :: 0 <= i < |files| ==> Names(ranked)[i] == ranked[i].name == Keys(files)[i];
  }

  /** The tf-idf score of the file named `name`. */
  function FileScore(query: seq<string>, files: seq<Document>, idfs: map<string, real>, name: string): real {
    QueryScore(query, WordsOf(files, name), idfs)
  }

  /** An entry of the ranking belongs to one file, and its key is that file's score. */
  lemma FileRankingEntry(query: seq<string>, files: seq<Document>, idfs: map<string, real>, e: Scored)
    requires DistinctKeys(files) && e in FileRanking(query, files, idfs)
    ensures e.name in Keys(files)
    ensures e.key == [FileScore(query, files, idfs, e.name)]
  {
    var ranked := FileRanking(query, files, idfs);
    var i :| 0 <= i < |ranked| && ranked[i] == e;
    WordsOfName(files, i);
    assert Keys(files)[i] == e.name;
  }

  /**
   * `top_files`: the names of the `n` files with the highest tf-idf, best
   * first. There are `n` of them (or all the files when there are fewer;
   * Python's slice rules for a negative `n`), each a key of `files` and none
   * twice, in non-increasing score order, and no file left out scores
   * higher than a file kept.
   */
  function TopFiles(query: seq<string>, files: seq<Document>, idfs: map<string, real>, n: int): (top: seq<string>)
    requires DistinctKeys(files)
    ensures |top| == SliceLen(|files|, n)
    ensures NoDuplicates(top)
    ensures forall name :: name in top ==> name in Keys(files)
    ensures forall i, j :: 0 <= i < j < |top| ==>
      FileScore(query, files, idfs, top[j]) <= FileScore(query, files, idfs, top[i])
    ensures forall d, name :: d in files && d.name !in top && name in top ==>
      FileScore(query, files, idfs, d.name) <= FileScore(query, files, idfs, name)
  {
    var best := TopN(FileRanking(query, files, idfs), n);
    TopFilesKeys(query, files, idfs, best, n);
    TopFilesOrdered(query, files, idfs, best, n);
    TopFilesOmitted(query, files, idfs, best, n);
    Names(best)
  }

  lemma TopFilesKeys(query: seq<string>, files: seq<Document>, idfs: map<string, real>, best: seq<Scored>, n: int)
    requires DistinctKeys(files) && best == TopN(FileRanking(query, files, idfs), n)
    ensures NoDuplicates(Names(best))
    ensures forall name :: name in Names(best) ==> name in Keys(files)
  {
    var ranked := FileRanking(query, files, idfs);
    assert DistinctNames(ranked) by {
      FileRankingNames(query, files, idfs);
      DistinctNamesIff(ranked);
    }
    DistinctNamesIff(best);
    forall name | name in Names(best) ensures name in Keys(files) {
      var i :| 0 <= i < |best| && Names(best)[i] == name;
      TopNMember(ranked, n, best[i]);
      FileRankingEntry(query, files, idfs, best[i]);
    }
  }

  lemma TopFilesOrdered(query: seq<string>, files: seq<Document>, idfs: map<string, real>, best: seq<Scored>, n: int)
    requires DistinctKeys(files) && best == TopN(FileRanking(query, files, idfs), n)
    ensures forall i, j :: 0 <= i < j < |best| ==>
      FileScore(query, files, idfs, Names(best)[j]) <= FileScore(query, files, idfs, Names(best)[i])
  {
    var ranked := FileRanking(query, files, idfs);
    forall i, j | 0 <= i < j < |best|
      ensures FileScore(query, files, idfs, Names(best)[j]) <= FileScore(query, files, idfs, Names(best)[i])
    {
      TopNMember(ranked, n, best[i]);
      TopNMember(ranked, n, best[j]);
      FileRankingEntry(query, files, idfs, best[i]);
      FileRankingEntry(query, files, idfs, best[j]);
      assert !Above(best[j].key, best[i].key);
      AboveSingle(FileScore(query, files, idfs, best[j].name), FileScore(query, files, idfs, best[i].name));
    }
  }

  lemma TopFilesOmitted(query: seq<string>, files: seq<Document>, idfs: map<string, real>, best: seq<Scored>, n: int)
    requires DistinctKeys(files) && best == TopN(FileRanking(query, files, idfs), n)
    ensures forall d, name :: d in files && d.name !in Names(best) && name in Names(best) ==>
      FileScore(query, files, idfs, d.name) <= FileScore(query, files, idfs, name)
  {
    var ranked := FileRanking(query, files, idfs);
    forall d, name | d in files && d.name !in Names(best) && name in Names(best)
      ensures FileScore(query, files, idfs, d.name) <= FileScore(query, files, idfs, name)
    {
      var k :| 0 <= k < |files| && files[k] == d;
      var e := ranked[k];
      var j :| 0 <= j < |best| && Names(best)[j] == name;
      assert e !in best;
      TopNMember(ranked, n, best[j]);
      FileRankingEntry(query, files, idfs, e);
      FileRankingEntry(query, files, idfs, best[j]);
      assert !Above(e.key, best[j].key);
      AboveSingle(FileScore(query, files, idfs, d.name), FileScore(query, files, idfs, name));
    }
  }

  /** A sentence's ranking entry: its name and the key `(tfidf, query term density)`. */
  function SentenceEntry(query: seq<string>, d: Document, idfs: map<string, real>): Scored
    requires d.words != []
  {
    Scored(d.name, [QueryScore(query, d.words, idfs), QueryTermDensity(query, d.words)])
  }

  function SentenceRanking(query: seq<string>, sentences: seq<Document>, idfs: map<string, real>): seq<Scored>
    requires forall d :: d in sentences ==> d.words != []
  {
    seq(|sentences|, i requires 0 <= i < |sentences| => SentenceEntry(query, sentences[i], idfs))
  }

  /** Ranking the sentences keeps the dictionary's keys, in dictionary order. */
  lemma SentenceRankingNames(query: seq<string>, sentences: seq<Document>, idfs: map<string, real>)
    requires forall d :: d in sentences ==> d.words != []
    ensures Names(SentenceRanking(query, sentences, idfs)) == Keys(sentences)
  {
    var ranked := SentenceRanking(query, sentences, idfs);
    assert forall i :: 0 <= i < |sentences| ==> Names(ranked)[i] == ranked[i].name == Keys(sentences)[i];
  }

  /**
   * `top_sentences`: build the list of `(sentence, tfidf, density)` entries
   * in dictionary order, sort it by `(tfidf, density)` descending (stable),
   * and return the first `n` sentences. The result is the stable top `n` of
   * the ranking (ordering, ties and left-out entries are `TopN`'s contract):
   * `n` sentences or all of them when there are fewer, each a key, none twice.
   */
  method TopSentences(query: seq<string>, sentences: seq<Document>, idfs: map<string, real>, n: int)
    returns (top: seq<string>)
    requires DistinctKeys(sentences)
    requires forall d :: d in sentences ==> d.words != []
    ensures top == Names(TopN(SentenceRanking(query, sentences, idfs), n))
    ensures |top| == SliceLen(|sentences|, n)
    ensures NoDuplicates(top)
    ensures forall s :: s in top ==> s in Keys(sentences)
  {
    var ranked: seq<Scored> := [];
    for i := 0 to |sentences|
      invariant |ranked| == i
      invariant forall j :: 0 <= j < i ==> ranked[j] == SentenceEntry(query, sentences[j], idfs)
    {
      assert sentences[i] in sentences;
      var score := TfIdf(query, sentences[i].words, idfs);
      var density := QueryTermDensity(query, sentences[i].words);
      ranked := ranked + [Scored(sentences[i].name, [score, density])];
    }
    assert ranked == SentenceRanking(query, sentences, idfs);
    ranked := SortDesc(ranked);
    top := Names(SliceTo(ranked, n));
    SentenceRankingKeys(query, sentences, idfs, n);
  }

  lemma SentenceRankingKeys(query: seq<string>, sentences: seq<Document>, idfs: map<string, real>, n: int)
    requires DistinctKeys(sentences)
    requires forall d :: d in sentences ==> d.words != []
    ensures NoDuplicates(Names(TopN(SentenceRanking(query, sentences, idfs), n)))
    ensures forall s :: s in Names(TopN(SentenceRanking(query, sentences, idfs), n)) ==> s in Keys(sentences)
  {
    var ranked := SentenceRanking(query, sentences, idfs);
    var best := TopN(ranked, n);
    assert DistinctNames(ranked) by {
      SentenceRankingNames(query, sentences, idfs);
      DistinctNamesIff(ranked);
    }
    DistinctNamesIff(best);
    forall s | s in Names(best) ensures s in Keys(sentences) {
      var i :| 0 <= i < |best| && Names(best)[i] == s;
      TopNMember(ranked, n, best[i]);
      var k :| 0 <= k < |ranked| && ranked[k] == best[i];
      assert Keys(sentences)[k] == s;
    }
  }
}
