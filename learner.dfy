/**
 * `learn_bpe_algo`: count the words of the training text, then repeatedly choose the most
 * frequent neighbouring pair, record it and fuse it everywhere, at most `vocab_size` times and
 * stopping early once no pair is left; finally report each word's text with its split.
 */
module Learner {
  import opened Text
  import opened WordModel
  import opened PairTable
  import opened Selector
  import opened Merge
  import opened Update

  /** The vocabulary after fusing the merges one after another. */
  ghost function MergeAll(vocab: Vocab, merges: seq<Pair>): (r: Vocab)
    requires ValidVocab(vocab)
    ensures ValidVocab(r)
    decreases |merges|
  {
    if merges == [] then vocab
    else
      var prev := MergeAll(vocab, merges[..|merges| - 1]);
      MergeVocabValid(prev, merges[|merges| - 1]);
      MergeVocab(prev, merges[|merges| - 1])
  }

  /**
   * What the learner must produce from the vocabulary `vocab0` with a budget of `n` merges: each
   * merge is the pair the selector prefers in a full recount of the vocabulary fused by the merges
   * before it, there are at most `n` of them, and fewer only when no pair is left to choose.
   */
  ghost predicate Learned(vocab0: Vocab, n: int, merges: seq<Pair>)
    requires ValidVocab(vocab0)
  {
    && |merges| <= (if n > 0 then n else 0)
    && ChosenSoFar(vocab0, merges)
    && (|merges| < n ==> Selects(Recount(MergeAll(vocab0, merges)), None))
  }

  /** Each merge is the pair the selector prefers once the merges before it are fused. */
  ghost predicate ChosenSoFar(vocab0: Vocab, merges: seq<Pair>)
    requires ValidVocab(vocab0)
  {
    forall k :: 0 <= k < |merges| ==> Selects(Recount(MergeAll(vocab0, merges[..k])), Some(merges[k]))
  }

  lemma ChosenAt(vocab0: Vocab, merges: seq<Pair>, k: nat)
    requires ValidVocab(vocab0) && ChosenSoFar(vocab0, merges) && k < |merges|
    ensures Selects(Recount(MergeAll(vocab0, merges[..k])), Some(merges[k]))
  {
  }

  /** Where two such merge lists agree so far, they agree on the next merge as well. */
  lemma ChosenNext(vocab0: Vocab, m1: seq<Pair>, m2: seq<Pair>, k: nat)
    requires ValidVocab(vocab0) && ChosenSoFar(vocab0, m1) && ChosenSoFar(vocab0, m2)
    requires k < |m1| && k < |m2| && m1[..k] == m2[..k]
    ensures m1[k] == m2[k]
  {
    ChosenAt(vocab0, m1, k);
    ChosenAt(vocab0, m2, k);
    SelectsUnique(Recount(MergeAll(vocab0, m1[..k])), Some(m1[k]), Some(m2[k]));
  }

  /** Two merge lists whose every merge is the selector's choice agree on every common prefix. */
  lemma ChosenPrefix(vocab0: Vocab, m1: seq<Pair>, m2: seq<Pair>, k: nat)
    requires ValidVocab(vocab0) && ChosenSoFar(vocab0, m1) && ChosenSoFar(vocab0, m2)
    requires k <= |m1| && k <= |m2|
    ensures m1[..k] == m2[..k]
  {
    forall j | 0 <= j < k && m1[..j] == m2[..j] ensures m1[j] == m2[j] {
      ChosenNext(vocab0, m1, m2, j);
    }
    PrefixFromNext(m1, m2, k);
  }

  /** The learner is deterministic: the merge list does not depend on the order of iteration. */
  lemma LearnedUnique(vocab0: Vocab, n: int, m1: seq<Pair>, m2: seq<Pair>)
    requires ValidVocab(vocab0) && Learned(vocab0, n, m1) && Learned(vocab0, n, m2)
    ensures m1 == m2
  {
    if |m1| < |m2| {
      ChosenPrefix(vocab0, m1, m2, |m1|);
      assert m1 == m2[..|m1|];
      ChosenAt(vocab0, m2, |m1|);
      SelectsUnique(Recount(MergeAll(vocab0, m1)), None, Some(m2[|m1|]));
    } else if |m2| < |m1| {
      ChosenPrefix(vocab0, m1, m2, |m2|);
      assert m2 == m1[..|m2|];
      ChosenAt(vocab0, m1, |m2|);
      SelectsUnique(Recount(MergeAll(vocab0, m2)), None, Some(m1[|m2|]));
    } else {
      ChosenPrefix(vocab0, m1, m2, |m1|);
      assert m1 == m1[..|m1|] && m2 == m2[..|m2|];
    }
  }

  /** With no budget nothing is learned. */
  lemma LearnedNothing(vocab0: Vocab, n: int, merges: seq<Pair>)
    requires ValidVocab(vocab0) && n <= 0
    ensures Learned(vocab0, n, merges) <==> merges == []
  {
  }

  /** The texts the words of a vocabulary spell. */
  ghost function Texts(vocab: Vocab): set<string> {
    set w | w in vocab :: Concat(w)
  }

  /** Fusing a pair keeps the set of texts. */
  lemma MergeVocabTexts(vocab: Vocab, pair: Pair)
    requires TextInjective(vocab)
    ensures Texts(MergeVocab(vocab, pair)) == Texts(vocab)
  {
    var mv := MergeVocab(vocab, pair);
    MergeVocabEntries(vocab, pair);
    MergedTextAll(Fuse(pair));
    forall x | x in Texts(mv) ensures x in Texts(vocab) {
      var v :| v in mv && x == Concat(v);
      var w :| w in vocab && v == Merged(w, Fuse(pair));
    }
    forall x | x in Texts(vocab) ensures x in Texts(mv) {
      var w :| w in vocab && x == Concat(w);
      assert Merged(w, Fuse(pair)) in mv;
    }
  }

  /** So does any number of merges. */
  lemma {:induction false} MergeAllTexts(vocab: Vocab, merges: seq<Pair>)
    requires ValidVocab(vocab)
    ensures Texts(MergeAll(vocab, merges)) == Texts(vocab)
    decreases |merges|
  {
    if merges != [] {
      MergeAllTexts(vocab, merges[..|merges| - 1]);
      MergeVocabTexts(MergeAll(vocab, merges[..|merges| - 1]), merges[|merges| - 1]);
    }
  }

  /** The texts of the words of a training text: each run followed by the marker. */
  lemma CorpusTexts(text: string)
    ensures Texts(CorpusVocab(text)) == set r | r in Words(text) :: r + Marker
  {
    var vocab := CorpusVocab(text);
    CorpusVocabCounts(text);
    forall x | x in Texts(vocab) ensures x in set r | r in Words(text) :: r + Marker {
      var w :| w in vocab && x == Concat(w);
      var r :| r in Words(text) && w == Symbolize(r);
      SymbolizeText(r);
    }
    forall x | x in set r | r in Words(text) :: r + Marker ensures x in Texts(vocab) {
      var r :| r in Words(text) && x == r + Marker;
      SymbolizeText(r);
      assert Symbolize(r) in vocab;
    }
  }

  lemma JoinRemoveBlanksAll(vocab: Vocab)
    requires ValidVocab(vocab)
    ensures forall w :: w in vocab ==> RemoveChar(Join(w), ' ') == Concat(w)
  {
    forall w | w in vocab ensures RemoveChar(Join(w), ' ') == Concat(w) {
      JoinRemoveBlanks(w);
    }
  }

  /**
   * The splits the learner reports: the key of each word with its spaces removed, mapped to
   * the key itself (`"".join` of a string is that string).
   */
  function Splits(vocab: Vocab): map<string, string>
    requires ValidVocab(vocab)
  {
    JoinRemoveBlanksAll(vocab);
    map w | w in vocab :: RemoveChar(Join(w), ' ') := Join(w)
  }

  /**
   * Each split is keyed by the text of its word and holds the word's symbols joined by blanks;
   * splitting the reported value at the blanks gives back the symbols.
   */
  lemma SplitsMeaning(vocab: Vocab)
    requires ValidVocab(vocab)
    ensures Splits(vocab).Keys == Texts(vocab)
    ensures forall w :: w in vocab ==>
      Concat(w) in Splits(vocab) && Splits(vocab)[Concat(w)] == Join(w) && Words(Splits(vocab)[Concat(w)]) == w
  {
    var s := Splits(vocab);
    JoinRemoveBlanksAll(vocab);
    forall w | w in vocab ensures Concat(w) in s && s[Concat(w)] == Join(w) && Words(s[Concat(w)]) == w {
      var u :| u in vocab && RemoveChar(Join(u), ' ') == Concat(w) && s[Concat(w)] == Join(u);
      assert u == w;
      JoinSplitRoundTrip(w);
    }
    forall x | x in s ensures x in Texts(vocab) {
      var w :| w in vocab && x == RemoveChar(Join(w), ' ');
    }
  }

  /** The learned splits are keyed by exactly the runs of the training text, each with the marker. */
  lemma LearnedSplitsKeys(text: string, merges: seq<Pair>)
    ensures ValidVocab(CorpusVocab(text))
    ensures Splits(MergeAll(CorpusVocab(text), merges)).Keys == set r | r in Words(text) :: r + Marker
  {
    CorpusVocabValid(text);
    SplitsMeaning(MergeAll(CorpusVocab(text), merges));
    MergeAllTexts(CorpusVocab(text), merges);
    CorpusTexts(text);
  }

  lemma MergeAllSnoc(vocab0: Vocab, merges: seq<Pair>, p: Pair)
    requires ValidVocab(vocab0)
    ensures MergeAll(vocab0, merges + [p]) == MergeVocab(MergeAll(vocab0, merges), p)
  {
    var m := merges + [p];
    assert m != [] && m[..|m| - 1] == merges && m[|m| - 1] == p;
  }

  /** One more iteration of the learner: the chosen pair is recorded. */
  lemma LearnedSnoc(vocab0: Vocab, merges: seq<Pair>, p: Pair)
    requires ValidVocab(vocab0)
    requires ChosenSoFar(vocab0, merges)
    requires Selects(Recount(MergeAll(vocab0, merges)), Some(p))
    ensures ChosenSoFar(vocab0, merges + [p])
  {
    forall k | 0 <= k < |merges + [p]|
      ensures Selects(Recount(MergeAll(vocab0, (merges + [p])[..k])), Some((merges + [p])[k]))
    {
      PrefixSnoc(merges, p, k);
    }
  }

  lemma PrefixSnoc(m: seq<Pair>, p: Pair, k: nat)
    requires k <= |m|
    ensures (m + [p])[..k] == m[..k] && (m + [p])[k] == if k < |m| then m[k] else p
    ensures k == |m| ==> m[..k] == m
  {
  }

  /** The selector sees the same choice in the maintained table as in a full recount. */
  lemma SelectsRecount(pairs: Table, vocab: Vocab, r: Option<Pair>)
    requires forall p :: Lookup(pairs, p) == PairCount(vocab, p)
    ensures Selects(pairs, r) <==> Selects(Recount(vocab), r)
  {
    RecountLookup(vocab);
    SelectsLookup(pairs, Recount(vocab), r);
  }

  /** The loop ends after the last round or when the selector finds nothing. */
  lemma LearnedFinish(vocab0: Vocab, n: int, merges: seq<Pair>, stopped: bool)
    requires ValidVocab(vocab0) && ChosenSoFar(vocab0, merges)
    requires |merges| <= (if n > 0 then n else 0)
    requires stopped ==> Selects(Recount(MergeAll(vocab0, merges)), None)
    requires !stopped ==> |merges| == (if n > 0 then n else 0)
    ensures Learned(vocab0, n, merges)
  {
  }

  /**
   * `learn_bpe_algo`: the merges are the ones `Learned` characterizes, and the splits are those
   * of the vocabulary fused by them.
   */
  method LearnBpe(inputText: string, vocabSize: int) returns (splits: map<string, string>, merges: seq<Pair>)
    ensures ValidVocab(CorpusVocab(inputText))
    ensures Learned(CorpusVocab(inputText), vocabSize, merges)
    ensures splits == Splits(MergeAll(CorpusVocab(inputText), merges))
  {
    var vocab := PreprocessText(inputText);
    ghost var vocab0 := vocab;
    merges := [];
    var pairs := GetFrequentPairs(vocab);
    var rounds := if vocabSize > 0 then vocabSize else 0;
    ghost var stopped := false;
    for round := 0 to rounds
      invariant |merges| == round
      invariant vocab == MergeAll(vocab0, merges)
      invariant forall p :: Lookup(pairs, p) == PairCount(vocab, p)
      invariant ChosenSoFar(vocab0, merges)
    {
      var bestPair := FindMostFrequentPair(pairs);
      SelectsRecount(pairs, vocab, bestPair);
      if bestPair.None? {
        stopped := true;
        break;
      }
      LearnedSnoc(vocab0, merges, bestPair.value);
      MergeAllSnoc(vocab0, merges, bestPair.value);
      merges := merges + [bestPair.value];
      vocab, pairs := UpdateVocabWithPair(bestPair.value, vocab, pairs);
    }
    LearnedFinish(vocab0, vocabSize, merges, stopped);
    splits := Splits(vocab);
  }
}
