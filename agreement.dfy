/**
 * The learner and the applier agree: replaying the learned merges with `merge_subwords` on a
 * word of the training text gives the word the learner's own vocabulary holds for it, so the
 * learner's splits and the applier's output coincide on that text.
 */
module Agreement {
  import opened Text
  import opened WordModel
  import opened PairTable
  import opened Merge
  import opened Update
  import opened Learner
  import opened Applier

  /** The learned pairs as tokens: each pair becomes the two-symbol token it fuses. */
  function PairTokens(merges: seq<Pair>): (ts: seq<Word>)
    ensures |ts| == |merges| && ValidMerges(ts)
    ensures forall k :: 0 <= k < |merges| ==> ts[k] == Fuse(merges[k])
  {
    seq(|merges|, k requires 0 <= k < |merges| => Fuse(merges[k]))
  }

  lemma PairTokensSnoc(merges: seq<Pair>)
    requires merges != []
    ensures PairTokens(merges) == PairTokens(merges[..|merges| - 1]) + [Fuse(merges[|merges| - 1])]
  {
    var init := merges[..|merges| - 1];
    var ts := PairTokens(init) + [Fuse(merges[|merges| - 1])];
    forall k | 0 <= k < |merges| ensures PairTokens(merges)[k] == ts[k] {
      if k < |init| {
        assert init[k] == merges[k];
      }
    }
  }

  /** One fusion step carries a word with its frequency. */
  lemma MergeApplyStep(vocab: Vocab, p: Pair, w: Word, f: int)
    requires ValidVocab(vocab) && w in vocab && vocab[w] == f
    ensures Merged(w, Fuse(p)) in MergeVocab(vocab, p) && MergeVocab(vocab, p)[Merged(w, Fuse(p))] == f
  {
    MergeVocabEntries(vocab, p);
  }

  /** Each word of the vocabulary reaches the fused vocabulary as the applier rewrites it. */
  lemma {:induction false} MergeAllApply(vocab0: Vocab, merges: seq<Pair>, w: Word)
    requires ValidVocab(vocab0) && w in vocab0
    ensures ApplyMerges(w, PairTokens(merges)) in MergeAll(vocab0, merges)
    ensures MergeAll(vocab0, merges)[ApplyMerges(w, PairTokens(merges))] == vocab0[w]
    decreases |merges|
  {
    if merges != [] {
      var init := merges[..|merges| - 1];
      var p := merges[|merges| - 1];
      MergeAllApply(vocab0, init, w);
      PairTokensSnoc(merges);
      ValidMergesSnoc(PairTokens(init), Fuse(p));
      ApplyMergesSnoc(w, PairTokens(init), Fuse(p));
      assert merges == init + [p];
      MergeAllSnoc(vocab0, init, p);
      MergeApplyStep(MergeAll(vocab0, init), p, ApplyMerges(w, PairTokens(init)), vocab0[w]);
    }
  }

  /**
   * On its own training text, the learner's split of every word is the applier's word with the
   * learned merges replayed, and writing it out as the learner does
   * (`splits[word].replace("_", "").rstrip()`) gives the applier's output for that run.
   */
  lemma LearnApplyAgree(text: string, merges: seq<Pair>, r: string)
    requires r in Words(text)
    ensures ValidVocab(CorpusVocab(text))
    ensures r + Marker in Splits(MergeAll(CorpusVocab(text), merges))
    ensures Splits(MergeAll(CorpusVocab(text), merges))[r + Marker] == Join(ApplyMerges(Symbolize(r), PairTokens(merges)))
    ensures RStrip(RemoveChar(Splits(MergeAll(CorpusVocab(text), merges))[r + Marker], '_'))
         == RenderRun(r, PairTokens(merges))
  {
    CorpusVocabCounts(text);
    var vocab0 := CorpusVocab(text);
    var w := ApplyMerges(Symbolize(r), PairTokens(merges));
    MergeAllApply(vocab0, merges, Symbolize(r));
    ApplyMergesText(Symbolize(r), PairTokens(merges));
    SymbolizeText(r);
    SplitsMeaning(MergeAll(vocab0, merges));
    WordsWellFormed(text);
    assert !IsSpaceRun(r) by {
      assert |r| > 0 && !IsSpace(r[0]);
    }
  }

  /** With no budget, the splits are the words of the text in their character-plus-marker form. */
  lemma UntrainedSplits(text: string, n: int, merges: seq<Pair>)
    requires n <= 0 && ValidVocab(CorpusVocab(text)) && Learned(CorpusVocab(text), n, merges)
    ensures merges == []
    ensures Splits(MergeAll(CorpusVocab(text), merges)).Keys == set r | r in Words(text) :: r + Marker
    ensures forall r :: r in Words(text) ==> Splits(MergeAll(CorpusVocab(text), merges))[r + Marker] == Join(Symbolize(r))
  {
    LearnedNothing(CorpusVocab(text), n, merges);
    LearnedSplitsKeys(text, merges);
    forall r | r in Words(text) ensures Splits(CorpusVocab(text))[r + Marker] == Join(Symbolize(r)) {
      LearnApplyAgree(text, [], r);
    }
  }
}
