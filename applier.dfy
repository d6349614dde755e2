/**
 * `apply_bpe_algo`: replay a list of merges, in order, on every word of a text, then write
 * each word as its symbols separated by blanks with the `_` characters deleted and trailing
 * whitespace stripped; whitespace runs are copied unchanged.
 */
module Applier {
  import opened Text
  import opened WordModel
  import opened Merge
  import opened Tokenizer

  /** A merge read from the merge file is never empty: `str.split(" ")` returns at least one part. */
  predicate ValidMerges(merges: seq<Word>) {
    forall k :: 0 <= k < |merges| ==> |merges[k]| >= 1
  }

  /** The word after the merges, applied one after the other. */
  function ApplyMerges(w: Word, merges: seq<Word>): Word
    requires ValidMerges(merges)
    decreases |merges|
  {
    if merges == [] then w
    else Merged(ApplyMerges(w, merges[..|merges| - 1]), merges[|merges| - 1])
  }

  /** Replaying merges keeps the text of the word and keeps its symbols well formed. */
  lemma {:induction false} ApplyMergesText(w: Word, merges: seq<Word>)
    requires ValidMerges(merges)
    ensures Concat(ApplyMerges(w, merges)) == Concat(w)
    ensures WellFormedWord(w) ==> WellFormedWord(ApplyMerges(w, merges))
    decreases |merges|
  {
    if merges != [] {
      var prev := ApplyMerges(w, merges[..|merges| - 1]);
      ApplyMergesText(w, merges[..|merges| - 1]);
      MergedText(prev, merges[|merges| - 1]);
      if WellFormedWord(w) {
        MergedWellFormed(prev, merges[|merges| - 1]);
      }
    }
  }

  lemma ValidMergesSnoc(merges: seq<Word>, t: Word)
    requires ValidMerges(merges) && |t| >= 1
    ensures ValidMerges(merges + [t])
  {
    forall k | 0 <= k < |merges + [t]| ensures |(merges + [t])[k]| >= 1 {
      if k < |merges| {
        assert (merges + [t])[k] == merges[k];
      }
    }
  }

  lemma ApplyMergesSnoc(w: Word, merges: seq<Word>, t: Word)
    requires ValidMerges(merges) && |t| >= 1 && ValidMerges(merges + [t])
    ensures ApplyMerges(w, merges + [t]) == Merged(ApplyMerges(w, merges), t)
  {
    assert (merges + [t])[..|merges|] == merges;
  }

  /** How a word is written out: `" ".join(w).replace("_", "").rstrip()`. */
  function Render(w: Word): string {
    RStrip(RemoveChar(Join(w), '_'))
  }

  /** The output for one run of the text: whitespace as it is, a word rendered after the merges. */
  function RenderRun(r: string, merges: seq<Word>): string
    requires ValidMerges(merges)
  {
    if IsSpaceRun(r) then r else Render(ApplyMerges(Symbolize(r), merges))
  }

  /** What `apply_bpe_algo` writes for `text`: the rendered runs, concatenated. */
  function ApplyOutput(text: string, merges: seq<Word>): string
    requires ValidMerges(merges)
  {
    var rs := Runs(text);
    Concat(seq(|rs|, j requires 0 <= j < |rs| => RenderRun(rs[j], merges)))
  }

  /** The only whitespace in a joined word is the blank between its symbols. */
  lemma {:induction false} JoinBlanksOnly(w: Word)
    requires WellFormedWord(w)
    ensures BlanksOnly(Join(w))
  {
    if |w| >= 2 {
      JoinBlanksOnly(w[1..]);
      BlanksOnlyAppend(w[0], " ");
      BlanksOnlyAppend(w[0] + " ", Join(w[1..]));
    }
  }

  /**
   * For a word without `_`, the rendered output is the word cut into its subwords:
   * deleting the blanks from it gives the word back.
   */
  lemma RenderRoundTrip(r: string, merges: seq<Word>)
    requires ValidMerges(merges) && |r| > 0 && SpaceFree(r) && '_' !in r
    ensures RemoveChar(RenderRun(r, merges), ' ') == r
  {
    assert !IsSpace(r[0]);
    var w := ApplyMerges(Symbolize(r), merges);
    SymbolizeWellFormed(r);
    SymbolizeText(r);
    ApplyMergesText(Symbolize(r), merges);
    JoinBlanksOnly(w);
    RemoveCharBlanksOnly(Join(w), '_');
    RStripThenRemoveBlanks(RemoveChar(Join(w), '_'));
    RemoveCharCommutes(Join(w), '_', ' ');
    JoinRemoveBlanks(w);
    RemoveCharAppend(r, Marker, '_');
    RemoveAbsentChar(r, '_');
  }

  /** The marker character is deleted wherever it occurs, so a text `_` is lost from the output. */
  lemma RenderDropsUnderscore()
    ensures RenderRun("_", []) == ""
  {
    var w := Symbolize("_");
    assert w == ["_", "_"];
    assert Join(w) == "_ _";
    assert RemoveChar("_ _", '_') == " ";
  }

  /** Distinct words have distinct marked texts. */
  lemma MarkedInjective()
    ensures forall r1: string, r2: string :: r1 + Marker == r2 + Marker ==> r1 == r2
  {
    forall r1: string, r2: string | r1 + Marker == r2 + Marker ensures r1 == r2 {
      assert r1 == (r1 + Marker)[..|r1|];
      assert r2 == (r2 + Marker)[..|r2|];
    }
  }

  /** The word map after replaying `merges`: each word of the text, keyed by its marked text. */
  ghost predicate WordMapAfter(text: string, wordMap: map<string, Word>, merges: seq<Word>)
    requires ValidMerges(merges)
  {
    && wordMap.Keys == (set r | r in Words(text) :: r + Marker)
    && forall r :: r in Words(text) ==> r + Marker in wordMap && wordMap[r + Marker] == ApplyMerges(Symbolize(r), merges)
  }

  /** The word map of `apply_bpe_algo` before any merge: `{word + "_": list(word) + ["_"] for word in text.split()}`. */
  function InitialWordMap(text: string): (wordMap: map<string, Word>)
    ensures WordMapAfter(text, wordMap, [])
  {
    MarkedInjective();
    map r | r in Words(text) :: r + Marker := Symbolize(r)
  }

  /** Each entry of the word map spells its key. */
  lemma WordMapText(text: string, wordMap: map<string, Word>, merges: seq<Word>)
    requires ValidMerges(merges) && WordMapAfter(text, wordMap, merges)
    ensures forall k :: k in wordMap ==> Concat(wordMap[k]) == k
  {
    forall k | k in wordMap ensures Concat(wordMap[k]) == k {
      var r :| r in Words(text) && k == r + Marker;
      ApplyMergesText(Symbolize(r), merges);
      SymbolizeText(r);
    }
  }

  /** A pass of the inner loop applies the next merge to every entry. */
  lemma WordMapStep(text: string, before: map<string, Word>, after: map<string, Word>, merges: seq<Word>, t: Word)
    requires ValidMerges(merges) && |t| >= 1 && ValidMerges(merges + [t]) && WordMapAfter(text, before, merges)
    requires after.Keys == before.Keys
    requires forall k :: k in before ==> after[k] == Merged(before[k], t)
    ensures WordMapAfter(text, after, merges + [t])
  {
    forall r | r in Words(text)
      ensures r + Marker in after && after[r + Marker] == ApplyMerges(Symbolize(r), merges + [t])
    {
      assert r + Marker in before;
      ApplyMergesSnoc(Symbolize(r), merges, t);
    }
  }

  /** The tokeniser's piece `i` is a whitespace run, or a key of the word map rendered as its run. */
  lemma OutputPiece(text: string, wordMap: map<string, Word>, merges: seq<Word>, i: nat)
    requires ValidMerges(merges) && WordMapAfter(text, wordMap, merges) && i < |Runs(text)|
    ensures IsSpaceRun(ApplyPieces(text)[i]) ==> ApplyPieces(text)[i] == RenderRun(Runs(text)[i], merges)
    ensures !IsSpaceRun(ApplyPieces(text)[i]) ==>
      ApplyPieces(text)[i] in wordMap && Render(wordMap[ApplyPieces(text)[i]]) == RenderRun(Runs(text)[i], merges)
  {
    var r := Runs(text)[i];
    MarkedKind(r);
    if !IsSpaceRun(r) {
      NonSpaceRunIsWord(text, i);
    }
  }

  /** The entries with keys in `done` have had the token merged; the others are as they were. */
  ghost predicate MergedOn(wordMap0: map<string, Word>, wordMap: map<string, Word>, token: Word, done: set<string>)
    requires |token| >= 1
  {
    && wordMap.Keys == wordMap0.Keys
    && forall k :: k in wordMap0 ==> wordMap[k] == if k in done then Merged(wordMap0[k], token) else wordMap0[k]
  }

  lemma MergedOnStep(wordMap0: map<string, Word>, wordMap: map<string, Word>, token: Word, done: set<string>,
                     word: string, newWord: Word)
    requires |token| >= 1 && MergedOn(wordMap0, wordMap, token, done)
    requires word in wordMap0 && word !in done && newWord == Merged(wordMap0[word], token)
    ensures MergedOn(wordMap0, wordMap[word := newWord], token, done + {word})
    ensures newWord == wordMap[word] ==> MergedOn(wordMap0, wordMap, token, done + {word})
  {
  }

  /**
   * The inner loop of `apply_bpe_algo`: every entry whose key contains the token's text is
   * merged; the others are left alone, which is the same since the token cannot occur in them.
   */
  method ApplyToken(wordMap0: map<string, Word>, token: Word) returns (wordMap: map<string, Word>)
    requires |token| >= 1
    requires forall k :: k in wordMap0 ==> Concat(wordMap0[k]) == k
    ensures wordMap.Keys == wordMap0.Keys
    ensures forall k :: k in wordMap0 ==> wordMap[k] == Merged(wordMap0[k], token)
  {
    wordMap := wordMap0;
    var todo := wordMap.Keys;
    ghost var done: set<string> := {};
    while todo != {}
      invariant todo <= wordMap0.Keys && done == wordMap0.Keys - todo
      invariant MergedOn(wordMap0, wordMap, token, done)
      decreases |todo|
    {
      var word :| word in todo;
      var newWord := wordMap[word];
      if IsSubstring(Concat(token), word) {
        newWord := MergeSubwords(newWord, token);
        MergedOnStep(wordMap0, wordMap, token, done, word, newWord);
        wordMap := wordMap[word := newWord];
      } else {
        MergedTextAbsent(newWord, token);
        MergedOnStep(wordMap0, wordMap, token, done, word, newWord);
      }
      todo := todo - {word};
      done := done + {word};
    }
  }

  /** The output loop of `apply_bpe_algo`: whitespace as it is, each word rendered from the map. */
  method RenderText(text: string, wordMap: map<string, Word>, ghost merges: seq<Word>) returns (output: string)
    requires ValidMerges(merges) && WordMapAfter(text, wordMap, merges)
    ensures output == ApplyOutput(text, merges)
  {
    var input := PreprocessTextApply(text);
    ghost var rs := Runs(text);
    ghost var rendered := seq(|rs|, j requires 0 <= j < |rs| => RenderRun(rs[j], merges));
    var pieces: seq<string> := [];
    for i := 0 to |input|
      invariant pieces == rendered[..i]
    {
      var word := input[i];
      OutputPiece(text, wordMap, merges, i);
      TakeSnoc(rendered, i + 1);
      if IsSpaceRun(word) {
        pieces := pieces + [word];
        continue;
      }
      pieces := pieces + [RStrip(RemoveChar(Join(wordMap[word]), '_'))];
    }
    assert rendered[..|rs|] == rendered;
    output := Concat(pieces);
  }

  /**
   * `apply_bpe_algo` without the file write: build the word map from the words of the text,
   * replay each merge on it, then render the tokeniser's pieces.
   */
  method ApplyBpe(text: string, merges: seq<Word>) returns (output: string)
    requires ValidMerges(merges)
    ensures output == ApplyOutput(text, merges)
  {
    var wordMap := InitialWordMap(text);
    assert merges[..0] == [];
    for ti := 0 to |merges|
      invariant WordMapAfter(text, wordMap, merges[..ti])
    {
      ghost var before := wordMap;
      WordMapText(text, wordMap, merges[..ti]);
      ValidMergesSnoc(merges[..ti], merges[ti]);
      wordMap := ApplyToken(wordMap, merges[ti]);
      WordMapStep(text, before, wordMap, merges[..ti], merges[ti]);
      TakeSnoc(merges, ti + 1);
    }
    assert merges[..|merges|] == merges;
    output := RenderText(text, wordMap, merges);
  }
}
