/**
 * The word model of the learner: a word is a sequence of symbols ending in the
 * end-of-word marker, and a vocabulary maps each word to its corpus frequency.
 *
 * The source keys its vocabulary by the space-joined symbol string and recovers
 * the symbols with `str.split()`. Here the key is the symbol sequence itself; the
 * lemma `JoinSplitRoundTrip` shows that joining and splitting are inverse on
 * well-formed words (non-empty symbols without whitespace), so the two keyings
 * carry the same information.
 */
module WordModel {
  import opened Text

  type Symbol = string
  type Word = seq<Symbol>
  type Vocab = map<Word, int>

  /** The end-of-word marker appended to every word. */
  const Marker: Symbol := "_"

  /** `list(r)`: one single-character symbol per character. */
  function Chars(r: string): Word {
    seq(|r|, i requires 0 <= i < |r| => [r[i]])
  }

  /** `list(r) + ['_']`: a fresh word, its characters followed by the marker. */
  function Symbolize(r: string): Word {
    Chars(r) + [Marker]
  }

  /** `" ".join(w)`: the textual key of a word. */
  function Join(w: Word): string {
    if |w| == 0 then ""
    else if |w| == 1 then w[0]
    else w[0] + " " + Join(w[1..])
  }

  /** What `str.split()` can produce: non-empty and free of whitespace. */
  predicate WellFormedSymbol(x: Symbol) {
    |x| > 0 && SpaceFree(x)
  }

  predicate WellFormedWord(w: Word) {
    forall i :: 0 <= i < |w| ==> WellFormedSymbol(w[i])
  }

  /** Distinct words of the vocabulary spell distinct texts. */
  ghost predicate TextInjective(vocab: Vocab) {
    forall w1, w2 :: w1 in vocab && w2 in vocab && Concat(w1) == Concat(w2) ==> w1 == w2
  }

  /** The invariant of every vocabulary the learner builds. */
  ghost predicate ValidVocab(vocab: Vocab) {
    && (forall w :: w in vocab ==> WellFormedWord(w))
    && TextInjective(vocab)
  }

  lemma {:induction false} ConcatChars(r: string)
    ensures Concat(Chars(r)) == r
    decreases |r|
  {
    if r != [] {
      assert Chars(r)[1..] == Chars(r[1..]);
      ConcatChars(r[1..]);
      assert r == [r[0]] + r[1..];
    }
  }

  /** A fresh word spells its text followed by the marker. */
  lemma SymbolizeText(r: string)
    ensures Concat(Symbolize(r)) == r + Marker
  {
    ConcatAppend(Chars(r), [Marker]);
    ConcatChars(r);
  }

  lemma SymbolizeWellFormed(r: string)
    requires SpaceFree(r)
    ensures WellFormedWord(Symbolize(r))
  {
    assert !IsSpace('_');
  }

  lemma SymbolizeInjective(r1: string, r2: string)
    requires Symbolize(r1) == Symbolize(r2)
    ensures r1 == r2
  {
    SymbolizeText(r1);
    SymbolizeText(r2);
    assert r1 == (r1 + Marker)[..|r1|];
    assert |r1| == |r2|;
  }

  lemma SymbolizeInjectiveAll()
    ensures forall r1, r2 :: Symbolize(r1) == Symbolize(r2) ==> r1 == r2
  {
    forall r1, r2 | Symbolize(r1) == Symbolize(r2) ensures r1 == r2 {
      SymbolizeInjective(r1, r2);
    }
  }

  /** `str.split()` recovers the symbols of a well-formed word from its space-joined key. */
  lemma {:induction false} JoinSplitRoundTrip(w: Word)
    requires WellFormedWord(w)
    ensures Words(Join(w)) == w
  {
    if |w| == 1 {
      WordsOfWord(w[0]);
    } else if |w| > 1 {
      JoinSplitRoundTrip(w[1..]);
      WordsSplitAt(w[0], ' ', Join(w[1..]));
      WordsOfWord(w[0]);
      assert w[0] + " " + Join(w[1..]) == w[0] + [' '] + Join(w[1..]);
      assert w == [w[0]] + w[1..];
    }
  }

  /** Hence space-joined keys of well-formed words are injective. */
  lemma JoinInjective(w1: Word, w2: Word)
    requires WellFormedWord(w1) && WellFormedWord(w2) && Join(w1) == Join(w2)
    ensures w1 == w2
  {
    JoinSplitRoundTrip(w1);
    JoinSplitRoundTrip(w2);
  }

  lemma {:induction false} RemoveAbsentChar(x: string, c: char)
    requires forall i :: 0 <= i < |x| ==> x[i] != c
    ensures RemoveChar(x, c) == x
  {
    if x != [] {
      RemoveAbsentChar(x[1..], c);
      assert x == [x[0]] + x[1..];
    }
  }

  /** `" ".join(w).replace(" ", "")` is the text the word spells. */
  lemma {:induction false} JoinRemoveBlanks(w: Word)
    requires WellFormedWord(w)
    ensures RemoveChar(Join(w), ' ') == Concat(w)
  {
    if |w| > 0 {
      assert IsSpace(' ');
      RemoveAbsentChar(w[0], ' ');
      if |w| == 1 {
        assert Concat(w) == w[0] + Concat(w[1..]);
        assert w[0] + "" == w[0];
      } else {
        JoinRemoveBlanks(w[1..]);
        RemoveCharAppend(w[0], " " + Join(w[1..]), ' ');
        RemoveCharAppend(" ", Join(w[1..]), ' ');
        assert w[0] + " " + Join(w[1..]) == w[0] + (" " + Join(w[1..]));
      }
    }
  }

  /** A `Counter` increment: `vocab[w] += 1`, an absent key counting as 0. */
  function Increment(vocab: Vocab, w: Word): Vocab {
    vocab[w := (if w in vocab then vocab[w] else 0) + 1]
  }

  /** Frequencies of the fresh words of a list of runs, counted one run after another. */
  function WordCounts(rs: seq<string>): (vocab: Vocab) {
    if rs == [] then map[] else Increment(WordCounts(rs[..|rs| - 1]), Symbolize(rs[|rs| - 1]))
  }

  /** The vocabulary of a training text. */
  function CorpusVocab(text: string): Vocab {
    WordCounts(Words(text))
  }

  /** The keys of the counts are the fresh words of the runs. */
  lemma {:induction false} WordCountsKeys(rs: seq<string>)
    ensures WordCounts(rs).Keys == set r | r in rs :: Symbolize(r)
    decreases |rs|
  {
    if rs != [] {
      var ps, r := rs[..|rs| - 1], rs[|rs| - 1];
      assert rs == ps + [r];
      WordCountsKeys(ps);
      var lhs := set x | x in rs :: Symbolize(x);
      var rhs := (set x | x in ps :: Symbolize(x)) + {Symbolize(r)};
      forall w | w in lhs ensures w in rhs {
        var x :| x in rs && w == Symbolize(x);
        if x != r {
          assert x in ps;
        }
      }
      forall w | w in rhs ensures w in lhs {
        if w != Symbolize(r) {
          var x :| x in ps && w == Symbolize(x);
          assert x in rs;
        }
      }
      assert lhs == rhs;
    }
  }

  /** Each key carries the number of times its run occurs: the counts are those of a multiset. */
  lemma {:induction false} WordCountsMultiplicity(rs: seq<string>, x: string)
    ensures Symbolize(x) in WordCounts(rs) <==> x in rs
    ensures x in rs ==> WordCounts(rs)[Symbolize(x)] == multiset(rs)[x]
    decreases |rs|
  {
    if rs != [] {
      var ps, r := rs[..|rs| - 1], rs[|rs| - 1];
      assert rs == ps + [r];
      WordCountsMultiplicity(ps, x);
      assert multiset(rs) == multiset(ps) + multiset{r};
      if x != r {
        if Symbolize(x) == Symbolize(r) {
          SymbolizeInjective(x, r);
        }
      } else if r !in ps {
        assert multiset(ps)[r] == 0;
      }
    }
  }

  /** Every vocabulary built from a text satisfies the learner's invariant. */
  lemma CorpusVocabValid(text: string)
    ensures ValidVocab(CorpusVocab(text))
  {
    var ws := Words(text);
    var vocab := CorpusVocab(text);
    WordsWellFormed(text);
    WordCountsKeys(ws);
    forall w | w in vocab ensures WellFormedWord(w) {
      var r :| r in ws && w == Symbolize(r);
      SymbolizeWellFormed(r);
    }
    forall w1, w2 | w1 in vocab && w2 in vocab && Concat(w1) == Concat(w2) ensures w1 == w2 {
      var r1 :| r1 in ws && w1 == Symbolize(r1);
      var r2 :| r2 in ws && w2 == Symbolize(r2);
      SymbolizeText(r1);
      SymbolizeText(r2);
      assert r1 == (r1 + Marker)[..|r1|];
    }
  }

  /** Counting one more run increments its fresh word. */
  lemma WordCountsSnoc(rs: seq<string>, r: string)
    ensures WordCounts(rs + [r]) == Increment(WordCounts(rs), Symbolize(r))
  {
    assert (rs + [r])[..|rs|] == rs;
  }

  /**
   * What the counts of a text mean: one key per distinct run, holding the number of times
   * that run occurs in the text; and the keys satisfy the learner's invariant.
   */
  lemma CorpusVocabCounts(text: string)
    ensures CorpusVocab(text).Keys == set r | r in Words(text) :: Symbolize(r)
    ensures forall r :: r in Words(text) ==> CorpusVocab(text)[Symbolize(r)] == multiset(Words(text))[r]
    ensures ValidVocab(CorpusVocab(text))
  {
    WordCountsKeys(Words(text));
    forall r | r in Words(text) ensures CorpusVocab(text)[Symbolize(r)] == multiset(Words(text))[r] {
      WordCountsMultiplicity(Words(text), r);
    }
    CorpusVocabValid(text);
  }

  /** One more run of the line is counted. */
  lemma CountRun(seen: seq<string>, words: seq<string>, ti: nat, vocab: Vocab)
    requires ti < |words| && vocab == WordCounts(seen + words[..ti])
    ensures Increment(vocab, Symbolize(words[ti])) == WordCounts(seen + words[..ti + 1])
  {
    WordCountsSnoc(seen + words[..ti], words[ti]);
    assert seen + words[..ti + 1] == seen + words[..ti] + [words[ti]];
  }

  /** One more line has been counted. */
  lemma CountLine(lines: seq<string>, li: nat, seen: seq<string>)
    requires li < |lines| && seen == WordsOfLines(lines[..li])
    ensures seen + Words(lines[li]) == WordsOfLines(lines[..li + 1])
  {
    assert lines[..li + 1] == lines[..li] + [lines[li]];
    WordsOfLinesAppend(lines[..li], [lines[li]]);
  }

  /**
   * `preprocess_text`: count every whitespace-delimited run of every line, each run keyed
   * by its characters and the end-of-word marker.
   */
  method PreprocessText(text: string) returns (vocab: Vocab)
    ensures vocab == CorpusVocab(text)
    ensures vocab.Keys == set r | r in Words(text) :: Symbolize(r)
    ensures forall r :: r in Words(text) ==> vocab[Symbolize(r)] == multiset(Words(text))[r]
    ensures ValidVocab(vocab)
  {
    vocab := map[];
    var lines := SplitLines(text);
    ghost var seen: seq<string> := [];
    for li := 0 to |lines|
      invariant seen == WordsOfLines(lines[..li])
      invariant vocab == WordCounts(seen)
    {
      var words := Words(lines[li]);
      var tokens := seq(|words|, i requires 0 <= i < |words| => Symbolize(words[i]));
      assert seen + words[..0] == seen;
      for ti := 0 to |tokens|
        invariant vocab == WordCounts(seen + words[..ti])
      {
        var key := tokens[ti];
        CountRun(seen, words, ti, vocab);
        vocab := vocab[key := (if key in vocab then vocab[key] else 0) + 1];
      }
      assert words[..|tokens|] == words;
      CountLine(lines, li, seen);
      seen := seen + words;
    }
    assert lines[..|lines|] == lines;
    WordsOfSplitLines(text);
    CorpusVocabCounts(text);
  }
}
