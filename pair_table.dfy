/**
 * The pair table of the learner: a `Counter` from adjacent symbol pairs to their
 * frequency-weighted number of occurrences, and `get_frequent_pairs`, which builds it.
 */
module PairTable {
  import opened WordModel

  type Pair = (Symbol, Symbol)
  type Table = map<Pair, int>

  /** `table[p]` on a `Counter`: an absent pair counts as 0. */
  function Lookup(t: Table, p: Pair): int {
    if p in t then t[p] else 0
  }

  /** `table[p] += d` on a `Counter`. */
  function Bump(t: Table, p: Pair, d: int): Table {
    t[p := Lookup(t, p) + d]
  }

  /** A bump moves the count of its own pair by `d`, leaves every other count alone, and adds its pair. */
  lemma BumpLookup(t: Table, p: Pair, d: int)
    ensures forall q :: Lookup(Bump(t, p, d), q) == Lookup(t, q) + (if q == p then d else 0)
    ensures Bump(t, p, d).Keys == t.Keys + {p}
  {
  }

  /** The number of positions at which `p` occurs as two neighbouring symbols of `w`. */
  function Occurrences(w: Word, p: Pair): nat
    decreases |w|
  {
    if |w| < 2 then 0
    else Occurrences(w[..|w| - 1], p) + (if (w[|w| - 2], w[|w| - 1]) == p then 1 else 0)
  }

  /** The first `n` symbols of `w`, or all of them when there are fewer. */
  function Head(w: Word, n: nat): (h: Word)
    ensures |h| <= |w| && h == w[..|h|]
  {
    if n <= |w| then w[..n] else w
  }

  lemma OccurrencesSnoc(w: Word, x: Symbol, p: Pair)
    ensures Occurrences(w + [x], p)
         == Occurrences(w, p) + (if |w| > 0 && (w[|w| - 1], x) == p then 1 else 0)
  {
    assert (w + [x])[..|w|] == w;
  }

  /** Counting over a concatenation: both parts and the pair across the seam. */
  lemma {:induction false} OccurrencesAppend(x: Word, y: Word, p: Pair)
    ensures Occurrences(x + y, p)
         == Occurrences(x, p) + Occurrences(y, p)
          + (if |x| > 0 && |y| > 0 && (x[|x| - 1], y[0]) == p then 1 else 0)
    decreases |y|
  {
    if y == [] {
      assert x + y == x;
    } else {
      var init, last := y[..|y| - 1], y[|y| - 1];
      assert x + y == (x + init) + [last];
      assert y == init + [last];
      OccurrencesAppend(x, init, p);
      OccurrencesSnoc(x + init, last, p);
      OccurrencesSnoc(init, last, p);
      if init == [] {
        assert x + init == x;
      }
    }
  }

  /** `p` is counted at least once exactly when it occurs at some position. */
  lemma {:induction false} OccurrencesPositive(w: Word, p: Pair)
    ensures Occurrences(w, p) > 0 <==> exists k :: 0 <= k < |w| - 1 && (w[k], w[k + 1]) == p
    decreases |w|
  {
    if |w| >= 2 {
      var init := w[..|w| - 1];
      OccurrencesPositive(init, p);
      if Occurrences(init, p) > 0 {
        var k :| 0 <= k < |init| - 1 && (init[k], init[k + 1]) == p;
        assert (w[k], w[k + 1]) == p;
      }
      if exists k :: 0 <= k < |w| - 1 && (w[k], w[k + 1]) == p {
        var k :| 0 <= k < |w| - 1 && (w[k], w[k + 1]) == p;
        if k < |w| - 2 {
          assert (init[k], init[k + 1]) == p;
        }
      }
    }
  }

  /** The frequency-weighted count of `p` over the words `ks` of `vocab`. */
  ghost function SumOver(vocab: Vocab, ks: set<Word>, p: Pair): int
    requires ks <= vocab.Keys
    decreases ks
  {
    if ks == {} then 0
    else
      var w :| w in ks;
      vocab[w] * Occurrences(w, p) + SumOver(vocab, ks - {w}, p)
  }

  /** The sum does not depend on the order in which the words are visited. */
  lemma {:induction false} SumOverRemove(vocab: Vocab, ks: set<Word>, w: Word, p: Pair)
    requires ks <= vocab.Keys && w in ks
    ensures SumOver(vocab, ks, p) == vocab[w] * Occurrences(w, p) + SumOver(vocab, ks - {w}, p)
    decreases ks
  {
    var v :| v in ks && SumOver(vocab, ks, p) == vocab[v] * Occurrences(v, p) + SumOver(vocab, ks - {v}, p);
    if v != w {
      SumOverRemove(vocab, ks - {v}, w, p);
      SumOverRemove(vocab, ks - {w}, v, p);
      assert ks - {v} - {w} == ks - {w} - {v};
    }
  }

  /** Visiting one more word adds its weighted occurrences. */
  lemma SumOverAdd(vocab: Vocab, ks: set<Word>, w: Word, p: Pair)
    requires ks <= vocab.Keys && w in vocab && w !in ks
    ensures SumOver(vocab, ks + {w}, p) == vocab[w] * Occurrences(w, p) + SumOver(vocab, ks, p)
  {
    assert ks + {w} - {w} == ks;
    SumOverRemove(vocab, ks + {w}, w, p);
  }

  /** Only the entries of the visited words matter. */
  lemma {:induction false} SumOverFrame(v1: Vocab, v2: Vocab, ks: set<Word>, p: Pair)
    requires ks <= v1.Keys && ks <= v2.Keys
    requires forall w :: w in ks ==> v1[w] == v2[w]
    ensures SumOver(v1, ks, p) == SumOver(v2, ks, p)
    decreases ks
  {
    if ks != {} {
      var w :| w in ks;
      SumOverRemove(v1, ks, w, p);
      SumOverRemove(v2, ks, w, p);
      SumOverFrame(v1, v2, ks - {w}, p);
    }
  }

  /** What a full recount gives for `p`: its occurrences in every word, times the word's frequency. */
  ghost function PairCount(vocab: Vocab, p: Pair): int {
    SumOver(vocab, vocab.Keys, p)
  }

  /** `p` occurs in one of the words `ks`. */
  ghost predicate OccursIn(ks: set<Word>, p: Pair) {
    exists w :: w in ks && Occurrences(w, p) > 0
  }

  /** A pair that occurs in none of the words `ks` sums to 0 over them. */
  lemma {:induction false} SumOverAbsent(vocab: Vocab, ks: set<Word>, p: Pair)
    requires ks <= vocab.Keys && !OccursIn(ks, p)
    ensures SumOver(vocab, ks, p) == 0
    decreases ks
  {
    if ks != {} {
      var w :| w in ks;
      SumOverRemove(vocab, ks, w, p);
      assert Occurrences(w, p) == 0;
      assert !OccursIn(ks - {w}, p);
      SumOverAbsent(vocab, ks - {w}, p);
    }
  }

  /** With non-negative frequencies every count is non-negative. */
  lemma {:induction false} SumOverNonNegative(vocab: Vocab, ks: set<Word>, p: Pair)
    requires ks <= vocab.Keys
    requires forall w :: w in vocab ==> vocab[w] >= 0
    ensures SumOver(vocab, ks, p) >= 0
    decreases ks
  {
    if ks != {} {
      var w :| w in ks;
      SumOverRemove(vocab, ks, w, p);
      SumOverNonNegative(vocab, ks - {w}, p);
    }
  }

  /** Adding a new word to the vocabulary adds its weighted occurrences to every count. */
  lemma PairCountInsert(vocab: Vocab, w: Word, f: int, p: Pair)
    requires w !in vocab
    ensures PairCount(vocab[w := f], p) == f * Occurrences(w, p) + PairCount(vocab, p)
  {
    var v := vocab[w := f];
    SumOverRemove(v, v.Keys, w, p);
    assert v.Keys - {w} == vocab.Keys;
    SumOverFrame(v, vocab, vocab.Keys, p);
  }

  /** The neighbouring symbols at positions `k` and `k + 1`. */
  function PairAt(w: Word, k: nat): Pair
    requires k + 1 < |w|
  {
    (w[k], w[k + 1])
  }

  /** The set of neighbouring pairs of the words of `vocab`. */
  ghost function AdjacentPairs(vocab: Vocab): set<Pair> {
    set w, k: nat | w in vocab && k + 1 < |w| :: PairAt(w, k)
  }

  /** The full recount as a table: one entry per neighbouring pair. */
  ghost function Recount(vocab: Vocab): Table {
    map p | p in AdjacentPairs(vocab) :: PairCount(vocab, p)
  }

  /** The recount holds every pair's count, absent pairs counting 0. */
  lemma RecountLookup(vocab: Vocab)
    ensures forall p :: Lookup(Recount(vocab), p) == PairCount(vocab, p)
  {
    forall p, w | w in vocab && Occurrences(w, p) > 0 ensures p in AdjacentPairs(vocab) {
      OccurrencesPositive(w, p);
      var k :| 0 <= k < |w| - 1 && (w[k], w[k + 1]) == p;
      assert PairAt(w, k) == p;
    }
    forall p | p !in AdjacentPairs(vocab) ensures PairCount(vocab, p) == 0 {
      SumOverAbsent(vocab, vocab.Keys, p);
    }
  }

  /** The table holds the counts of the words in `done` plus `freq` times the pairs of `h`. */
  ghost predicate CountedWith(pairs: Table, vocab: Vocab, done: set<Word>, freq: int, h: Word) {
    && done <= vocab.Keys
    && forall p :: Lookup(pairs, p) == SumOver(vocab, done, p) + freq * Occurrences(h, p)
             && (p in pairs <==> OccursIn(done, p) || Occurrences(h, p) > 0)
  }

  /** The table holds the counts of the words in `done`, and only pairs that occur in them. */
  ghost predicate Counted(pairs: Table, vocab: Vocab, done: set<Word>) {
    && done <= vocab.Keys
    && forall p :: Lookup(pairs, p) == SumOver(vocab, done, p) && (p in pairs <==> OccursIn(done, p))
  }

  /** One step of the inner loop of `get_frequent_pairs`: the prefix of the word grows by a symbol. */
  lemma CountStep(pairs: Table, vocab: Vocab, done: set<Word>, freq: int, w: Word, i: nat)
    requires i + 1 < |w| && CountedWith(pairs, vocab, done, freq, Head(w, i + 1))
    ensures CountedWith(Bump(pairs, (w[i], w[i + 1]), freq), vocab, done, freq, Head(w, i + 2))
  {
    var h := Head(w, i + 1);
    var x := w[i + 1];
    assert Head(w, i + 2) == h + [x];
    var t := Bump(pairs, (w[i], w[i + 1]), freq);
    BumpLookup(pairs, (w[i], w[i + 1]), freq);
    forall p
      ensures Lookup(t, p) == SumOver(vocab, done, p) + freq * Occurrences(h + [x], p)
      ensures p in t <==> OccursIn(done, p) || Occurrences(h + [x], p) > 0
    {
      OccurrencesSnoc(h, x, p);
      if p == (h[|h| - 1], x) {
        assert freq * (Occurrences(h, p) + 1) == freq * Occurrences(h, p) + freq;
      }
    }
  }

  /** A fresh word starts with no pair counted. */
  lemma CountStart(pairs: Table, vocab: Vocab, done: set<Word>, freq: int, w: Word)
    requires Counted(pairs, vocab, done)
    ensures CountedWith(pairs, vocab, done, freq, Head(w, 1))
  {
    forall p ensures Occurrences(Head(w, 1), p) == 0 {
      if w != [] {
        assert Head(w, 1) == [w[0]];
      }
    }
  }

  /** One step of the outer loop of `get_frequent_pairs`: the word `w` joins the visited ones. */
  lemma VisitStep(pairs: Table, vocab: Vocab, done: set<Word>, w: Word, freq: int, last: nat)
    requires done <= vocab.Keys && w in vocab && w !in done && freq == vocab[w]
    requires last == (if |w| > 0 then |w| - 1 else 0)
    requires CountedWith(pairs, vocab, done, freq, Head(w, last + 1))
    ensures Counted(pairs, vocab, done + {w})
  {
    assert Head(w, last + 1) == w;
    assert done + {w} - {w} == done;
    forall p
      ensures Lookup(pairs, p) == SumOver(vocab, done + {w}, p)
      ensures p in pairs <==> OccursIn(done + {w}, p)
    {
      SumOverRemove(vocab, done + {w}, w, p);
      if OccursIn(done + {w}, p) {
        var v :| v in done + {w} && Occurrences(v, p) > 0;
        if v != w {
          assert v in done;
        }
      }
    }
  }

  /**
   * `get_frequent_pairs`: for every word and every position, add the word's frequency to the
   * pair at that position. The table holds exactly the pairs that occur in some word, each
   * with its full recount.
   */
  method GetFrequentPairs(vocab: Vocab) returns (pairs: Table)
    ensures forall p :: Lookup(pairs, p) == PairCount(vocab, p)
    ensures forall p :: p in pairs <==> OccursIn(vocab.Keys, p)
  {
    pairs := map[];
    var todo := vocab.Keys;
    ghost var done: set<Word> := {};
    while todo != {}
      invariant todo <= vocab.Keys && done == vocab.Keys - todo
      invariant Counted(pairs, vocab, done)
      decreases |todo|
    {
      var word :| word in todo;
      var freq := vocab[word];
      var symbols := word;
      var last := if |symbols| > 0 then |symbols| - 1 else 0;
      CountStart(pairs, vocab, done, freq, word);
      for i := 0 to last
        invariant CountedWith(pairs, vocab, done, freq, Head(symbols, i + 1))
      {
        CountStep(pairs, vocab, done, freq, symbols, i);
        pairs := Bump(pairs, (symbols[i], symbols[i + 1]), freq);
      }
      VisitStep(pairs, vocab, done, word, freq, last);
      todo := todo - {word};
      done := done + {word};
    }
    assert done == vocab.Keys;
  }
}
