/**
 * `update_vocab_with_pair`: fuse the chosen pair in every word of the vocabulary and patch
 * the pair table around each occurrence, instead of counting it again from scratch.
 */
module Update {
  import opened Text
  import opened WordModel
  import opened PairTable
  import opened Merge

  /** The pair as a two-symbol token. */
  function Fuse(pair: Pair): (t: Word)
    ensures |t| == 2 && Concat(t) == pair.0 + pair.1
  {
    assert Concat([pair.1]) == pair.1 + Concat([]);
    [pair.0, pair.1]
  }

  lemma MergedTextAll(t: Word)
    requires |t| >= 1
    ensures forall w :: Concat(Merged(w, t)) == Concat(w)
  {
    forall w ensures Concat(Merged(w, t)) == Concat(w) {
      MergedText(w, t);
    }
  }

  /** The vocabulary after fusing `pair` in every word, each word keeping its frequency. */
  ghost function MergeVocab(vocab: Vocab, pair: Pair): Vocab
    requires TextInjective(vocab)
  {
    MergedTextAll(Fuse(pair));
    map w | w in vocab :: Merged(w, Fuse(pair)) := vocab[w]
  }

  /** Every word is carried over, fused, with its frequency, and nothing else appears. */
  lemma MergeVocabEntries(vocab: Vocab, pair: Pair)
    requires TextInjective(vocab)
    ensures forall w :: w in vocab ==>
              (Merged(w, Fuse(pair)) in MergeVocab(vocab, pair) && MergeVocab(vocab, pair)[Merged(w, Fuse(pair))] == vocab[w])
    ensures forall v :: v in MergeVocab(vocab, pair) ==> exists w :: w in vocab && v == Merged(w, Fuse(pair))
  {
    MergedTextAll(Fuse(pair));
    forall w | w in vocab
      ensures Merged(w, Fuse(pair)) in MergeVocab(vocab, pair)
      ensures MergeVocab(vocab, pair)[Merged(w, Fuse(pair))] == vocab[w]
    {
      var v := Merged(w, Fuse(pair));
      var u :| u in vocab && Merged(u, Fuse(pair)) == v && MergeVocab(vocab, pair)[v] == vocab[u];
      assert Concat(u) == Concat(w);
    }
  }

  /** Each word keeps the text it spells. */
  lemma MergeVocabText(vocab: Vocab, pair: Pair)
    requires TextInjective(vocab)
    ensures forall v :: v in MergeVocab(vocab, pair) ==> exists w :: w in vocab && Concat(v) == Concat(w)
  {
    MergeVocabEntries(vocab, pair);
    MergedTextAll(Fuse(pair));
  }

  /** The update keeps the invariant of the learner's vocabularies. */
  lemma MergeVocabValid(vocab: Vocab, pair: Pair)
    requires ValidVocab(vocab)
    ensures ValidVocab(MergeVocab(vocab, pair))
  {
    var nv := MergeVocab(vocab, pair);
    MergeVocabEntries(vocab, pair);
    MergedTextAll(Fuse(pair));
    forall v | v in nv ensures WellFormedWord(v) {
      var w :| w in vocab && v == Merged(w, Fuse(pair));
      MergedWellFormed(w, Fuse(pair));
    }
    forall v1, v2 | v1 in nv && v2 in nv && Concat(v1) == Concat(v2) ensures v1 == v2 {
      var w1 :| w1 in vocab && v1 == Merged(w1, Fuse(pair));
      var w2 :| w2 in vocab && v2 == Merged(w2, Fuse(pair));
      assert Concat(w1) == Concat(w2);
    }
  }

  /** Counting the pair is the same as finding it as a two-symbol token. */
  lemma OccurrencesToken(w: Word, pair: Pair)
    ensures Occurrences(w, pair) > 0 <==> HasToken(w, Fuse(pair))
  {
    var t := Fuse(pair);
    OccurrencesPositive(w, pair);
    if Occurrences(w, pair) > 0 {
      var k :| 0 <= k < |w| - 1 && (w[k], w[k + 1]) == pair;
      assert w[k..k + 2] == t;
      assert TokenAt(w, t, k);
    }
    if HasToken(w, t) {
      var k :| 0 <= k <= |w| - |t| && TokenAt(w, t, k);
      assert w[k..k + 2][0] == w[k] && w[k..k + 2][1] == w[k + 1];
    }
  }

  /** After the update no word holds the merged pair, so its recount is 0. */
  lemma MergeVocabPairGone(vocab: Vocab, pair: Pair)
    requires ValidVocab(vocab)
    ensures forall v :: v in MergeVocab(vocab, pair) ==> Occurrences(v, pair) == 0
    ensures PairCount(MergeVocab(vocab, pair), pair) == 0
  {
    var nv := MergeVocab(vocab, pair);
    MergeVocabEntries(vocab, pair);
    MergeVocabValid(vocab, pair);
    forall v | v in nv ensures Occurrences(v, pair) == 0 {
      var w :| w in vocab && v == Merged(w, Fuse(pair));
      OccurrencesToken(v, pair);
      if |pair.0| > 0 && |pair.1| > 0 {
        MergedPairGone(w, pair.0, pair.1);
      } else {
        forall k | 0 <= k <= |v| - 2 ensures !TokenAt(v, Fuse(pair), k) {
          assert v[k..k + 2][0] == v[k] && v[k..k + 2][1] == v[k + 1];
          assert WellFormedSymbol(v[k]) && WellFormedSymbol(v[k + 1]);
        }
      }
    }
    SumOverAbsent(nv, nv.Keys, pair);
  }

  /** `Join(v)` starts with the first symbol of `v`. */
  lemma JoinStartsWith(v: Word)
    requires v != []
    ensures |v[0]| <= |Join(v)| && Join(v)[..|v[0]|] == v[0]
  {
  }

  /** If the pair occurs as neighbouring symbols, its space-joined text occurs in the key. */
  lemma {:induction false} TokenInJoin(w: Word, pair: Pair)
    requires HasToken(w, Fuse(pair))
    ensures IsSubstring(pair.0 + " " + pair.1, Join(w))
    decreases |w|
  {
    var t := Fuse(pair);
    var s := pair.0 + " " + pair.1;
    HasTokenCons(w, t);
    if MatchesAt(w, t) {
      assert w[0] == t[0] && w[1] == t[1];
      JoinStartsWith(w[1..]);
      assert Join(w) == pair.0 + " " + Join(w[1..]);
      assert Join(w)[..|s|] == s;
      SubstringPrefix(s, Join(w));
    } else {
      TokenInJoin(w[1..], pair);
      var k :| 0 <= k < |w[1..]| - 1 && TokenAt(w[1..], t, k);
      assert |w| >= 2;
      assert Join(w) == (w[0] + " ") + Join(w[1..]);
      SubstringShift(s, w[0] + " ", Join(w[1..]));
    }
  }

  /** So the substring filter of the update only skips words that fusing would leave unchanged. */
  lemma FilterRedundant(w: Word, pair: Pair)
    requires !IsSubstring(pair.0 + " " + pair.1, Join(w))
    ensures Merged(w, Fuse(pair)) == w
  {
    if HasToken(w, Fuse(pair)) {
      TokenInJoin(w, pair);
    }
    MergedAbsent(w, Fuse(pair));
  }

  function Ind(p: Pair, q: Pair): int {
    if p == q then 1 else 0
  }

  /**
   * The change to the counts made so far by the patching loop: the scan has emitted `out` for
   * the symbols before index `k`; the pair that starts at `k` is already accounted for.
   */
  ghost function Delta(out: Word, w: Word, k: nat, p: Pair): int
    requires k <= |w|
  {
    Occurrences(out + Head(w[k..], 1), p) - Occurrences(Head(w, k + 1), p)
  }

  /** The scan copies the symbol at `k`. */
  lemma PatchSkip(out: Word, w: Word, k: nat, p: Pair)
    requires k + 1 < |w|
    ensures Delta(out + [w[k]], w, k + 1, p) == Delta(out, w, k, p)
  {
    assert Head(w[k + 1..], 1) == [w[k + 1]];
    assert Head(w[k..], 1) == [w[k]];
    assert Head(w, k + 2) == Head(w, k + 1) + [w[k + 1]];
    OccurrencesSnoc(out + [w[k]], w[k + 1], p);
    OccurrencesSnoc(Head(w, k + 1), w[k + 1], p);
  }

  /** Appending at most one symbol adds at most the pair across the seam. */
  lemma OccurrencesSnocOptional(x: Word, e: Word, p: Pair)
    requires |e| <= 1
    ensures Occurrences(x + e, p) == Occurrences(x, p) + (if x != [] && e != [] then Ind(p, (x[|x| - 1], e[0])) else 0)
  {
    if e != [] {
      assert e == [e[0]];
      OccurrencesSnoc(x, e[0], p);
    } else {
      assert x + e == x;
    }
  }

  /** The emitted side when the scan fuses `a`, `b` into `j`; `e` is the symbol after them, if any. */
  lemma FuseEmitted(out: Word, a: Symbol, j: Symbol, e: Word, p: Pair)
    requires |e| <= 1
    ensures Occurrences(out + [j] + e, p) == Occurrences(out + [a], p)
      + (if out != [] then Ind(p, (out[|out| - 1], j)) - Ind(p, (out[|out| - 1], a)) else 0)
      + (if e != [] then Ind(p, (j, e[0])) else 0)
  {
    OccurrencesSnoc(out, j, p);
    OccurrencesSnoc(out, a, p);
    OccurrencesSnocOptional(out + [j], e, p);
    assert (out + [j])[|out + [j]| - 1] == j;
  }

  /** The original side: the prefix grows by `b` and the symbol after it, if any. */
  lemma FuseOriginal(w: Word, k: nat, a: Symbol, b: Symbol, p: Pair)
    requires k + 2 <= |w| && w[k] == a && w[k + 1] == b
    ensures Occurrences(Head(w, k + 3), p) == Occurrences(Head(w, k + 1), p) + Ind(p, (a, b))
      + (if k + 2 < |w| then Ind(p, (b, w[k + 2])) else 0)
  {
    assert Head(w, k + 2) == Head(w, k + 1) + [b];
    OccurrencesSnoc(Head(w, k + 1), b, p);
    if k + 2 < |w| {
      assert Head(w, k + 3) == Head(w, k + 2) + [w[k + 2]];
      OccurrencesSnoc(Head(w, k + 2), w[k + 2], p);
    } else {
      assert Head(w, k + 3) == Head(w, k + 2);
    }
  }

  /** The scan fuses the pair at `k` and `k + 1`. */
  lemma PatchFuse(out: Word, w: Word, k: nat, a: Symbol, b: Symbol, p: Pair)
    requires k + 2 <= |w| && w[k] == a && w[k + 1] == b
    ensures Delta(out + [a + b], w, k + 2, p) == Delta(out, w, k, p)
      + (if out != [] then Ind(p, (out[|out| - 1], a + b)) - Ind(p, (out[|out| - 1], a)) else 0)
      + (if k + 2 < |w| then Ind(p, (a + b, w[k + 2])) - Ind(p, (b, w[k + 2])) else 0)
      - Ind(p, (a, b))
  {
    var e := Head(w[k + 2..], 1);
    assert Head(w[k..], 1) == [a];
    assert k + 2 < |w| ==> e == [w[k + 2]];
    assert k + 2 == |w| ==> e == [];
    FuseEmitted(out, a, a + b, e, p);
    FuseOriginal(w, k, a, b, p);
    assert out + [a + b] + e == out + [a + b] + Head(w[k + 2..], 1);
  }

  /** The table after the bumps the loop makes when it fuses the pair at `k` (see `PatchPairs`). */
  ghost function AfterFuse(before: Table, pair: Pair, freq: int, out: Word, w: Word, k: nat): Table
    requires k + 2 <= |w|
  {
    var j := pair.0 + pair.1;
    var t1 := if out != [] then Bump(Bump(before, (out[|out| - 1], pair.0), -freq), (out[|out| - 1], j), freq)
              else before;
    if k + 2 < |w| then Bump(Bump(t1, (pair.1, w[k + 2]), -freq), (j, w[k + 2]), freq) else t1
  }

  /** The loop invariant on the table: every count other than the merged pair's has moved by `Delta`. */
  ghost predicate Patched(pairs: Table, pairs0: Table, pair: Pair, freq: int, out: Word, w: Word, k: nat)
    requires k <= |w|
  {
    forall p :: p != pair ==> Lookup(pairs, p) == Lookup(pairs0, p) + freq * Delta(out, w, k, p)
  }

  lemma SkipTable(pairs: Table, pairs0: Table, pair: Pair, freq: int, out: Word, w: Word, k: nat)
    requires k + 1 < |w| && Patched(pairs, pairs0, pair, freq, out, w, k)
    ensures Patched(pairs, pairs0, pair, freq, out + [w[k]], w, k + 1)
  {
    forall p | p != pair
      ensures Lookup(pairs, p) == Lookup(pairs0, p) + freq * Delta(out + [w[k]], w, k + 1, p)
    {
      PatchSkip(out, w, k, p);
    }
  }

  /**
   * Every count other than the one of `pair` has moved from `before` to `after` by `freq` times
   * the change in its number of occurrences when `pair` is fused in `w`.
   */
  ghost predicate Shifted(before: Table, after: Table, pair: Pair, w: Word, freq: int) {
    forall p :: p != pair ==>
      Lookup(after, p) == Lookup(before, p) + freq * (Occurrences(Merged(w, Fuse(pair)), p) - Occurrences(w, p))
  }

  /** At the end of the scan the change is the difference of the fused and the original counts. */
  lemma DoneTable(pairs: Table, pairs0: Table, pair: Pair, freq: int, out: Word, w: Word, k: nat)
    requires k <= |w| && (k == |w| || k + 1 == |w|)
    requires out + Merged(w[k..], Fuse(pair)) == Merged(w, Fuse(pair))
    requires Patched(pairs, pairs0, pair, freq, out, w, k)
    ensures Shifted(pairs0, pairs, pair, w, freq)
  {
    assert out + Head(w[k..], 1) == Merged(w, Fuse(pair)) && Head(w, k + 1) == w by {
      if k == |w| {
        assert w[k..] == [];
        assert out + [] == out;
      } else {
        assert w[k..] == [w[k]];
        assert Merged(w[k..], Fuse(pair)) == [w[k]];
      }
    }
  }

  /** The merge of the suffix at `k` starts with the fused pair when the pair occurs at `k`, */
  lemma ScanFuse(out: Word, w: Word, k: nat, pair: Pair)
    requires k + 2 <= |w| && w[k] == pair.0 && w[k + 1] == pair.1
    requires out + Merged(w[k..], Fuse(pair)) == Merged(w, Fuse(pair))
    ensures (out + [pair.0 + pair.1]) + Merged(w[k + 2..], Fuse(pair)) == Merged(w, Fuse(pair))
  {
    var t := Fuse(pair);
    MergedFrom(w, t, k);
    assert w[k..][..2] == t;
  }

  /** and with the symbol at `k` itself otherwise. */
  lemma ScanSkip(out: Word, w: Word, k: nat, pair: Pair)
    requires k + 1 < |w| && !(w[k] == pair.0 && w[k + 1] == pair.1)
    requires out + Merged(w[k..], Fuse(pair)) == Merged(w, Fuse(pair))
    ensures (out + [w[k]]) + Merged(w[k + 1..], Fuse(pair)) == Merged(w, Fuse(pair))
  {
    var t := Fuse(pair);
    MergedFrom(w, t, k);
    assert w[k..][..2] == [w[k], w[k + 1]];
  }

  lemma FuseTable(before: Table, pairs0: Table, pair: Pair, freq: int, out: Word, w: Word, k: nat)
    requires k + 2 <= |w| && w[k] == pair.0 && w[k + 1] == pair.1
    requires Patched(before, pairs0, pair, freq, out, w, k)
    ensures Patched(AfterFuse(before, pair, freq, out, w, k), pairs0, pair, freq, out + [pair.0 + pair.1], w, k + 2)
  {
    var j := pair.0 + pair.1;
    var t1 := if out != [] then Bump(Bump(before, (out[|out| - 1], pair.0), -freq), (out[|out| - 1], j), freq)
              else before;
    var after := AfterFuse(before, pair, freq, out, w, k);
    forall p | p != pair
      ensures Lookup(after, p) == Lookup(pairs0, p) + freq * Delta(out + [j], w, k + 2, p)
    {
      PatchFuse(out, w, k, pair.0, pair.1, p);
      var x1 := if out != [] then Ind(p, (out[|out| - 1], j)) - Ind(p, (out[|out| - 1], pair.0)) else 0;
      var x2 := if k + 2 < |w| then Ind(p, (j, w[k + 2])) - Ind(p, (pair.1, w[k + 2])) else 0;
      if out != [] {
        BumpPair(before, p, (out[|out| - 1], pair.0), (out[|out| - 1], j), freq);
      }
      if k + 2 < |w| {
        BumpPair(t1, p, (pair.1, w[k + 2]), (j, w[k + 2]), freq);
      }
      FuseArith(Lookup(before, p), Lookup(pairs0, p), freq, Delta(out, w, k, p),
                Delta(out + [j], w, k + 2, p), x1, x2, Lookup(t1, p), Lookup(after, p));
    }
  }

  /** Moving `f` from the pair `q1` to the pair `q2`. */
  lemma BumpPair(t: Table, p: Pair, q1: Pair, q2: Pair, f: int)
    ensures Lookup(Bump(Bump(t, q1, -f), q2, f), p) == Lookup(t, p) + f * (Ind(p, q2) - Ind(p, q1))
  {
  }

  lemma FuseArith(lb: int, l0: int, f: int, d: int, d2: int, x1: int, x2: int, lm: int, la: int)
    requires lb == l0 + f * d && d2 == d + x1 + x2
    requires lm == lb + f * x1 && la == lm + f * x2
    ensures la == l0 + f * d2
  {
    assert f * d2 == f * d + f * x1 + f * x2;
  }

  /**
   * The symbol loop of `update_vocab_with_pair` for one word of frequency `freq`: at each
   * position where `pair` starts, move the frequency from the pairs it breaks to the pairs
   * it creates. The in-place write `symbols[i + 1] = joined_pair` (done only when a successor
   * exists) stops the scan from matching inside a pair it has just fused; the `i += 1` that
   * follows it has no effect on the `for` loop.
   */
  /** The bumps the loop body makes at index `i` of the symbols `s` when it finds the pair there. */
  function SourceFuse(pairs: Table, s: Word, i: nat, joined: Symbol, freq: int): Table
    requires i + 1 < |s|
  {
    var t1 := if i > 0 then Bump(Bump(pairs, (s[i - 1], s[i]), -freq), (s[i - 1], joined), freq) else pairs;
    if i + 2 < |s| then Bump(Bump(t1, (s[i + 1], s[i + 2]), -freq), (joined, s[i + 2]), freq) else t1
  }

  /**
   * The state of the patching loop before index `i`: the symbols agree with the word from the
   * scan position `k` on, `out` is what the merge emits for the word before `k`, and the table
   * has moved by `Delta`.
   */
  ghost predicate ScanInv(symbols: Word, word: Word, pair: Pair, i: nat, k: nat, out: Word,
                          pairs: Table, pairs0: Table, freq: int)
  {
    && |symbols| == |word| && (k == i || k == i + 1) && k <= |word|
    && symbols[k..] == word[k..]
    && (k == i + 1 && k < |word| ==> symbols[i] == pair.0 + pair.1 && |pair.1| > 0)
    && (k == 0 ==> out == [])
    && (0 < k < |word| ==> out != [] && symbols[k - 1] == out[|out| - 1])
    && out + Merged(word[k..], Fuse(pair)) == Merged(word, Fuse(pair))
    && Patched(pairs, pairs0, pair, freq, out, word, k)
  }

  lemma ScanStart(word: Word, pair: Pair, pairs0: Table, freq: int)
    ensures ScanInv(word, word, pair, 0, 0, [], pairs0, pairs0, freq)
  {
  }

  /** The loop body finds the pair at `i`: it fuses, and the scan moves past both symbols. */
  lemma ScanFuseStep(symbols: Word, word: Word, pair: Pair, i: nat, k: nat, out: Word,
                     pairs: Table, pairs0: Table, freq: int)
    requires WellFormedWord(word) && i + 1 < |word|
    requires ScanInv(symbols, word, pair, i, k, out, pairs, pairs0, freq)
    requires symbols[i] == pair.0 && symbols[i + 1] == pair.1
    ensures k == i
    ensures ScanInv(if i + 2 < |symbols| then symbols[i + 1 := pair.0 + pair.1] else symbols, word, pair,
                    i + 1, k + 2, out + [pair.0 + pair.1], SourceFuse(pairs, symbols, i, pair.0 + pair.1, freq),
                    pairs0, freq)
  {
    var j := pair.0 + pair.1;
    assert |j| == |pair.0| + |pair.1|;
    assert word[k] == pair.0 && word[k + 1] == pair.1 by {
      assert symbols[k..][0] == word[k..][0] && symbols[k..][1] == word[k..][1];
    }
    assert k + 2 < |word| ==> symbols[k + 2] == word[k + 2] by {
      if k + 2 < |word| {
        assert symbols[k..][2] == word[k..][2];
      }
    }
    assert SourceFuse(pairs, symbols, i, j, freq) == AfterFuse(pairs, pair, freq, out, word, k);
    FuseTable(pairs, pairs0, pair, freq, out, word, k);
    assert WellFormedSymbol(word[k + 1]);
    ScanFuse(out, word, k, pair);
    var s2 := if i + 2 < |symbols| then symbols[i + 1 := j] else symbols;
    assert s2[k + 2..] == word[k + 2..] by {
      assert s2[k + 2..] == symbols[k..][2..];
    }
  }

  /** The loop body finds no pair at `i`: the scan copies the symbol at `i`, if it has not passed it. */
  lemma ScanPassStep(symbols: Word, word: Word, pair: Pair, i: nat, k: nat, out: Word,
                     pairs: Table, pairs0: Table, freq: int)
    requires i + 1 < |word|
    requires ScanInv(symbols, word, pair, i, k, out, pairs, pairs0, freq)
    requires !(symbols[i] == pair.0 && symbols[i + 1] == pair.1)
    ensures k == i ==> ScanInv(symbols, word, pair, i + 1, k + 1, out + [word[k]], pairs, pairs0, freq)
    ensures k != i ==> ScanInv(symbols, word, pair, i + 1, k, out, pairs, pairs0, freq)
  {
    if k == i {
      assert symbols[i] == word[i] && symbols[i + 1] == word[i + 1] by {
        assert symbols[k..][0] == word[k..][0] && symbols[k..][1] == word[k..][1];
      }
      SkipTable(pairs, pairs0, pair, freq, out, word, k);
      ScanSkip(out, word, k, pair);
      assert symbols[k + 1..] == symbols[k..][1..];
    }
  }

  /**
   * The pair update of `update_vocab_with_pair` for one word that holds the pair: for every pair
   * other than the merged one, the table moves by the word's frequency times the change in that
   * pair's number of occurrences between the word and its merged form. (The merged pair's own
   * count is not maintained by the source; the caller deletes it.)
   */
  method PatchPairs(pair: Pair, word: Word, freq: int, pairs0: Table) returns (pairs: Table)
    requires WellFormedWord(word)
    ensures Shifted(pairs0, pairs, pair, word, freq)
  {
    var joinedPair := pair.0 + pair.1;
    var symbols := word;
    pairs := pairs0;
    var last := if |symbols| > 0 then |symbols| - 1 else 0;
    ghost var k: nat := 0;
    ghost var out: Word := [];
    ScanStart(word, pair, pairs0, freq);
    for i := 0 to last
      invariant ScanInv(symbols, word, pair, i, k, out, pairs, pairs0, freq)
    {
      if symbols[i] == pair.0 && symbols[i + 1] == pair.1 {
        ScanFuseStep(symbols, word, pair, i, k, out, pairs, pairs0, freq);
        ghost var s0 := symbols;
        ghost var before := pairs;
        if i > 0 {
          pairs := Bump(pairs, (symbols[i - 1], symbols[i]), -freq);
          pairs := Bump(pairs, (symbols[i - 1], joinedPair), freq);
        }
        if i + 2 < |symbols| {
          pairs := Bump(pairs, (symbols[i + 1], symbols[i + 2]), -freq);
          pairs := Bump(pairs, (joinedPair, symbols[i + 2]), freq);
          symbols := symbols[i + 1 := joinedPair];
        }
        assert pairs == SourceFuse(before, s0, i, joinedPair, freq);
        k, out := k + 2, out + [joinedPair];
      } else {
        ScanPassStep(symbols, word, pair, i, k, out, pairs, pairs0, freq);
        if k == i {
          k, out := k + 1, out + [word[k]];
        }
      }
    }
    DoneTable(pairs, pairs0, pair, freq, out, word, k);
  }

  /**
   * `m` holds the fused form of each word of `ks` with the word's frequency, and nothing else:
   * the state of the fused vocabulary once the words `ks` are visited.
   */
  ghost predicate MergedInto(vocab: Vocab, pair: Pair, ks: set<Word>, m: Vocab)
    requires ks <= vocab.Keys
  {
    && (forall w :: w in ks ==> Merged(w, Fuse(pair)) in m && m[Merged(w, Fuse(pair))] == vocab[w])
    && (forall v :: v in m ==> exists w :: w in ks && v == Merged(w, Fuse(pair)))
  }

  /** Once every word is visited the vocabulary is the fused one. */
  lemma MergedIntoAll(vocab: Vocab, pair: Pair, m: Vocab)
    requires TextInjective(vocab) && MergedInto(vocab, pair, vocab.Keys, m)
    ensures m == MergeVocab(vocab, pair)
  {
    var mv := MergeVocab(vocab, pair);
    MergeVocabEntries(vocab, pair);
    forall v | v in m ensures v in mv && m[v] == mv[v] {
      var w :| w in vocab && v == Merged(w, Fuse(pair));
    }
    forall v | v in mv ensures v in m {
      var w :| w in vocab && v == Merged(w, Fuse(pair));
    }
  }

  /** Visiting one more word adds its fused form, which is new because texts are distinct. */
  lemma MergedIntoInsert(vocab: Vocab, pair: Pair, done: set<Word>, w: Word, m: Vocab)
    requires TextInjective(vocab) && done <= vocab.Keys && w in vocab && w !in done
    requires MergedInto(vocab, pair, done, m)
    ensures Merged(w, Fuse(pair)) !in m
    ensures MergedInto(vocab, pair, done + {w}, m[Merged(w, Fuse(pair)) := vocab[w]])
  {
    var t := Fuse(pair);
    var v := Merged(w, t);
    forall u | u in done ensures Merged(u, t) != v {
      MergedText(u, t);
      MergedText(w, t);
    }
    var m2 := m[v := vocab[w]];
    forall x | x in m2 ensures exists u :: u in done + {w} && x == Merged(u, t) {
      if x != v {
        var u :| u in done && x == Merged(u, t);
        assert u in done + {w};
      } else {
        assert w in done + {w};
      }
    }
  }

  /** The loop state of `update_vocab_with_pair` once the words `done` are visited. */
  ghost predicate UpdateInv(vocab: Vocab, pair: Pair, pairs: Table, done: set<Word>,
                            updated: Vocab, newPairs: Table)
  {
    && done <= vocab.Keys
    && MergedInto(vocab, pair, done, updated)
    && forall p :: p != pair ==>
         Lookup(newPairs, p) == Lookup(pairs, p) + PairCount(updated, p) - SumOver(vocab, done, p)
  }

  lemma UpdateStart(vocab: Vocab, pair: Pair, pairs: Table)
    ensures UpdateInv(vocab, pair, pairs, {}, map[], pairs)
  {
  }

  /** One step of the loop: the word `w` is visited, its table change `patched` already applied. */
  lemma UpdateStep(vocab: Vocab, pair: Pair, pairs: Table, done: set<Word>, w: Word, freq: int,
                   updated: Vocab, newPairs: Table, patched: Table)
    requires TextInjective(vocab) && w in vocab && w !in done && freq == vocab[w]
    requires UpdateInv(vocab, pair, pairs, done, updated, newPairs)
    requires Shifted(newPairs, patched, pair, w, freq)
    ensures UpdateInv(vocab, pair, pairs, done + {w}, updated[Merged(w, Fuse(pair)) := freq], patched)
  {
    var v := Merged(w, Fuse(pair));
    MergedIntoInsert(vocab, pair, done, w, updated);
    forall p | p != pair
      ensures Lookup(patched, p) == Lookup(pairs, p) + PairCount(updated[v := freq], p) - SumOver(vocab, done + {w}, p)
    {
      UpdateStepAt(vocab, pairs, done, w, freq, updated, v, newPairs, patched, p);
    }
  }

  /** The table part of `UpdateStep` for one pair `p`. */
  lemma UpdateStepAt(vocab: Vocab, pairs: Table, done: set<Word>, w: Word, freq: int,
                     updated: Vocab, v: Word, newPairs: Table, patched: Table, p: Pair)
    requires done <= vocab.Keys && w in vocab && w !in done && freq == vocab[w] && v !in updated
    requires Lookup(newPairs, p) == Lookup(pairs, p) + PairCount(updated, p) - SumOver(vocab, done, p)
    requires Lookup(patched, p) == Lookup(newPairs, p) + freq * (Occurrences(v, p) - Occurrences(w, p))
    ensures Lookup(patched, p) == Lookup(pairs, p) + PairCount(updated[v := freq], p) - SumOver(vocab, done + {w}, p)
  {
    PairCountInsert(updated, v, freq, p);
    SumOverAdd(vocab, done, w, p);
    Distribute2(freq, Occurrences(v, p), Occurrences(w, p));
    StepArith(vocab, pairs, done, w, freq, updated, v, newPairs, patched, p);
  }

  /** The arithmetic of `UpdateStepAt`, once the three counts are split up. */
  lemma StepArith(vocab: Vocab, pairs: Table, done: set<Word>, w: Word, freq: int,
                  updated: Vocab, v: Word, newPairs: Table, patched: Table, p: Pair)
    requires done <= vocab.Keys && w in vocab && freq == vocab[w]
    requires Lookup(newPairs, p) == Lookup(pairs, p) + PairCount(updated, p) - SumOver(vocab, done, p)
    requires Lookup(patched, p) == Lookup(newPairs, p) + freq * (Occurrences(v, p) - Occurrences(w, p))
    requires PairCount(updated[v := freq], p) == freq * Occurrences(v, p) + PairCount(updated, p)
    requires SumOver(vocab, done + {w}, p) == vocab[w] * Occurrences(w, p) + SumOver(vocab, done, p)
    requires freq * (Occurrences(v, p) - Occurrences(w, p)) == freq * Occurrences(v, p) - freq * Occurrences(w, p)
    ensures Lookup(patched, p) == Lookup(pairs, p) + PairCount(updated[v := freq], p) - SumOver(vocab, done + {w}, p)
  {
  }

  /** After the last word, and once the pair's own entry is dropped. */
  lemma UpdateDone(vocab: Vocab, pair: Pair, pairs: Table, updated: Vocab, newPairs: Table)
    requires ValidVocab(vocab) && UpdateInv(vocab, pair, pairs, vocab.Keys, updated, newPairs)
    ensures updated == MergeVocab(vocab, pair)
    ensures forall p :: p != pair ==>
              Lookup(newPairs - {pair}, p) == Lookup(pairs, p) + PairCount(updated, p) - PairCount(vocab, p)
    ensures (forall p :: Lookup(pairs, p) == PairCount(vocab, p)) ==>
              forall p :: Lookup(newPairs - {pair}, p) == PairCount(updated, p)
  {
    MergedIntoAll(vocab, pair, updated);
    MergeVocabPairGone(vocab, pair);
  }

  lemma Distribute2(f: int, x: int, y: int)
    ensures f * (x - y) == f * x - f * y
  {
  }

  /** A word skipped by the substring filter changes no count. */
  lemma UnchangedTable(t: Table, pair: Pair, w: Word, f: int)
    requires Merged(w, Fuse(pair)) == w
    ensures Shifted(t, t, pair, w, f)
  {
  }

  /**
   * The body of the loop of `update_vocab_with_pair` for one word: a word that contains the
   * pair's text has the table patched around each occurrence and is stored fused; any other word
   * is stored as it is, which is its fused form as well.
   */
  method UpdateWord(pair: Pair, word: Word, freq: int, updatedVocab: Vocab, pairs: Table)
    returns (updatedVocab': Vocab, pairs': Table)
    requires WellFormedWord(word)
    ensures updatedVocab' == updatedVocab[Merged(word, Fuse(pair)) := freq]
    ensures Shifted(pairs, pairs', pair, word, freq)
  {
    if IsSubstring(pair.0 + " " + pair.1, Join(word)) {
      pairs' := PatchPairs(pair, word, freq, pairs);
      var modifiedWord := MergeSubwords(word, Fuse(pair));
      updatedVocab' := updatedVocab[modifiedWord := freq];
    } else {
      FilterRedundant(word, pair);
      UnchangedTable(pairs, pair, word, freq);
      pairs' := pairs;
      updatedVocab' := updatedVocab[word := freq];
    }
  }

  /** The loop of `update_vocab_with_pair`: every word is visited once, in any order. */
  method UpdateWords(pair: Pair, vocab: Vocab, pairs: Table) returns (updatedVocab: Vocab, newPairs: Table)
    requires ValidVocab(vocab)
    ensures UpdateInv(vocab, pair, pairs, vocab.Keys, updatedVocab, newPairs)
  {
    updatedVocab := map[];
    newPairs := pairs;
    var todo := vocab.Keys;
    ghost var done: set<Word> := {};
    UpdateStart(vocab, pair, pairs);
    while todo != {}
      invariant todo <= vocab.Keys && done == vocab.Keys - todo
      invariant UpdateInv(vocab, pair, pairs, done, updatedVocab, newPairs)
      decreases |todo|
    {
      var word :| word in todo;
      var freq := vocab[word];
      ghost var before, beforeTable := updatedVocab, newPairs;
      updatedVocab, newPairs := UpdateWord(pair, word, freq, updatedVocab, newPairs);
      UpdateStep(vocab, pair, pairs, done, word, freq, before, beforeTable, newPairs);
      todo := todo - {word};
      done := done + {word};
    }
    assert done == vocab.Keys;
  }

  /**
   * `update_vocab_with_pair`: fuse the pair in every word and patch the table; finally drop the
   * pair's own entry (`pairs.pop`, which fails when the pair is absent). The new vocabulary is
   * the fused one, and every other pair's count has moved by exactly the change in its recount.
   */
  method UpdateVocabWithPair(pair: Pair, vocab: Vocab, pairs: Table) returns (updatedVocab: Vocab, newPairs: Table)
    requires ValidVocab(vocab) && pair in pairs
    ensures updatedVocab == MergeVocab(vocab, pair)
    ensures pair !in newPairs
    ensures forall p :: p != pair ==>
              Lookup(newPairs, p) == Lookup(pairs, p) + PairCount(updatedVocab, p) - PairCount(vocab, p)
    ensures (forall p :: Lookup(pairs, p) == PairCount(vocab, p)) ==>
              forall p :: Lookup(newPairs, p) == PairCount(updatedVocab, p)
  {
    updatedVocab, newPairs := UpdateWords(pair, vocab, pairs);
    UpdateDone(vocab, pair, pairs, updatedVocab, newPairs);
    newPairs := newPairs - {pair};
  }
}
