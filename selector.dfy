/**
 * `find_most_frequent_pair`: the arg-max of the pair table under the source's tie-break,
 * in which a higher count wins, then the smaller second symbol, then the smaller first one.
 */
module Selector {
  import opened Text
  import opened WordModel
  import opened PairTable

  datatype Option<T> = None | Some(value: T)

  /** The pair `p` with count `cp` is preferred to the pair `q` with count `cq`. */
  predicate Outranks(p: Pair, cp: int, q: Pair, cq: int) {
    || cp > cq
    || (cp == cq && LexLess(p.1, q.1))
    || (cp == cq && p.1 == q.1 && LexLess(p.0, q.0))
  }

  lemma OutranksIrreflexive(p: Pair, c: int)
    ensures !Outranks(p, c, p, c)
  {
    LexLessIrreflexive(p.0);
    LexLessIrreflexive(p.1);
  }

  lemma OutranksAsymmetric(p: Pair, cp: int, q: Pair, cq: int)
    requires Outranks(p, cp, q, cq)
    ensures !Outranks(q, cq, p, cp)
  {
    if LexLess(p.1, q.1) {
      LexLessAsymmetric(p.1, q.1);
    }
    if p.1 == q.1 {
      LexLessIrreflexive(p.1);
      if LexLess(p.0, q.0) {
        LexLessAsymmetric(p.0, q.0);
      }
    }
  }

  lemma OutranksTransitive(p: Pair, cp: int, q: Pair, cq: int, r: Pair, cr: int)
    requires Outranks(p, cp, q, cq) && Outranks(q, cq, r, cr)
    ensures Outranks(p, cp, r, cr)
  {
    if cp == cq && cq == cr {
      if LexLess(p.1, q.1) && LexLess(q.1, r.1) {
        LexLessTransitive(p.1, q.1, r.1);
      }
      if p.1 == q.1 && q.1 == r.1 && LexLess(p.0, q.0) && LexLess(q.0, r.0) {
        LexLessTransitive(p.0, q.0, r.0);
      }
    }
  }

  /** Between two distinct pairs one is always preferred: the order is total. */
  lemma OutranksTotal(p: Pair, cp: int, q: Pair, cq: int)
    requires p != q
    ensures Outranks(p, cp, q, cq) || Outranks(q, cq, p, cp)
  {
    if p.1 != q.1 {
      LexLessTotal(p.1, q.1);
    } else {
      LexLessTotal(p.0, q.0);
    }
  }

  /** `p` has a positive count and is preferred to every other pair with a positive count. */
  predicate IsBest(t: Table, p: Pair) {
    && Lookup(t, p) > 0
    && forall q :: q in t && q != p && t[q] > 0 ==> Outranks(p, Lookup(t, p), q, t[q])
  }

  /** What the selector must return: nothing when no count is positive, otherwise the best pair. */
  predicate Selects(t: Table, r: Option<Pair>) {
    && (r.None? <==> forall p :: p in t ==> t[p] <= 0)
    && (r.Some? ==> IsBest(t, r.value))
  }

  /** At most one pair is best, so the selection does not depend on the order of iteration. */
  lemma BestUnique(t: Table, p: Pair, q: Pair)
    requires IsBest(t, p) && IsBest(t, q)
    ensures p == q
  {
    if p != q {
      assert Outranks(p, Lookup(t, p), q, Lookup(t, q));
      OutranksAsymmetric(p, Lookup(t, p), q, Lookup(t, q));
    }
  }

  lemma SelectsUnique(t: Table, r1: Option<Pair>, r2: Option<Pair>)
    requires Selects(t, r1) && Selects(t, r2)
    ensures r1 == r2
  {
    if r1.Some? && r2.Some? {
      BestUnique(t, r1.value, r2.value);
    }
  }

  /** Tables that agree on every count, treating absent and zero the same, select alike. */
  lemma SelectsLookup(t1: Table, t2: Table, r: Option<Pair>)
    requires forall p :: Lookup(t1, p) == Lookup(t2, p)
    ensures Selects(t1, r) <==> Selects(t2, r)
  {
    forall p | p in t1 ensures t1[p] == Lookup(t2, p) {
      assert Lookup(t1, p) == t1[p];
    }
    forall p | p in t2 ensures t2[p] == Lookup(t1, p) {
      assert Lookup(t2, p) == t2[p];
    }
  }

  /** The tie-break on the second symbol, on a concrete table: `"o" < "w"`. */
  lemma TieBreakExample()
    ensures Selects(map[("l", "o") := 2, ("o", "w") := 2, ("w", "_") := 1], Some(("l", "o")))
  {
    var t := map[("l", "o") := 2, ("o", "w") := 2, ("w", "_") := 1];
    assert LexLess("o", "w");
    forall q | q in t && q != ("l", "o") && t[q] > 0 ensures Outranks(("l", "o"), 2, q, t[q]) {
      assert q == ("o", "w") || q == ("w", "_");
    }
  }

  /** The running maximum after visiting the pairs `done`. */
  ghost predicate BestSoFar(t: Table, done: set<Pair>, maxPair: Option<Pair>, maxFreq: int) {
    && done <= t.Keys
    && (maxPair.None? ==> maxFreq == 0 && forall q :: q in done ==> t[q] <= 0)
    && (maxPair.Some? ==> maxPair.value in done && maxFreq == t[maxPair.value] > 0)
    && (maxPair.Some? ==> forall q :: q in done && q != maxPair.value && t[q] > 0
                            ==> Outranks(maxPair.value, maxFreq, q, t[q]))
  }

  /**
   * Visiting `pair` keeps the running maximum: a larger count takes over, an equal count takes
   * over when its pair is preferred, and otherwise nothing changes.
   */
  lemma BestStep(t: Table, done: set<Pair>, before: Option<Pair>, beforeFreq: int, pair: Pair,
                 after: Option<Pair>, afterFreq: int)
    requires BestSoFar(t, done, before, beforeFreq) && pair in t && pair !in done
    requires t[pair] > beforeFreq ==> after == Some(pair) && afterFreq == t[pair]
    requires t[pair] <= beforeFreq ==> afterFreq == beforeFreq
    requires (t[pair] == beforeFreq && before.Some? && Outranks(pair, t[pair], before.value, beforeFreq))
               ==> after == Some(pair)
    requires (t[pair] <= beforeFreq && !(t[pair] == beforeFreq && before.Some? && Outranks(pair, t[pair], before.value, beforeFreq)))
               ==> after == before
    ensures BestSoFar(t, done + {pair}, after, afterFreq)
  {
    if after.Some? && before.Some? {
      var m, o := after.value, before.value;
      if m == pair && pair != o {
        forall q | q in done && q != m && t[q] > 0 ensures Outranks(m, afterFreq, q, t[q]) {
          if q != o {
            OutranksTransitive(m, afterFreq, o, t[o], q, t[q]);
          }
        }
      }
      if m == o && pair != o && t[pair] > 0 {
        OutranksTotal(o, afterFreq, pair, t[pair]);
      }
    }
  }

  /**
   * `find_most_frequent_pair`: one pass over the table keeping the best pair seen so far;
   * the running maximum starts at 0, so only a positive count is ever chosen.
   */
  method FindMostFrequentPair(freqDict: Table) returns (maxPair: Option<Pair>)
    ensures Selects(freqDict, maxPair)
  {
    var maxFreq := 0;
    maxPair := None;
    var todo := freqDict.Keys;
    ghost var done: set<Pair> := {};
    while todo != {}
      invariant todo <= freqDict.Keys && done == freqDict.Keys - todo
      invariant BestSoFar(freqDict, done, maxPair, maxFreq)
      decreases |todo|
    {
      var pair :| pair in todo;
      var freq := freqDict[pair];
      ghost var before, beforeFreq := maxPair, maxFreq;
      if freq > maxFreq {
        maxFreq := freq;
        maxPair := Some(pair);
      } else if freq == maxFreq && maxPair.Some? {
        if LexLess(pair.1, maxPair.value.1) {
          maxPair := Some(pair);
        } else if pair.1 == maxPair.value.1 {
          if LexLess(pair.0, maxPair.value.0) {
            maxPair := Some(pair);
          }
        }
      }
      BestStep(freqDict, done, before, beforeFreq, pair, maxPair, maxFreq);
      todo := todo - {pair};
      done := done + {pair};
    }
    assert done == freqDict.Keys;
  }
}
