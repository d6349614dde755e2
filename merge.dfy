/**
 * `merge_subwords`: a greedy, left-to-right, non-overlapping scan that fuses every
 * occurrence of a token (a sequence of symbols) into the single symbol it spells.
 */
module Merge {
  import opened Text
  import opened WordModel

  /** The token `t` starts the word `w`. */
  predicate MatchesAt(w: Word, t: Word) {
    |t| <= |w| && w[..|t|] == t
  }

  /** The token `t` occurs as consecutive symbols of `w` starting at index `k`. */
  predicate TokenAt(w: Word, t: Word, k: int) {
    0 <= k && k + |t| <= |w| && w[k..k + |t|] == t
  }

  /** The token `t` occurs somewhere as consecutive symbols of `w`. */
  predicate HasToken(w: Word, t: Word) {
    exists k :: 0 <= k <= |w| - |t| && TokenAt(w, t, k)
  }

  /** The word after the scan: each match of `t` found from the left is replaced by `"".join(t)`. */
  function Merged(w: Word, t: Word): Word
    requires |t| >= 1
    decreases |w|
  {
    if w == [] then []
    else if MatchesAt(w, t) then [Concat(t)] + Merged(w[|t|..], t)
    else [w[0]] + Merged(w[1..], t)
  }

  /** The number of matches the scan finds. */
  function MatchCount(w: Word, t: Word): nat
    requires |t| >= 1
    decreases |w|
  {
    if w == [] then 0
    else if MatchesAt(w, t) then 1 + MatchCount(w[|t|..], t)
    else MatchCount(w[1..], t)
  }

  /** Merging never changes the text a word spells. */
  lemma {:induction false} MergedText(w: Word, t: Word)
    requires |t| >= 1
    ensures Concat(Merged(w, t)) == Concat(w)
    decreases |w|
  {
    if w != [] {
      if MatchesAt(w, t) {
        MergedText(w[|t|..], t);
        assert w == t + w[|t|..];
        ConcatAppend(t, w[|t|..]);
        ConcatAppend([Concat(t)], Merged(w[|t|..], t));
      } else {
        MergedText(w[1..], t);
        ConcatAppend([w[0]], Merged(w[1..], t));
      }
    }
  }

  /** Every output symbol is an unmatched input symbol or the fused token. */
  lemma {:induction false} MergedSymbols(w: Word, t: Word)
    requires |t| >= 1
    ensures forall x :: x in Merged(w, t) ==> x in w || x == Concat(t)
    decreases |w|
  {
    if w != [] {
      if MatchesAt(w, t) {
        MergedSymbols(w[|t|..], t);
        forall x | x in w[|t|..] ensures x in w {
          var k :| 0 <= k < |w[|t|..]| && w[|t|..][k] == x;
          assert w[|t| + k] == x;
        }
      } else {
        MergedSymbols(w[1..], t);
      }
    }
  }

  /** The text of well-formed symbols is itself a well-formed symbol. */
  lemma {:induction false} ConcatWellFormed(t: Word)
    requires |t| >= 1 && WellFormedWord(t)
    ensures WellFormedSymbol(Concat(t))
    decreases |t|
  {
    if |t| == 1 {
      assert Concat(t) == t[0] + Concat([]);
    } else {
      ConcatWellFormed(t[1..]);
      SpaceFreeAppend(t[0], Concat(t[1..]));
    }
  }

  /** Merging keeps the symbols non-empty and whitespace-free: a match is made of the word's own symbols. */
  lemma MergedWellFormed(w: Word, t: Word)
    requires |t| >= 1 && WellFormedWord(w)
    ensures WellFormedWord(Merged(w, t))
  {
    if HasToken(w, t) {
      var k :| 0 <= k <= |w| - |t| && TokenAt(w, t, k);
      assert WellFormedWord(t) by {
        forall i | 0 <= i < |t| ensures WellFormedSymbol(t[i]) {
          assert t[i] == w[k..k + |t|][i] == w[k + i];
        }
      }
      ConcatWellFormed(t);
      MergedSymbols(w, t);
      forall i | 0 <= i < |Merged(w, t)| ensures WellFormedSymbol(Merged(w, t)[i]) {
        assert Merged(w, t)[i] in Merged(w, t);
      }
    } else {
      MergedAbsent(w, t);
    }
  }

  /** Each match turns `|t|` symbols into one. */
  lemma {:induction false} MergedLength(w: Word, t: Word)
    requires |t| >= 1
    ensures |Merged(w, t)| + (|t| - 1) * MatchCount(w, t) == |w|
    decreases |w|
  {
    if w != [] {
      if MatchesAt(w, t) {
        MergedLength(w[|t|..], t);
        assert (|t| - 1) * (1 + MatchCount(w[|t|..], t)) == |t| - 1 + (|t| - 1) * MatchCount(w[|t|..], t);
      } else {
        MergedLength(w[1..], t);
      }
    }
  }

  /** The scan finds a match exactly when the token occurs somewhere. */
  lemma {:induction false} MatchCountPositive(w: Word, t: Word)
    requires |t| >= 1
    ensures MatchCount(w, t) > 0 <==> HasToken(w, t)
    decreases |w|
  {
    if w != [] {
      if MatchesAt(w, t) {
        assert TokenAt(w, t, 0);
      } else {
        MatchCountPositive(w[1..], t);
        if HasToken(w, t) {
          var k :| 0 <= k <= |w| - |t| && TokenAt(w, t, k);
          assert k != 0;
          assert w[1..][k - 1..k - 1 + |t|] == w[k..k + |t|];
          assert TokenAt(w[1..], t, k - 1);
        }
        if HasToken(w[1..], t) {
          var k :| 0 <= k <= |w[1..]| - |t| && TokenAt(w[1..], t, k);
          assert w[k + 1..k + 1 + |t|] == w[1..][k..k + |t|];
          assert TokenAt(w, t, k + 1);
        }
      }
    }
  }

  /** A word in which the token does not occur comes out unchanged. */
  lemma {:induction false} MergedAbsent(w: Word, t: Word)
    requires |t| >= 1 && !HasToken(w, t)
    ensures Merged(w, t) == w
    decreases |w|
  {
    MatchCountPositive(w, t);
    MergedLength(w, t);
    if w != [] {
      assert !MatchesAt(w, t);
      MatchCountPositive(w[1..], t);
      MergedAbsent(w[1..], t);
    }
  }

  /** For a token of two or more symbols, the word changes exactly when the token occurs in it. */
  lemma MergedChanges(w: Word, t: Word)
    requires |t| >= 2
    ensures Merged(w, t) == w <==> !HasToken(w, t)
  {
    if !HasToken(w, t) {
      MergedAbsent(w, t);
    } else {
      MatchCountPositive(w, t);
      MergedLength(w, t);
      ShrinkBy(|t| - 1, MatchCount(w, t));
    }
  }

  lemma ShrinkBy(d: int, m: int)
    requires d >= 1 && m >= 1
    ensures d * m >= 1
  {
    assert d * m == m + (d - 1) * m;
  }

  /** The scan of a word whose text does not contain the token's text changes nothing. */
  lemma {:induction false} MergedTextAbsent(w: Word, t: Word)
    requires |t| >= 1 && !IsSubstring(Concat(t), Concat(w))
    ensures Merged(w, t) == w
    decreases |w|
  {
    if w != [] {
      assert w == [w[0]] + w[1..];
      ConcatAppend([w[0]], w[1..]);
      if MatchesAt(w, t) {
        assert w == t + w[|t|..];
        ConcatAppend(t, w[|t|..]);
        SubstringPrefix(Concat(t), Concat(w));
        assert false;
      }
      if IsSubstring(Concat(t), Concat(w[1..])) {
        SubstringShift(Concat(t), w[0], Concat(w[1..]));
        assert false;
      }
      MergedTextAbsent(w[1..], t);
    }
  }

  /** A token occurs in a non-empty word at its start or in its tail. */
  lemma HasTokenCons(w: Word, t: Word)
    requires w != []
    ensures HasToken(w, t) <==> MatchesAt(w, t) || HasToken(w[1..], t)
  {
    if HasToken(w, t) && !MatchesAt(w, t) {
      var k :| 0 <= k <= |w| - |t| && TokenAt(w, t, k);
      if k != 0 {
        assert w[1..][k - 1..k - 1 + |t|] == w[k..k + |t|];
        assert TokenAt(w[1..], t, k - 1);
      }
    }
    if MatchesAt(w, t) {
      assert TokenAt(w, t, 0);
    }
    if HasToken(w[1..], t) {
      var k :| 0 <= k <= |w[1..]| - |t| && TokenAt(w[1..], t, k);
      assert w[k + 1..k + 1 + |t|] == w[1..][k..k + |t|];
      assert TokenAt(w, t, k + 1);
    }
  }

  /** The scan's output never starts with the pair it fused. */
  lemma MergedNotStartingWithPair(w: Word, a: Symbol, b: Symbol)
    requires |a| > 0 && |b| > 0
    ensures !MatchesAt(Merged(w, [a, b]), [a, b])
  {
    var t := [a, b];
    assert Concat(t) == a + b by {
      assert Concat(t) == a + Concat([b]);
      assert Concat([b]) == b + Concat([]);
    }
    if w != [] && !MatchesAt(w, t) && w[0] == a && |w| >= 2 {
      assert w[1] != b;
      assert Merged(w, t)[1..] == Merged(w[1..], t);
      if MatchesAt(w[1..], t) {
        assert Merged(w[1..], t)[0] == a + b;
      } else {
        assert Merged(w[1..], t)[0] == w[1];
      }
    }
  }

  /** After fusing a pair of non-empty symbols, the pair occurs nowhere in the result. */
  lemma {:induction false} MergedPairGone(w: Word, a: Symbol, b: Symbol)
    requires |a| > 0 && |b| > 0
    ensures !HasToken(Merged(w, [a, b]), [a, b])
    decreases |w|
  {
    var t := [a, b];
    var out := Merged(w, t);
    if w != [] {
      var rest := if MatchesAt(w, t) then w[2..] else w[1..];
      MergedPairGone(rest, a, b);
      assert out[1..] == Merged(rest, t);
      MergedNotStartingWithPair(w, a, b);
      HasTokenCons(out, t);
    } else {
      assert |out| < |t|;
    }
  }

  /** Merging the same pair of non-empty symbols a second time changes nothing. */
  lemma MergedIdempotent(w: Word, a: Symbol, b: Symbol)
    requires |a| > 0 && |b| > 0
    ensures Merged(Merged(w, [a, b]), [a, b]) == Merged(w, [a, b])
  {
    MergedPairGone(w, a, b);
    MergedAbsent(Merged(w, [a, b]), [a, b]);
  }

  /** One step of the scan, from index `i`. */
  lemma MergedFrom(w: Word, t: Word, i: nat)
    requires |t| >= 1 && i < |w|
    ensures MatchesAt(w[i..], t) ==> i + |t| <= |w| && Merged(w[i..], t) == [Concat(t)] + Merged(w[i + |t|..], t)
    ensures !MatchesAt(w[i..], t) ==> Merged(w[i..], t) == [w[i]] + Merged(w[i + 1..], t)
  {
    assert w[i..][1..] == w[i + 1..];
    if MatchesAt(w[i..], t) {
      assert w[i..][|t|..] == w[i + |t|..];
    }
  }

  /** Symbols `1 .. j-1` of the token sit at `i + 1 .. i + j - 1` of the word. */
  predicate AgreeFrom(w: Word, t: Word, i: nat, j: nat) {
    forall k :: 1 <= k < j && k < |t| ==> i + k < |w| && w[i + k] == t[k]
  }

  lemma AgreeAt(w: Word, t: Word, i: nat, j: nat, k: nat)
    requires AgreeFrom(w, t, i, j) && 1 <= k < j && k < |t|
    ensures i + k < |w| && w[i + k] == t[k]
  {
  }

  lemma AgreeStep(w: Word, t: Word, i: nat, j: nat)
    requires j < |t|
    ensures AgreeFrom(w, t, i, j + 1) <==> AgreeFrom(w, t, i, j) && (j >= 1 ==> i + j < |w| && w[i + j] == t[j])
  {
    if AgreeFrom(w, t, i, j + 1) {
      forall k | 1 <= k < j && k < |t| ensures i + k < |w| && w[i + k] == t[k] {
        AgreeAt(w, t, i, j + 1, k);
      }
      if j >= 1 {
        AgreeAt(w, t, i, j + 1, j);
      }
    }
    if AgreeFrom(w, t, i, j) && (j >= 1 ==> i + j < |w| && w[i + j] == t[j]) {
      forall k | 1 <= k < j + 1 && k < |t| ensures i + k < |w| && w[i + k] == t[k] {
        if k < j {
          AgreeAt(w, t, i, j, k);
        }
      }
    }
  }

  /** The symbol-by-symbol test of `merge_subwords` decides whether the token starts at `i`. */
  lemma MatchesAtPointwise(w: Word, t: Word, i: nat)
    requires |t| >= 1 && i < |w|
    ensures MatchesAt(w[i..], t) <==> w[i] == t[0] && AgreeFrom(w, t, i, |t|)
  {
    if w[i] == t[0] && AgreeFrom(w, t, i, |t|) {
      if |t| > 1 {
        var k := |t| - 1;
        assert i + k < |w| && w[i + k] == t[k];
      }
      assert forall k :: 0 <= k < |t| ==> w[i..][k] == t[k];
      assert w[i..][..|t|] == t;
    }
    if MatchesAt(w[i..], t) {
      forall k | 0 <= k < |t| ensures i + k < |w| && w[i + k] == t[k] {
        assert w[i..][..|t|][k] == t[k];
      }
      assert w[i..][..|t|][0] == t[0];
    }
  }

  /** The scan's state after emitting the result for index `i`, on a match and otherwise. */
  lemma ScanStep(out: Word, w: Word, t: Word, i: nat)
    requires |t| >= 1 && i < |w| && out + Merged(w[i..], t) == Merged(w, t)
    ensures w[i] != t[0] ==> !MatchesAt(w[i..], t)
    ensures MatchesAt(w[i..], t) ==>
      i + |t| <= |w| && (out + [Concat(t)]) + Merged(w[i + |t|..], t) == Merged(w, t)
    ensures !MatchesAt(w[i..], t) ==> (out + [w[i]]) + Merged(w[i + 1..], t) == Merged(w, t)
  {
    MergedFrom(w, t, i);
    if MatchesAt(w[i..], t) {
      assert w[i..][..|t|][0] == w[i];
      AppendAssoc(out, [Concat(t)], Merged(w[i + |t|..], t));
    } else {
      AppendAssoc(out, [w[i]], Merged(w[i + 1..], t));
    }
  }

  /**
   * The inner loop of `merge_subwords`: compare the symbols after index `i` with the rest of
   * the token. The token starts at `i` exactly when none of them differs.
   */
  method MatchAt(word: Word, newToken: Word, i: nat) returns (isMatch: bool)
    requires |newToken| >= 1 && i < |word| && word[i] == newToken[0]
    ensures isMatch <==> MatchesAt(word[i..], newToken)
  {
    MatchesAtPointwise(word, newToken, i);
    isMatch := true;
    for j := 1 to |newToken|
      invariant isMatch <==> AgreeFrom(word, newToken, i, j)
    {
      AgreeStep(word, newToken, i, j);
      if i + j >= |word| || word[i + j] != newToken[j] {
        isMatch := false;
      }
    }
  }

  /**
   * `merge_subwords`: at each index, test whether the token starts there, symbol by symbol;
   * on a match emit the fused token and skip it, otherwise copy one symbol.
   */
  method MergeSubwords(word: Word, newToken: Word) returns (newWord: Word)
    requires |newToken| >= 1
    ensures newWord == Merged(word, newToken)
  {
    newWord := [];
    var i := 0;
    while i < |word|
      invariant 0 <= i <= |word|
      invariant newWord + Merged(word[i..], newToken) == Merged(word, newToken)
      decreases |word| - i
    {
      ScanStep(newWord, word, newToken, i);
      if word[i] == newToken[0] {
        var isMatch := MatchAt(word, newToken, i);
        if isMatch {
          newWord := newWord + [Concat(newToken)];
          i := i + |newToken|;
        } else {
          newWord := newWord + [word[i]];
          i := i + 1;
        }
      } else {
        newWord := newWord + [word[i]];
        i := i + 1;
      }
    }
  }
}
