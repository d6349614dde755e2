/**
 * Character classes and the string operations the byte-pair encoder relies on:
 * the whitespace test shared by `str.isspace`, `str.split()`, `str.rstrip()` and
 * the regex classes `\s`/`\S`; the two tokenisers (`re.findall(r'\S+|\s+', ...)`
 * and `str.split()`); `str.split('\n')`; `"".join`; `str.replace(c, "")`;
 * substring search (`x in s`) and Python's lexicographic string order.
 */
module Text {

  /** Python's Unicode whitespace: the characters for which `str.isspace()` holds. */
  predicate IsSpace(c: char) {
    || ('\t' <= c <= '\r')
    || ('\U{1C}' <= c <= '\U{1F}')
    || c == ' ' || c == '\U{85}' || c == '\U{A0}' || c == '\U{1680}'
    || ('\U{2000}' <= c <= '\U{200A}')
    || c == '\U{2028}' || c == '\U{2029}' || c == '\U{202F}' || c == '\U{205F}' || c == '\U{3000}'
  }

  /** `s.isspace()`: non-empty and made of whitespace only. */
  predicate IsSpaceRun(s: string) {
    |s| > 0 && forall i :: 0 <= i < |s| ==> IsSpace(s[i])
  }

  /** No character of `s` is whitespace. */
  predicate SpaceFree(s: string) {
    forall i :: 0 <= i < |s| ==> !IsSpace(s[i])
  }

  lemma TakeSnoc<T>(s: seq<T>, k: nat)
    requires 0 < k <= |s|
    ensures s[..k] == s[..k - 1] + [s[k - 1]]
  {
  }

  /** Two sequences agree on their first `k` elements when each element agrees wherever the ones before it do. */
  lemma {:induction false} PrefixFromNext<T>(s1: seq<T>, s2: seq<T>, k: nat)
    requires k <= |s1| && k <= |s2|
    requires forall j :: 0 <= j < k && s1[..j] == s2[..j] ==> s1[j] == s2[j]
    ensures s1[..k] == s2[..k]
    decreases k
  {
    if k > 0 {
      PrefixFromNext(s1, s2, k - 1);
      TakeSnoc(s1, k);
      TakeSnoc(s2, k);
    }
  }

  lemma AppendAssoc<T>(a: seq<T>, b: seq<T>, c: seq<T>)
    ensures a + (b + c) == (a + b) + c
  {
  }

  /** `"".join(ss)`. */
  function Concat(ss: seq<string>): string {
    if ss == [] then "" else ss[0] + Concat(ss[1..])
  }

  lemma {:induction false} ConcatAppend(a: seq<string>, b: seq<string>)
    ensures Concat(a + b) == Concat(a) + Concat(b)
  {
    if a == [] {
      assert a + b == b;
    } else {
      assert (a + b)[1..] == a[1..] + b;
      ConcatAppend(a[1..], b);
    }
  }

  /**
   * Length of the longest prefix of `s` whose characters are all whitespace
   * (`space`) or all non-whitespace (`!space`): the maximal munch of `\s+` / `\S+`.
   */
  function RunLength(s: string, space: bool): (n: nat)
    ensures n <= |s|
    ensures s != [] && IsSpace(s[0]) == space ==> n >= 1
  {
    if s == [] || IsSpace(s[0]) != space then 0 else 1 + RunLength(s[1..], space)
  }

  /** The run is as long as it can be: every character in it is of its kind, the next one is not. */
  lemma {:induction false} RunLengthMaximal(s: string, space: bool)
    ensures forall i :: 0 <= i < RunLength(s, space) ==> IsSpace(s[i]) == space
    ensures RunLength(s, space) < |s| ==> IsSpace(s[RunLength(s, space)]) != space
    decreases |s|
  {
    if s != [] && IsSpace(s[0]) == space {
      RunLengthMaximal(s[1..], space);
      forall i | 0 < i < RunLength(s, space) ensures IsSpace(s[i]) == space {
        assert s[i] == s[1..][i - 1];
      }
    }
  }

  /** `re.findall(r'\S+|\s+', s)`: the maximal whitespace and non-whitespace runs of `s`, in order. */
  function Runs(s: string): (rs: seq<string>)
    decreases |s|
  {
    if s == [] then []
    else
      var n := RunLength(s, IsSpace(s[0]));
      [s[..n]] + Runs(s[n..])
  }

  /** The runs cover the text without gaps or overlaps. */
  lemma {:induction false} RunsConcat(s: string)
    ensures Concat(Runs(s)) == s
    decreases |s|
  {
    if s != [] {
      var n := RunLength(s, IsSpace(s[0]));
      RunsConcat(s[n..]);
      assert s[..n] + s[n..] == s;
    }
  }

  /** Each run is non-empty and either all whitespace or free of whitespace; the first run starts the text. */
  lemma {:induction false} RunsShape(s: string)
    ensures forall i :: 0 <= i < |Runs(s)| ==>
      |Runs(s)[i]| > 0 && (IsSpaceRun(Runs(s)[i]) || SpaceFree(Runs(s)[i]))
    ensures s != [] ==> |Runs(s)| > 0 && Runs(s)[0] != [] && Runs(s)[0][0] == s[0]
    decreases |s|
  {
    if s != [] {
      var n := RunLength(s, IsSpace(s[0]));
      RunLengthMaximal(s, IsSpace(s[0]));
      RunsShape(s[n..]);
      var head := s[..n];
      assert IsSpace(s[0]) ==> IsSpaceRun(head);
      assert !IsSpace(s[0]) ==> SpaceFree(head);
    }
  }

  /** Neighbouring runs are of opposite kinds. */
  lemma {:induction false} RunsAlternate(s: string)
    ensures forall i :: 0 <= i < |Runs(s)| - 1 ==>
      IsSpaceRun(Runs(s)[i]) != IsSpaceRun(Runs(s)[i + 1])
    decreases |s|
  {
    if s != [] {
      var n := RunLength(s, IsSpace(s[0]));
      var rest := s[n..];
      RunLengthMaximal(s, IsSpace(s[0]));
      RunsAlternate(rest);
      if rest != [] {
        RunsShape(rest);
        var r1 := Runs(rest)[0];
        assert IsSpace(rest[0]) != IsSpace(s[0]);
        assert IsSpaceRun(s[..n]) == IsSpace(s[0]);
        assert IsSpaceRun(r1) == IsSpace(r1[0]);
      }
    }
  }

  /** `str.split()` with no argument, and equally `re.findall(r'\S+', s)`: the maximal non-whitespace runs. */
  function Words(s: string): (ws: seq<string>)
    decreases |s|
  {
    if s == [] then []
    else if IsSpace(s[0]) then Words(s[1..])
    else
      var n := RunLength(s, false);
      [s[..n]] + Words(s[n..])
  }

  /** The runs of `rs` that are not whitespace. */
  function NonSpaceRuns(rs: seq<string>): seq<string> {
    if rs == [] then []
    else if IsSpaceRun(rs[0]) then NonSpaceRuns(rs[1..])
    else [rs[0]] + NonSpaceRuns(rs[1..])
  }

  /** Every word is non-empty and free of whitespace. */
  lemma {:induction false} WordsWellFormed(s: string)
    ensures forall i :: 0 <= i < |Words(s)| ==> |Words(s)[i]| > 0 && SpaceFree(Words(s)[i])
    decreases |s|
  {
    if s != [] {
      if IsSpace(s[0]) {
        WordsWellFormed(s[1..]);
      } else {
        RunLengthMaximal(s, false);
        WordsWellFormed(s[RunLength(s, false)..]);
      }
    }
  }

  /** Leading whitespace does not change the words. */
  lemma {:induction false} WordsSkipSpace(s: string, k: nat)
    requires k <= |s|
    requires forall i :: 0 <= i < k ==> IsSpace(s[i])
    ensures Words(s) == Words(s[k..])
    decreases k
  {
    if k > 0 {
      assert s[1..][k - 1..] == s[k..];
      WordsSkipSpace(s[1..], k - 1);
    }
  }

  /** The two tokenisers agree: the words of a text are exactly its non-whitespace runs. */
  lemma {:induction false} WordsAreNonSpaceRuns(s: string)
    ensures NonSpaceRuns(Runs(s)) == Words(s)
    decreases |s|
  {
    if s != [] {
      var n := RunLength(s, IsSpace(s[0]));
      RunLengthMaximal(s, IsSpace(s[0]));
      WordsAreNonSpaceRuns(s[n..]);
      var rs := Runs(s);
      assert rs[0] == s[..n] && rs[1..] == Runs(s[n..]);
      if IsSpace(s[0]) {
        assert IsSpaceRun(rs[0]);
        WordsSkipSpace(s, n);
      } else {
        assert !IsSpaceRun(rs[0]);
      }
    }
  }

  lemma {:induction false} NonSpaceRunsMember(rs: seq<string>, i: nat)
    requires i < |rs| && !IsSpaceRun(rs[i])
    ensures rs[i] in NonSpaceRuns(rs)
  {
    if i > 0 {
      NonSpaceRunsMember(rs[1..], i - 1);
    }
  }

  /** A run that `re.findall(r'\S+|\s+', s)` classifies as non-whitespace is one of `s.split()`. */
  lemma NonSpaceRunIsWord(s: string, i: nat)
    requires i < |Runs(s)| && !IsSpaceRun(Runs(s)[i])
    ensures Runs(s)[i] in Words(s)
  {
    NonSpaceRunsMember(Runs(s), i);
    WordsAreNonSpaceRuns(s);
  }

  lemma {:induction false} RunLengthAppend(x: string, z: string)
    requires RunLength(x, false) < |x| || (z != [] && IsSpace(z[0]))
    ensures RunLength(x + z, false) == RunLength(x, false)
    decreases |x|
  {
    if x != [] && !IsSpace(x[0]) {
      assert (x + z)[1..] == x[1..] + z;
      RunLengthAppend(x[1..], z);
    }
  }

  lemma WordsUnfold(s: string, n: nat)
    requires s != [] && !IsSpace(s[0]) && n == RunLength(s, false)
    ensures Words(s) == [s[..n]] + Words(s[n..])
  {
  }

  lemma SliceAppend(x: string, z: string, n: nat)
    requires n <= |x|
    ensures (x + z)[..n] == x[..n] && (x + z)[n..] == x[n..] + z
  {
  }

  /** The first word of `x + z` is the first word of `x` when a whitespace character ends it. */
  lemma WordsConsWord(x: string, z: string, n: nat)
    requires x != [] && !IsSpace(x[0]) && n == RunLength(x, false)
    requires n < |x| || (z != [] && IsSpace(z[0]))
    ensures Words(x + z) == [x[..n]] + Words(x[n..] + z)
  {
    RunLengthAppend(x, z);
    assert (x + z)[0] == x[0];
    WordsUnfold(x + z, n);
    SliceAppend(x, z, n);
  }

  lemma WordsSkip(s: string)
    requires s != [] && IsSpace(s[0])
    ensures Words(s) == Words(s[1..])
  {
  }

  lemma WordsAppendSkip(x: string, z: string)
    requires x != [] && IsSpace(x[0])
    requires Words(x[1..] + z) == Words(x[1..]) + Words(z)
    ensures Words(x + z) == Words(x) + Words(z)
  {
    assert (x + z)[0] == x[0];
    WordsSkip(x + z);
    WordsSkip(x);
    SliceAppend(x, z, 1);
  }

  lemma WordsAppendWord(x: string, z: string, n: nat)
    requires x != [] && !IsSpace(x[0]) && n == RunLength(x, false) && z != [] && IsSpace(z[0])
    requires Words(x[n..] + z) == Words(x[n..]) + Words(z)
    ensures Words(x + z) == Words(x) + Words(z)
  {
    WordsConsWord(x, z, n);
    WordsUnfold(x, n);
    AppendAssoc([x[..n]], Words(x[n..]), Words(z));
  }

  /** Words do not run across a whitespace character: `(x + z).split() == x.split() + z.split()`. */
  lemma {:induction false} WordsAppendSpace(x: string, z: string)
    requires z != [] && IsSpace(z[0])
    ensures Words(x + z) == Words(x) + Words(z)
    decreases |x|
  {
    if x == [] {
      assert x + z == z;
    } else if IsSpace(x[0]) {
      WordsAppendSpace(x[1..], z);
      WordsAppendSkip(x, z);
    } else {
      var n := RunLength(x, false);
      WordsAppendSpace(x[n..], z);
      WordsAppendWord(x, z, n);
    }
  }

  /** A whitespace character separates words: `(x + c + y).split() == x.split() + y.split()`. */
  lemma WordsSplitAt(x: string, c: char, y: string)
    requires IsSpace(c)
    ensures Words(x + [c] + y) == Words(x) + Words(y)
  {
    var z := [c] + y;
    assert x + [c] + y == x + z;
    WordsAppendSpace(x, z);
    WordsSkip(z);
    assert z[1..] == y;
  }

  /** A non-empty whitespace-free string is a single word. */
  lemma WordsOfWord(x: string)
    requires |x| > 0 && SpaceFree(x)
    ensures Words(x) == [x]
  {
    var n := RunLength(x, false);
    RunLengthMaximal(x, false);
    assert n == |x|;
    assert x[..n] == x;
  }

  /** Index of the first `c` in `s`. */
  function IndexOf(s: string, c: char): (k: nat)
    requires c in s
    ensures k < |s| && s[k] == c && c !in s[..k]
  {
    if s[0] == c then 0 else 1 + IndexOf(s[1..], c)
  }

  /** `s.split('\n')`: the pieces between line feeds, always at least one. */
  function SplitLines(s: string): (ls: seq<string>)
    ensures |ls| >= 1
    decreases |s|
  {
    if '\n' !in s then [s]
    else
      var k := IndexOf(s, '\n');
      [s[..k]] + SplitLines(s[k + 1..])
  }

  /** The words of every line, line after line. */
  function WordsOfLines(ls: seq<string>): seq<string> {
    if ls == [] then [] else Words(ls[0]) + WordsOfLines(ls[1..])
  }

  lemma {:induction false} WordsOfLinesAppend(a: seq<string>, b: seq<string>)
    ensures WordsOfLines(a + b) == WordsOfLines(a) + WordsOfLines(b)
  {
    if a == [] {
      assert a + b == b;
    } else {
      assert (a + b)[1..] == a[1..] + b;
      WordsOfLinesAppend(a[1..], b);
    }
  }

  /** Splitting into lines first does not change the words, because a line feed is whitespace. */
  lemma {:induction false} WordsOfSplitLines(s: string)
    ensures WordsOfLines(SplitLines(s)) == Words(s)
    decreases |s|
  {
    if '\n' in s {
      var k := IndexOf(s, '\n');
      WordsOfSplitLines(s[k + 1..]);
      assert s == s[..k] + ['\n'] + s[k + 1..];
      WordsSplitAt(s[..k], '\n', s[k + 1..]);
    }
  }

  /** Python's `s < t` on strings: lexicographic by code point. */
  predicate LexLess(s: string, t: string) {
    if s == [] then t != []
    else if t == [] then false
    else if s[0] != t[0] then s[0] < t[0]
    else LexLess(s[1..], t[1..])
  }

  lemma {:induction false} LexLessIrreflexive(s: string)
    ensures !LexLess(s, s)
  {
    if s != [] {
      LexLessIrreflexive(s[1..]);
    }
  }

  lemma {:induction false} LexLessAsymmetric(s: string, t: string)
    requires LexLess(s, t)
    ensures !LexLess(t, s)
  {
    if s != [] && t != [] && s[0] == t[0] {
      LexLessAsymmetric(s[1..], t[1..]);
    }
  }

  lemma {:induction false} LexLessTransitive(s: string, t: string, u: string)
    requires LexLess(s, t) && LexLess(t, u)
    ensures LexLess(s, u)
  {
    if s != [] && t != [] && u != [] && s[0] == t[0] && t[0] == u[0] {
      LexLessTransitive(s[1..], t[1..], u[1..]);
    }
  }

  lemma {:induction false} LexLessTotal(s: string, t: string)
    requires s != t
    ensures LexLess(s, t) || LexLess(t, s)
  {
    if s != [] && t != [] && s[0] == t[0] {
      assert s == [s[0]] + s[1..] && t == [t[0]] + t[1..];
      LexLessTotal(s[1..], t[1..]);
    }
  }

  /** `p` occurs in `s` starting at index `k`. */
  predicate OccursAt(p: string, s: string, k: int) {
    0 <= k && k + |p| <= |s| && s[k..k + |p|] == p
  }

  /** Python's `p in s` on strings. */
  predicate IsSubstring(p: string, s: string) {
    exists k :: 0 <= k <= |s| - |p| && OccursAt(p, s, k)
  }

  lemma SubstringShift(p: string, x: string, s: string)
    requires IsSubstring(p, s)
    ensures IsSubstring(p, x + s)
  {
    var k :| 0 <= k <= |s| - |p| && OccursAt(p, s, k);
    assert (x + s)[|x| + k..|x| + k + |p|] == p;
    assert OccursAt(p, x + s, |x| + k);
  }

  lemma SubstringPrefix(p: string, s: string)
    requires |p| <= |s| && s[..|p|] == p
    ensures IsSubstring(p, s)
  {
    assert OccursAt(p, s, 0);
  }

  /** `s.replace(c, "")`. */
  function RemoveChar(s: string, c: char): (r: string) {
    if s == [] then ""
    else if s[0] == c then RemoveChar(s[1..], c)
    else [s[0]] + RemoveChar(s[1..], c)
  }

  lemma {:induction false} RemoveCharAppend(x: string, y: string, c: char)
    ensures RemoveChar(x + y, c) == RemoveChar(x, c) + RemoveChar(y, c)
  {
    if x == [] {
      assert x + y == y;
    } else {
      assert (x + y)[1..] == x[1..] + y;
      RemoveCharAppend(x[1..], y, c);
    }
  }

  lemma {:induction false} RemoveCharCommutes(s: string, c: char, d: char)
    ensures RemoveChar(RemoveChar(s, c), d) == RemoveChar(RemoveChar(s, d), c)
  {
    if s != [] {
      RemoveCharCommutes(s[1..], c, d);
      if s[0] != c && s[0] != d {
        assert RemoveChar(RemoveChar(s, c), d) == [s[0]] + RemoveChar(RemoveChar(s[1..], c), d);
        assert RemoveChar(RemoveChar(s, d), c) == [s[0]] + RemoveChar(RemoveChar(s[1..], d), c);
      }
    }
  }

  /** The only whitespace character in `s`, if any, is the blank. */
  predicate BlanksOnly(s: string) {
    forall i :: 0 <= i < |s| && IsSpace(s[i]) ==> s[i] == ' '
  }

  lemma SpaceFreeAppend(x: string, y: string)
    requires SpaceFree(x) && SpaceFree(y)
    ensures SpaceFree(x + y)
  {
    forall i | 0 <= i < |x + y| ensures !IsSpace((x + y)[i]) {
      if i >= |x| {
        assert (x + y)[i] == y[i - |x|];
      }
    }
  }

  lemma BlanksOnlyAppend(x: string, y: string)
    requires BlanksOnly(x) && BlanksOnly(y)
    ensures BlanksOnly(x + y)
  {
    forall i | 0 <= i < |x + y| && IsSpace((x + y)[i]) ensures (x + y)[i] == ' ' {
      if i >= |x| {
        assert (x + y)[i] == y[i - |x|];
      }
    }
  }

  /** Deleting a character never introduces whitespace. */
  lemma {:induction false} RemoveCharBlanksOnly(s: string, c: char)
    requires BlanksOnly(s)
    ensures BlanksOnly(RemoveChar(s, c))
  {
    if s != [] {
      assert BlanksOnly(s[1..]) by {
        forall i | 0 <= i < |s[1..]| && IsSpace(s[1..][i]) ensures s[1..][i] == ' ' {
          assert s[1..][i] == s[i + 1];
        }
      }
      RemoveCharBlanksOnly(s[1..], c);
      if s[0] != c {
        BlanksOnlyAppend([s[0]], RemoveChar(s[1..], c));
      }
    }
  }

  /** `s.rstrip()`: drop trailing whitespace. */
  function RStrip(s: string): (r: string)
    decreases |s|
  {
    if s != [] && IsSpace(s[|s| - 1]) then RStrip(s[..|s| - 1]) else s
  }

  /**
   * When the only whitespace in `s` is the blank, stripping trailing whitespace
   * and then deleting blanks is the same as deleting blanks.
   */
  lemma {:induction false} RStripThenRemoveBlanks(s: string)
    requires BlanksOnly(s)
    ensures RemoveChar(RStrip(s), ' ') == RemoveChar(s, ' ')
    decreases |s|
  {
    if s != [] && IsSpace(s[|s| - 1]) {
      var init := s[..|s| - 1];
      RStripThenRemoveBlanks(init);
      assert s == init + [' '];
      RemoveCharAppend(init, [' '], ' ');
      assert RemoveChar([' '], ' ') == "";
    }
  }
}
