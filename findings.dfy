/**
 * `update_vocab_with_pair` writes the fused word with `regex_pattern.sub(joined_pair, word)`.
 * The second argument of `re.sub` is a replacement template, not plain text: a backslash in
 * it starts an escape. When a fused pair contains a backslash, the stored word is then not the
 * fusion of the old one. Either its text changes, or `re` raises an error. This module models
 * the substitution as written. The rest of the model uses `Merge.Merged`, which inserts the
 * pair's text literally and keeps the word's text (`Merge.MergedText`).
 */
module Findings {
  import opened Text
  import opened WordModel
  import opened PairTable
  import opened Merge
  import opened Selector
  import opened Update

  predicate IsAsciiLetter(c: char) {
    ('a' <= c <= 'z') || ('A' <= c <= 'Z')
  }

  /**
   * What `\c` stands for in a replacement template of a pattern without groups. `None` is an
   * escape that makes `re` raise an error.
   */
  function Escape(c: char): (r: Option<string>)
    ensures IsAsciiLetter(c) && c !in "abfnrtv" ==> r == None
    ensures !IsAsciiLetter(c) && !('0' <= c <= '9') && c != '\\' ==> r == Some(['\\', c])
  {
    if c == '\\' then Some("\\")
    else if c == 'a' then Some("\U{7}")
    else if c == 'b' then Some("\U{8}")
    else if c == 'f' then Some("\U{C}")
    else if c == 'n' then Some("\n")
    else if c == 'r' then Some("\r")
    else if c == 't' then Some("\t")
    else if c == 'v' then Some("\U{B}")
    else if IsAsciiLetter(c) || '0' <= c <= '9' then None
    else Some(['\\', c])
  }

  /** The text a replacement template stands for; `None` where `re` raises an error. */
  function ExpandTemplate(s: string): (r: Option<string>)
    ensures '\\' !in s ==> r == Some(s)
    ensures |s| > 0 && s[|s| - 1] == '\\' && '\\' !in s[..|s| - 1] ==> r == None
    decreases |s|
  {
    if s == [] then Some([])
    else if s[0] != '\\' then
      assert s == [s[0]] + s[1..];
      assert |s| > 0 && s[|s| - 1] == '\\' ==> s[1..][..|s[1..]| - 1] == s[1..|s| - 1];
      match ExpandTemplate(s[1..])
      case None => None
      case Some(rest) => Some([s[0]] + rest)
    else if |s| == 1 then None
    else
      match (Escape(s[1]), ExpandTemplate(s[2..]))
      case (Some(e), Some(rest)) => Some(e + rest)
      case _ => None
  }

  /** The substitution on a word's symbols: each occurrence the scan finds becomes `e`. */
  function Substituted(w: Word, t: Word, e: string): (r: seq<string>)
    requires |t| >= 1
    ensures e == Concat(t) ==> r == Merged(w, t)
    decreases |w|
  {
    if w == [] then []
    else if MatchesAt(w, t) then [e] + Substituted(w[|t|..], t, e)
    else [w[0]] + Substituted(w[1..], t, e)
  }

  /**
   * The key `update_vocab_with_pair` stores for the word `w` as written (BPE.py:76).
   * `None` is the error that `re` raises.
   */
  function StoredKey(w: Word, pair: Pair): Option<string> {
    match ExpandTemplate(pair.0 + pair.1)
    case None => None
    case Some(e) => Some(Join(Substituted(w, Fuse(pair), e)))
  }

  /** Without a backslash in the pair, the key stored as written is the fused word of the model. */
  lemma StoredKeyPlain(w: Word, pair: Pair)
    requires '\\' !in pair.0 + pair.1
    ensures StoredKey(w, pair) == Some(Join(Merged(w, Fuse(pair))))
  {
    assert Concat(Fuse(pair)) == pair.0 + pair.1;
  }

  /**
   * The word `\ n_` is what the learner holds after its first merge `(n, _)` on the text `\n`
   * (a backslash and the letter n). Fusing the next pair `(\, n_)` as written stores a newline
   * followed by `_`. That key no longer spells the word, and splitting it gives the single
   * symbol `_`. With the letter q instead of n, `re` raises an error, because `\q` is not an
   * escape.
   */
  lemma EscapedPairChangesWord()
    ensures StoredKey(["\\", "n_"], ("\\", "n_")) == Some("\n_")
    ensures RemoveChar("\n_", ' ') != Concat(["\\", "n_"])
    ensures Words("\n_") == ["_"]
    ensures StoredKey(["\\", "q_"], ("\\", "q_")) == None
  {
    assert ExpandTemplate("\\n_") == Some("\n_") by {
      var t := "\\n_";
      assert t[0] == '\\' && t[1] == 'n' && t[2..] == "_";
      assert ExpandTemplate("_") == Some("_") by {
        assert '\\' !in "_";
      }
      assert Escape('n') == Some("\n");
      assert "\n" + "_" == "\n_";
    }
    assert Substituted(["\\", "n_"], ["\\", "n_"], "\n_") == ["\n_"] by {
      assert MatchesAt(["\\", "n_"], ["\\", "n_"]);
      assert ["\\", "n_"][2..] == [];
    }
    assert "\\" + "n_" == "\\n_" && Fuse(("\\", "n_")) == ["\\", "n_"];
    assert Join(["\n_"]) == "\n_";
    assert ExpandTemplate("\\q_") == None;
    assert RemoveChar("\n_", ' ') == "\n_" by {
      RemoveAbsentChar("\n_", ' ');
    }
    assert "\n_"[0] == '\n';
    WordsOfNewlineMark();
  }

  lemma WordsOfNewlineMark()
    ensures Words("\n_") == ["_"]
  {
    var s := "\n_";
    assert IsSpace(s[0]) && s[1..] == "_";
    assert Words(s) == Words("_");
    assert RunLength("_", false) == 1 by {
      assert "_"[1..] == [];
    }
    assert "_"[..1] == "_" && "_"[1..] == [];
    assert Words("_") == ["_"[..1]] + Words("_"[1..]);
  }
}
