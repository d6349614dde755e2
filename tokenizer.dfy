/**
 * The two tokenisers of the applier: `preprocess_text_apply` and `preprocess_text_input` split a
 * text into its alternating whitespace and non-whitespace runs (`re.findall(r'\S+|\s+', text)`),
 * keep the whitespace runs as they are and mark every other run as a word.
 */
module Tokenizer {
  import opened Text
  import opened WordModel

  /** A whitespace run is kept; any other run gets the end-of-word marker. */
  function Marked(r: string): string {
    if IsSpaceRun(r) then r else r + Marker
  }

  /** Undo `Marked`: drop the marker of a word piece. */
  function Unmarked(x: string): string {
    if IsSpaceRun(x) || x == [] then x else x[..|x| - 1]
  }

  /** A marked word piece is not whitespace: the marker is not a space character. */
  lemma MarkedKind(r: string)
    ensures IsSpaceRun(Marked(r)) == IsSpaceRun(r)
    ensures Unmarked(Marked(r)) == r
  {
    if !IsSpaceRun(r) {
      assert !IsSpace(Marked(r)[|r|]);
      assert Marked(r)[..|r|] == r;
    }
  }

  /** What `preprocess_text_apply` returns for `text`: one marked piece per run. */
  function ApplyPieces(text: string): seq<string> {
    var rs := Runs(text);
    seq(|rs|, j requires 0 <= j < |rs| => Marked(rs[j]))
  }

  /** Removing the marker again gives back every run. */
  lemma ConcatUnmarked(rs: seq<string>)
    ensures Concat(seq(|rs|, j requires 0 <= j < |rs| => Unmarked(Marked(rs[j])))) == Concat(rs)
  {
    var us := seq(|rs|, j requires 0 <= j < |rs| => Unmarked(Marked(rs[j])));
    forall j | 0 <= j < |rs| ensures us[j] == rs[j] {
      MarkedKind(rs[j]);
    }
    assert us == rs;
  }

  /**
   * The tokeniser round trip: removing the marker from every word piece and concatenating the
   * pieces gives back the text; neighbouring pieces alternate between whitespace and words;
   * and every word piece is a non-empty whitespace-free run followed by exactly one marker.
   */
  lemma ApplyPiecesRoundTrip(text: string)
    ensures var ps := ApplyPieces(text);
      Concat(seq(|ps|, j requires 0 <= j < |ps| => Unmarked(ps[j]))) == text
    ensures var ps := ApplyPieces(text);
      forall j :: 0 <= j < |ps| - 1 ==> IsSpaceRun(ps[j]) != IsSpaceRun(ps[j + 1])
    ensures var ps := ApplyPieces(text);
      forall j :: 0 <= j < |ps| && !IsSpaceRun(ps[j]) ==>
        exists r :: |r| > 0 && SpaceFree(r) && ps[j] == r + Marker
  {
    var rs := Runs(text);
    var ps := ApplyPieces(text);
    ConcatUnmarked(rs);
    RunsConcat(text);
    assert seq(|ps|, j requires 0 <= j < |ps| => Unmarked(ps[j]))
        == seq(|rs|, j requires 0 <= j < |rs| => Unmarked(Marked(rs[j])));
    RunsAlternate(text);
    RunsShape(text);
    forall j | 0 <= j < |ps|
      ensures IsSpaceRun(ps[j]) == IsSpaceRun(rs[j])
    {
      MarkedKind(rs[j]);
    }
    forall j | 0 <= j < |ps| && !IsSpaceRun(ps[j])
      ensures exists r :: |r| > 0 && SpaceFree(r) && ps[j] == r + Marker
    {
      assert |rs[j]| > 0 && SpaceFree(rs[j]) && ps[j] == rs[j] + Marker;
    }
  }

  /** `preprocess_text_apply`: whitespace runs unchanged, every other run with the marker appended. */
  method PreprocessTextApply(text: string) returns (preprocessed: seq<string>)
    ensures preprocessed == ApplyPieces(text)
  {
    preprocessed := [];
    var words := Runs(text);
    for i := 0 to |words|
      invariant |preprocessed| == i
      invariant forall j :: 0 <= j < i ==> preprocessed[j] == Marked(words[j])
    {
      var word := words[i];
      if IsSpaceRun(word) {
        preprocessed := preprocessed + [word];
        continue;
      }
      preprocessed := preprocessed + [word + Marker];
    }
  }

  /** An element of the result of `preprocess_text_input`: a whitespace run, or a word's symbols. */
  datatype Piece = Gap(space: string) | Letters(symbols: Word)

  function InputPiece(r: string): Piece {
    if IsSpaceRun(r) then Gap(r) else Letters(Symbolize(r))
  }

  /** What `preprocess_text_input` returns for `text`: one piece per run. */
  function InputPieces(text: string): seq<Piece> {
    var rs := Runs(text);
    seq(|rs|, j requires 0 <= j < |rs| => InputPiece(rs[j]))
  }

  /**
   * `preprocess_text_input` agrees with `preprocess_text_apply`: the same whitespace runs in the
   * same places, and each word piece spells the marked run of the other tokeniser.
   */
  lemma InputMatchesApply(text: string)
    ensures |InputPieces(text)| == |ApplyPieces(text)|
    ensures forall j :: 0 <= j < |InputPieces(text)| ==>
      match InputPieces(text)[j]
      case Gap(s) => s == ApplyPieces(text)[j] && IsSpaceRun(s)
      case Letters(w) => Concat(w) == ApplyPieces(text)[j] && !IsSpaceRun(ApplyPieces(text)[j])
  {
    var rs := Runs(text);
    forall j | 0 <= j < |rs|
      ensures !IsSpaceRun(rs[j]) ==> Concat(Symbolize(rs[j])) == Marked(rs[j]) && !IsSpaceRun(Marked(rs[j]))
    {
      SymbolizeText(rs[j]);
      MarkedKind(rs[j]);
    }
  }

  /** `preprocess_text_input`: whitespace runs unchanged, every other run as its fresh word. */
  method PreprocessTextInput(text: string) returns (preprocessed: seq<Piece>)
    ensures preprocessed == InputPieces(text)
  {
    preprocessed := [];
    var words := Runs(text);
    for i := 0 to |words|
      invariant |preprocessed| == i
      invariant forall j :: 0 <= j < i ==> preprocessed[j] == InputPiece(words[j])
    {
      var word := words[i];
      if IsSpaceRun(word) {
        preprocessed := preprocessed + [Gap(word)];
        continue;
      }
      var currWords := Chars(word);
      currWords := currWords + [Marker];
      preprocessed := preprocessed + [Letters(currWords)];
    }
  }
}
