# Byte-pair encoding: learning and applying merges

This project models the core of `BPE.py`, a byte-pair encoding (BPE) tokenizer, in Dafny and
proves properties of the model.

**Training** (`learn_bpe_algo`) does the following:

- It splits a corpus into whitespace-free words.
- It spells each word as its characters followed by the end-of-word marker `_`.
- It counts how often each word occurs. The result is the *vocabulary*, a map from words to counts.
- It counts adjacent symbol pairs, weighted by word frequency. The result is the *pair table*.
- It then repeats, at most `vocab_size` times:
  - select the most frequent pair, breaking ties by the smaller second symbol, then the smaller first symbol;
  - record that pair as a merge;
  - fuse the pair in every word;
  - patch the pair table incrementally.

Training returns the merges and a map from each word's text to its final segmentation.

**Application** (`apply_bpe_algo`) does the following:

- It replays the merges, in order, on every word of a new text, using `merge_subwords`.
- It rebuilds the text: whitespace runs are kept as they are, and each word is rendered as its subwords separated by spaces.

The model follows the source's form:

- The loops of `BPE.py` are Dafny methods with loops. Each is proved against a specification function:
  - `PreprocessText` against `CorpusVocab`;
  - `GetFrequentPairs` against `PairCount`;
  - `FindMostFrequentPair` against `Selects`;
  - `UpdateVocabWithPair` against `MergeVocab`;
  - `MergeSubwords` against `Merged`;
  - `LearnBpe` against `Learned`/`Splits`;
  - `ApplyBpe` against `ApplyOutput`.
- The source's dictionaries are Dafny maps:
  - a vocabulary is keyed by the word's symbol sequence, a `seq<string>`. The source keys it by the space-joined string; `WordModel.JoinSplitRoundTrip` shows the two carry the same information;
  - Python's `Counter` reads a missing key as 0, which is `PairTable.Lookup`.
- Iterating over a dictionary is a loop that picks any remaining key (`:|`). Every result is therefore proved for every iteration order.

The modules are:

- `Text`: whitespace runs, `Words` (the `\S+` tokenizer), lines, and lexicographic order.
- `WordModel`: symbols, words, vocabularies and `preprocess_text`.
- `PairTable`: pair counts and `get_frequent_pairs`.
- `Selector`: the selection order and `find_most_frequent_pair`.
- `Merge`: token-aligned fusion and `merge_subwords`.
- `Update`: `update_vocab_with_pair`.
- `Learner`: `learn_bpe_algo`.
- `Tokenizer`: `preprocess_text_apply` and `preprocess_text_input`.
- `Applier`: the pure part of `apply_bpe_algo`.
- `Agreement`: training and application produce the same segmentation.
- `Findings`: the regular-expression substitution at `BPE.py:76` modelled as written.

## Model

| member | source | states |
|---|---|---|
| Text.RunsConcat | BPE.py:30 | the runs found by `\S+` or `\s+` concatenate back to the whole text |
| Text.RunsShape | BPE.py:30 | every run is non-empty and is either all whitespace or whitespace-free; the first run starts with the first character |
| Text.RunsAlternate | BPE.py:30 | consecutive runs alternate between whitespace and non-whitespace (maximal munch) |
| Text.WordsWellFormed | BPE.py:23 | every word found by `\S+` is non-empty and whitespace-free |
| Text.WordsAreNonSpaceRuns | BPE.py:100 | the `\S+` words are exactly the non-whitespace runs of `\S+` or `\s+`, in order, so `split()` and the run tokenizer see the same words |
| Text.WordsAppendSpace | BPE.py:22-23 | the words of a text followed by whitespace-led text are the words of each part |
| Text.WordsSplitAt | BPE.py:22-23 | cutting a text at a whitespace character (such as a newline) does not change its word sequence |
| Text.WordsOfSplitLines | BPE.py:22-23 | the words of the lines from `split('\n')`, concatenated, are the words of the whole text |
| Text.LexLessTransitive | BPE.py:91-94 | Python's string `<` is transitive |
| Text.LexLessTotal | BPE.py:91-94 | of two different strings, one is `<` the other |
| Text.RemoveCharBlanksOnly | BPE.py:111 | removing a character from a text whose only whitespace is the blank leaves such a text |
| Text.RStripThenRemoveBlanks | BPE.py:111 | on a rendered word, `rstrip()` only removes spaces, so the spaceless text is unchanged |
| WordModel.SymbolizeText | BPE.py:23 | the symbols of a word (its characters, then `_`) spell the word followed by `_` |
| WordModel.SymbolizeInjective | BPE.py:23 | different words get different symbol sequences |
| WordModel.JoinSplitRoundTrip | BPE.py:25 | `" ".join` then `split()` gives back the symbols of a well-formed word |
| WordModel.JoinRemoveBlanks | BPE.py:16 | `word.replace(" ", "")` on a joined word is the word's text |
| WordModel.WordCountsKeys | BPE.py:24-25 | the counted keys are the symbol sequences of the words seen |
| WordModel.WordCountsMultiplicity | BPE.py:24-25 | a word's symbols are a key iff the word was seen, and then its count is the number of occurrences |
| WordModel.CorpusVocabValid | BPE.py:20-26 | the corpus vocabulary has well-formed keys with pairwise distinct texts |
| WordModel.CorpusVocabCounts | BPE.py:20-26 | the corpus vocabulary's keys are the symbolized words of the text, with counts equal to the words' multiplicities |
| WordModel.CountRun | BPE.py:24-25 | one step of the inner loop counts one more word |
| WordModel.CountLine | BPE.py:22-23 | one step of the outer loop appends one line's words |
| WordModel.PreprocessText | BPE.py:20-26 | the loop computes the corpus vocabulary: keys are the symbolized words, counts are multiplicities, the vocabulary is valid |
| PairTable.OccurrencesPositive | BPE.py:53-55 | a pair has a positive count in a word iff it is adjacent somewhere in the word |
| PairTable.PairCountInsert | BPE.py:52-55 | adding a word with frequency f adds f times its occurrences to every pair count |
| PairTable.RecountLookup | BPE.py:50-56 | the reference recount of a vocabulary gives every pair its frequency-weighted number of occurrences |
| PairTable.CountStep | BPE.py:54-55 | one step of the inner loop counts one more adjacent position of the word |
| PairTable.GetFrequentPairs | BPE.py:50-56 | every pair's count is the sum, over words, of frequency times occurrences; the table's keys are exactly the pairs that occur in some word |
| Selector.OutranksTransitive | BPE.py:86-95 | the selection order (higher count, then smaller second symbol, then smaller first symbol) is transitive |
| Selector.OutranksTotal | BPE.py:86-95 | of two distinct pairs, one outranks the other |
| Selector.BestUnique | BPE.py:86-95 | at most one pair is best |
| Selector.SelectsUnique | BPE.py:83-96 | at most one result satisfies the selection contract, so it does not depend on iteration order |
| Selector.SelectsLookup | BPE.py:83-96 | the selection depends only on the counts `Counter` reports, not on zero entries |
| Selector.TieBreakExample | BPE.py:90-95 | with `(l,o)` and `(o,w)` tied at 2, `(l,o)` is chosen because `o < w` |
| Selector.BestStep | BPE.py:87-95 | one loop step keeps "the current pair outranks every pair seen so far with a positive count" |
| Selector.FindMostFrequentPair | BPE.py:83-96 | the result is `None` iff no pair has a positive count; otherwise it has a positive count and outranks every other positive pair |
| Merge.MergedText | BPE.py:115-133 | merging keeps the word's text (the symbols still concatenate to the same string) |
| Merge.MergedSymbols | BPE.py:125-131 | every symbol of the result is a symbol of the word or the fused token |
| Merge.MergedWellFormed | BPE.py:125-131 | merging keeps every symbol non-empty and whitespace-free |
| Merge.MergedLength | BPE.py:124-132 | each match shortens the word by the token's length minus one |
| Merge.MatchCountPositive | BPE.py:118-126 | there are matches iff the token occurs in the word |
| Merge.MergedAbsent | BPE.py:118-133 | a word without the token is returned unchanged |
| Merge.MergedChanges | BPE.py:118-133 | for a token of two or more symbols, the word changes iff the token occurs in it |
| Merge.MergedTextAbsent | BPE.py:103 | if the fused token's text is not a substring of the word's text, merging changes nothing, so the filter at line 103 only skips no-ops |
| Merge.MergedPairGone | BPE.py:115-133 | after merging a two-symbol token there is no occurrence of it left |
| Merge.MergedIdempotent | BPE.py:115-133 | merging the same pair twice is the same as merging it once |
| Merge.MatchesAtPointwise | BPE.py:119-123 | a match at position i means the first symbol matches and every later token symbol is in range and equal |
| Merge.ScanStep | BPE.py:118-132 | each step of the outer loop emits the next symbol of the specified result and moves to the right position |
| Merge.MatchAt | BPE.py:120-123 | the inner loop's flag is true iff the token matches at i |
| Merge.MergeSubwords | BPE.py:115-133 | the result is the leftmost, non-overlapping, token-aligned merge of the token in the word |
| Update.Fuse | BPE.py:59 | the fused token has two symbols and spells `''.join(pair)` |
| Update.MergeVocabEntries | BPE.py:76-79 | every word is stored fused with its frequency, and every stored key is some word fused |
| Update.MergeVocabText | BPE.py:76-79 | every stored key spells the text of some original word |
| Update.MergeVocabValid | BPE.py:63-79 | fusing a pair keeps the vocabulary valid, so no two words collide in `updated_vocab` |
| Update.OccurrencesToken | BPE.py:64-67 | a pair is adjacent in a word iff the fused token occurs in it |
| Update.MergeVocabPairGone | BPE.py:76-80 | after the update no word contains the merged pair, so its recount is 0 |
| Update.TokenInJoin | BPE.py:64 | if the pair occurs in a word, `"a b"` is a substring of the joined word |
| Update.FilterRedundant | BPE.py:64 | words the substring test skips are words the fusion leaves unchanged, so line 79's copy is the fused word |
| Update.DoneTable | BPE.py:66-75 | when the scan ends, the patched table equals the old one shifted by frequency times the change in occurrences |
| Update.ScanFuseStep | BPE.py:67-75 | a matching step patches the neighbour pairs, rewrites `symbols[i+1]` only when `i+2 < len`, and keeps the scan invariant |
| Update.ScanPassStep | BPE.py:66-67 | a non-matching step keeps the scan invariant |
| Update.PatchPairs | BPE.py:65-75 | the patched table differs from the old one, on every pair but the merged one, by frequency times the change in the pair's occurrences from the word to its fusion |
| Update.UnchangedTable | BPE.py:78-79 | an unchanged word needs no table change |
| Update.MergedIntoInsert | BPE.py:77 | storing one more fused word adds a fresh key |
| Update.MergedIntoAll | BPE.py:63-79 | once every word is stored, the new vocabulary is the fused vocabulary |
| Update.UpdateStep | BPE.py:63-79 | one loop step keeps the loop invariant on the vocabulary and the table |
| Update.UpdateDone | BPE.py:63-80 | after the loop, the vocabulary is fused and the table changed by the difference of recounts; a correct table stays correct |
| Update.UpdateWord | BPE.py:64-79 | one word's entry is its fusion with its frequency, and the table shifts as its occurrences change |
| Update.UpdateWords | BPE.py:63-79 | the loop over the vocabulary establishes the invariant for all words |
| Update.UpdateVocabWithPair | BPE.py:58-81 | the new vocabulary is the fused vocabulary; the merged pair is removed from the table; every other count changes by the difference of full recounts, so a table that was a full recount is a full recount of the new vocabulary |
| Learner.MergeVocabTexts | BPE.py:15 | fusing a pair keeps the set of word texts |
| Learner.MergeAllTexts | BPE.py:10-15 | any sequence of merges keeps the set of word texts |
| Learner.CorpusTexts | BPE.py:20-26 | the corpus vocabulary's texts are the words of the text with `_` appended |
| Learner.SplitsMeaning | BPE.py:16 | the splits are keyed by word text, map each word to its joined symbols, and splitting that string gives the word back |
| Learner.LearnedSplitsKeys | BPE.py:6-17 | after any merges, the splits' keys are the words of the input with `_` appended |
| Learner.ChosenPrefix | BPE.py:10-15 | two merge lists that both follow the selection rule agree on their common prefix |
| Learner.LearnedUnique | BPE.py:10-15 | the learned merge list is unique for a corpus and step count |
| Learner.LearnedNothing | BPE.py:10 | for `vocab_size <= 0` the only learned list is empty |
| Learner.LearnedSnoc | BPE.py:11-15 | appending the pair selected from the recount extends a list that follows the selection rule |
| Learner.SelectsRecount | BPE.py:11 | a selection on a correct incremental table is a selection on the full recount |
| Learner.LearnedFinish | BPE.py:10-14 | stopping after `vocab_size` steps or at `None` yields a learned list |
| Learner.LearnBpe | BPE.py:6-17 | at most `max(vocab_size, 0)` merges; each is the pair selected from the full recount of the vocabulary after the earlier merges; fewer only when nothing is left to select; the splits are those of the final vocabulary |
| Tokenizer.MarkedKind | BPE.py:31-35 | marking keeps whitespace runs as they are and is undone by removing the marker |
| Tokenizer.ApplyPiecesRoundTrip | BPE.py:28-36 | removing the markers gives back the text; pieces alternate between whitespace and marked words |
| Tokenizer.PreprocessTextApply | BPE.py:28-36 | the loop yields the whitespace runs as they are and each word with `_` appended |
| Tokenizer.InputMatchesApply | BPE.py:38-48 | the symbol form and the string form of the input agree piece by piece |
| Tokenizer.PreprocessTextInput | BPE.py:38-48 | the loop yields the whitespace runs and each word as its characters followed by `_` |
| Applier.ApplyMergesText | BPE.py:101-104 | replaying merges keeps a word's text and its well-formedness |
| Applier.RenderRoundTrip | BPE.py:111 | for a word without `_`, removing the spaces from its rendering gives the word back |
| Applier.RenderDropsUnderscore | BPE.py:111 | a word that is only `_` renders as the empty string |
| Applier.InitialWordMap | BPE.py:100 | the word map starts with each word of the text, plus `_`, mapped to its symbols |
| Applier.WordMapStep | BPE.py:101-104 | merging one more token in every entry keeps the map equal to the replayed merges |
| Applier.MergedOnStep | BPE.py:102-104 | updating one more entry keeps the inner loop's invariant |
| Applier.ApplyToken | BPE.py:102-104 | the inner loop merges the token into every entry; the filter at line 103 skips only no-ops |
| Applier.OutputPiece | BPE.py:107-111 | each output piece is the whitespace run, or the rendering of the word after all merges |
| Applier.RenderText | BPE.py:105-111 | the output loop renders the text piece by piece |
| Applier.ApplyBpe | BPE.py:99-111 | the output is the text with each whitespace run kept and each word replaced by its rendered merged segmentation |
| Agreement.PairTokens | BPE.py:101-104 | the tokens given to `merge_subwords` are the merges as two-symbol tokens |
| Agreement.MergeAllApply | BPE.py:101-104 | replaying the merges on a word gives the key that word has in the learned vocabulary, with its frequency |
| Agreement.LearnApplyAgree | BPE.py:99-111 | for every corpus word, the learned split is the merged segmentation that application computes, and rendering it gives what application writes for that word |
| Agreement.UntrainedSplits | BPE.py:10-16 | with `vocab_size <= 0`, each word's split is its characters and `_`, separated by spaces |
| Findings.Escape | BPE.py:76 | the meaning of `\c` in a replacement template: `\\` and the letter escapes, an error for other ASCII letters and digits, kept otherwise |
| Findings.ExpandTemplate | BPE.py:76 | a template without a backslash stands for itself; a trailing lone backslash is an error |
| Findings.Substituted | BPE.py:76 | substituting the literal fused text is the model's merge |
| Findings.StoredKeyPlain | BPE.py:76 | without a backslash in the pair, the key stored as written is the model's fused word |
| Findings.EscapedPairChangesWord | BPE.py:76 | as written, fusing `(\, n_)` stores a newline then `_`, which no longer spells the word; `(\, q_)` makes `re` raise an error |

## Left out

- Command-line handling, file reading and writing, and the merges file (BPE.py:135-178, BPE.py:112-113). `ApplyBpe` returns the text that would be written.
- Parsing the merges file back and re-splitting its lines (BPE.py:163). `ApplyBpe` takes the merges as a sequence of tokens.
- The regular-expression engine and Unicode character tables are not modelled:
  - `\s`, `\S`, `str.isspace` and `split()` are one predicate, `Text.IsSpace`, over Python's whitespace characters;
  - `re.escape` and the lookaround pattern at BPE.py:61 are modelled by `Merge.Merged`, the token-aligned fusion they implement.
- Dafny's `char` excludes lone surrogate code points, which a Python `str` can hold.
- The order in which dictionaries are iterated is not modelled: each loop may take the keys in any order, and the contracts hold for every order.
- Aliasing is not modelled: the source patches the caller's `pairs` Counter in place, while `Update.UpdateVocabWithPair` returns the new table.
- Update.UpdateVocabWithPair: requires a valid vocabulary (well-formed words with distinct texts) and `pair in pairs`.
  - The learner only passes vocabularies built by `preprocess_text` and earlier merges (`WordModel.CorpusVocabValid`, `Update.MergeVocabValid`).
  - The learner only passes pairs that `find_most_frequent_pair` returned.
  - Outside these cases the source raises `KeyError` at BPE.py:80 or can overwrite colliding keys.
- Update.PatchPairs: requires the word to be well formed (no empty or whitespace-containing symbol), which every vocabulary key built by the learner is.
- Update.UpdateVocabWithPair: states nothing about the count left for the merged pair itself, which `pairs.pop` removes.
- Applier.ApplyBpe: requires every merge token to be non-empty, which the two-symbol tuples of the source always are.
- Applier.RenderDropsUnderscore: the rendering at BPE.py:111 also deletes underscores that were in the original text. It is modelled as written, so `Applier.RenderRoundTrip` is stated only for words without `_`.
- Findings.Escape: treats `\g` and digit escapes as errors. Python accepts a `\g<0>` group reference and octal escapes such as `\0`.
- Learner.LearnBpe: the learner is modelled with the literal fusion `Merge.Merged`, not with the template substitution as written (see Findings).

## Findings

| source | as written | input that shows it | evidently intended | confidence | as-written member | corrected member |
|---|---|---|---|---|---|---|
| BPE.py:76 | `regex_pattern.sub(joined_pair, word)` passes the fused pair as a replacement template, so a backslash in it starts an escape | training text `\n` (a backslash followed by the letter n) with `vocab_size` 2: the first merge is `(n, _)` and the second `(\, n_)`, which stores a newline followed by `_` instead of `\n_`; the split for `\n_` is then missing; with `\q` instead, `re` raises an error for the bad escape | insert the fused pair literally, keeping the word's text | not executed | Findings.EscapedPairChangesWord | Merge.MergedText |
