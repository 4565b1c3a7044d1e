# FinBERT data pipeline: a verified model

This project models the data algorithms around the BERT network in this repository and proves what they
promise, for every input, every random seed, every vocabulary and every reply order. The network itself is
a parameter. Everything is in Dafny; `dafny verify dfyconfig.toml` checks the whole project.

## What is modelled

- **Question answering** (`bert/run_squad.py`): a paragraph is split into words, words into pieces, pieces
  into overlapping windows; a predicted span of window tokens is turned back into a slice of the words,
  joined by single spaces. `SquadExamples`, `Windows`, `Features`, `NBest`, `Alignment` follow the code's
  functions; `Pipeline` puts them together for one example, and `Evaluation` for all of them, with the
  logits fetched by the asynchronous client.
- **Tokenizer** (`bert/tokenization.py`): `BasicTokenizer` and `WordPiece`; `Detokenize` proves that the
  `##` removal of `write_predictions` is a printer for them. The Unicode tables, `str.isspace`, `str.lower`
  and NFD are fields of a `Unicode` value; `Unicode.Valid` states the few facts used about the space
  character and printable ASCII.
- **Pre-training data** (`bert/create_pretraining_data.py`, `data/prep/create_sentiment_data.py`,
  `bert/run_classifier.py`): `Instances`, `Masking`, `Truncation`, with `Draws` for the random generator,
  every draw of which is an arbitrary value of its range.
- **Asynchronous client** (`bert-gpu/run_squad_trtis_client.py`): `AsyncClient` has the protocol as a step
  relation, its invariant over all runs, and the client code following it.
- **Counting loops**: `Sharder` and `TrainHook`, exactly as their counters run.

`Text` and `Sorting` hold the Python string operations and the stable sort the code calls; `Numbers` holds
`min` and `max`.

## Main results

1. *Printing undoes tokenizing* (`Pipeline.PredictionFoundIff`): for every span of document pieces, also one
   that starts or ends inside a word, the predicted text is found in the re-tokenized original words if and
   only if the span holds no `[UNK]`. A `#` in the text does no harm, because the basic tokenizer isolates it.
2. *Cased round trip* (`Pipeline.CasedPredictionIsVerbatimIff`): without lower-casing, the alignment goes
   through if and only if the span holds no `[UNK]` and the words it touches are of ordinary characters, and
   then the span comes back as a slice of the joined words whose non-space characters are exactly the
   characters of the pieces.
3. *Maximum context* (`Windows`): every token has exactly one best window, the earliest of those with most
   context on the shorter side, lengths counting a hundredth; the best window never moves left,
   every window is best for some token; answers of `m` pieces all survive windowing if and only if the
   document fits one window or `m <= size - step + 1`.
4. *Examples kept* (`SquadExamples.ExampleKeptIff`, `SquadExamples.WholeWordsKeptIff`): the exact condition
   under which a training example survives the text test, including Python's reading of offset -1 and, for
   answers of whole words, the characters on which Python's two notions of whitespace differ.
5. *Prediction* (`NBest.PredictExample`, `Pipeline.AnswerExample`, `Evaluation.Evaluate`): distinct texts,
   the empty text once in version 2 mode, and the empty answer exactly when the null score beats the best
   candidate by more than the threshold; every candidate's text obeys results 1 and 2. Over a whole data set
   each example is answered from exactly its own features and the logits of their own rows.
6. *Instances* (`Instances.CreateInstancesFromDocument`): the loop ends although its index moves backwards,
   and the segments used tile the document; every instance is a masked, truncated pair whose labels restore it.
7. *Masking*: for every shuffle a maximal union of complete groups within the budget; in FinBERT's variant a
   position can be predicted twice exactly when whole-word masking is on and a forced `##` piece, counted
   twice, fits the budget together with the `##` pieces that follow it.
8. *Client*: in every state of every run each batch is unsent, outstanding or answered, at most twenty are in
   flight, no run is stuck or longer than three steps per batch plus three, and the final map is total and
   independent of the reply order.
9. *Sharder*: lines are conserved up to one dropped line per write, and the documentation's promise
   (`bert-gpu/README.md:452`) that no document is split between two shards holds for every input and shard
   size (`Sharder.DocumentIsNotSplit`). Lines can still be lost at the end of the file: the exact conditions
   under which lines stay unwritten, or anything but separators is missing, are proved on the input.
10. *Training hook*: the reported number of skipped steps is right exactly when at least two steps followed
    the last checkpoint and no excluded run left the global step where it was; the exact shortfall otherwise.
11. *Tokens* (`BasicTokenizer`): what the basic tokenizer makes of any text is fixed by what each character
    does (removed, separating, or CJK) and by the tokens of the runs between: the run, lower-cased, decomposed
    and without nonspacing marks if asked, cut exactly at its punctuation.

The code's comment that the example is skipped only for odd Unicode is not the whole story: an answer offset
in leading whitespace also loses the example (result 4).

## Model

| member | source | states |
|---|---|---|
| SquadExamples.SplitContext | bert/run_squad.py:241-253 | The words are the maximal runs of non-whitespace, and every character is mapped to the number of words begun up to it, minus one. |
| SquadExamples.KeepExample | bert/run_squad.py:269-290 | The example is kept exactly when the cleaned answer occurs in the joined words between the two looked-up offsets. |
| SquadExamples.ExampleKeptIff | bert/run_squad.py:269-290 | An answer that is a slice of the paragraph, on which the whitespace tests agree, is kept if and only if a word begins at or before its offset, or it has no word, or the paragraph is one word. |
| SquadExamples.FoundAfterAWord | bert/run_squad.py:274-287 | An answer with a word, at or after the first word, is always found between its looked-up words, even if it starts or ends inside a word or in whitespace. |
| SquadExamples.FoundBeforeWords | bert/run_squad.py:274-287 | With start offset -1, which Python reads as the last word, the answer is found only in a one-word paragraph. |
| SquadExamples.AnswerStartingInWordIsKept | bert/run_squad.py:277-290 | An answer that begins with a non-whitespace character is never lost. |
| SquadExamples.LeadingWhitespaceLosesExample | bert/run_squad.py:274-290 | The answer `" a"` at the start of the paragraph `" a b"` is lost. |
| SquadExamples.AgreementInsideSuffices | bert/run_squad.py:269-290 | The whitespace tests need to agree only between the answer's first and last word characters: once a word begins at or before the offset, the example is kept. |
| SquadExamples.WholeWordsKeptIff | bert/run_squad.py:232-290 | An answer of whole words is kept if and only if none of its characters is whitespace to `split` but not to the paragraph splitter. |
| SquadExamples.DisagreementLosesExample | bert/run_squad.py:232-235 | A no-break space, whitespace for `split` but not for the paragraph splitter, makes the code skip a correct example. |
| Text.WordsConcat | bert/tokenization.py:152-158 | Whitespace splitting of a concatenation is the two splits side by side, glued when the seam is inside a word. |
| Text.WordsJoin | bert/tokenization.py:152-158 | Splitting a joined list of words gives the list back. |
| BasicTokenizer.CleanText | bert/tokenization.py:286-297 | Control and invalid characters are dropped, whitespace becomes a space, in one pass. |
| BasicTokenizer.TokenizeChineseChars | bert/tokenization.py:251-262 | Exactly the CJK characters are surrounded by spaces. |
| BasicTokenizer.RunStripAccents | bert/tokenization.py:220-229 | After decomposition exactly the nonspacing marks are dropped. |
| BasicTokenizer.RunSplitOnPunc | bert/tokenization.py:231-249 | The loop computes the punctuation split whose properties `SplitOnPuncCorrect` states. |
| BasicTokenizer.SplitOnPuncCorrect | bert/tokenization.py:231-249 | The pieces concatenate to the text, each is one punctuation character or free of punctuation, and no two neighbours could be merged. |
| BasicTokenizer.Tokenize | bert/tokenization.py:196-218 | The passes compose to the token list that the lemmas below determine: by what happens at each character, and by the tokens of each run between. |
| BasicTokenizer.TokensWithoutRemoved | bert/tokenization.py:286-293 | A control or invalid character leaves no trace in the tokens. |
| BasicTokenizer.TokensAroundWhitespace | bert/tokenization.py:206-218 | A whitespace character separates the tokens of its two sides. |
| BasicTokenizer.TokensAroundChinese | bert/tokenization.py:251-262 | A CJK character is tokenized on its own, between the tokens of its two sides. |
| BasicTokenizer.TokensOfRun | bert/tokenization.py:208-218 | The tokens of a run of ordinary characters show the run, lower-cased, decomposed and without nonspacing marks if asked; punctuation stands alone and no two neighbours could be merged. |
| BasicTokenizer.TokensOfChinese | bert/tokenization.py:208-218 | The same for one CJK character. |
| BasicTokenizer.UncasedTokensConserveText | bert/tokenization.py:208-229 | With lower-casing the tokens concatenate to the lower-cased and decomposed words minus nonspacing marks and whitespace. |
| BasicTokenizer.AsciiSymbolsArePunctuation | bert/tokenization.py:386-400 | Every printable ASCII character that is no letter or digit is punctuation. |
| BasicTokenizer.TokensOfJoin | bert/tokenization.py:196-218 | Tokenizing joined words is tokenizing word by word. |
| BasicTokenizer.TokensAreAtomicWords | bert/tokenization.py:196-218 | Tokens are non-empty and whitespace-free, and punctuation always stands alone. |
| BasicTokenizer.CasedTokensConserveText | bert/tokenization.py:196-218 | Without lower-casing the tokens concatenate to the text minus removed and whitespace characters. |
| WordPiece.TokenizeWord | bert/tokenization.py:330-358 | The nested search loops compute the greedy segmentation characterised by `WordPiecesCorrect`. |
| WordPiece.Tokenize | bert/tokenization.py:308-359 | A text's pieces are those of its whitespace-separated words, in order. |
| WordPiece.WordPiecesCorrect | bert/tokenization.py:330-358 | Words over 200 characters and words whose longest-match chain gets stuck yield one `[UNK]`; every other word yields the unique segmentation in which every piece is the longest match at its position. |
| WordPiece.UnknownIff | bert/tokenization.py:330-358 | One `[UNK]` comes out if and only if the word is over the limit, or gets stuck, or is `[UNK]` itself and in the vocabulary. |
| WordPiece.SegmentationIsUnique | bert/tokenization.py:336-352 | A word has at most one greedy segmentation. |
| WordPiece.WordPiecesRoundTrip | bert/tokenization.py:341-357 | Dropping the `##` markers and concatenating gives the word back. |
| Detokenize.PredTextIsDetok | bert/run_squad.py:840-848 | The two replacements and the whitespace clean-up print the pieces one by one, removing exactly the markers. |
| Detokenize.SpanIsSubstring | bert/run_squad.py:836-848 | A contiguous span of pieces prints as a contiguous part of what all pieces print. |
| Detokenize.DetokOfTokens | bert/run_squad.py:840-848 | The pieces of all tokens print the joined tokens. |
| Detokenize.PredTextOccurs | bert/run_squad.py:972-974 | The text printed for a span of pieces occurs in the joined basic tokens if and only if the span holds no `[UNK]`. |
| Alignment.StripSpaces | bert/run_squad.py:955-964 | The non-space characters and, for every rank, the position of the character of that rank. |
| Alignment.InvertMap | bert/run_squad.py:993-995 | The inverse map has exactly the non-space positions, each with its rank. |
| Alignment.GetFinalText | bert/run_squad.py:970-1020 | The result is a slice of the original text, and all of it when the prediction is not found in the joined basic tokens or the stripped lengths differ. |
| Alignment.FallbackIsOriginal | bert/run_squad.py:974-1017 | Wherever the code gives up it returns the original text. |
| Alignment.FinalTextIsSlice | bert/run_squad.py:970-1020 | The result is always a slice of the original text. |
| Alignment.AlignsIffMapped | bert/run_squad.py:975-1017 | Once the text is found, the code returns the original text exactly when the stripped lengths differ or an end falls on a space or outside. |
| Alignment.FinalTextCoversRanks | bert/run_squad.py:991-1020 | Without a fallback the result is a slice that starts and ends on non-space characters and covers exactly the ranks the prediction has in the tokenized text. |
| Alignment.FinalTextKeepsCharacters | bert/run_squad.py:982-1020 | If the stripped texts are equal, the stripped result equals the stripped prediction. |
| Alignment.FinalTextEmptyOnlyForEmpty | bert/run_squad.py:927-1020 | The result is empty if and only if the original text is. |
| Windows.DocSpans | bert/run_squad.py:355-364 | The loop ends and yields the windows: one step apart, all full but the last, the last ending with the document. |
| Windows.TilingClosedForm | bert/run_squad.py:355-364 | Window `k` starts at `k` steps with length min(size, rest), and exists exactly while window `k - 1` stops short. |
| Windows.AnswersSurvive | bert/run_squad.py:409-424 | All answers of `m` pieces lie inside some window if and only if the document fits one window or `m <= size - step + 1`. |
| Windows.CheckIsMaxContext | bert/run_squad.py:513-547 | The test holds exactly for the window that beats all earlier covering windows and is not beaten by later ones. |
| Windows.BestIffMostContext | bert/run_squad.py:516-547 | On positions: the chosen window has more context on its shorter side than every other covering window, a hundred tokens of length weighing as much as one of context; the earliest wins a tie. |
| Windows.BestHasMostContext | bert/run_squad.py:516-547 | While lengths differ by less than a hundred, no covering window has more context than the chosen one. |
| Windows.MaxContextExactlyOnce | bert/run_squad.py:516-547 | Every document token is max-context in exactly one window. |
| Windows.MaxContextMonotone | bert/run_squad.py:516-547 | The max-context window index never decreases with the token position. |
| Windows.MaxContextBlocks | bert/run_squad.py:516-547 | The max-context regions are contiguous blocks in window order. |
| Windows.EveryWindowOwnsAToken | bert/run_squad.py:516-547 | Every window is the max-context window of some token. |
| Features.IndexPieces | bert/run_squad.py:322-330 | The pieces of all words in order; word starts and the word of every piece. |
| Features.PiecesBetween | bert/run_squad.py:322-330 | Between two word starts stand exactly the pieces of the words between. |
| Features.Query | bert/run_squad.py:314-318 | The question's first tokens, as many as allowed. |
| Features.ImproveAnswerSpan | bert/run_squad.py:502-510 | The earliest start with a textual match and, from there, the latest end; the input span if nothing matches. |
| Features.MatchIsExact | bert/run_squad.py:504-508 | For tokenizer pieces a textual match is an exact match of piece lists. |
| Features.LayOutWindow | bert/run_squad.py:366-389 | The window's tokens, segment ids, word map and max-context map, position by position. |
| Features.Pad | bert/run_squad.py:393-405 | Padding reaches the sequence length, so the three length assertions hold. |
| Features.MakeFeature | bert/run_squad.py:366-468 | The feature of a window, with label positions shifted into the window or 0 when the answer is not inside. |
| Features.AnswerPieces | bert/run_squad.py:337-345 | The improved span of the annotated words' pieces, a start position of -1 read as the last word. |
| Features.ConvertExample | bert/run_squad.py:316-473 | One feature per window of the tiling, consecutive ids, exact tokens, maps, masks and segment ids, labels from the improved answer span. |
| Features.ConvertExamples | bert/run_squad.py:310-473 | The features are the conversions of the examples, one after another. |
| Features.IdsAreConsecutive | bert/run_squad.py:314-473 | Ids are consecutive from 1000000000 over all examples, which appear in order. |
| Features.TokSpanInside | bert/run_squad.py:337-345 | The improved span stays inside the pieces of the annotated words. |
| Features.WholeWordsAreLabelled | bert/run_squad.py:337-345 | If the answer's text has the pieces of the annotated words, the improved span is exactly these pieces. |
| Features.LabelPath | bert/run_squad.py:379-424 | In a window containing the answer span, the labelled tokens are exactly its pieces and map back only to annotated words. |
| Features.SomeFeatureKeepsLabel | bert/run_squad.py:348-424 | An answer of at most `size - step + 1` pieces keeps its label in some feature. |
| Sorting.SortDescCorrect | bert/run_squad.py:821-824 | The result is a descending permutation in which equal keys keep their order. |
| NBest.GetBestIndexes | bert/run_squad.py:1023-1032 | The loop takes the first `n` ranked indexes. |
| NBest.BestIsTop | bert/run_squad.py:1023-1032 | The listed indexes are distinct, strictly descending in rank, as many as asked for, and no index left out outranks one listed. |
| NBest.WindowCandidates | bert/run_squad.py:785-811 | Exactly the valid spans over the best start and end indexes of one window. |
| NBest.Collect | bert/run_squad.py:767-811 | Exactly the candidates of all windows, and the first window with the lowest null score below a million. |
| NBest.NullScoreIsLowest | bert/run_squad.py:776-784 | The null score is the lowest sum of a window's two logits at position 0, with that window's logits, or a million. |
| NBest.SelectNBest | bert/run_squad.py:829-864 | The first prediction of every text, in order, until the list is full; texts are distinct. |
| NBest.ListedAreBest | bert/run_squad.py:821-864 | Scores descend, every entry has the best score of its text, and a missing text scores no better than a full list. |
| NBest.FinishNBest | bert/run_squad.py:829-879 | The kept entries, completed by the null entry in version 2 mode when its text is missing, or by a nonce. |
| NBest.NBestTexts | bert/run_squad.py:829-879 | The list is never empty, texts are distinct, and in version 2 mode the empty text occurs exactly once. |
| NBest.NBestCoversCandidates | bert/run_squad.py:785-879 | Every candidate of every window has its text in the list with a score at least its own, or the first `n_best_size` entries all score at least as much. |
| NBest.BestNonNull | bert/run_squad.py:882-887 | The first entry with a non-empty text, if there is one. |
| NBest.FirstTextIsTop | bert/run_squad.py:821-887 | In version 2 mode the first non-empty entry is the top real prediction, if the list has room for it. |
| NBest.PredictExample | bert/run_squad.py:764-912 | The list is made from all candidates in descending score; version 2 has an answer exactly when a candidate exists and the list has room for it; it is empty exactly when the null score exceeds the best candidate's by more than the threshold; version 1 gives the text of a best candidate or `empty`. |
| Pipeline.FullTokenize | bert/tokenization.py:170-176 | The pieces of the basic tokens, in order. |
| Pipeline.PredictionFoundIff | bert/run_squad.py:836-980 | The predicted text of any span of document pieces is found if and only if the span holds no `[UNK]`; the projection falls back only then or when tokenizing changed the number of non-space characters. |
| Pipeline.CasedKeepsCharactersIff | bert/tokenization.py:196-218 | Without lower-casing, tokenizing keeps the number of non-space characters if and only if the words are of ordinary characters, and then it keeps the characters. |
| Pipeline.CasedPredictionIsVerbatimIff | bert/run_squad.py:836-1020 | Without lower-casing, the alignment goes through if and only if the pieces are known and the words they touch are ordinary; then they come back as a slice of the joined words with exactly their characters. |
| Pipeline.WindowSpanIsDocumentSpan | bert/run_squad.py:836-839 | Between two document positions of a feature stand consecutive document pieces, and the two words looked up are those of its ends. |
| Pipeline.CandidatesAreRankable | bert/run_squad.py:835-858 | Every candidate starts past the query and has a non-empty final text. |
| Pipeline.CandidateStartsInOneWindow | bert/run_squad.py:798-799 | A candidate's start is best in its own window and in no other. |
| Pipeline.CandidatesAreFaithful | bert/run_squad.py:835-858 | The final text of every candidate is a slice of the words its window tokens come from, found and aligned exactly under the conditions of the results above, and all of these words if the span holds `[UNK]` or the character counts differ. |
| Pipeline.AnswerExample | bert/run_squad.py:764-912 | From features and logits to the answer for one example, with no condition on the candidates, whose texts are faithful to their tokens. |
| Evaluation.AnnotatedExampleIsValid | bert/run_squad.py:241-305 | The word positions that the character map yields, -1 included, are ones that conversion accepts. |
| Evaluation.ClientGivesResults | bert-gpu/run_squad.py:432-434 | The client's final map has logits for every feature. |
| Evaluation.FeaturesOfExample | bert/run_squad.py:744-765 | The features that carry an example's index are exactly the ones it was converted to. |
| Evaluation.Evaluate | bert/run_squad.py:744-912 | Each example is answered from exactly its own features and the logits that the server has for their rows, whatever the order of the replies. |
| Truncation.TruncateSeqPair | bert/create_pretraining_data.py:418-433 | Both lists end as contiguous parts with the lengths min(a, max(M - b, ceil(M/2))) and min(b, max(M - a, floor(M/2))) whenever anything is cut; the assertion fails exactly for a negative limit. |
| Truncation.TruncateSeqPairPrefix | bert/run_classifier.py:557-571 | The same lengths, as prefixes. |
| Truncation.CutFallsOnLonger | bert/create_pretraining_data.py:418-433 | A list that leaves the other half of the budget is spared; otherwise both are cut to half of it, an odd place going to the first. |
| Truncation.StayNonemptyIff | bert/create_pretraining_data.py:299-302 | Non-empty lists stay non-empty under every truncation if and only if the limit is at least 2. |
| Masking.CollectCandidates | bert/create_pretraining_data.py:346-363 | The loop computes the candidate groups. |
| Masking.GroupsList | data/prep/create_sentiment_data.py:352-380 | The groups, one after another, list the maskable positions in order, those of forced words twice. |
| Masking.GroupsAreSingle | bert/create_pretraining_data.py:359-363 | Without whole-word masking every group is one position. |
| Masking.GroupsAreWords | bert/create_pretraining_data.py:349-363 | With it, only `##` pieces follow a group's first position, and an unforced `##` piece opens none but the first group. |
| Masking.GroupsPartition | bert/create_pretraining_data.py:346-363 | The groups, one after another, are the non-special positions in order. |
| Masking.SelectionIsGreedy | bert/create_pretraining_data.py:373-388 | A group that fits on top of the groups selected before it, and touches none of them, is the next one selected. |
| Masking.NumToPredict | bert/create_pretraining_data.py:368-369 | The budget is the rounded count, but at least one and at most the maximum. |
| Masking.SelectAndMask | bert/create_pretraining_data.py:372-405 | The masked positions are those of the selected groups; only they change, to `[MASK]`, the token itself or a vocabulary word. |
| Masking.MaskingForEveryShuffle | bert/create_pretraining_data.py:365-406 | For every shuffle: complete disjoint groups, within the budget, and no unselected group would still fit. |
| Masking.BudgetAssertionIff | bert/create_pretraining_data.py:406 | The budget assertion holds if and only if the budget is not negative. |
| Masking.RestoreUndoes | bert/create_pretraining_data.py:407-415 | Writing the labels back restores the original tokens. |
| Masking.CreateMaskedLmPredictions | bert/create_pretraining_data.py:342-415 | The whole function yields the masking of some shuffle of the candidates, with labels that restore the tokens. |
| Masking.MaskedPositionsAscend | bert/create_pretraining_data.py:407-415 | Masked positions are strictly ascending, non-special and within the budget. |
| Masking.SelectionInBudget | data/prep/create_sentiment_data.py:391-424 | The budget is kept for any list of groups, overlapping ones included. |
| Masking.SelectionIsMaximal | data/prep/create_sentiment_data.py:391-424 | An unselected group does not fit or touches a masked position. |
| Masking.RepeatingGroupIff | data/prep/create_sentiment_data.py:352-380 | A candidate group repeats a position if and only if whole-word masking is on and a forced word is a `##` piece. |
| Masking.RepeatingGroupsAreOpened | data/prep/create_sentiment_data.py:352-380 | The repeating groups are those that forced `##` pieces open, of two positions more than the run of `##` pieces behind. |
| Masking.DoublePredictionIff | data/prep/create_sentiment_data.py:352-424 | Some shuffle predicts a position twice if and only if whole-word masking is on and a forced `##` piece, counted twice, fits the budget together with the run of `##` pieces behind it. |
| Masking.ForcedPiecePredictedTwice | data/prep/create_sentiment_data.py:352-424 | With `##b` forced, the tokens `a`, `##b` can have position 1 predicted twice if and only if the budget is at least 2. |
| Draws.Shuffle | bert/create_pretraining_data.py:365 | Shuffling yields a permutation. |
| Instances.RandomNext | bert/create_pretraining_data.py:276-291 | B is a non-empty stretch of whole segments of some corpus document, stopped at the first segment that reaches the target or at the document's end. |
| Instances.MakePair | bert/create_pretraining_data.py:258-302 | Non-empty A and B within the token limit: the chunk's segments, or a random stretch for B, truncated to the exact lengths. |
| Instances.CreateInstancesFromDocument | bert/create_pretraining_data.py:239-333 | The loop ends for every draw; chunks tile the document; each chunk stopped reading at the first segment that reached the target; every instance is its chunk's pair, framed and masked. |
| Instances.LayOut | bert/create_pretraining_data.py:304-319 | The tokens are `[CLS] A [SEP] B [SEP]`, with segment id 0 up to the first `[SEP]` and 1 from there on. |
| Instances.UsedSegmentsAreDocument | bert/create_pretraining_data.py:252-333 | The segments used as A or actual-next B, read in order, are the document. |
| Instances.InstanceIsWellFormed | bert/create_pretraining_data.py:304-333 | Every instance fits the sequence length and has ascending masked positions within the limit; its labels restore `[CLS] A [SEP] B [SEP]` for the chunk's pair, position by position, with the matching segment ids. |
| AsyncClient.MakeBatches | bert-gpu/run_squad_trtis_client.py:16-33 | The batches are consecutive non-empty slices that make up the features, all full but perhaps the last. |
| AsyncClient.StepKeepsInv | bert-gpu/run_squad_trtis_client.py:96-159 | Every step keeps the partition and the bound and brings the end closer. |
| AsyncClient.EveryRunKeepsInv | bert-gpu/run_squad_trtis_client.py:90-159 | In every state of every run each batch is unsent, outstanding or answered once, at most 20 are in flight, and a run has at most three states per batch plus three. |
| AsyncClient.NeverStuck | bert-gpu/run_squad_trtis_client.py:138-159 | Every state that is not final has a next state. |
| AsyncClient.DoneMeansAllAnswered | bert-gpu/run_squad_trtis_client.py:157-159 | A finished run has answered exactly all batches. |
| AsyncClient.FinalMapIsTotal | bert-gpu/run_squad.py:432-434 | The final map has every feature's id with the result of its own row. |
| AsyncClient.FinalMapIgnoresOrder | bert-gpu/run_squad_trtis_client.py:113-127 | The final map is the same for every reply order. |
| AsyncClient.Session.SendNext | bert-gpu/run_squad_trtis_client.py:145-148 | A send is a protocol step and adds the batch under a fresh id. |
| AsyncClient.Session.TakeReply | bert-gpu/run_squad_trtis_client.py:107-127 | A reply is a protocol step: it takes its request off and appends its rows. |
| AsyncClient.Session.ProcessOutstanding | bert-gpu/run_squad_trtis_client.py:96-129 | Waiting takes a reply off; polling may come back empty only below 20 in flight. |
| AsyncClient.RunClient | bert-gpu/run_squad_trtis_client.py:131-159 | The client's states form a complete run; the final map has exactly the ids of the features, each with the result of its own row. |
| Sharder.Shard | bert-gpu/data/bookcorpus/shard_text_input_file.py:17-39 | The loop with its two counters computes the states that the lemmas below are about. |
| Sharder.LinesAreConserved | bert-gpu/data/bookcorpus/shard_text_input_file.py:24-39 | Shards with the dropped lines reinserted, followed by the buffer, are the input read so far; the counter lags by one per write. |
| Sharder.EarlyWritesStopAtBreaks | bert-gpu/data/bookcorpus/shard_text_input_file.py:26-39 | Every write before the last line happens at the first blank line from `shard_size` lines on. |
| Sharder.DocumentIsNotSplit | bert-gpu/README.md:452 | The lines of a document stand together, in order, in one shard or in the buffer; only the last line of an input without an early break is missing. |
| Sharder.PartsAreSeparatedByBlanks | bert-gpu/README.md:452 | Between any two shards, or the last shard and a buffer that is left, a blank line was dropped. |
| Sharder.BufferSinceLastStart | bert-gpu/data/bookcorpus/shard_text_input_file.py:24-39 | The buffer holds the lines since the last greedy break of the input. |
| Sharder.UnwrittenIff | bert-gpu/data/bookcorpus/shard_text_input_file.py:23-39 | Lines stay unwritten if and only if the input has an early break and its last line is not itself a break. |
| Sharder.WroteEarlyIff | bert-gpu/data/bookcorpus/shard_text_input_file.py:26-39 | A write precedes the last line if and only if the input has a blank line from `shard_size` on before it. |
| Sharder.OnlySeparatorsLostIff | bert-gpu/data/bookcorpus/shard_text_input_file.py:23-39 | Nothing but separators is missing from the shards if and only if the input is empty, or ends in a blank line that follows no early break or is itself a break. |
| Sharder.SingleLineIsLost | bert-gpu/data/bookcorpus/shard_text_input_file.py:23-39 | A single line becomes an empty shard. |
| Sharder.WithoutBreakLastLineIsLost | bert-gpu/data/bookcorpus/shard_text_input_file.py:23-39 | An input without an earlier break becomes one shard that lacks the last line. |
| TrainHook.LogTrainRunHook.AfterRun | bert-gpu/utils/utils.py:42-53 | Time is accumulated over exactly the runs that are not excluded. |
| TrainHook.TimeOfOneRun | bert-gpu/utils/utils.py:47-53 | The accumulated time counts the time of every run that is not excluded, one for one, and no other. |
| TrainHook.LogTrainRunHook.End | bert-gpu/utils/utils.py:55-59 | How far the reported number is from the runs that were excluded: exact after at least two steps since the last checkpoint, one too few otherwise, and too few by the excluded stalls. |
| TrainHook.ExcludedClosedForm | bert-gpu/utils/utils.py:47-53 | After `n` advancing steps exactly `2 * (n / s) + min(1, n mod s)` runs are excluded. |
| TrainHook.ReportedIsExactIff | bert-gpu/utils/utils.py:47-59 | For an interval of at least 2 the report is exact if and only if `n mod s >= 2`, and one too few otherwise. |
| TrainHook.ReportedEveryStep | bert-gpu/utils/utils.py:47-59 | For an interval of 1 the report exceeds the excluded runs by `n - 1`. |
| TrainHook.ExcludedWithStalls | bert-gpu/utils/utils.py:47-53 | The exact number of excluded runs when some leave the global step unchanged. |
| TrainHook.ReportedWithStalls | bert-gpu/utils/utils.py:47-59 | With stalls the report is exact if and only if the progress mod `s` is at least 2 and no excluded run stalled; the exact shortfall otherwise. |

## Left out

- Floating point: logits are real numbers and the max-context score is scaled to integers, so only ties between windows whose lengths differ by a multiple of 100 could come out differently.
- Softmax over the n-best scores and the JSON output: they do not influence which text is chosen.
- Windows.DocSpans: takes a window size and a stride of at least 1; the flag check guarantees the size, and with a stride below 1 the code loops forever on a document longer than a window.
- Truncation.StayNonemptyIff: instances are made for `max_seq_length >= 5` only; below that the code's own assertions or `randint` can fail.
- SquadExamples.KeepExample: offsets outside the paragraph, where the code fails with an index error, and the check that a question has one answer.
- Features.ConvertExample: training examples of a paragraph without any word, on which the code fails with an index error.
- Evaluation.Evaluate: the two versions of the prediction code, in `bert/` and `bert-gpu/`, are taken as one; in version 2 mode documents without pieces, on which the code fails.
- NBest.PredictExample: version 2 examples without any feature, on which the code fails.
- Vocabulary ids, TFRecord, JSON and file access, flags and logging: input and output only.
- AsyncClient.Session.TakeReply: a null result for a ready request, on which the code raises an error, and the conversion of ids to 32-bit integers.
- Unicode tables, NFD and lower-casing: library data, kept as parameters.
- Masked-count rounding `int(round(len(tokens) * masked_lm_prob))`: a parameter of the masking function; for instances a function of the token count.
- The TensorFlow graph code, optimizers, filing parsers and cloud code: calls into libraries that are not part of this model.
- Copies of the same code in `bert-gpu/` and `data/prep/`: modelled once, from the files cited above.
