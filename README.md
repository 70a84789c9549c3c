# Chatbot data preparation, modelled in Dafny

This project models the data-handling core of the chatbot's `scripts/MoveData.py`:

- **`Tokenizer.tokenize`** turns a sentence into tokens. It ASCII-lower-cases the text and optionally frames it by `"+++"`. It then expands contractions with a fixed, ordered list of literal `re.sub` rewrites, turns a class of symbols into spaces, and collapses runs of spaces. Each run of `. ! , ? $ #` becomes a token of its own. Finally it splits on whitespace and strips the apostrophes around any token that holds more than one.
- **`batch_size_fn`** is the padded-token cost rule. Its two module-global running maxima become the fields of a small class.
- **`MyIterator.create_batches`** does the batching.
  - Training: cut the examples into pools of `batch_size * 100`, sort each pool by `(len(listen), len(reply))`, split it with the cost rule, and yield that pool's batches in shuffled order, pool after pool.
  - Evaluation: split the examples and sort each batch.
- **The merge loop of `load_subset_weights`** copies each parameter whose name also occurs in a loaded subset.
- **`Options`** is a record; `NewOptions` is its constructor, with the same keyword defaults.

The modules:

- `Strings` (`strings.dfy`) holds the string primitives the tokenizer uses:
  - literal `re.sub`;
  - `re.sub` of a `c+` run;
  - `[ ]+` collapsing;
  - `str.split`, `str.split(sep)` and `str.strip`;
  - `strip(c)` and `count`.
- `Tokenizer` (`tokenizer.dfy`) holds the pipeline and its properties. `TokenizerExamples` (`tokenizer_examples.dfy`) works through concrete sentences.
- `Batching` (`batching.dfy`) holds:
  - the example type and the sort key;
  - a stable sort;
  - the `batch_size_fn` class;
  - the greedy splitter of torchtext's `data.batch`, written out as a function;
  - the facts about splitting and reordering batches.
- `Iterator` (`iterator.dfy`) holds:
  - the `data.batch` loop, proved against that function;
  - the training generator and the evaluation loop;
  - a `MyIterator` class whose `CreateBatches` assigns `batches`.
- `Weights` (`weights.dfy`) holds the merge, as a class over a `map` updated in place by a loop, plus the reference function `Merge` and its laws.
- `Config` (`options.dfy`) holds the `Options` record and `NewOptions`, whose defaults are the constructor's:
  - `batchsize` 4;
  - `device` -1;
  - `epochs` 20;
  - `max_len` 20;
  - `save_path` `saved/weights/model_weights`.

Choices the model makes where the code leaves something open:

- **Torchtext's splitter.** `data.batch` is not part of this model's source. It is written out as the greedy rule it implements:
  - append an example and ask the size function;
  - at exactly the budget, emit the batch and start empty;
  - over the budget, emit all but the new example and start again from it.

  When a single example already exceeds the budget and opens a batch, this emits an empty batch before it. `OversizedFirst` shows that case.
- **The size function.** `json2datatools` builds `MyIterator` without `batch_size_fn` (scripts/MoveData.py:130-133). So the splitter actually runs with torchtext's default rule, which returns the example count. `batch_size_fn` also reads `new.src` and `new.trg`, while the examples carry `listen` and `reply`. The model therefore makes the rule a parameter:
  - `CountRule` is the default;
  - `TokenRule` is `batch_size_fn`, reading `listen` for `src` and `reply` for `trg`.
- **The globals.** The module never initialises the two globals. They are only read after a `count == 1` call has reset them, which is always the first call for a batch. The class constructor starts them at 0.
- **The shuffle.** `random_shuffler` is an arbitrary permutation (`Shuffle`, chosen by `:|`). As in the code, it applies to the batch list of one pool, not across pools.
- **`self.data()`.** It is an input sequence.
- **Empty tokens.** `strip("'")` removes every leading and trailing apostrophe. So a token such as `''` becomes the empty token, which the code keeps.
- **Two pieces.** An input whose lower-cased text splits into exactly two pieces at `"+++"` makes `tokenize` fail on `sentence[0]`, because the starred middle list is empty. The model returns `IndexError` for it. Pieces are cut at the leftmost occurrence, as `str.split` does, so `"++++"` splits into `""` and `"+"` and also fails.

## Model

| member | source | states |
|---|---|---|
| Strings.Lower | scripts/MoveData.py:30 | the result has the input's length, each character is its ASCII lower-case form, and no upper-case ASCII letter remains |
| Strings.LowerIdempotent | scripts/MoveData.py:30 | lower-casing twice equals lower-casing once |
| Strings.ReplaceAllAbsent | scripts/MoveData.py:34-52 | a literal substitution whose pattern does not occur leaves the text unchanged |
| Strings.ReplaceAllJoin | scripts/MoveData.py:34-52 | a literal substitution is the `split(pat)` pieces of the text joined by the replacement: it replaces exactly the leftmost, non-overlapping occurrences and keeps everything between them |
| Strings.ReplaceAllSplit | scripts/MoveData.py:34-52 | substituting over `a + b` is substituting over each part, when `b` starts with a character outside the pattern |
| Strings.CollapseSpacesSingle | scripts/MoveData.py:55 | after collapsing `[ ]+`, no two spaces are adjacent |
| Strings.CollapseSpacesNoop | scripts/MoveData.py:55 | text without two adjacent spaces is left unchanged |
| Strings.CollapseSpacesWords | scripts/MoveData.py:55 | collapsing runs of spaces keeps the whitespace-separated words of the text |
| Strings.CollapseSpacesSplit | scripts/MoveData.py:55 | collapsing `a + b` is collapsing each side, when `b` does not start with a space |
| Strings.IsolateRunsIsolates | scripts/MoveData.py:56-61 | after replacing each run of a mark `c` with `" c "`, every occurrence of `c` has whitespace or an end of the text on both sides |
| Strings.IsolateRunsKeeps | scripts/MoveData.py:56-61 | isolating one mark keeps every other mark isolated that already was |
| Strings.IsolateRunsAvoids | scripts/MoveData.py:56-61 | isolating runs introduces only spaces: a set of non-space characters absent before stays absent |
| Strings.IsolateRunsRun | scripts/MoveData.py:56-61 | a run of any length `n >= 1` of `c`, not followed by another `c`, becomes exactly `" c "` |
| Strings.WordsOfRun | scripts/MoveData.py:56-63 | after isolation, a run of a non-space mark of any length is the single word `[c]` |
| Strings.Strip | scripts/MoveData.py:62 | `strip()` returns a slice of its input that neither starts nor ends with whitespace |
| Strings.StripTrims | scripts/MoveData.py:62 | what `strip()` cuts off on either side is all whitespace, so the result is the input with exactly its leading and trailing whitespace removed |
| Strings.WordsStrip | scripts/MoveData.py:62-63 | splitting on whitespace after `strip()` gives the same words as splitting before it |
| Strings.Words | scripts/MoveData.py:63 | `split()` yields only non-empty words without whitespace |
| Strings.WordsAreSlices | scripts/MoveData.py:63 | every word is a contiguous slice of the text |
| Strings.WordsConcat | scripts/MoveData.py:63 | the words joined together are exactly the text's non-whitespace characters, in order |
| Strings.WordsSpaced | scripts/MoveData.py:63 | words laid out with whitespace gaps (non-empty between words) split back into exactly those words |
| Strings.StripChar | scripts/MoveData.py:63 | `strip("'")` cuts only apostrophes from both ends, and what remains neither starts nor ends with one |
| Strings.Count | scripts/MoveData.py:63 | `count(c)` is at most the length, and is 0 exactly when `c` does not occur |
| Strings.CountConcat | scripts/MoveData.py:63 | the count over `a + b` is the count over `a` plus the count over `b` |
| Strings.CountOne | scripts/MoveData.py:63 | a one-character string counts 1 for its own character and 0 for any other |
| Strings.SplitOnJoin | scripts/MoveData.py:31-32 | joining the pieces of `split(sep)` with `sep` gives the text back |
| Strings.SplitOnPieces | scripts/MoveData.py:31-32 | the text contains `sep` if and only if it splits into two or more pieces, and no piece contains `sep` |
| Strings.SplitOnNone | scripts/MoveData.py:31-32 | text without the separator's first character splits into itself alone |
| Strings.SplitOnWhole | scripts/MoveData.py:31-32 | text without the separator splits into itself alone |
| Strings.SplitOnLeading | scripts/MoveData.py:31-32 | when no occurrence of `sep` starts inside `a`, `split` of `a + sep + b` is `a` followed by the pieces of `b` |
| Strings.SplitOnFirst | scripts/MoveData.py:31-32 | the same when `a` lacks the separator's first character |
| Strings.SplitOnLeftmost | scripts/MoveData.py:31-32 | in every piece but the last, no occurrence of `sep` starts, not even one running on into the separator after it: each cut is at the leftmost occurrence |
| Strings.SplitOnUnique | scripts/MoveData.py:31-32 | pieces that are leftmost-cut and whose last piece lacks `sep` are what `split` returns for their join |
| Strings.SplitOnCharacterised | scripts/MoveData.py:31-32 | `split(sep)` returns `parts` if and only if the parts join back to the text, every piece but the last is leftmost-cut, and the last lacks `sep` |
| Tokenizer.ContractionsValid | scripts/MoveData.py:34-52 | the nineteen contraction patterns are non-empty, each holds an apostrophe, and none holds a space |
| Tokenizer.ApplyRewritesSkip | scripts/MoveData.py:34-52 | leading rewrites that leave the text unchanged can be skipped |
| Tokenizer.ApplyRewritesAbsent | scripts/MoveData.py:34-52 | leading rewrites each needing a character the text avoids can be skipped |
| Tokenizer.ContractionsFromNoApostrophe | scripts/MoveData.py:34-52 | on text without an apostrophe, every tail of the contraction list leaves the text unchanged |
| Tokenizer.ExpandContractionsNoApostrophe | scripts/MoveData.py:34-52 | contraction expansion leaves text without an apostrophe unchanged |
| Tokenizer.ExpandContractionsSplit | scripts/MoveData.py:34-52 | contraction expansion works word by word: expanding `a + b` with `b` starting at a space is expanding each part |
| Tokenizer.ClearClass | scripts/MoveData.py:53-54 | the result has the input's length and no character of the class; all other characters stay in place |
| Tokenizer.ClearClassNoop | scripts/MoveData.py:53-54 | text without a character of the class is unchanged |
| Tokenizer.IsolatePunctuationNoop | scripts/MoveData.py:56-61 | text without any of `. ! , ? $ #` is unchanged by the six isolation passes |
| Tokenizer.IsolatePunctuationSplit | scripts/MoveData.py:56-61 | the isolation passes work word by word across a space |
| Tokenizer.IsolatePunctuationSingle | scripts/MoveData.py:56-61 | on text holding at most one of the six marks, the six passes amount to isolating that mark alone |
| Tokenizer.IsolatePunctuationClean | scripts/MoveData.py:56-61 | after the six passes, every one of the six marks stands between whitespace, and the cleanup class is still absent |
| Tokenizer.CleanupClean | scripts/MoveData.py:53-62 | the text after cleanup, collapsing, isolation and `strip()` has no cleanup-class character, and every mark in it is isolated |
| Tokenizer.CleanupPlain | scripts/MoveData.py:53-62 | on text with no class character and no mark, cleanup changes none of the words, however the spaces between them run |
| Tokenizer.CleanupWithoutMarks | scripts/MoveData.py:53-62 | on text without any of the six marks, the words after cleanup are the words of the text with its class characters turned into spaces |
| Tokenizer.CleanupIsolates | scripts/MoveData.py:55-62 | on text with no class character and no double space, the words after cleanup are the words after isolation |
| Tokenizer.StripQuotes | scripts/MoveData.py:63 | a token with at most one apostrophe is kept as is; one with more loses exactly its leading and trailing apostrophes |
| Tokenizer.StripAll | scripts/MoveData.py:63 | the comprehension keeps the number and the order of the words and applies the rule to each |
| Tokenizer.StripAllNoApostrophe | scripts/MoveData.py:63 | words without apostrophes pass the comprehension unchanged |
| Tokenizer.StripQuotesClean | scripts/MoveData.py:63 | stripping apostrophes off a whitespace-free word of clean text yields a clean token |
| Tokenizer.SegmentTokensClean | scripts/MoveData.py:34-63 | every token from the tokenised segment is clean: no whitespace, no cleanup-class character, and a token holding one of `. ! , ? $ #` is exactly that one character |
| Tokenizer.SegmentOfPlainText | scripts/MoveData.py:34-63 | when the expanded text has no class character, no mark and no apostrophe, the tokens are its whitespace-separated words |
| Tokenizer.SegmentWithoutMarks | scripts/MoveData.py:34-63 | text with no mark and no apostrophe tokenises into the words of the text with its class characters turned into spaces |
| Tokenizer.TokenizeFraming | scripts/MoveData.py:27-68 | the `"+++"` pieces of the lower-cased input join back to it and hold no delimiter. One piece is tokenised whole. Exactly two pieces fail, and only they do. With three or more, the result is the first piece if non-empty, then the second piece's tokens, then the last piece if non-empty |
| Tokenizer.TokenizeThreePieces | scripts/MoveData.py:29-67 | an input splitting into three pieces gives the first and last verbatim, when non-empty, around the middle piece's tokens |
| Tokenizer.TokenizeWithoutDelimiter | scripts/MoveData.py:30-33 | without `"+++"`, the whole lower-cased input is tokenised |
| Tokenizer.TokenizeUnframed | scripts/MoveData.py:30-33 | text without `+` is tokenised whole |
| Tokenizer.TokenizeTokensClean | scripts/MoveData.py:27-68 | every token from the tokenised segment is clean, and only the verbatim first and last pieces are exempt |
| Tokenizer.SegmentRunOneToken | scripts/MoveData.py:53-63 | a run of any length of one of `. ! , ? $ #` inside plain text (no class character, no mark, no apostrophe; spaces of any run length) becomes one token `[c]` between the words of each side |
| Tokenizer.TokenizeRunOneToken | scripts/MoveData.py:27-68 | the same for `tokenize`: a lower-cased input made of plain text, one run of a mark and plain text gives the left words, `[c]`, then the right words |
| TokenizerExamples.TokenizeSentence | scripts/MoveData.py:30-63 | `"I'm fine, aren't you?"` gives `i am fine , are not you ?` |
| TokenizerExamples.TokenizeWont | scripts/MoveData.py:30-63 | `"Won't"` gives `will not` |
| TokenizerExamples.TokenizeCant | scripts/MoveData.py:30-63 | `"Can't"` gives `cannot` |
| TokenizerExamples.TokenizeNothin | scripts/MoveData.py:30-63 | `"nothin'"` gives `nothing` |
| TokenizerExamples.TokenizeEllipsis | scripts/MoveData.py:30-63 | `"Wait..."` gives `wait .`: a run of dots is one token |
| TokenizerExamples.TokenizeDash | scripts/MoveData.py:30-63 | `"a - b"` gives `a b`: the dash becomes a space and the resulting run of three spaces collapses |
| TokenizerExamples.TokenizeOneDelimiter | scripts/MoveData.py:31-33 | `"a+++b"` fails on the empty middle list |
| TokenizerExamples.TokenizeFramed | scripts/MoveData.py:29-67 | `"Ok+++I'm+++Won't"` gives `ok`, then `i am`, then the verbatim `won't` |
| TokenizerExamples.SplitFourPlus | scripts/MoveData.py:31-32 | `"++++"` splits at its leftmost `"+++"` into `""` and `"+"` |
| TokenizerExamples.SplitOverlapping | scripts/MoveData.py:31-32 | `"a++++b+++c"` splits into `"a"`, `"+b"` and `"c"` |
| Batching.Insert | scripts/MoveData.py:80 | insertion adds exactly the one example and keeps a sorted sequence sorted |
| Batching.Sort | scripts/MoveData.py:80 | `sorted(p, key=sort_key)` is ordered by `(len(listen), len(reply))` and is a permutation of its input |
| Batching.SortStable | scripts/MoveData.py:80 | the sort is stable: examples with equal key keep their input order |
| Batching.MaxSrcIsMax | scripts/MoveData.py:94-98 | the running source maximum bounds every `len(listen)` of the batch and is attained by one example |
| Batching.MaxTgtIsMax | scripts/MoveData.py:94-99 | the running target maximum bounds every `len(reply) + 2` and is attained by one example |
| Batching.TokenCostBounds | scripts/MoveData.py:92-102 | a batch's cost bounds `count * len(listen)` and `count * (len(reply) + 2)` for every example, equals one of them for some example, and is at least twice the example count |
| Batching.TokenCostMonotone | scripts/MoveData.py:92-102 | adding an example to a batch never lowers its cost |
| Batching.CostGrows | scripts/MoveData.py:92-102 | under either rule, adding an example strictly raises the cost |
| Batching.MaxOfProducts | scripts/MoveData.py:100-102 | `max(count * a, count * b) == count * max(a, b)` |
| Batching.TokenCounter.BatchSizeFn | scripts/MoveData.py:92-102 | `count == 1` resets both maxima. Each maximum then absorbs the new example's `len(listen)` or `len(reply) + 2`. The result is `max(count * maxSrc, count * maxTgt)`, which equals `count * max(maxSrc, maxTgt)` and is at least `2 * count` |
| Batching.SplitFlatten | scripts/MoveData.py:78-81 | the split batches, concatenated in order, give the input back |
| Batching.SplitBudget | scripts/MoveData.py:78-81 | every batch costs at most the budget, unless it is a single example |
| Batching.SplitFromFlatten | scripts/MoveData.py:78-81 | from any partial batch `mb`, the batches still to come concatenate to `mb` followed by the rest of the input |
| Batching.SplitFromBudget | scripts/MoveData.py:78-81 | from a partial batch that is empty, under budget or a single example, every batch still to come is within budget or a single example |
| Batching.SplitGreedy | scripts/MoveData.py:78-81 | the split is greedy: every non-empty batch that has examples after it would exceed the budget with the next example added |
| Batching.SplitFromGreedy | scripts/MoveData.py:78-81 | the same for the splitter resumed from any partial batch |
| Batching.SplitNonEmpty | scripts/MoveData.py:78-81 | when every example alone fits the budget, no batch is empty |
| Batching.OversizedFirst | scripts/MoveData.py:78-81 | one example over the budget is emitted after an empty batch |
| Batching.SplitSorted | scripts/MoveData.py:79-81 | every batch of a sorted sequence is sorted |
| Batching.PoolsAreChunks | scripts/MoveData.py:78 | splitting by count into pools of `n >= 1` cuts the input into consecutive chunks of `n` |
| Batching.ChunkSizes | scripts/MoveData.py:78 | every chunk holds between 1 and `n` examples, and all but the last exactly `n` |
| Batching.FlattenPermutation | scripts/MoveData.py:82 | reordering a batch list keeps the multiset of examples |
| Batching.FlattenPointwise | scripts/MoveData.py:88-90 | permuting within each batch keeps the multiset of examples |
| Batching.Shuffle | scripts/MoveData.py:82 | the shuffled batch list is a permutation of the list |
| Iterator.Batch | scripts/MoveData.py:78-81 | the imperative `data.batch` loop, run with either size rule and its running maxima, yields exactly the greedy split |
| Iterator.Pool | scripts/MoveData.py:77-84 | the training output is the pools' batch lists concatenated in pool order. Each list is a reordering of the sorted pool's split, and every input example comes out exactly once |
| Iterator.ShufflePools | scripts/MoveData.py:78-83 | the loop over the pools yields, pool after pool, a reordering of each sorted pool's split |
| Iterator.PoolBatches | scripts/MoveData.py:79-82 | one pool's shuffled batch list is a reordering of its sorted split |
| Iterator.PoolOrderKeepsExamples | scripts/MoveData.py:77-84 | any pool-by-pool reordering of the pools' batches keeps the multiset of input examples |
| Iterator.PoolBatchesSorted | scripts/MoveData.py:79-83 | every batch yielded for pool `j` is a batch of the sorted pool's split, unchanged, and is sorted |
| Iterator.PoolsInInputOrder | scripts/MoveData.py:78-81 | for `batch_size >= 1`, the pools are consecutive input chunks of `batch_size * 100` joining back to the input, and each pool's batches join to the sorted pool |
| Iterator.SortEach | scripts/MoveData.py:87-90 | the loop appends, for each split batch in order, that batch sorted |
| Iterator.SortedEach | scripts/MoveData.py:87-90 | batches sorted one by one are each sorted and together hold the same examples |
| Iterator.EvalBatches | scripts/MoveData.py:86-90 | the evaluation batches are the split batches in split order, each sorted, together a permutation of the input |
| Iterator.MyIterator.CreateBatches | scripts/MoveData.py:75-90 | `batches` is the training output when `train` holds and the sorted split otherwise. Either way it is a permutation of the examples |
| Weights.StateDict.LoadSubset | scripts/MoveData.py:145-148 | the loop leaves the names unchanged. A name also in the subset takes the subset's value, and every other entry keeps its own |
| Weights.Merge | scripts/MoveData.py:146-148 | the merge keeps exactly the whole model's names, so names only in the subset are ignored; a shared name takes the subset's value, any other keeps its own |
| Weights.MergeIdempotent | scripts/MoveData.py:146-148 | loading the same subset twice equals loading it once |
| Weights.MergeRestrict | scripts/MoveData.py:146-148 | only the subset's entries on shared names affect the result |
| Weights.MergeDisjoint | scripts/MoveData.py:146-148 | a subset with no shared name leaves the model unchanged |
| Config.NewOptions | scripts/MoveData.py:11-19 | each keyword argument lands in its own field |
| Config.DefaultOptions | scripts/MoveData.py:12-13 | with no arguments the fields are `4`, `-1`, `20`, `20` and `saved/weights/model_weights` |
| Config.OneKeyword | scripts/MoveData.py:12-19 | passing `batchsize` alone changes that field and keeps every other default |

## Left out

- `TweetTokenizer` (scripts/MoveData.py:25) is constructed but never used by `tokenize`, so it is not modelled.
- Strings.Lower: models ASCII lower-casing only, not Python's full Unicode case mapping. For example, `'İ'` and `'Σ'` are left as they are.
- The regular expressions are not modelled as a general engine. Every pattern in `tokenize` is a literal, one character class, or a `c+` run, and each has its own function.
- `json2datatools` is not part of this model. That covers `data.Field`, `TabularDataset`, `build_vocab`, the special tokens and the pad ids: they are internals of torchtext. Only its sort key (scripts/MoveData.py:132) is modelled.
- The torchtext `Iterator` base class is not modelled: its `data()` ordering, its `random_shuffler` state and its epoch handling. `self.data()` is an input sequence, and the shuffle is any permutation.
- Iterator.Pool: the generator's laziness is not modelled. The model computes the full list it yields.
- Weights.StateDict.LoadSubset: `torch.load` of `opt.save_path` is not modelled; the subset is an input. Tensor `copy_` is modelled as replacing the entry's value, so shapes, broadcasting, the exception raised on a shape mismatch and the aliasing between the state dictionary and the model's parameters are left out.
- The `Options` record leaves out the floating-point learning rate `lr`. `device` is kept as the integer default, not as a `torch.device`.
- `main.py` is not part of this model: argument parsing, model construction, optimisers, training and I/O.
