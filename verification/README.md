# Punctuation normaliser and level selection of the LexRank summariser

The summariser `dragon_summ.py` reads a Russian text, asks for a compression
level and prints a LexRank summary produced by the `sumy` library. Two pieces
of it are self-contained logic, and this project models and proves them:

- `text_preprocess`, the punctuation normaliser. It makes three Python
  `str.replace` calls in order: `;` becomes `.`, then `:` becomes `.`, then
  `...` becomes `.`. The last call is one left-to-right pass that never
  overlaps matches. So stops created by the first two calls are collapsed too
  (`"a;:."` becomes `"a."`), and the function is not idempotent (`"....."`
  becomes `"..."`, and a second call gives `"."`).
- The compression-level decision. `strong` asks the summariser for
  `SENTENCES_COUNT` = 5 sentences and `weak` asks for twice as many. Any other
  answer is refused and nothing is summarised.

Layout:

- `replace.dfy`, module `Replace`: Python's `str.replace` over any sequence.
  It covers the empty-pattern case as Python does. Next to it are `str.count`,
  `str.split` and `str.join` as an independent description of the same result.
- `preprocess.dfy`, module `Preprocess`: `TextPreprocess`, its properties,
  and an executable two-pass `Normalize` proved equal to it.
- `levels.dfy`, module `Levels`: the level names, the sentence budget of each
  level, and the refusal of unknown levels.

Two facts about the program shape the model:

- The collapse is not limited to runs of exactly three stops. Every
  non-overlapping `...` is replaced, scanning left to right, so a run of five
  stops becomes three and a run of six becomes two.
- Nothing in `dragon_summ.py` calls `text_preprocess`. The summarisers receive
  the raw `text` (lines 94 and 96). The model covers the function alone.

## Model

| member | source | states |
|---|---|---|
| Replace.ReplaceAllLength | dragon_summ.py:43 | every replacement swaps the pattern's length for the replacement's length, so the result's length is the text's length plus the match count times the length difference |
| Replace.CountZeroIffAbsent | dragon_summ.py:43 | a non-empty pattern is replaced at least once exactly when it occurs somewhere in the text |
| Replace.ReplaceAbsent | dragon_summ.py:43 | a text without an occurrence of the pattern is returned unchanged |
| Replace.ReplaceBySelf | dragon_summ.py:43 | replacing a pattern by itself, the empty pattern included, returns the text unchanged |
| Replace.ReplaceSingle | dragon_summ.py:43 | replacing one character by one character keeps the length and substitutes exactly at the positions holding that character |
| Replace.ReplaceAllElements | dragon_summ.py:43 | every element of the result comes from the text or from the replacement |
| Replace.Split | dragon_summ.py:43 | splitting at the non-overlapping occurrences gives one more piece than there are matches, and the first piece is a prefix of the text |
| Replace.ReplaceIsJoinOfSplit | dragon_summ.py:43 | the left-to-right non-overlapping scan equals splitting at the pattern and joining the pieces with the replacement |
| Replace.SplitJoinRoundTrip | dragon_summ.py:43 | joining the split pieces with the pattern itself gives the original text back |
| Replace.SplitPiecesAvoidPattern | dragon_summ.py:43 | no piece of the split contains the pattern, so every occurrence overlaps one that was replaced |
| Replace.SplitFirstPieceClean | dragon_summ.py:43 | the pattern starts at no position inside the first piece of the split |
| Replace.SplitFirstCut | dragon_summ.py:43 | when the split cuts at all, the pattern starts right after the first piece |
| Replace.SplitAtLeftmost | dragon_summ.py:43 | the first cut is at the leftmost occurrence of the pattern, which is where `str.replace` makes its first replacement |
| Preprocess.DotPunctuationPointwise | dragon_summ.py:43 | the first two replacements keep the length, turn each `;` and `:` into `.` and leave every other character in place |
| Preprocess.EllipsisAtThreeStops | dragon_summ.py:43 | after the substitutions a `...` starts at exactly the positions where the input has three stops of any kind (`.`, `;`, `:`) in a row |
| Preprocess.EllipsisIffThreeStops | dragon_summ.py:43 | after the substitutions some `...` is left exactly when the input has three stops of any kind in a row somewhere |
| Preprocess.NoClausePunctuation | dragon_summ.py:43 | the output never contains `;` or `:` |
| Preprocess.LengthBound | dragon_summ.py:43 | each collapse shortens the text by two, the output is never longer than the input, and it is as long exactly when the input has no three stops in a row |
| Preprocess.FixedPointIfClean | dragon_summ.py:43 | a text with no `;`, no `:` and no `...` comes back unchanged |
| Preprocess.CleanIfFixedPoint | dragon_summ.py:43 | a text that comes back unchanged has no `;`, no `:` and no `...` |
| Preprocess.FixedPointIff | dragon_summ.py:43 | the text comes back unchanged if and only if it has no `;`, no `:` and no `...` |
| Preprocess.PlainTextUnchanged | dragon_summ.py:43 | a text without `.`, `;` or `:` comes back unchanged, and the empty text maps to the empty text |
| Preprocess.ContentPreserved | dragon_summ.py:43 | deleting the full stops from the output gives the input with all its `.`, `;` and `:` deleted, so the other characters survive in order |
| Preprocess.ReapplyIff | dragon_summ.py:43 | a second application changes the output exactly when a `...` survived the first, because the collapse is a single pass |
| Preprocess.CollapseAfterSubstitution | dragon_summ.py:43 | `"a;:."` becomes `"a."` because the collapse runs after both substitutions, while collapsing first would give `"a..."` |
| Preprocess.NotIdempotent | dragon_summ.py:43 | `"....."` becomes `"..."`, which becomes `"."`, so the normaliser is not idempotent |
| Preprocess.DotPunctuate | dragon_summ.py:43 | a single loop turning `;` and `:` into `.` computes the first two replacements |
| Preprocess.CollapseFromIsReplace | dragon_summ.py:43 | the index-wise collapse (a `...` becomes one stop and the scan jumps past it, any other character is copied) equals the third `str.replace` call on every suffix |
| Preprocess.CollapseEllipses | dragon_summ.py:43 | a single loop that jumps past each `...` it rewrites computes the third replacement |
| Preprocess.Normalize | dragon_summ.py:43 | the two loops together compute `text_preprocess` on every input |
| Levels.ParseLevel | dragon_summ.py:93-100 | only the exact answers `strong` and `weak` select a level, and the refusal carries the answer that was rejected |
| Levels.ParseName | dragon_summ.py:93-96 | each level's own name is parsed back to that level |
| Levels.SentenceCount | dragon_summ.py:57-72 | every level asks for a positive number of sentences, a multiple of `SENTENCES_COUNT` |
| Levels.StrongShorterThanWeak | dragon_summ.py:57-72 | strong asks for strictly fewer sentences than weak, exactly half as many, and both ask for at least one |
| Levels.RequestedSentences | dragon_summ.py:93-100 | `strong` yields 5 sentences, `weak` yields 10, and every other answer is refused with nothing summarised |

## Left out

- The LexRank ranking (`LexRankSummarizer`, `PlaintextParser`, `Tokenizer("russian")`, dragon_summ.py:25-27, 55-57, 70-72) is not modelled. It is code of the `sumy` library, not part of this repository, and it computes floating-point similarity and eigenvector scores.
- The joining of the chosen sentences with spaces (dragon_summ.py:58, 73) is not modelled. Its input is whatever the library returns.
- The tokenizer-model download `nltk.download` (dragon_summ.py:76) is left out. It is network setup.
- Reading the file and the missing-file message (dragon_summ.py:79-87) are left out. They are file I/O. After that message the script still goes on to use the unset `text`.
- The `input` prompts, the printed result and the `SystemExit` (dragon_summ.py:79, 90, 99-103) are left out. They are console I/O. The refusal is modelled as the `UnknownLevel` value instead.
