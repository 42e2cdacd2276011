# Wordle entropy helper, modelled in Dafny

The repository is a Wordle helper with three parts:

- Two browser content scripts, one for the div-based board and one for the shadow-DOM board.
  - They read the board and narrow the answer list to the candidates that are consistent with every submitted row.
  - For the five letters being typed, they show the entropy of the guess and the expected number of remaining answers.
- A command-line script, `best_starter.js`, that scores every possible opening guess and reports the best one and a top-20 list.

All three copy the same engine:

- `patternCode` turns a guess and an answer into the game's green/yellow/grey verdict, encoded in base 3 as a number from 0 to 242.
- A 243-bucket histogram of those codes is built over the candidate list.
- `filterCandidates` narrows the list.
- A word-list loader lower-cases each entry and keeps those of the shape `^[a-z]{5}$`.

The model is organised as follows:

- **Feedback** (`feedback.dfy`) defines the verdict of each position in closed form.
  - A position is green on an exact match.
  - Otherwise it is yellow exactly when fewer non-green copies of its letter stand to its left than the answer has copies left over after the greens.
  - The code is the base-3 fold of the verdicts. `Encode` and `Decode` are inverse to each other.
- **Each copy of `patternCode` is a method with the source's own loops.**
  - The browser copies keep counts in a character-keyed object, modelled as a `map`.
  - `best_starter.js` keeps counts in an `Int8Array(26)`, modelled as an `array` with the 8-bit wrap written out.
  - Each copy is proved to return exactly `Feedback.PatternCode`.
  - `content-shadow.js:31-57` is the same text as `content-div.js:42-68`, so `ContentScript` models both browser copies.
- **GuessScorer** (`guess_scorer.dfy`) covers the histogram and the scorer.
  - The histogram keeps the `Uint16Array` wrap modulo 2^16.
  - Expected-remaining is the exact rational (sum of c^2) / N.
  - H is the sum of `-plogp(c / N)` over the non-empty buckets. The floating-point term `p * Math.log2(p)` is a parameter `plogp`.
- **CandidateFilter** (`candidate_filter.dfy`) models `filterCandidates` as a fold over the observations. It is proved equal to a single filter by all observations at once.
- **Board** (`board.dfy`) holds the pure row rule and `getSnapshot`. The tile states and letters are inputs.
- **Ranking** (`ranking.dfy`) holds the values of `main`'s loop in `best_starter.js`.
  - `top.sort((a, b) => b.H - a.H)` is a stable sort by H descending, written as an insertion sort.
  - Then comes the cut to `topK = 20`, and the running best that is replaced only on a strictly greater H.
- **BestStarter** (`best_starter.dfy`) runs that loop imperatively and proves it against those functions.

Where a row below cites `content-div.js`, the shadow copy has the same code at the lines listed here:

| content-div.js | content-shadow.js |
|---|---|
| 42-68 | 31-57 |
| 113-116 | 126-130 |
| 124-134 | 137-147 |
| 136-142 | 149-155 |

## Model

| member | source | states |
|---|---|---|
| Feedback.PatternCode | content-div.js:41-68 | the code of two five-letter words lies in 0 .. 242 |
| Feedback.EncodeRange | content-div.js:65-67 | five digits in {0, 1, 2}, folded as code * 3 + d, give a value below 3^5 |
| Feedback.DecodeEncode | content-div.js:65-67 | the base-3 fold loses nothing: decoding it gives the digits back |
| Feedback.EncodeDecode | content-div.js:65-67 | every code in 0 .. 3^n - 1 is the fold of its n decoded digits |
| Feedback.FoldDigits | content-div.js:65-67 | the loop `code = code * 3 + res[i]` computes the base-3 value of the digits |
| Feedback.Encode | content-div.js:65-67 | the base-3 fold `code = code * 3 + d`, first digit most significant; EncodeRange, DecodeEncode and EncodeDecode state its range and that Decode inverts it |
| Feedback.Decode | content-div.js:65-67 | n base-3 digits of a code, most significant first, each in {0, 1, 2} |
| Feedback.CodeDigits | content-div.js:48-67 | the five base-3 digits of the code are the five per-position verdicts |
| Feedback.Digit | content-div.js:48-64 | the verdict of one position is 0, 1 or 2, and 2 exactly when guess and answer agree there |
| Feedback.Verdicts | content-div.js:48-64 | one verdict in {0, 1, 2} per position |
| Feedback.CorrectIff | content-div.js:49-54 | digit i of the code is 2 if and only if guess and answer agree at position i |
| Feedback.SelfIsAllCorrect | content-div.js:49-54 | a word scored against itself gives 242, all green |
| Feedback.AllCorrectCode | content-div.js:65-67 | n digits all equal to 2 fold to 3^n - 1 |
| Feedback.CountSplits | content-div.js:49-58 | the copies of a letter in the guess are its green plus its non-green positions |
| Feedback.MarksClosedForm | content-div.js:46-63 | a letter's greens and yellows over a prefix are its greens plus the smaller of its non-greens and the budget left after the greens |
| Feedback.MarksPerLetter | content-div.js:46-63 | per letter, greens plus yellows equal the smaller of its counts in guess and answer, so never exceed the answer's count |
| Feedback.NonGreensMonotone | content-div.js:56-63 | the number of non-green copies of a letter to the left of a position grows with the position |
| Feedback.PresentGoesLeftmost | content-div.js:56-63 | if a later non-green copy of a letter is yellow, every earlier non-green copy of it is yellow too |
| Feedback.SpeedAgainstErase | content-div.js:42-68 | "speed" against "erase" gives yellow, grey, yellow, yellow, grey, code 93: the two e of the guess take the two e of the answer |
| Feedback.SpeedAgainstAbide | content-div.js:42-68 | "speed" against "abide" gives grey, grey, yellow, grey, yellow, code 10: "abide" has one e, so the second non-green e of the guess is grey |
| Feedback.GreenBudgetStep | content-div.js:49-54 | a green at position n takes one from its letter's budget and leaves every other letter's as it was |
| Feedback.YellowBudgetStep | content-div.js:56-63 | a non-green position is yellow exactly when its letter still has budget, and a yellow takes one from it |
| ContentScript.PatternCode | content-div.js:42-68 | the object-count version returns exactly the feedback code |
| ContentScript.CountLetters | content-div.js:46 | after the first loop, every letter's count is its multiplicity in the answer, and every answer letter is a key |
| ContentScript.MarkGreens | content-div.js:48-54 | after the greens pass, exact matches hold 2, the rest 0, and each letter's count is its budget after greens |
| ContentScript.MarkYellows | content-div.js:55-64 | after the yellows pass, the five digits are the verdicts and each letter's count is its budget left after the last position |
| ContentScript.LookupUpdate | content-div.js:52 | `counts[g] -= 1` changes the count of g and of no other letter, absent keys reading as 0 |
| ContentScript.TakeGreen | content-div.js:50-53 | after a green is taken, every letter's count is its budget after that position |
| ContentScript.TakeYellow | content-div.js:58-61 | after a yellow is taken, every letter's count is its budget after that position |
| ContentScript.SkipYellow | content-div.js:57-58 | a green position, or a letter with no budget left, leaves every count at the budget after that position |
| ContentScript.CountBuckets | content-div.js:74-75 | the Uint16Array holds, for every code, the number of candidates with that code modulo 2^16 |
| ContentScript.ScoreCandidates | content-div.js:74-86 | the stats hold the histogram, H of it, expected-remaining of it, and N |
| ContentScript.FilterCandidates | content-div.js:136-142 | the loop returns the fold of one filter pass per submitted row, in order |
| ContentDiv.EntropyForGuess | content-div.js:70-87 | null exactly for an empty candidate list; otherwise the histogram, H, expected-remaining and N |
| ContentShadow.EntropyForGuess | content-shadow.js:59-77 | null exactly when the guess is not `^[a-z]{5}$` or the list is empty; otherwise the histogram, H, expected-remaining and N |
| GuessScorer.Uint16Increment | content-div.js:74-75 | proof step for the wrapped histogram: incrementing a stored count is incrementing the exact count modulo 2^16 |
| GuessScorer.CodeTally | content-div.js:75 | no code is produced by more candidates than there are |
| GuessScorer.Histogram | content-div.js:74-75 | 243 buckets, each a value of the Uint16Array, in 0 .. 65535 |
| GuessScorer.SumBuckets | content-div.js:77-85 | the bucket loop skips empty buckets and yields H and (sum of c^2) / N; with N = 0 both are 0 and nothing is divided |
| GuessScorer.ExpectedRemaining | content-div.js:77-85 | expected-remaining is never negative, and is 0 when N is 0 |
| GuessScorer.Entropy | content-div.js:77-85 | H is 0 when N is 0, and never negative when the term p log2 p is never positive |
| GuessScorer.AddTerm | content-div.js:82-84 | proof step for expected-remaining, real arithmetic: adding p * c with p = c / N adds c^2 / N |
| GuessScorer.SumIncrement | content-div.js:75 | incrementing one bucket adds one to the total |
| GuessScorer.TalliesStep | content-div.js:75 | one more candidate adds one to exactly the bucket of its code |
| GuessScorer.PrefixTallyStep | content-div.js:75 | counting candidate i adds one to the tally of its code and to no other |
| GuessScorer.HistogramStep | content-div.js:74-75 | the Uint16Array after candidate i is the one before with a wrapped increment at its code |
| GuessScorer.TalliesSum | content-div.js:74-75 | the exact tallies add up to the number of candidates |
| GuessScorer.ZeroSum | content-div.js:74 | an all-zero histogram has sum and sum of squares 0 |
| GuessScorer.HistogramSum | best_starter.js:49-53 | below 2^16 candidates no bucket wraps and the buckets add up to N |
| GuessScorer.SquaresBounds | content-div.js:79-85 | for counts at least 0, sum <= sum of squares <= sum^2 |
| GuessScorer.RatioBounds | content-div.js:82-84 | proof step for the bounds on expected-remaining, real arithmetic: N <= s <= N^2 gives 1 <= s / N <= N |
| GuessScorer.ExpectedRemainingBounds | content-div.js:74-85 | with 0 < N < 2^16 candidates, expected-remaining lies between 1 and N |
| GuessScorer.TalliesWhenAllSame | content-div.js:75 | when every candidate has the same code, that bucket holds N and the others 0 |
| GuessScorer.OneBucket | content-div.js:79-85 | a histogram with one non-empty bucket has that bucket's square as sum of squares |
| GuessScorer.SameFeedbackKeepsAll | content-div.js:74-85 | a guess giving every candidate the same feedback has expected-remaining N |
| GuessScorer.SquareRatio | content-div.js:82-84 | proof step for the all-same case, real arithmetic: N^2 / N is N |
| GuessScorer.TallyWitness | content-div.js:75 | a non-empty bucket has a candidate with that code |
| GuessScorer.TalliesWhenDistinct | content-div.js:75 | when the codes are pairwise different, no bucket holds more than 1 |
| GuessScorer.SquaresOfBits | content-div.js:79-85 | counts of 0 or 1 have sum of squares equal to their sum |
| GuessScorer.DistinctFeedbackLeavesOne | content-div.js:74-85 | a guess giving every candidate its own feedback has expected-remaining 1 |
| GuessScorer.EntropyOneBucket | content-div.js:79-83 | with one non-empty bucket, H is minus that bucket's term |
| GuessScorer.EntropyOfZeros | content-div.js:79-81 | empty buckets contribute nothing to H |
| GuessScorer.SameFeedbackNoEntropy | content-div.js:74-83 | a guess giving every candidate the same feedback has H = 0 whenever p log2 p is 0 at p = 1 |
| GuessScorer.UnitRatio | content-div.js:82 | proof step for the all-same case, real arithmetic: N / N is 1 |
| GuessScorer.EntropyOfBits | content-div.js:79-83 | over buckets of 0 or 1, H is one term -plogp(1 / N) per filled bucket |
| GuessScorer.EntropyOfBitsSum | content-div.js:79-83 | N filled buckets of 1 give H = -N * plogp(1 / N) |
| GuessScorer.DistinctFeedbackEntropy | content-div.js:74-83 | a guess giving every candidate its own feedback has H = -N * plogp(1 / N), log2 N bits for the real log term |
| CandidateFilter.Keep | content-div.js:139 | one pass keeps only candidates whose code against the row's guess is the row's code |
| CandidateFilter.FilterAll | content-div.js:136-142 | the fold over the rows keeps five-letter words |
| CandidateFilter.KeepMatching | content-div.js:137-141 | a single pass keeps only candidates consistent with every row |
| CandidateFilter.KeepAfterKeepMatching | content-div.js:138-140 | one more filter pass after the single pass is the single pass with that row added |
| CandidateFilter.FilterAllIsSingleFilter | content-div.js:136-142 | filtering row by row equals one pass by all rows at once |
| CandidateFilter.KeepMatchingKeepsAllMatching | content-div.js:137-141 | a list whose every entry matches passes unchanged; with no rows the list is returned unchanged |
| CandidateFilter.FilterAllMembers | content-div.js:136-142 | a word survives if and only if it was in the list and agrees with every submitted row |
| CandidateFilter.KeepMatchingMembers | content-div.js:137-141 | membership after the single pass, both directions |
| CandidateFilter.FilterAllInOrder | content-div.js:136-142 | the survivors are an order-preserving subsequence of the input list |
| CandidateFilter.KeepMatchingInOrder | content-div.js:137-141 | the single pass keeps the input order |
| CandidateFilter.FilterAllIdempotent | content-div.js:136-142 | filtering the result again by the same rows changes nothing |
| CandidateFilter.FilterAllComposes | content-div.js:136-142 | filtering by two batches of rows one after the other equals filtering by all of them |
| CandidateFilter.ValidConcat | content-div.js:136-142 | proof step on sequences: two lists of well-formed rows concatenate to a list of well-formed rows |
| CandidateFilter.FilterAllSnoc | content-div.js:138-140 | filtering by one more row is one more filter pass on the previous result |
| CandidateFilter.NeverRegrows | content-div.js:136-142 | more submitted rows only ever remove candidates, keeping order |
| CandidateFilter.FilterAllOrderIrrelevant | content-div.js:136-142 | only the set of submitted rows matters, not their order or repetition |
| CandidateFilter.SameMatches | content-div.js:139 | consistency with a larger set of rows implies consistency with a smaller one |
| CandidateFilter.KeepMatchingSame | content-div.js:137-141 | rows that accept the same words give the same filter result |
| Board.EvalDigit | content-div.js:113 | a tile state maps to a digit 0, 1 or 2, or to null |
| Board.ReadRow | content-div.js:113-116 | a row is submitted if and only if all five states map to digits and it has five letters; its code then decodes to those digits, otherwise it is null |
| Board.SubmittedRows | content-div.js:125-127 | the submitted rows become observations with five-letter guesses and codes in 0 .. 242 |
| Board.FirstTyping | content-div.js:130 | the first row that is not submitted and has a letter, or none when there is no such row |
| Board.IsTyping | content-div.js:130 | the `find` test: a row that is not submitted and holds at least one letter |
| Board.GetSnapshot | content-div.js:124-134 | typed is "" exactly when no row is being typed, otherwise the letters of the first such row |
| Board.SubmittedRowsLength | content-div.js:125-127 | one observation per submitted row |
| Board.SubmittedInBoardOrder | content-div.js:125-127 | the submitted row at board index i is the observation numbered by the submitted rows above it |
| Board.ObservationFromRow | content-div.js:125-127 | every observation comes from a submitted row, at the place its count says |
| Words.LoadWordList | best_starter.js:4-9 | every loaded entry is five lower-case letters, and there are no more entries than in the input |
| Words.IsWord | best_starter.js:8 | the shape `^[a-z]{5}$`: five characters, each in a .. z |
| Words.ToLower | best_starter.js:7 | `toLowerCase` keeps the length, maps A .. Z onto a .. z and leaves every other character as it is |
| Words.LowerOfWord | best_starter.js:7-8 | lower-casing a loaded word changes nothing |
| Words.LoadWordListMembers | best_starter.js:6-8 | x is loaded if and only if it has the word shape and some input entry lower-cases to it |
| Words.LoadWordListInOrder | best_starter.js:6-8 | the loaded words keep the input order |
| Words.LoadWordListKeepsWords | best_starter.js:6-8 | a list of words loads unchanged |
| Words.LoadWordListIdempotent | best_starter.js:6-8 | loading a loaded list again changes nothing |
| BestStarter.Int8 | best_starter.js:16 | an Int8Array element is a value in -128 .. 127, equal to the stored value when that is in range |
| BestStarter.LetterIndex | best_starter.js:18 | `charCode - 97` of a lower-case letter is an index in 0 .. 25 that names that letter and no other |
| BestStarter.PatternCode | best_starter.js:12-45 | the Int8Array version returns exactly the feedback code, so it agrees with the object-count version |
| BestStarter.CountLetters | best_starter.js:16-19 | after the first loop, every letter's slot holds its multiplicity in the answer, with no wrap |
| BestStarter.MarkGreens | best_starter.js:21-29 | after the greens pass, exact matches hold 2 and each slot holds its letter's budget after greens |
| BestStarter.MarkYellows | best_starter.js:31-39 | after the yellows pass, the five digits are the verdicts and each slot holds its letter's budget left after the last position |
| BestStarter.ScoreGuess | best_starter.js:47-65 | H and expected-remaining of the histogram; both 0 with no answers |
| BestStarter.ScoreOf | best_starter.js:83 | the scored entry of a guess carries that guess |
| BestStarter.ScoreAll | best_starter.js:81-83 | one scored entry per guess, in order |
| BestStarter.RankStarters | best_starter.js:77-96 | top is the first 20 entries of the stably sorted scores, sorted and at most 20 long; best is the running strict maximum |
| BestStarter.RankWordLists | best_starter.js:67-72 | guesses are the loaded second list when one is given, the answers otherwise, and the ranking is over them |
| Ranking.Insert | best_starter.js:86-87 | inserting keeps every entry and adds the new one once |
| Ranking.StableSortDesc | best_starter.js:87 | the sort returns a permutation sorted by H descending |
| Ranking.Take | best_starter.js:88 | the cut keeps the first k entries, or all when fewer |
| Ranking.InsertSorted | best_starter.js:86-87 | inserting into a sorted list keeps it sorted |
| Ranking.InsertAtEnd | best_starter.js:86-87 | an entry no larger than all others goes last |
| Ranking.SortedFixpoint | best_starter.js:87 | sorting a sorted list changes nothing |
| Ranking.PushThenSort | best_starter.js:86-87 | push then sort on a sorted top list inserts the new entry after its equals |
| Ranking.TopStep | best_starter.js:86-88 | one push, sort and pop keeps top equal to the first 20 of the sorted scores so far |
| Ranking.TakeCons | best_starter.js:88 | proof step on sequences: the first k entries are the head and the first k - 1 of the tail |
| Ranking.TakeInsert | best_starter.js:86-88 | cutting to k before an insertion and again after it equals cutting once after it |
| Ranking.TakeInsertBehind | best_starter.js:86-88 | the step of that proof where the head stays ahead of the new entry |
| Ranking.TakeInsertAhead | best_starter.js:86-88 | the step of that proof where the new entry goes in front |
| Ranking.WithKeyAppend | best_starter.js:87 | picking the entries of one H distributes over concatenation |
| Ranking.InsertStable | best_starter.js:86-87 | inserting into a sorted list puts the new entry after all entries of equal H |
| Ranking.InsertStableBehind | best_starter.js:86-87 | the step of that proof where the head of the list stays ahead of the new entry |
| Ranking.InsertStableAhead | best_starter.js:86-87 | the step of that proof where the new entry goes in front of a smaller head |
| Ranking.BelowKey | best_starter.js:87 | a list with all H below v has no entry of H v |
| Ranking.StableSortDescStable | best_starter.js:87 | the sort is stable: entries of equal H keep their order |
| Ranking.KeepsLargest | best_starter.js:86-88 | no scored entry left out of the top list has a larger H than one kept |
| Ranking.SplitDominates | best_starter.js:87-88 | in a sorted list, every entry before a cut has H at least that of every entry after it |
| Ranking.RestAfterTake | best_starter.js:88 | the entries the cut leaves out are the tail after the kept ones |
| Ranking.BestOf | best_starter.js:77-90 | the best is a scored entry with H at least every scored H, or unset |
| Ranking.BestKey | best_starter.js:77 | `best.H`, which is -1 before any guess has raised it |
| Ranking.UnsetIff | best_starter.js:77-90 | the best stays unset exactly when no H exceeds -1 |
| Ranking.BestStep | best_starter.js:90 | one more entry replaces the best exactly when its H is strictly greater |
| Ranking.PrefixSnoc | best_starter.js:81-83 | proof step on sequences: the scores up to guess i are the scores before it followed by its own |
| Ranking.BestIsFirst | best_starter.js:90 | the best is the first entry reaching the largest H |
| Ranking.BestHeadsSorted | best_starter.js:77-90 | a best that was found is the head of the stably sorted scores |

## Left out

- The DOM is not modelled. This covers:
  - the `querySelector` and attribute reads of `readDivBoard` and `readShadowBoard`;
  - the rule that skips rows without five tiles;
  - `getAnyShadowRoot`;
  - `normalizeLetter`.
  The joined letters and the five state attributes of a row are inputs of `Board.ReadRow`.
- `Board.EvalDigit` treats only the three names `absent`, `present` and `correct` as digits. The source tests `s in evalMap` against an ordinary object literal, so a state named after an `Object.prototype` member (such as `toString`) would pass that test. The game never sets such a state.
- The overlay and its text are not modelled. This covers the percentage of remaining candidates, `toFixed`, the `expectedRemaining` formatter at the end of the browser scripts, and the `GUESSES_SET` validity message. These are presentation on floating-point values.
- `MutationObserver`, `setTimeout` and `clearTimeout` in `scheduleUpdate`, `hook` and `waitForBoard` are not modelled. They are event scheduling.
- Fetching the word lists through `chrome.runtime.getURL` is not modelled. Neither is `fs.readFileSync`, `JSON.parse`, `process.argv`, or the console and progress output.
  - The model takes the parsed lists as sequences of strings. `String(w)` of a non-string entry is not modelled.
  - The optional second path becomes an `Option` of the parsed list.
- `Math.log2` and floating point are not modelled.
  - The per-bucket term `p * Math.log2(p)` is the parameter `plogp`, and H is stated in terms of it.
  - H and expected-remaining are exact reals, so rounding is not modelled.
  - NaN keys in the sort comparator are not modelled.
- `Words.ToLowerChar` lower-cases only ASCII letters. JavaScript's `toLowerCase` also maps some other characters onto a–z, for instance the Kelvin sign, which lower-cases to `k`.
- `Array.prototype.sort` is modelled by its specified result: a stable sort, `Ranking.StableSortDesc`.
- The initial best `{ guess: "", H: -1, expectedRemaining: Infinity }` is `Ranking.Best.Unset`, whose key is -1.
- `BestStarter.PatternCode` requires both words to have the word shape. In the source both always come from `loadWordList`. Writes outside the `Int8Array` are silently dropped, and the model does not cover them.
- `ContentDiv.EntropyForGuess` requires a five-character guess. Its only caller invokes it only once the typed row holds five letters.
- The tie-break for the best guess follows the code: the best is replaced only on a strictly greater H, so the earliest guess wins a tie. No comparison on expected-remaining is made.
- Words of the wrong shape and feedback codes outside 0 .. 242 raise no error in the code. The shadow copy returns null for a malformed guess and the div copy does not check; submitted codes are not validated. The model follows the code in each case.
- `convert.py` is not part of this model. It is a file conversion script.
