# PythonBot quiz pipeline, in Dafny

PythonBot is a Discord bot. Its `!quiz` command asks a completion service for
a multiple-choice Python question and posts it. After ten minutes it counts
the reactions and announces whether the most voted answer was right. This
project models the two parts of that pipeline that hold real logic, and proves
what they promise.

- **Reply parser and answer tracker** (`generate_daily_python_question`, after
  the completion call). The reply text is cut on `"---"`. Segments 0 to 3 are
  stripped into the question, two wrong options and the correct option. The
  list `[opt_1, opt_2, correct]` is shuffled in place. A `for`/`enumerate`
  loop with `break` finds the first position holding the correct text. The
  answers are labelled with the keycap emojis 1️⃣ 2️⃣ 3️⃣, and the emoji at the
  correct position is recorded as the correct one.
  - `pytext.dfy` models Python's `str.split` (leftmost, non-overlapping
    matches), `str.count` (the same non-overlapping scan) and `str.strip`
    (Python's whitespace set).
  - `shuffle.dfy` models `random.shuffle` as CPython performs it: Fisher–Yates
    swaps driven by the values `randbelow` draws. The draws are passed in.
  - `question.dfy` holds the imperative method `GenerateQuestion`, its part
    `BuildQuestion` that works on the answer array, and the loop method
    `LocateCorrect`. `GenerateQuestion` is proved to return exactly the
    specification function `QuestionOf`, and `BuildQuestion` exactly
    `FromSegments`; lemmas state what those functions guarantee.
    `LocateCorrect`'s own `ensures` state the first-match result of its loop
    directly.
- **Tally and verdict** (end of `quiz`, in `tally.dfy`). The dict
  comprehension subtracts the bot's own reaction from each count.
  `max(d, key=d.get, default=None)` picks the most voted emoji. A comparison
  with the stored correct emoji gives the verdict and the announcement. A
  Python dict is modelled as its entries in insertion order. A reaction emoji
  is either a Unicode string or a custom emoji, which never equals a string.
- `scenarios.dfy` works one reply, one malformed reply and two tallies through
  the model end to end.

Segments after the fourth are ignored: the parse reads only segments 0 to 3
(`Question.ExtraSegmentsIgnored`). `max` returns `None` only when the message
has no reactions at all. Once a reaction exists it names the first emoji with
the highest adjusted count. That is one of the three markers unless another
emoji has more votes, and it is a marker even when nobody but the bot reacted
(see "Findings").

## Model

| member | source | states |
|---|---|---|
| PyText.Strip | pythonbot.py:47-50 | the stripped text is no longer than the input and neither starts nor ends with whitespace |
| PyText.StripShape | pythonbot.py:47-50 | `strip` returns a substring with only whitespace around it, and the result neither starts nor ends with whitespace |
| PyText.StripUnique | pythonbot.py:47-50 | whitespace around a core that neither starts nor ends with whitespace is removed, and the core is returned whole |
| PyText.StripIdempotent | pythonbot.py:47-50 | stripping twice is stripping once |
| PyText.Find | pythonbot.py:46 | the leftmost index where the separator occurs, none before it; `None` exactly when it does not occur |
| PyText.Split | pythonbot.py:46-50 | `split` returns one piece more than `str.count` counts separators |
| PyText.SplitSound | pythonbot.py:46 | the pieces of `split` join back to the input; the only separators are the cuts, each at the first match after the previous cut; the last piece holds no separator |
| PyText.SplitsAtCons | pythonbot.py:46 | a piece cut at its first separator, put before a splitting of the rest, gives a splitting of the whole |
| PyText.SplitUnique | pythonbot.py:46 | any list of pieces with those properties is exactly what `split` returns |
| PyText.SplitJoin | pythonbot.py:46 | pieces that meet their first separator only at the join, the last holding none, split back to themselves once joined |
| PyText.SplitPrefixBack | pythonbot.py:46-50 | the first `n` pieces of a split, joined and split again, come back unchanged |
| PyText.PrefixSplitJoin | pythonbot.py:46-50 | the same for the first `n` pieces of any list with the properties `split` guarantees |
| PyText.FirstSplitPiece | pythonbot.py:46 | when the separator first occurs right after `p`, splitting `p + sep + rest` gives `p` followed by the split of `rest` |
| PyText.NoMatchBeforeFirst | pythonbot.py:46 | a piece cut at the first separator contains no separator |
| PyText.CountSkip | pythonbot.py:46 | characters before the first separator do not change the count |
| PyText.CountNoMatch | pythonbot.py:46 | a string without the separator counts none |
| PyText.CountAtFirstMatch | pythonbot.py:46 | the first separator counts once and the count resumes after it, as `split` resumes after its cut |
| Shuffle.Swap | pythonbot.py:58 | one Fisher–Yates step exchanges two positions and leaves every other position alone |
| Shuffle.SwapPermutes | pythonbot.py:58 | a swap keeps the multiset of elements |
| Shuffle.ShuffleFrom | pythonbot.py:58 | applying the remaining shuffle steps keeps the length |
| Shuffle.ShuffleFromPermutes | pythonbot.py:58 | any run of shuffle steps keeps the multiset of elements |
| Shuffle.Shuffled | pythonbot.py:58 | the shuffled list has the same length and the same multiset of elements |
| Shuffle.LastCanLandAnywhere | pythonbot.py:57-58 | on three elements the draws `[t, 1]` put the element that starts last (the correct answer) at position `t`, for each `t` in 0..2 |
| Shuffle.ShuffleInPlace | pythonbot.py:58 | shuffling the array in place leaves it holding `Shuffled` of its old contents, a permutation of them |
| Question.Unshuffled | pythonbot.py:48-52 | the answers before the shuffle are three, the last being the stripped correct segment |
| Question.FirstIndexOf | pythonbot.py:61-64 | the first position holding the text: it holds it, and no earlier position does |
| Question.FirstIndexOfUnique | pythonbot.py:61-64 | a position holding the text with no earlier match is the first-match index |
| Question.Choice | pythonbot.py:71-75 | a displayed choice is its marker, one space, then the answer text |
| Question.Answers | pythonbot.py:52-58 | the shuffled answers are three and a permutation of the stripped segments 1, 2, 3 |
| Question.FromSegments | pythonbot.py:47-83 | the parse of the segments fails exactly when there are fewer than four, naming the first missing index; otherwise the question is stripped segment 0, there are three choices, and the stored marker is one of the three |
| Question.QuestionOf | pythonbot.py:46-83 | the parse of a reply fails exactly when it holds fewer than three separators as `str.count` counts them, and the missing index is one past that count |
| Question.LocateCorrect | pythonbot.py:57-64 | the loop ends with `correct_index` in 0..2, the answer there equal to `correct`, and no earlier answer equal to it |
| Question.GenerateQuestion | pythonbot.py:46-83 | the in-place method returns exactly `QuestionOf(reply, picks)`: `IndexOutOfRange` for fewer than four segments, otherwise the record whose properties the lemmas state |
| Question.BuildQuestion | pythonbot.py:47-83 | from four or more segments, the array-shuffling code builds exactly the record `FromSegments` describes |
| Question.SegmentsRecord | pythonbot.py:61-81 | the record built from the shuffled answers and the first position of the correct text is the one `FromSegments` gives |
| Question.ParsedQuestion | pythonbot.py:46-58 | with at least four segments the parse succeeds; the question is stripped segment 0; there are three choices, choice `i` is marker `i`, a space and answer `i`; the answers are a permutation of stripped segments 1, 2, 3 |
| Question.ExtraSegmentsIgnored | pythonbot.py:46-50 | the reply cut after its fourth segment gives the same result as the whole reply |
| Question.FirstFourSegments | pythonbot.py:47-50 | the parse of the segments depends only on the first four |
| Question.EmojisDistinct | pythonbot.py:67 | the three markers are pairwise distinct, three characters each |
| Question.CorrectMarkerFirstMatch | pythonbot.py:61-68 | the stored marker is one of the three; at its position the answer is the correct text, no earlier answer is, and the choice reads marker, space, correct text |
| Question.OneChoiceCarriesMarker | pythonbot.py:67-81 | exactly one of the three choices starts with the stored correct marker |
| Question.EachMarkerReachable | pythonbot.py:57-68 | when no wrong option repeats the correct text, each of the three markers is the correct one for some draws |
| Question.IdenticalOptionsMarkFirst | pythonbot.py:61-64 | when all three options have the same text, the first marker is stored as correct, whatever the shuffle did |
| Tally.Store | pythonbot.py:154 | `d[k] = v`: an existing key keeps its place, a new key goes last, `k` maps to `v` and every other key keeps its value |
| Tally.LookupAt | pythonbot.py:157 | `d.get` of a key in a dict with distinct keys returns that key's value |
| Tally.LookupMissing | pythonbot.py:157 | `d.get` of a key the dict lacks returns `None` |
| Tally.LookupFound | pythonbot.py:157 | `d.get` returns a value only for a key the dict has |
| Tally.AdjustedLookup | pythonbot.py:154 | in `AdjustedCounts`, each emoji that reacted maps to its (last) raw count minus 1; an emoji that did not react is absent |
| Tally.AdjustedKeys | pythonbot.py:154 | the keys of `AdjustedCounts` are distinct and are exactly the emojis that reacted |
| Tally.AdjustedFirstKey | pythonbot.py:154 | the dict's first key is the first reaction's emoji |
| Tally.AdjustedDistinctReactions | pythonbot.py:154 | for reactions with distinct emojis, entry `i` is reaction `i`'s emoji with its raw count minus 1, for any emoji, marker or not |
| Tally.AdjustedWithin | pythonbot.py:154 | upper and lower bounds on the raw counts hold for the adjusted counts, less one |
| Tally.BestIndex | pythonbot.py:157 | the index `max` settles on has a count at least every count, and every earlier count is strictly smaller |
| Tally.MostVoted | pythonbot.py:157 | the most voted emoji is `None` exactly when the dict is empty, and otherwise one of its keys |
| Tally.MostVotedIsFirstMax | pythonbot.py:157 | the most voted emoji is the key of the first entry whose count is at least every count |
| Tally.EqualCountsFirst | pythonbot.py:154-157 | when every reaction has the same count, the most voted emoji is the first reaction's |
| Tally.MostVotedDistinctReactions | pythonbot.py:154-157 | for reactions with distinct emojis, the most voted emoji is that of the first reaction with the highest raw count |
| Tally.Judge | pythonbot.py:160 | the verdict is Correct exactly when the most voted emoji is the stored correct marker, so `None` gives Incorrect |
| Tally.Announcement | pythonbot.py:160-163 | the message starts with ✅ for Correct and ❌ for Incorrect, and names the stored correct marker in bold just before its last character |
| Tally.CloseQuiz | pythonbot.py:154-163 | a Correct verdict needs a reaction with the correct marker; whatever the verdict, the announcement names the correct marker in bold |
| Tally.NoReactionsIncorrect | pythonbot.py:157-163 | with no reactions the verdict is Incorrect |
| Tally.VerdictCorrectIff | pythonbot.py:154-163 | for reactions with distinct emojis the verdict is Correct exactly when the first reaction with the highest count has the correct marker |
| Tally.NoVotesJudgedCorrect | pythonbot.py:154-163 | as written: if the only reactions are the bot's own three and the first marker is correct, the verdict is Correct |
| Tally.MostVotedByVoters | pythonbot.py:157 | intended: the most voted emoji is `None` exactly when no adjusted count is positive; otherwise it is what `max` returns |
| Tally.CloseQuizIntended | pythonbot.py:154-163 | intended: a Correct verdict needs the correct marker to have a vote beyond the bot's own, and is then also the verdict the code gives; the announcement names the correct marker in bold |
| Tally.NoVotesIncorrect | pythonbot.py:154-163 | intended: when no reaction has more than the bot's own count, the verdict is Incorrect |
| Tally.VerdictIntendedCorrectIff | pythonbot.py:154-163 | intended, for distinct emojis: Correct exactly when the first reaction with the highest count has the correct marker and a count above the bot's |
| Tally.IntendedAgreesWhenVoted | pythonbot.py:154-163 | intended and as-written verdicts and messages agree once some emoji has a vote beyond the bot's |
| Scenarios.ReplySegments | pythonbot.py:46 | `"What is 2+2? --- 3 --- 5 --- 4"` splits into its four padded segments |
| Scenarios.ParseExample | pythonbot.py:46-83 | that reply, with draws that keep the order, gives question "What is 2+2?", choices 1️⃣ 3, 2️⃣ 5, 3️⃣ 4 and correct marker 3️⃣ |
| Scenarios.FiveDashesExample | pythonbot.py:46-50 | `"a-----b"` holds one separator as `str.count` counts, so it has two segments and the parse fails at index 2 |
| Scenarios.TallyExample | pythonbot.py:154-157 | raw counts 4, 1, 1 on the three markers make 1️⃣ the most voted |
| Scenarios.OtherEmojiWinsExample | pythonbot.py:154-160 | a custom emoji with raw count 4 beats 1️⃣ with count 1, so `max` names it and the verdict is Incorrect |
| Scenarios.VerdictExample | pythonbot.py:154-163 | raw counts 1, 1, 5 with 3️⃣ correct give the verdict Correct |

## Left out

- The completion-service call that produces the reply (pythonbot.py:19-42). The reply text is a parameter.
- Discord I/O: posting the embed, adding the three reactions, fetching the message, sending the announcement (pythonbot.py:132-153, 165). The fetched reactions are a parameter, as a list of (emoji, count) in the order Discord reports them.
- The ten-minute wait (pythonbot.py:150). It is a timer with no logic.
- The random source behind `random.shuffle` (pythonbot.py:58). The `randbelow` draws are a parameter, so the model covers every possible shuffle but says nothing about how often each one occurs.
- The other commands, the bot setup and the token loading (`challenge`, `directory`, `explain`, `pythonbot`, `on_ready`, the environment). They are fixed strings, pass-throughs of service text or process configuration.
- Byte encodings of the emojis. A marker is its Unicode string (digit, U+FE0F, U+20E3), and a custom emoji is an opaque value that equals no string.
- Question.GenerateQuestion: the `IndexError` the source raises is returned as a `Failure` value. It names the first missing segment index (1, 2 or 3, the length of the split).
- Question.LocateCorrect: the source runs this loop inline in `generate_daily_python_question`. Here it is a separate method over the shuffled array, with the same default of 2 and the same `break`.
- Question.BuildQuestion: the source does this inline after the split. It is a separate method here so that the array reasoning is proved apart from the split.

## Findings

| source | as written | input that shows it | evidently intended | confidence | as-written member | corrected member |
|---|---|---|---|---|---|---|
| pythonbot.py:154-157 | when nobody but the bot reacted, every adjusted count is 0, the dict is not empty, and `max` returns its first key | reactions 1️⃣, 2️⃣, 3️⃣ with count 1 each (the bot's own) and 1️⃣ the correct marker: the bot announces "✅ Correct! The right answer was **1️⃣**!" though nobody answered | the count subtracts the bot's own reaction (comment at line 154) so that only users' votes decide the "most voted answer" (comment at line 156); with no user votes there is no such answer, and the announcement should not credit a correct answer nobody gave, so the verdict is Incorrect | medium, not executed | Tally.NoVotesJudgedCorrect | Tally.NoVotesIncorrect |
