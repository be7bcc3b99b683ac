# Karuta client: scoring and timed subtitles

This project models the two state-holding engines of the karuta game client and proves properties of them in Dafny. The client is a Vue application.

- **Scoring** (`useScore.js`). A score keeper holds six fields: the running score, the combo counter, the counts of correct and mistaken takes, and two append-only logs (reaction times and taken card ids).
  - A correct take after `e` milliseconds is worth `max(0, K / e²) * (1 + combo * COMBO_BONUS_STEP)`. It is scored with the combo from before the take.
  - A mistake costs `PENALTY` and breaks the combo.
  - The constants come from `gameConfig.js`: K = 5·10⁹, PENALTY = 1000, COMBO_BONUS_STEP = 1.5, ENABLE_AUDIO = false.
- **Subtitles** (`useSubtitle.js`). Markup such as `<1.0>Hello <2.5>World` is parsed into timed entries. The parser:
  - scans for the tag pattern `<([0-9.]+)>([^<]*)`;
  - keeps the non-empty fragments;
  - appends the text after the last `>` under a guard;
  - sorts stably by time.

  A display loop then shows the concatenated fragments of the leading entries whose time has come. The subtitle engine also holds a watcher that resets the display when new markup arrives, and a simulated clock that advances 0.1 s per tick when audio is disabled.

How each part is modelled:
- The scoring engine is the class `Score.ScoreKeeper`. Its ghost event history ties the six fields to a replay function (`Score.Replay`). This replay is how the combo and the log lengths are stated.
- The parser's `while` loop is the method `SubtitleParse.ScanTags`. It is proved equal to the scan function `SubtitleParse.TagsFrom`.
- The regular expression becomes a scanner. `SubtitleParse.TagAtSound` and `SubtitleParse.TagAtComplete` prove that it finds exactly the matches of the pattern at one position. `SubtitleParse.TagsFromExactly` proves that the repeated `exec()` calls find every match in the text and nothing else.
- `parseFloat` is read with its prefix semantics: `"1.2.3"` reads as 1.2 and `"7."` as 7.
- `SubtitleMarkup.MarkupRoundTrip` states what parsing does to markup written from any number of cues: it gives back the cues' entries.
- The final sort is a stable insertion sort (`EntrySort.SortByTime`), proved sorted, a permutation and stable.
- The display state is the class `SubtitleDisplay.SubtitleEngine`. Its `UpdateSubtitle` keeps the source's `for` loop with `break`. It is proved against `SubtitleDisplay.Displayed`.
- The engine takes the audio switch as a constructor parameter `enableAudio` instead of reading `GAME_CONFIG.ENABLE_AUDIO`, so its contracts hold for both settings. The shipped setting is `GameConfig.ENABLE_AUDIO`, which is `false`.

Two behaviours of the code are easy to misread, and the model follows the code in both:

- **Out-of-order timestamps are not clamped.** The scan only warns (lines 24-27) and then sets `lastTime` to the new time. Every entry keeps its own time, and only the sort at line 46 brings them into order. `SubtitleParse.TwoTags` states this for any two timestamps.
- **The display is blank right after new markup arrives, even when an entry has time 0.** The watcher sets the text to `""` and the time to 0 without calling `updateSubtitle`. So the engine invariant says that the text is either blank or the display at the recorded time.

The leftover guard also has a consequence worth stating. It compares the **trimmed** remainder with the text of the last entry. That entry is the **untrimmed** final fragment. So a final fragment with surrounding whitespace is entered twice: `"<1.0>Hello "` gives two `"Hello "` entries. `SubtitleParse.FinalFragment` states the exact rule for a final fragment that holds no `>`, and the model keeps the code's behaviour.

A `>` inside the final fragment has a second such consequence. The leftover is the text after the last `>` of the whole markup, so it starts inside that fragment. The leftover guard then compares it with a different text. `"<1.0>b>c"` gives the entries `"b>c"` and `"c"`; `SubtitleParse.BracketInFinalFragment` states this. A `>` in an earlier fragment changes nothing, because the last tag's own `>` comes after it.

All paths below are relative to the repository root.

## Model

| member | source | states |
|---|---|---|
| Score.BaseScore | application/src/composables/useScore.js:22 | the base score max(0, K / e²) of a take after e milliseconds |
| Score.ComboBonus | application/src/composables/useScore.js:23 | the combo multiplier 1 + combo · COMBO_BONUS_STEP, with the combo before the take |
| Score.HitScore | application/src/composables/useScore.js:22-24 | the points of one correct take: the base score times the combo multiplier |
| Score.HitScorePositive | application/src/composables/useScore.js:22-24 | with K > 0, step >= 0 and e > 0 the max(0, ·) never bites: the base score is K/e² > 0, and the combo bonus never lowers the hit below it |
| Score.HitScoreDecreasingInTime | application/src/composables/useScore.js:22-24 | for a fixed combo, a faster take (smaller e) is worth strictly more |
| Score.HitScoreIncreasingInCombo | application/src/composables/useScore.js:22-24 | for a fixed e and step > 0, a longer combo makes the take worth strictly more |
| Score.HitScoreWorkedExample | application/src/composables/useScore.js:22-24 | worked example: coefficient 1000, step 0.2, 200 ms gives 0.025 at combo 0 and 0.03 at combo 1 |
| Score.Apply | application/src/composables/useScore.js:21-39 | the effect of one call on the six fields: addCorrect adds the hit score, raises combo and totalCorrect and appends to both logs; addMistake subtracts PENALTY, sets combo to 0 and raises totalMistake |
| Score.Replay | application/src/composables/useScore.js:5-39 | the fields reached from the initial state by a sequence of addCorrect and addMistake calls, oldest first |
| Score.ReplaySnoc | application/src/composables/useScore.js:21-39 | replaying one more event applies that event's update to the replayed state |
| Score.ReplayCombo | application/src/composables/useScore.js:23-36 | the combo equals the number of correct takes since the last mistake or reset: the last `combo` events are correct, and the event before them is a mistake |
| Score.ReplayCounts | application/src/composables/useScore.js:28-37 | the two logs have one element per correct take, and the correct and mistaken counts add up to the number of events |
| Score.ScoreKeeper.constructor | application/src/composables/useScore.js:5-10 | a new keeper has score 0, combo 0, both counts 0 and empty logs |
| Score.ScoreKeeper.ResetScore | application/src/composables/useScore.js:12-19 | whatever the prior state, every counter is 0, both logs are empty and the history restarts |
| Score.ScoreKeeper.AddCorrect | application/src/composables/useScore.js:21-32 | returns max(0, K/e²)·(1 + combo₀·STEP) with the combo before the call, which is > 0; the score grows by exactly that; combo and totalCorrect go up by 1; e and the card id are appended to the logs; totalMistake is unchanged; \|reactionTimes\| = \|takenCardIds\| = totalCorrect |
| Score.ScoreKeeper.AddMistake | application/src/composables/useScore.js:34-39 | returns PENALTY; the score drops by exactly PENALTY; combo becomes 0; totalMistake goes up by 1; totalCorrect and both logs are untouched; the log-length invariant holds |
| EntrySort.Insert | application/src/composables/useSubtitle.js:46 | one step of the insertion sort: the entry goes in front of the first entry whose time is at least its own |
| EntrySort.SortByTime | application/src/composables/useSubtitle.js:46 | the sort by ascending time, with a comparator that subtracts the times, as a stable insertion sort |
| EntrySort.InsertPermutation | application/src/composables/useSubtitle.js:46 | one insertion step of the sort adds exactly the inserted entry and loses nothing |
| EntrySort.InsertSorted | application/src/composables/useSubtitle.js:46 | inserting into a time-ordered list keeps it time-ordered |
| EntrySort.InsertStable | application/src/composables/useSubtitle.js:46 | inserting keeps the order among entries with equal times |
| EntrySort.SortByTimePermutation | application/src/composables/useSubtitle.js:46 | the sorted list is a permutation of its input (same multiset, same length) |
| EntrySort.SortByTimeSorted | application/src/composables/useSubtitle.js:46 | the sorted list is ascending by time |
| EntrySort.SortByTimeStable | application/src/composables/useSubtitle.js:46 | for every time, the entries with that time appear in the same relative order as in the input |
| EntrySort.SortByTimeKeepsSorted | application/src/composables/useSubtitle.js:46 | a list already in time order is returned unchanged |
| EntrySort.SortPair | application/src/composables/useSubtitle.js:46 | two entries come out in time order; when their times are equal the first stays first |
| SubtitleParse.ParseFloat | application/src/composables/useSubtitle.js:19 | parseFloat of a [0-9.] token: the value of its longest decimal prefix (digits, then optionally a point and digits), None where JavaScript gives NaN |
| SubtitleParse.RunEndUnique | application/src/composables/useSubtitle.js:13 | a greedy character-class run ends at the unique position where the run is maximal |
| SubtitleParse.RunEndAll | application/src/composables/useSubtitle.js:13 | every character of a greedy run belongs to its class |
| SubtitleParse.ParseFloatDecimal | application/src/composables/useSubtitle.js:19 | a token of [0-9.] characters that starts with digits, a point and digits reads as that decimal, whatever follows (the only tokens the pattern captures; an exponent or a sign is never passed) |
| SubtitleParse.ParseFloatInteger | application/src/composables/useSubtitle.js:19 | a token of [0-9.] characters made of digits only reads as that whole number |
| SubtitleParse.ParseFloatNaN | application/src/composables/useSubtitle.js:19 | on a token of [0-9.] characters, parseFloat yields NaN exactly when no digit starts the token or follows its leading point |
| SubtitleParse.OneDecimalTimestamp | application/src/composables/useSubtitle.js:19 | a digit, a point and a digit form a well-formed timestamp with their one-decimal value |
| SubtitleParse.TagAt | application/src/composables/useSubtitle.js:13 | one attempt of the pattern at position i: the greedy match that starts at i, or none; a match found ends inside the text |
| SubtitleParse.TagAtSound | application/src/composables/useSubtitle.js:13 | what the scanner finds at a position is a match of <([0-9.]+)>([^<]*) there: '<', timestamp characters, '>', then a fragment up to the next '<' or the end |
| SubtitleParse.TagAtComplete | application/src/composables/useSubtitle.js:13 | every match of the pattern at a position is exactly the one the scanner finds there |
| SubtitleParse.TagInside | application/src/composables/useSubtitle.js:13 | the markup of a tag and its fragment, followed by the end of the text or a '<', is matched at its position with that timestamp and fragment |
| SubtitleParse.TagsFrom | application/src/composables/useSubtitle.js:13-18 | the matches that repeated exec() calls find from position i on: after a match the search resumes where it ends, after a failed attempt at the next character |
| SubtitleParse.TagsFromSound | application/src/composables/useSubtitle.js:18 | every match found by the repeated exec() calls from a position on is a real match of the pattern at or after that position |
| SubtitleParse.TagsFromComplete | application/src/composables/useSubtitle.js:18 | every match of the pattern that starts at or after a position is found by the repeated exec() calls from that position |
| SubtitleParse.TagsFromExactly | application/src/composables/useSubtitle.js:13-18 | a tag is found by the scan of the whole text if and only if it is a match of the pattern in that text |
| SubtitleParse.TagsFromOrdered | application/src/composables/useSubtitle.js:18 | successive matches follow each other in the text without overlapping |
| SubtitleParse.Fragments | application/src/composables/useSubtitle.js:19-33 | an entry (time, fragment) for every match whose fragment is non-empty, in scan order |
| SubtitleParse.LastTime | application/src/composables/useSubtitle.js:16-28 | `lastTime` after the loop: the timestamp of the last match, 0 when there is none |
| SubtitleParse.FragmentsExact | application/src/composables/useSubtitle.js:19-32 | every scanned entry is the non-empty fragment of some match with that match's timestamp; every match with a non-empty fragment gives one; empty fragments give nothing |
| SubtitleParse.LastIndexOf | application/src/composables/useSubtitle.js:35 | the result is -1 or a position holding the character, with no occurrence after it |
| SubtitleParse.Trim | application/src/composables/useSubtitle.js:40 | the trimmed text is empty, or it starts and ends with non-whitespace |
| SubtitleParse.TrimSlice | application/src/composables/useSubtitle.js:40 | the trimmed text is a contiguous slice of the input, and everything before and after that slice is whitespace; with `Trim` this pins it down as trim() |
| SubtitleParse.TrimEmpty | application/src/composables/useSubtitle.js:40 | a text trims to "" exactly when it is whitespace only |
| SubtitleParse.TrimTrimmed | application/src/composables/useSubtitle.js:40 | a text that starts and ends with non-whitespace is its own trim |
| SubtitleParse.Remainder | application/src/composables/useSubtitle.js:37-42 | the guard on the text after the last '>': one entry at `lastTime` holding that untrimmed text, when its trim is non-empty and differs from the last entry's text |
| SubtitleParse.Leftover | application/src/composables/useSubtitle.js:35-43 | the extra entry for the text after the last '>', when there is a '>' and at least one character after it |
| SubtitleParse.Unsorted | application/src/composables/useSubtitle.js:13-43 | the entry list before the sort: the scanned fragments followed by the leftover entry |
| SubtitleParse.Parse | application/src/composables/useSubtitle.js:11-49 | what parseSubtitleText returns: the entry list before the sort, sorted by time |
| SubtitleParse.ScanTags | application/src/composables/useSubtitle.js:14-33 | the scanning loop yields the non-empty fragments of all matches in order, and `lastTime` is the timestamp of the last match (0 when there is none), not a running maximum |
| SubtitleParse.ParseSubtitleText | application/src/composables/useSubtitle.js:11-49 | the method returns what the scan, the leftover rule and the sort define, and its result is ordered by time |
| SubtitleParse.ParseWithoutClose | application/src/composables/useSubtitle.js:18-43 | markup without any '>' has no match and no leftover, so it gives no entries |
| SubtitleParse.ParseEmpty | application/src/composables/useSubtitle.js:35-36 | the empty markup gives the empty entry list |
| SubtitleParse.ParseOrdered | application/src/composables/useSubtitle.js:46 | the parse result is ascending by time, is a permutation of the entries before the sort, and keeps equal times in scan order |
| SubtitleParse.LeftoverAfter | application/src/composables/useSubtitle.js:35-37 | the leftover rule only looks at the text after the last '>', and only when that text is non-empty |
| SubtitleParse.LeftoverOfFinal | application/src/composables/useSubtitle.js:35-43 | when the text ends with the fragment of its last match and that match's `>` is the last `>` of the text, the leftover is that fragment again exactly when its trim is non-empty and differs from it |
| SubtitleParse.FinalFragment | application/src/composables/useSubtitle.js:35-43 | for markup that ends with the fragment of its last match, that fragment holding no `>`, the entries before the sort are the scanned ones, plus that fragment a second time when trimming changes it but does not empty it |
| SubtitleParse.OneTag | application/src/composables/useSubtitle.js:18-43 | a single tag whose fragment holds neither `<` nor `>` gives one match; the entry list is its fragment (if non-empty), repeated when trimming changes it but does not empty it |
| SubtitleParse.TwoTags | application/src/composables/useSubtitle.js:18-46 | two tags with non-empty fragments, the second fragment already trimmed and holding no `>`, give two entries, each with its own timestamp (no clamping), returned in time order |
| SubtitleMarkup.MarkupRoundTrip | application/src/composables/useSubtitle.js:11-49 | markup written from any number of cues parses back to the cues' entries in order before the sort, and exactly to them when the times never decrease; each cue needs a well-formed [0-9.] timestamp and a non-empty fragment without `<`, and the last fragment must also hold no `>` and be blank or already trimmed |
| SubtitleMarkup.Entries | application/src/composables/useSubtitle.js:31 | the entry of each cue in order: the same length as the cues, with entry k holding cue k's time and fragment |
| SubtitleParse.BracketInFinalFragment | application/src/composables/useSubtitle.js:35-41 | "<1.0>b>c" gives the entries "b>c" and then "c", both at time 1.0: the leftover starts after the `>` inside the final fragment |
| SubtitleParse.ParseHelloWorld | application/src/composables/useSubtitle.js:35-46 | "<1.0>Hello <2.5>World" parses to exactly [(1.0, "Hello "), (2.5, "World")] |
| SubtitleDisplay.Concat | application/src/composables/useSubtitle.js:83-88 | the text of a list of entries: their texts joined in order |
| SubtitleDisplay.Displayed | application/src/composables/useSubtitle.js:83-93 | the text that updateSubtitle shows at a time: the joined texts of the longest leading run of entries whose time has come |
| SubtitleDisplay.ConcatPrefix | application/src/composables/useSubtitle.js:85-92 | the text built from a shorter prefix of entries is a prefix of the text built from a longer one |
| SubtitleDisplay.ShownFrom | application/src/composables/useSubtitle.js:85-92 | scanning from a position, the loop stops at the first entry whose time has not come (or at the end), and every entry before it has come due |
| SubtitleDisplay.ShownCount | application/src/composables/useSubtitle.js:85-92 | the shown prefix holds only due entries and is followed by the end or by an entry whose time has not come |
| SubtitleDisplay.ShownCountLongest | application/src/composables/useSubtitle.js:85-92 | a prefix length is the shown count if and only if all its entries are due and the next entry, if any, is not: the longest due prefix |
| SubtitleDisplay.DisplayedEmpty | application/src/composables/useSubtitle.js:83-93 | no entries display as "" |
| SubtitleDisplay.DisplayedMonotone | application/src/composables/useSubtitle.js:85-92 | for ct1 <= ct2 the display at ct1 is a prefix of the display at ct2 (on any entry list, so also on the sorted one) |
| SubtitleDisplay.DisplayedSorted | application/src/composables/useSubtitle.js:46-92 | on a time-ordered list the early exit loses nothing: the display is the text of every entry whose time has come |
| SubtitleDisplay.SubtitleEngine.constructor | application/src/composables/useSubtitle.js:4-70 | creating the composable runs the watcher immediately on the initial markup |
| SubtitleDisplay.SubtitleEngine.SetAudioPlayer | application/src/composables/useSubtitle.js:4 | a change of audioPlayerRef changes only whether a player is present |
| SubtitleDisplay.SubtitleEngine.SetText | application/src/composables/useSubtitle.js:51-70 | new markup is parsed; the display text becomes ""; the display time, the simulated time and the tick count become 0; the interval runs exactly when audio is disabled and the markup is non-empty |
| SubtitleDisplay.SubtitleEngine.UpdateSubtitle | application/src/composables/useSubtitle.js:72-95 | with audio enabled and no player, the text and time are blanked; otherwise the time becomes ct and the text is the concatenation of the longest prefix of entries with t <= ct; the parsed list, the clock and the interval are untouched |
| SubtitleDisplay.SubtitleEngine.Tick | application/src/composables/useSubtitle.js:65-68 | one interval callback adds 0.1 to the simulated time (which stays ticks · 0.1) and displays at it; text shown at an earlier time is kept as a prefix |

## Left out

- Vue reactivity (`ref`, `watch`): the refs are plain fields. The watcher is the method `SetText`, which the caller invokes when the markup changes. A watcher fires only on a change, which the model does not enforce.
- `setInterval`/`clearInterval`: the interval is the flag `simulationActive` and the method `Tick`, which the caller invokes. Wall-clock timing is not modelled.
- The audio element's `timeupdate` listener (`useSubtitle.js` lines 98-108) is a DOM callback and is not modelled. It is registered only when ENABLE_AUDIO is true, and the shipped setting is false. The listener is `updateSubtitle` itself, so it receives the Event object, not the player's time. Line 81 would store that Event as the display time. At line 87 the comparison of an Event with a number is false, so the loop stops at once and the display is always `""`. The model's `UpdateSubtitle` takes a number only.
- All `console.log` / `console.warn` output, including the out-of-order warning.
- A null or undefined `subtitleText`: the watcher maps it to `""`, and the model takes strings only.
- SubtitleParse.ParseFloat: a token with no digit before or after its first point (such as `.`) reads as NaN in JavaScript and still forms a match with time NaN. The model treats it as no match. The other matches are unchanged, because a fragment never contains `<`. Three effects are lost:
  - the NaN entry itself is missing;
  - JavaScript sets `lastTime` to NaN at line 28, so a leftover after a last NaN match gets time NaN, while the model gives it the time of the last match it read;
  - the leftover guard at line 40 compares with a different last entry.

  For example, the model gives `[(1.0, "a"), (1.0, "b")]` for `<1.0>a<.>b`. The source gives `[(1, "a"), (NaN, "b")]`, and "b" is never displayed.
- SubtitleParse.ParseFloat: it agrees with JavaScript's `parseFloat` only on tokens of [0-9.] characters, the only ones line 19 passes it. It does not read a sign, an exponent (`"1.5e3"` is 1500 in JavaScript), leading whitespace or `Infinity`. So the ParseFloat lemmas describe `parseFloat` only for such tokens.
- SubtitleParse.Trim: only space, tab, line feed and carriage return are whitespace. The full Unicode whitespace set of `trim()` is not modelled.
- Binary floating point: scores, times and the repeated `+= 0.1` use exact reals. Rounding, Infinity and NaN are not modelled.
- Score.ScoreKeeper.AddCorrect: requires `elapsedMs > 0` because line 22 divides by `elapsedMs²`. At 0 JavaScript yields Infinity, which is not modelled. The requirement also excludes negative times, which the source would score as the finite K/e² with its combo bonus. The same holds for `Score.BaseScore` and `Score.HitScore`.
- The other settings in `gameConfig.js` (NEXT_DELAY_MS, ANIMATION_DURATION_MS, K_P, FLOATING_SCORE_DURATION) are used by no modelled operation.
- `server.js` (an Express/Notion HTTP handler), `application/src/composables/useCookie.js` (browser cookies and dates), `application/vite.config.js` and `application/src/main.js` (build and bootstrap) are not part of this model.
