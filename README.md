# lcsgame, modelled in Dafny

lcsgame is a word game. The player sees two words and types letters. Pressing
Return submits the typed sequence. It scores when the sequence is a common
subsequence of both words and is as long as the answer the game computes
itself. Space shows that answer. The game's matching kernel comes in two
parts:

- `LCSGame.is_subsequence`, a left-to-right scan with a cursor;
- `LCSGame.find_lcs`, a greedy matcher that indexes the positions of every
  character of the second word. For each character of the first word, it
  takes the last position that lies after the previously taken one.

The tutorial screen also holds a textbook dynamic-programming LCS
(`calculate_lcs_matrix`, `get_lcs`). This project uses it as the optimal
reference.

The modules follow the source:

- `Subsequence` (`subsequence.dfy`): the predicate `IsSubseq`, defined as
  "obtainable by deleting characters", plus the facts about it that the rest
  uses. It also holds `IsSubsequence`, the cursor loop of `is_subsequence`,
  proved to decide `IsSubseq`.
- `GreedyMatch` (`greedy.dfy`): `find_lcs`.
  - `GreedyLcs` is a prefix fold over the first word that applies the
    last-occurrence rule.
  - `FindLcs` is the method with the position map and the reversed bucket
    scan with `break`. It is proved to compute exactly `GreedyLcs`.
  - The lemmas prove that the result is a common subsequence and give its
    bounds.
- `Tutorial` (`tutorial.dfy`): the DP.
  - `LcsLen` is the recurrence.
  - `LcsOf` is the walk's string.
  - `CalculateLcsMatrix` fills an `array2` with nested loops.
  - `GetLcs` is the `while` loop that walks the table back and reverses what
    it collected.
  - The lemmas prove table shape, optimality, and the walk's tie rule.
- `Game` (`game.dfy`): the fields `handle_input` updates.
  - A pure transition `Step(snapshot, event, nextPair)` says what one event
    does.
  - The class `LcsGame` holds the fields, and `LcsGame.HandleInput` is proved
    to perform exactly `Step`. It models `LCSGame.handle_input` of `lcs.py`
    and of `assets/compacted.py`; the latter reads the event from
    `self.event`, and here the event is a parameter.
  - The lemmas prove the scoring rules and the invariants over any series of
    events.
- `InputHandler` (`input_handler.dfy`): the stand-alone
  `handle_input(event, game)`. It assigns the fields of the game it is given,
  and unlike the method it returns nothing on Escape.
- `Comparison` (`comparison.dfy`): greedy against optimal.
  - `find_lcs` never beats the DP.
  - It can lose to the DP: `find_lcs("AB", "ABA") == "A"`, and on the
    tutorial's own pair KITTEN / SITTING it gives "IN" where "ITTN" exists.
  - So Return can reject a longest common subsequence.

`assets/compacted.py` repeats `find_lcs`, `is_subsequence`,
`check_user_sequence` and `handle_input` line for line. The docstring of its
`find_lcs` (assets/compacted.py:236) calls the result the longest common
subsequence. The model follows what the code does:

- `GreedyDominated` proves that the result is never longer than a longest
  common subsequence.
- `GreedyNotLongest` proves that it can be strictly shorter.

The tutorial text (tutorial.py:147-150) says that BANANA and APPLE match a
second 'A', so their DP result would have length 2. APPLE holds one 'A' and
shares no other letter with BANANA. `BananaApple` proves that the DP walk
yields "A" and that the table's corner holds 1. The model follows the code.

## Model

| member | source | states |
|---|---|---|
| Subsequence.IsSubsequence | lcs.py:119-124 | the cursor scan returns true exactly when `s` is obtainable from `t` by deleting characters; it is false whenever `s` is longer than `t`; loop invariant: the cursor never passes the number of characters scanned; the copy at assets/compacted.py:258-264 is identical |
| Subsequence.IsSubseq | lcs.py:119-124 | the meaning of `is_subsequence`: `s` is obtained from `t` by deleting characters, deciding for the last character of `t` whether it is deleted or kept as the last character of `s` |
| Subsequence.EmptyIsSubseq | lcs.py:120-124 | the empty sequence is a subsequence of every word |
| Subsequence.SubseqRefl | lcs.py:120-124 | every word is a subsequence of itself |
| Subsequence.SubseqLength | lcs.py:121-124 | a subsequence is never longer than its target |
| Subsequence.SubseqChars | lcs.py:121-124 | every character of a subsequence occurs in the target |
| Subsequence.SubseqEmbedding | lcs.py:119-124 | a subsequence comes with strictly increasing positions of the target that spell it |
| Subsequence.EmbeddingSubseq | lcs.py:119-124 | conversely, strictly increasing positions that spell `s` make `s` a subsequence |
| Subsequence.SubseqDropLast | lcs.py:121-123 | dropping the last character of a subsequence leaves a subsequence |
| Subsequence.SubseqPrefix | lcs.py:121-123 | every prefix of a subsequence is a subsequence |
| Subsequence.SubseqSameLength | lcs.py:121-124 | a subsequence as long as its target is the target itself |
| GreedyMatch.LastIndex | lcs.py:112-113 | the first position the reversed bucket scan tries is the last occurrence: it holds `c`, and no `c` follows it; -1 when `c` is absent |
| GreedyMatch.Positions | lcs.py:105-107 | the bucket `pos[c]` lists the positions of `c` in `str2`, in strictly ascending order, each holding `c`, none missing |
| GreedyMatch.PositionsSnoc | lcs.py:106-107 | indexing one more character appends its position to its own bucket and leaves every other bucket unchanged |
| GreedyMatch.PositionsLast | lcs.py:111-113 | a bucket is empty exactly when the character is absent; otherwise its last entry is the character's last occurrence |
| GreedyMatch.IndexPositions | lcs.py:105-107 | the first loop builds a map whose keys are exactly the characters of `str2` and whose buckets are `Positions` |
| GreedyMatch.GreedyLcs | lcs.py:108-116 | the loop over `str1` as a fold over its prefixes: append a character when its last occurrence in `str2` lies after `last_j`, and move `last_j` there; otherwise change nothing; `-1 <= last_j < len(str2)` throughout |
| GreedyMatch.FindLcs | lcs.py:103-117 | the reversed scan with `break` computes exactly the last-occurrence fold `GreedyLcs`; the result is a subsequence of both words; the copy at assets/compacted.py:235-256 is identical |
| GreedyMatch.GreedyInFirst | lcs.py:110-116 | characters are appended in `str1` order, so the result is a subsequence of `str1` |
| GreedyMatch.GreedyInSecondUpTo | lcs.py:111-116 | the result is a subsequence of `str2` up to and including `last_j` |
| GreedyMatch.GreedyLastTaken | lcs.py:109-116 | `last_j` is -1 exactly while nothing is collected; otherwise `str2[last_j]` is the last collected character |
| GreedyMatch.GreedyIsCommon | lcs.py:103-117 | `find_lcs` returns a common subsequence of both arguments |
| GreedyMatch.GreedyBounds | lcs.py:105-116 | the result is at most as long as either word, and a character absent from either word never appears in it |
| GreedyMatch.GreedyLastJIncreases | assets/compacted.py:247-256 | `last_j` never moves back along `str1`, and strictly increases whenever a character is collected |
| Tutorial.LcsLen | tutorial.py:54-59 | the recurrence value for prefixes of lengths `i`, `j` is at most `i` and at most `j` |
| Tutorial.LcsOf | tutorial.py:63-78 | the string `get_lcs` yields on the table of the two strings: on a match take the character and go diagonally; otherwise go up when the upper entry is strictly larger, and left when not |
| Tutorial.LcsOfLength | tutorial.py:63-78 | the walk collects exactly as many characters as the recurrence counts |
| Tutorial.LcsOfInFirst | tutorial.py:63-78 | the walk's string is a subsequence of `seq1` |
| Tutorial.LcsOfInSecond | tutorial.py:63-78 | the walk's string is a subsequence of `seq2` |
| Tutorial.LcsOfIsCommon | tutorial.py:63-78 | the walk's string is a common subsequence whose length is the recurrence value |
| Tutorial.CommonSubseqBound | tutorial.py:54-59 | no common subsequence of the two prefixes is longer than `dp[i][j]` |
| Tutorial.LcsOfIsLongest | tutorial.py:63-78 | no common subsequence is longer than the walk's string |
| Tutorial.LcsLenRowMonotone | tutorial.py:56-59 | `dp[i-1][j] <= dp[i][j]` |
| Tutorial.LcsLenColumnMonotone | tutorial.py:56-59 | `dp[i][j-1] <= dp[i][j]` |
| Tutorial.LcsLenAt | tutorial.py:56-59 | on prefixes, the entry is the diagonal plus one on equal characters, and otherwise the larger of the upper and left entries |
| Tutorial.CalculateLcsMatrix | tutorial.py:50-61 | returns an (m+1)×(n+1) table whose every entry `dp[i][j]` is the LCS length of `seq1[:i]` and `seq2[:j]` |
| Tutorial.LcsTableShape | tutorial.py:51-59 | in such a table, row 0 and column 0 are zero, entries grow down each column and along each row, and `dp[i][j] <= min(i, j)` |
| Tutorial.TableCorner | tutorial.py:50-61 | the bottom-right entry is the LCS length of the whole strings |
| Tutorial.LcsOfAt | tutorial.py:69-76 | one walk step on prefixes: diagonal on a match; up only when the upper entry is strictly larger; otherwise left |
| Tutorial.Walk | tutorial.py:68-76 | the `while` loop of `get_lcs` on any matrix of the right shape: the characters it collects from `(i, j)` back to row 0 or column 0, in string order |
| Tutorial.TieGoesLeft | tutorial.py:73-76 | on a mismatch with equal neighbours the walk decrements `j`: for "AB"/"BA" it keeps 'B' |
| Tutorial.WalkIsCommon | tutorial.py:68-76 | whatever numbers the matrix holds, the walk collects a common subsequence of the prefixes |
| Tutorial.WalkOnTable | tutorial.py:63-78 | on the table of the two strings, the walk from `(i, j)` yields `LcsOf` of the prefixes |
| Tutorial.WalkLength | tutorial.py:63-78 | on the table, the walk from `(i, j)` collects `matrix[i][j]` characters, and the rest of the walk from `(m, n)` to `(i, j)` plus `matrix[i][j]` is `matrix[m][n]` |
| Tutorial.GetLcs | tutorial.py:63-78 | for any matrix of the right shape, the result is a common subsequence; the loop ends because `i + j` decreases; on the table, the loop keeps `len(lcs) + matrix[i][j] == matrix[m][n]`; on the table of the two strings, the result is the longest common subsequence `LcsOf` and its length is `matrix[m][n]` |
| Game.ReturnRewardsOnlyAccepted | lcs.py:86-94 | Return advances the level exactly when the typed sequence is a common subsequence of `find_lcs` length; then score grows by 10 per character, the sequence clears, play resumes and the pair changes; otherwise nothing changes |
| Game.IsAlpha | lcs.py:100 | `event.unicode.isalpha()`: a non-empty text made only of letters |
| Game.Upper | lcs.py:101 | `event.unicode.upper()`: one character out for each character in, and a text of letters comes out as capitals |
| Game.DropLast | lcs.py:96 | `user_sequence[:-1]`: the empty sequence stays empty, otherwise the result followed by the old last character is the old sequence |
| Game.Accepts | lcs.py:87-89 | the test Return applies: `check_user_sequence` holds and the typed sequence is as long as `find_lcs` of the pair |
| Game.Step | lcs.py:79-101 | one call of `handle_input` on the fields: Quit/Escape clear `running`; Return scores, advances and switches pair only when accepted; Backspace drops the last character; Space shows `find_lcs`; a letter key appends its capital; score never drops, level grows by at most one, and only Return changes score, level or pair |
| Game.ActionOf | lcs.py:83-85 | `handle_input` returns "exit_to_menu" on Escape and nothing otherwise |
| Game.Run | lcs.py:40-46 | a series of `handle_input` calls, one per event, each with the pair it would draw |
| Game.RewardBounded | lcs.py:86-90 | one Return adds at most ten points per character of the shorter word |
| Game.SpaceShowsSolution | lcs.py:97-99 | Space shows `find_lcs` of the pair, a common subsequence, switches to showing the solution, and leaves score, level, sequence and pair alone |
| Game.ShownSolutionAccepted | lcs.py:86-99 | typing the shown solution and pressing Return is accepted |
| Game.LetterThenBackspace | lcs.py:95-101 | a letter appends exactly its upper-case form and changes nothing else; Backspace then restores the state |
| Game.BackspaceRemovesLast | lcs.py:95-96 | Backspace removes exactly the last character, keeps an empty sequence empty, and changes no other field |
| Game.QuitStops | lcs.py:80-85 | Quit and Escape clear `running` and change nothing else; only Escape returns "exit_to_menu" |
| Game.StepKeepsUpper | lcs.py:100-101 | the typed sequence stays upper-case letters after every event |
| Game.RunMonotone | lcs.py:79-101 | over any series of events, score and level never decrease, the score stays a multiple of ten, and the sequence stays upper-case |
| Game.LcsGame.constructor | lcs.py:11-23 | a new game starts with score 0, level 1, an empty sequence, no solution shown, playing, running, on the drawn pair |
| Game.LcsGame.CheckUserSequence | lcs.py:36-38 | true exactly when the typed sequence is a subsequence of both words of the pair; the copy at assets/compacted.py:151-153 is identical |
| Game.LcsGame.HandleInput | lcs.py:79-101 | the fields after the call are `Step` of the fields before; the result is "exit_to_menu" exactly on Escape; the copy at assets/compacted.py:205-233 is identical apart from reading the event from `self.event` |
| InputHandler.HandleInput | input_handler.py:4-31 | the game's fields after the call are `Step` of its fields before, with the same transitions as the method; Escape returns nothing |
| Comparison.GreedyDominated | lcs.py:103-117 | the greedy result is never longer than a longest common subsequence |
| Comparison.GreedyNotLongest | assets/compacted.py:235-256 | contrary to the docstring, `find_lcs("AB", "ABA")` is "A" while the LCS length is 2 |
| Comparison.GreedyKittenSitting | lcs.py:103-117 | `find_lcs("KITTEN", "SITTING")` is "IN" |
| Comparison.SittingLastIndices | lcs.py:112-113 | the last positions in SITTING of the letters of KITTEN that make the greedy choice |
| Comparison.KittenSittingOptimum | tutorial.py:63-78 | on the tutorial's pair KITTEN / SITTING the walk yields "ITTN", a common subsequence, and the table's corner holds 4 |
| Comparison.ScoringRejectsOptimal | lcs.py:86-94 | with the pair ("AB", "ABA"), Return rejects "AB", a longest common subsequence |
| Comparison.LcsOfWithinShared | tutorial.py:63-78 | the walk's string uses only characters both strings have, so it is a subsequence of each string with the unshared characters deleted |
| Comparison.BananaApple | tutorial.py:63-78 | on BANANA / APPLE the table's corner holds 1 and the walk yields "A": the two words share a single 'A' |
| Comparison.SubseqExamples | lcs.py:119-124 | "ACE" is a subsequence of "ABCDE" and "AEC" is not: order matters |

## Left out

- Rendering is not modelled: `draw_screen`, the tutorial's drawing and scrolling, the menu and scoreboard layout, and fonts and colours. They only draw.
- The event and frame loops are not modelled: `run`, `init_menu`, `Tutorial.show`, menu navigation, and the `asyncio` main. A series of `handle_input` calls is modelled by `Game.Run` over a given list of events.
- The 60-second time limit is not modelled, because it reads the clock.
- Word sourcing is not modelled: the nltk corpus download and `random.choice`. The pair that `get_new_word_pair` would draw is a parameter (`nextPair`), and the constructor takes the first pair.
- The MongoDB connection and the score file are not modelled, because they are network and file I/O.
- Game.IsAlpha: `str.isalpha()` is modelled on ASCII letters only, because Python's Unicode classification is not available.
- Game.Upper: `str.upper()` is modelled on ASCII only, because some Unicode letters upper-case to several characters in Python.
- The floating-point title pulsing and scroll arithmetic of the tutorial are not modelled.
- game.py and input_handler.py import a module-level `find_lcs` that lcs.py defines only as a method. These imports are not modelled, and `InputHandler.HandleInput` uses `GreedyMatch.FindLcs`.
- Pygame event objects are not modelled. They become the `Event` datatype, and a key press that is not Escape, Return, Backspace or Space becomes `Key(unicode)`.
- The compacted `handle_input` reads its event from `self.event`. That field is not modelled, and the event is passed as a parameter.
