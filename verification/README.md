# Hangman bot: a verified model of the game core

This project models the core of a Discord hangman bot. The bot plays in one channel, one round at a time, with each round in its own thread. Players guess letters or whole words. A round ends when the word is complete or when its 120-second clock runs out. Three automatic hints are given, at 60, 40 and 20 seconds left. After a round ends the next one is queued; a session started on a category keeps it for three rounds and then rotates to another category. Words come from a catalogue: a map from category name to word list, cleaned on load and edited by staff commands.

The model is split into modules:

- `Text` (`text.dfy`): lower-casing, the diacritic-stripping `normalize`, `trim`, the JavaScript `\s` class and the letter classes of the guess filter.
- `Seqs` (`seqs.dfy`): `new Set` deduplication, `filter`, `indexOf`, and the order `sort()` gives strings, with the lemmas that make sorting unique.
- `WordStore` (`word_store.dfy`): the catalogue. Loading, `getCategories`, `pick`, `addWord` and `removeWord` are spec functions with their lemmas. The class `Catalog` holds the catalogue as a field and edits it in place; its methods are proved against those functions.
- `Hangman` (`hangman.dfy`): one round as a value. This covers the board rendering, `collectGuessed`, `secsLeft`, the gallows stage, the winners line, `revealHint`, the guess evaluator of `handleGuess` and the hint step. It also holds the round invariant and the lemmas about them.
- `Rotation` (`rotation.dfy`): the channel session and `decideNextCategoryAndAnnounce`.
- `Lifecycle` (`lifecycle.dfy`): the mutable state.
  - The class `GameState` is the game record; its methods mutate it as `handleGuess` and the hint callback do.
  - The class `Bot` holds the current game, the session and the pending timers.
  - Timers are explicit. Arming one stores a callback kind, its delay and the game record it captured, under a fresh handle. `OnTimeout`, `OnHint` and `OnTick` are those callbacks firing; `OnMessage` is the message handler.

Discord I/O is absent. Every send, edit, fetch or delete either has no effect in the model, or becomes a value the method returns (the board, the hint letter, the announcement). Two inputs are parameters:

- `Math.random()` becomes a caller-supplied `roll: nat`, reduced modulo the number of candidates. The lemmas show every candidate can be drawn by some roll.
- `Date.now()` becomes `now: int`.

The bot's `categories()` and `pickWord()` come from `src/words.ts`, which delegates them to `getCategories` and `pick` of `src/wordStore.ts` (src/words.ts:5-11). The model calls `GetCategories` and `Pick` directly.

In these places the code behaves as follows, and so does the model:

- A guess is a whole word when the lower-cased, trimmed message is longer than one character; it is not normalised first.
- A correct whole word reveals every non-white-space character of the word, not only its letters.
- The win check is the renderer's: no character other than `-` and space may still show as a bullet.
- The hint draws only from the lower-case class `[a-zăâîșşţț]`.
- `pick` also fails for a named category that exists but is empty (`EmptyCategory`), not only when no category has words.
- `stop` is refused during the 15-second pre-roll, because the game record is only created when the round begins. `start` is accepted again during that window.
- The rotation note, as written, names the category of the round that just ended. Only `Rotation.AnnounceAsWritten` follows that code. The bot methods (`Lifecycle.Bot.DecideNextCategoryAndAnnounce`, `OnTimeout`, `HandleGuess`) use the corrected note of `Rotation.DecideNext`, which names the category of the next round (see Findings).

## Model

| member | source | states |
|---|---|---|
| Text.LetterClasses | src/index.ts:477-479 | a letter the hint can draw passes the guess filter; a guess letter is never white space, a diacritic mark, `-`, space or the bullet |
| Text.LowerChar | src/index.ts:679 | lower-casing leaves no ASCII or Romanian capital; each capital becomes its own small letter (`CasePair`: the letter 32 code points on for ASCII, and Ă→ă, Â→â, Î→î, Ș→ș, Ş→ş, Ţ→ţ, Ț→ț); every other character is unchanged; the guess-letter class is kept |
| Text.ToLower | src/index.ts:679 | `toLowerCase` keeps the length, leaves no capital, turns each capital into its `CasePair` small letter and leaves every other character as it is |
| Text.Normalize | src/wordStore.ts:18-20 | the normal form is never longer than the input and holds no capital, no Romanian letter with a diacritic and no stripped mark |
| Text.NormalizeIdempotent | src/wordStore.ts:18-20 | normalising an already normalised string changes nothing |
| Text.PlainIsNormal | src/wordStore.ts:18-20 | a string of plain lower-case ASCII letters is its own normal form |
| Text.Trim | src/index.ts:679 | `trim` returns the slice `s[a..b]` with only white space before `a` and after `b`; the result is empty iff the input is all white space, and otherwise starts and ends with non-white space |
| Text.LooksLikeGuess | src/index.ts:681 | an input that passes the filter is non-empty and holds no `-`, no bullet and no diacritic mark |
| Seqs.Dedup | src/index.ts:78 | `[...new Set(s)]` has no duplicates and exactly the elements of `s` |
| Seqs.Filter | src/wordStore.ts:58 | `filter` keeps exactly the elements that satisfy the predicate |
| Seqs.SortedOf | src/wordStore.ts:50 | the sorted listing of a set is strictly increasing and has exactly its elements |
| Seqs.SortedUnique | src/wordStore.ts:38 | two strictly sorted lists with the same elements are equal, so sorting has one answer |
| Seqs.Insert | src/wordStore.ts:76-77 | inserting a word gives a list one longer with the same elements plus that word |
| Seqs.InsertSorted | src/wordStore.ts:76-77 | inserting an absent word into a strictly sorted list keeps it strictly sorted |
| Seqs.PushThenSort | src/wordStore.ts:76-77 | `push(w)` followed by `sort()` on a sorted list without `w` gives exactly `Insert(l, w)` |
| Seqs.IndexOf | src/wordStore.ts:88 | `indexOf` is -1 iff the word is absent, and otherwise the position of its first occurrence |
| Seqs.InsertThenRemove | src/wordStore.ts:76-91 | splicing an inserted absent word out at its `indexOf` gives the list back |
| WordStore.CleanWords | src/wordStore.ts:38 | a cleaned list is sorted, duplicate-free and normalised, and holds exactly the normalised words of the array (none for `null`) |
| WordStore.LoadSpec | src/wordStore.ts:36-39 | every catalogue loading builds has normalised keys and clean lists |
| WordStore.LoadKeys | src/wordStore.ts:37-38 | the loaded keys are exactly the normalised keys of the document |
| WordStore.LoadLastWins | src/wordStore.ts:37-38 | the list under a key is the cleaned array of the last entry whose key normalises to it |
| WordStore.LoadStore | src/wordStore.ts:32-41 | the loading loop builds exactly `LoadSpec` of the document's entries |
| WordStore.GetCategories | src/wordStore.ts:48-51 | the category list is strictly sorted and names every key exactly once |
| WordStore.NonEmptyCategories | src/wordStore.ts:58 | the candidates of a random pick are exactly the categories with words, each once |
| WordStore.ChooseCategory | src/wordStore.ts:54-60 | a normalised name that is a key other than "random" is used as is; otherwise a category with words is drawn, or none when no category has words |
| WordStore.Pick | src/wordStore.ts:52-67 | a picked word is in the list of the category returned; a named existing category fails exactly when it is empty; a random or unknown request fails exactly when no category has words |
| WordStore.RandomIsNormal | src/wordStore.ts:54-57 | "random" normalises to itself, so a request for it always takes the random branch |
| WordStore.PickRandomReaches | src/wordStore.ts:57-66 | every word of every category can be drawn by a random pick, for some roll |
| WordStore.PickNamedReaches | src/wordStore.ts:54-66 | every word of a named category can be drawn by naming the category |
| WordStore.AddWordSpec | src/wordStore.ts:69-81 | afterwards the normalised word is in the normalised category; the call saves iff the word was not there already |
| WordStore.AddWordFrame | src/wordStore.ts:74-80 | an unsaved add changes nothing; a saved add creates the category if needed, adds exactly one copy of the word, and keeps every other list |
| WordStore.AddWordKeepsLoaded | src/wordStore.ts:74-77 | on a loaded catalogue, add keeps every list sorted, duplicate-free and normalised |
| WordStore.AddWordIdempotent | src/wordStore.ts:75-80 | adding the same word twice equals adding it once, and the second add does not save |
| WordStore.SpliceSorted | src/wordStore.ts:91 | splicing one element out of a strictly sorted list keeps it strictly sorted and leaves no copy of that element |
| WordStore.RemoveWordSpec | src/wordStore.ts:82-93 | remove fails with `UnknownCategory` or `UnknownWord` before any change, and succeeds when both are present |
| WordStore.RemoveWordFrame | src/wordStore.ts:88-91 | a successful remove keeps every key, including one whose list empties, takes out exactly one copy of the word and keeps every other list |
| WordStore.RemoveWordKeepsLoaded | src/wordStore.ts:88-91 | on a loaded catalogue, remove keeps the lists clean and leaves no copy of the word |
| WordStore.AddThenRemoveRoundTrip | src/wordStore.ts:74-91 | adding an absent word and then removing it restores the catalogue, except that a category created by the add remains with an empty list |
| WordStore.Catalog.Load | src/wordStore.ts:32-41 | the catalogue object starts as the loaded document |
| WordStore.Catalog.AddWord | src/wordStore.ts:69-81 | the in-place add leaves the catalogue `AddWordSpec` describes and reports whether it saved; the catalogue stays loaded |
| WordStore.Catalog.RemoveWord | src/wordStore.ts:82-93 | the in-place remove leaves the catalogue `RemoveWordSpec` describes, or fails with its error and changes nothing |
| Hangman.Cells | src/index.ts:62-65 | each character of the word is shown at an even position; blanks separate the positions |
| Hangman.RenderMasked | src/index.ts:60-66 | an empty word renders as the dash; any other word renders as `2n-1` characters, character `i` of the word at position `2i` (a blank for `-` and space, the letter once guessed, a bullet otherwise) and blanks in between |
| Hangman.BulletShown | src/index.ts:60-66 | the board shows a bullet iff some character of the word is masked |
| Hangman.WinCheckExact | src/index.ts:489 | no bullet is shown iff every character other than `-` and space is revealed |
| Hangman.GuessedSet | src/index.ts:67-72 | the guessed set is exactly the wrong entries together with the one-letter strings of the revealed letters that occur in the word |
| Hangman.SecsLeft | src/index.ts:73-76 | seconds left is never negative, is 0 exactly when 120000 ms have elapsed, and is the remaining time rounded up |
| Hangman.SecsLeftMonotone | src/index.ts:73-76 | a later time never shows more seconds left |
| Hangman.StageIndex | src/index.ts:85 | the stage index always indexes the seven drawings |
| Hangman.StageAdvances | src/index.ts:85 | each miss advances the drawing by one until the last, which then stays |
| Hangman.WinnersOf | src/index.ts:521-528 | the winners line credits the contributors in order, in the plural iff there are two or more, and credits nobody iff there are none |
| Hangman.HintLetters | src/index.ts:78 | the hint letters are exactly the distinct lower-case hint-class letters of the word |
| Hangman.RevealHint | src/index.ts:77-81 | the hint is none iff every hint letter is guessed; otherwise it is an unguessed hint letter of the word |
| Hangman.HintReachesEveryHidden | src/index.ts:79-80 | every unguessed hint letter is drawn for some roll |
| Hangman.NewRound | src/index.ts:310-323 | a fresh round satisfies the round invariant |
| Hangman.MaskedWrongDisjoint | src/index.ts:482-507 | in a reachable round, revealed letters and wrong single letters never overlap |
| Hangman.RenderIgnoresWrong | src/index.ts:86-93 | the board rendered from `collectGuessed` equals the rendering from the revealed letters alone |
| Hangman.RenderAgrees | src/index.ts:60-66 | two guessed sets that show every character of the word alike render the same board |
| Hangman.AddUser | src/index.ts:443 | adding a user to an insertion-ordered set adds exactly that user and keeps it duplicate-free; the users already there keep their order as a prefix, and a new user is appended last (an existing one changes nothing) |
| Hangman.AllLetters | src/index.ts:444-445 | a correct whole word reveals exactly the distinct non-white-space characters of the word |
| Hangman.Guess | src/index.ts:437-514 | a guess never changes the word and always records the user as having tried |
| Hangman.RepeatedLetterNoOp | src/index.ts:481-482 | a letter already revealed or already wrong changes only the set of users who tried |
| Hangman.LetterHitAppends | src/index.ts:484-486 | a new letter of the word is appended to the revealed letters exactly once, adds its author to the end of the contributors with `AddUser` (earlier contributors kept in order) and leaves the wrong list alone |
| Hangman.LetterMissRecords | src/index.ts:506-507 | a new letter outside the word is appended once to the wrong list; nothing else changes |
| Hangman.LetterWinExact | src/index.ts:486-489 | after a letter hit the round is won iff every character other than `-` and space is revealed |
| Hangman.WordGuessWins | src/index.ts:442-445 | a correct whole word wins, adds its author to the contributors with `AddUser`, leaves the wrong list alone, reveals every non-white-space character and keeps what was revealed |
| Hangman.WordMissRecords | src/index.ts:466 | a wrong whole word is appended to the end of the wrong list when absent and leaves it unchanged when present; nothing is revealed and nobody is credited |
| Hangman.GuessKeepsInv | src/index.ts:437-514 | every guess keeps the round invariant, never hides a revealed letter and never drops a contributor. The invariant: revealed letters are distinct non-white-space characters of the word; wrong entries are distinct, each a whole word or a single letter outside the word; each contributor is listed once |
| Hangman.HintStep | src/index.ts:197-204 | the hint step reports the drawn letter and reveals at most that one new letter |
| Hangman.HintAlwaysReveals | src/index.ts:202-203 | the guard before the push never fails: a drawn hint is always revealed |
| Hangman.HintKeepsInv | src/index.ts:197-204 | a hint keeps the round invariant |
| Rotation.StartSession | src/index.ts:283-288 | the requested "random" starts a random session; any other request starts a fixed session on that category; the count starts at 0 and the threshold is 3 |
| Rotation.Candidates | src/index.ts:229 | the rotation candidates are exactly the categories other than the current one |
| Rotation.DecideNext | src/index.ts:217-237 | no session gives no note and no change; a random session is unchanged; a fixed session stays fixed, and its note is `Rotating(next category)` exactly when this round reaches the threshold, otherwise `Staying(current category)` |
| Rotation.NextRoundCategory | src/index.ts:553-557 | the next round asks for "random" without a session or in random mode, and otherwise for the session's category |
| Rotation.DecideKeepsInv | src/index.ts:222-232 | deciding keeps the round count between 0 and 3 and the threshold at 3 |
| Rotation.FixedRotation | src/index.ts:222-232 | a fixed session counts the round; at the threshold the count resets and the category changes iff another category exists |
| Rotation.RotationReachesEveryOther | src/index.ts:229-230 | every other category can be the next one, for some roll |
| Rotation.AnnouncementIsNextCategory | src/index.ts:227-234 | the corrected note names the category the next round is picked from |
| Rotation.ThreeRoundsThenRotate | src/index.ts:217-237 | a session started on a category keeps it for two round ends and rotates at the third when another category exists |
| Rotation.AnnounceAsWritten | src/index.ts:227-234 | the note as written names the current category at the rotation threshold |
| Rotation.RotationNoteNamesOldCategory | src/index.ts:227-234 | the note as written names "animale" while the next round is picked from "fructe" |
| Lifecycle.RequestedCategory | src/index.ts:283 | an absent or empty option requests "random"; otherwise the request is the option lower-cased character by character |
| Lifecycle.HintDelay | src/index.ts:193 | a hint for `k` seconds left (0 to 120) fires after a delay in the round's 120000 ms at which the board shows exactly `k` seconds left |
| Lifecycle.FilteredGuessIsLetter | src/index.ts:679-682 | a one-character message that passes the filter is a letter guess |
| Lifecycle.GameState.constructor | src/index.ts:310-323 | a new game record holds a fresh round of the picked word, starts its clock at `now` and holds no timers |
| Lifecycle.GameState.CollectGuessed | src/index.ts:67-72 | the two loops build exactly the guessed set of the round |
| Lifecycle.GameState.ApplyGuess | src/index.ts:437-514 | the in-place updates of `handleGuess` produce the round and outcome `Guess` computes, keep the invariant and leave the timers alone |
| Lifecycle.GameState.ApplyHint | src/index.ts:197-204 | the hint callback's push produces the round `HintStep` computes and keeps the invariant |
| Lifecycle.GameState.BoardAt | src/index.ts:84-98 | the board shows a valid stage, the word rendered from the guessed set (equal to the rendering from the revealed letters on a valid record), the wrong list, the category and the seconds left |
| Lifecycle.CancelAll | src/index.ts:149 | cancelling each listed handle removes exactly those timers |
| Lifecycle.Bot.constructor | src/index.ts:32-40 | the bot starts with no game, no session and no pending timers |
| Lifecycle.Bot.Arm | src/index.ts:168-192 | arming adds one timer under a fresh handle and changes no other timer |
| Lifecycle.Bot.ClearRoundTimers | src/index.ts:145-150 | nothing happens on `null`; otherwise every timer the record holds is cancelled, its handle fields are emptied, and no pending timer targets it any more |
| Lifecycle.Bot.CancelTimers | src/index.ts:147-149 | cancelling the record's handles removes exactly its timers |
| Lifecycle.Bot.StartRoundTimers | src/index.ts:163-214 | restarting clears the old timers, sets the round start to `now` and arms the timeout (120000 ms), the tick (15000 ms) and the hints at 60000, 80000 and 100000 ms, under five fresh handles recorded on the game |
| Lifecycle.Bot.ArmRound | src/index.ts:168-213 | the five timers are armed under consecutive fresh handles and recorded on the game |
| Lifecycle.Bot.ArmFor | src/index.ts:168-213 | one armed timer is recorded in the game's slot for its kind |
| Lifecycle.Bot.BeginRound | src/index.ts:305-345 | the delayed start picks a word; on success a fresh game of that word becomes current, with the timeout (120000 ms), tick (15000 ms) and hints (60000, 80000, 100000 ms) armed under the next five handles and recorded on it; a failed pick changes nothing |
| Lifecycle.Bot.Launch | src/index.ts:310-341 | the fresh record becomes the game with a new round and the clock at `now`, and its five timers are armed under the next five handles |
| Lifecycle.Bot.StartGame | src/index.ts:254-288 | start is refused outside the play channel and while a game exists; otherwise it records the session of the requested category; the game, the timers and the handle counter are never touched |
| Lifecycle.Bot.StopGame | src/index.ts:351-381 | stop is refused outside the play channel and without a game, and a refusal changes neither the bot nor the game record; otherwise it cancels the game's timers and removes the game and the session, and allocates no handle; the removed record's timer handles are emptied and its round and clock kept |
| Lifecycle.Bot.EndRoundAndQueueNext | src/index.ts:531-533 | ending a round cancels its timers and removes the game, keeping the session |
| Lifecycle.Bot.BeginNextRound | src/index.ts:548-603 | the queued round picks from the category the session names; a failed pick changes nothing; on success the session is kept and the five round timers are armed at the next handles, as in `BeginRound` |
| Lifecycle.Bot.DecideNextCategoryAndAnnounce | src/index.ts:217-237 | the session and note become those `DecideNext` computes from the catalogue's categories |
| Lifecycle.Bot.HandleGuess | src/index.ts:437-514 | a guess updates the game as `Guess` does; a guess that does not win keeps the game, the session, the timers and the record's clock and timer handles; a win decides the next category and ends the round; no handle is allocated |
| Lifecycle.Bot.OnMessage | src/index.ts:669-690 | a message is a guess iff it is not from a bot, is in the game's thread and passes the filter after lower-casing and trimming; a guess updates the round as `Guess` does, and a winning one removes the game, cancels its timers and decides the next session; a guess that does not win keeps the record's clock and timer handles; any other message leaves the bot's game, session and timers and the game record unchanged |
| Lifecycle.Bot.OnTimeout | src/index.ts:168-183 | a fired timeout leaves the pending timers; it acts iff its game is still the current one, and then decides the next category, removes the game and cancels the game's other timers; otherwise no other timer changes and the current game record is unchanged |
| Lifecycle.Bot.Disarm | src/index.ts:168-183 | a fired one-shot timer leaves the pending timers; nothing else changes |
| Lifecycle.Bot.FinishRound | src/index.ts:173-182 | ending a round decides the session and note as `DecideNext` does, removes the game and cancels exactly the round's timers |
| Lifecycle.Bot.OnHint | src/index.ts:192-212 | a fired hint leaves the pending timers and changes no other; it acts iff its game is still the current one, and then applies `HintStep`; otherwise it reveals nothing; the game's start time and timer handles stay the same |
| Lifecycle.Bot.HintGame | src/index.ts:198-205 | the hint step on the current game advances its round by `HintStep` and keeps its start time and timer handles |
| Lifecycle.Bot.OnTick | src/index.ts:186-189 | a tick shows the board of the record it captured, stage, word, wrong guesses, category and seconds left |

## Left out

- Discord: the client, embeds, threads, messages, pings, the setup message and the permission checks. Sending, editing and deleting are I/O and are absent from the model.
- The `/hangman add` and `del` handlers (src/index.ts:643-665) are not modelled. They lower-case and trim the word and then call `addWord` or `removeWord`, which are modelled.
- Asynchronous interleavings are not modelled. Each callback runs to completion. So the model does not capture a timeout firing while a winning guess awaits its messages, which would end the round twice.
- The failure path after `games.set` is not modelled. If a thread send fails there, the game stays set with no timers (src/index.ts:324-344).
- A failed thread creation after `start` has recorded the session is not modelled.
- The 10-second thread deletion and the 15-second gaps between rounds are not modelled as timers. `BeginRound` and `BeginNextRound` are the delayed callbacks themselves.
- Text.Normalize models NFD decomposition with diacritic stripping (Unicode Standard Annex #15) only for ASCII and the Romanian letters with diacritics. It strips a few spacing accents and the combining marks U+0300-U+036F, not exactly the Unicode `Diacritic` property. Every other character goes through `LowerChar` and is otherwise kept as it is.
- Text.ToLower lower-cases only the ASCII and Romanian capitals. JavaScript's `toLowerCase` covers all of Unicode: it maps 'É' to 'é' and the Kelvin sign U+212A to 'k', which then passes the guess filter (src/index.ts:681). The model leaves such characters unchanged.
- Strings are sequences of code points. Surrogate pairs and the UTF-16 order of `sort()` are not modelled.
- `localeCompare` in `getCategories` is modelled as the code-point order.
- WordStore.ChooseCategory draws among the categories with words in sorted order, not in the document's key order. A given roll may therefore name a different category than in the code; the set of categories that can be drawn is the same.
- WordStore.Pick returns `NoCategoryWithWords` when no category has words. The code throws `Categoria "undefined" nu are cuvinte.`.
- JSON persistence is not modelled. This covers `ensureDataFile`, the default catalogue and `saveStore`.
- The catalogue object keeps its state between calls. The code reloads the file on every call. That a saved clean catalogue reloads unchanged is not proved.
- Object keys that are JavaScript prototype properties (such as `constructor`) are not modelled. `!store[cat]` is taken as "the key is absent".
- Rotation.DecideNext compares the current category as the user typed it after lower-casing (src/index.ts:283). It does not normalise it, so a session category with diacritics never matches a stored key, just as in the code.
- Lifecycle.Bot.OnTick: the tick refreshes the board and the setup message. Only the board values are modelled.
- `src/deploy-commands.ts`, `src/list-commands.ts` and `src/cleanup-commands.ts` are not part of this model. They register the commands and have no game logic.
- `src/types.ts` has no behaviour. Its fields are the fields of `Lifecycle.GameState`.

## Findings

| source | as written | input that shows it | evidently intended | confidence | as-written member | corrected member |
|---|---|---|---|---|---|---|
| src/index.ts:227-234 | the rotation note is built right after an asynchronous block starts; that block first awaits the category list, so the note reads `session.currentCategory` before the swap and names the category that just ended | a fixed session on "animale" with two rounds played and categories ["animale", "fructe"]: the note says the next round is "animale", but the next round is picked from "fructe" | the note names the category the next round will use | not executed | Rotation.RotationNoteNamesOldCategory | Rotation.AnnouncementIsNextCategory |
