# Wordle-in-Russian Telegram bot: a Dafny model of its game core

This project models the game core of a two-player Wordle bot. One player (the
word setter) chooses a secret word of four to eight Russian or English letters.
The other player (the guesser) tries to find it. After each guess, every
position is marked Exact, Partial or Absent. The guesser also sees the letters
known to be in the word and those known to be absent.

The model covers:

- **The two-pass scorer** (`Scoring`). `get_feedback` first normalises ё/Ё to
  е/Е. Pass 1 marks the exact positions and strikes those secret letters out
  of a pool. Pass 2 walks the remaining positions of the guess. A letter still
  in the pool is Partial, and its first copy is removed from the pool; any
  other letter is Absent.
  - The scorer is written as the code runs: a list of optional characters as
    the pool (`None` for struck letters, first-occurrence `remove`),
    placeholder cells, and a recursive second pass. Reasoning about the pool
    goes through the count of each letter in it.
  - It is proved equal to an independent reference definition of the marks.
  - From that we get the multiplicity bound: for each letter, the marked
    positions holding it never outnumber its copies in the secret.
  - The letter sets are proved sound. A correct letter occurs in the secret.
    For lower-case words, a letter reported absent and not also reported
    correct does not occur in it.
- **The legacy single-pass scorer and its dictionary** (`Legacy`, from
  `game.py`). That scorer marks a letter Partial whenever it occurs anywhere
  in the secret. It stops at the shorter of the two words. When no capital Ё
  occurs, its result is the start of the two-pass result, and all of it when
  the guess is no longer than the secret. On the positions it scores, it
  agrees with the two-pass scorer on Exact, and every two-pass Partial is also
  a legacy Partial. It over-counts repeated letters (see Findings).
- **The registry of games** (`Sessions`, on the insertion-ordered dictionary
  `OrderedDict`). Games are keyed by the ordered pair (setter, guesser). The
  handlers pick "the first matching game" in insertion order, so the registry
  is a sequence of entries. `View` gives its meaning as a map.
- **The user directory** (`Directory`): user name to chat id and last partner.
- **The handlers as pure step functions.** Each takes the registry, the
  directory and the message, and returns the new registry, the new directory
  and the reply chosen:
  - pairing by name (`set_player`) or by button (`handle_last_partner`);
  - setting the word (`receive_word`), with the language inferred as Russian,
    English or mixed;
  - `/cancel`;
  - guessing (`handle_guess`): validation, recording the attempt, merging the
    letter sets, then win, loss or another try;
  - `/addtry`.
- **An invariant all handlers preserve** (`Invariants`):
  - every game sits under its own key;
  - a game waiting for its word is fresh;
  - a game waiting for guesses has a language, a well-formed lower-case
    secret, and knowledge that never misleads the guesser. Each of its
    attempts has the secret's length, and its marks are the reference marks
    of the guess it shows against the secret.

Some behaviours are kept as the code has them:

- `receive_word` assigns the language before it looks at the game's state. On
  a game that already awaits guesses, a second word changes only the language
  (`LanguageOnly`). For that reason the invariant does not tie the language to
  the secret. A second word in the other alphabet leaves a secret that its
  own game refuses as a guess. The setter stays in the word-waiting state,
  so the game cannot be won until the setter sends another word in the
  secret's alphabet (`SecondWordLocksSecret`, `LockedSecretExample`,
  `SwitchBackExample`).
- A reply to the guesser can time out twice. The attempt then stays recorded,
  but the game is not decided (`ReplyFailed`). For that reason the invariant
  does not bound the number of attempts.
- The letter merge never removes a letter once it is known absent. The
  soundness invariant (`KnowledgeSound`) shows this never matters: the game's
  set of absent letters never holds a letter of the secret. A single call of
  the scorer can still report a repeated letter both correct and absent
  (`RepeatedLetterInBothSets`); since such a letter is in the secret, the
  merge records it as correct only.

The repository's feedback test (`tests/test_scenarios.py:206-207`) expects
results the scorer does not produce.
- "книга" shares no letter with "слово", so every position is Absent.
- "солнц" gets Exact, Partial, Partial, Absent, Absent.

`ScoringExamples` proves the values the scorer actually gives.

## Model

| member | source | states |
|---|---|---|
| `Text.Normalize` | src/core/game.py:113-115 | normalisation keeps the length, maps ё to е and Ё to Е position by position, and leaves neither ё nor Ё behind |
| `Text.ReplaceChar` | game.py:6-7 | single-character replace: the length is kept, every occurrence is replaced, others are untouched, and the replaced character no longer occurs |
| `Text.Strip` | src/bot/handlers/guess.py:36 | the stripped text is a slice of the message whose outside is all white space and which neither starts nor ends with white space |
| `Text.Upper` | src/core/game.py:130 | upper-casing keeps the length and upper-cases each character on its own |
| `Text.Lower` | src/bot/handlers/game.py:153 | lower-casing keeps the length and lower-cases each character on its own |
| `Text.UpperLowerRoundTrip` | src/core/game.py:143 | upper-casing a word of lower-case letters loses nothing: lower-casing the result gives the word back |
| `Text.IsAlpha` | src/bot/handlers/game.py:154 | an alphabetic string is non-empty, holds no white space, and lower-cases to lower-case letters only |
| `Text.LowerKeepsAlpha` | src/bot/handlers/game.py:153-154 | `isalpha` on the lower-cased text holds exactly when it holds on the text as typed |
| `Text.RemoveAll` | src/bot/handlers/game.py:238 | removing every occurrence never lengthens the text, leaves a text without the pattern unchanged, and removes at least one pattern's length from a text that contains it |
| `Text.RemoveAllPrefix` | src/bot/handlers/game.py:238 | removing the pattern from the pattern followed by a text that does not contain it gives back that text |
| `OrderedDict.Get` | src/core/game.py:83 | a lookup finds a value exactly when the key is present, and it is the value the key maps to |
| `OrderedDict.Set` | src/core/game.py:68 | assignment maps the key to the new value and changes no other key; an existing key keeps its place, a new key goes last; distinct keys stay distinct |
| `OrderedDict.Remove` | src/core/game.py:94-95 | deletion removes exactly that key, is a no-op for an absent key, and keeps keys distinct |
| `OrderedDict.RemoveAt` | src/core/game.py:94-95 | with distinct keys, deleting the key at position i takes out exactly that entry and keeps every other entry in insertion order |
| `OrderedDict.RemoveEntry` | src/core/game.py:94-95 | the key at any position is in the view, and with distinct keys deleting it takes out exactly the entry at that position |
| `OrderedDict.FindFirst` | src/bot/handlers/guess.py:39-43 | `next(...)` over the items yields the first position whose entry satisfies the test, or nothing when none does |
| `OrderedDict.UpdateAt` | src/bot/handlers/addtry.py:28 | mutating the game found at a position keeps every key and its place, and under distinct keys changes the map at that key only |
| `Scoring.RemoveFirst` | src/core/game.py:149 | `list.remove` on a pool that holds the letter makes the pool exactly one element shorter |
| `Scoring.RemoveFirstAt` | src/core/game.py:149 | `list.remove` deletes the element at the first index holding the letter and keeps the others in order |
| `Scoring.CountPositive` | src/core/game.py:146 | `in` on the pool holds exactly when the letter's count in it is positive |
| `Scoring.RemoveFirstCount` | src/core/game.py:149 | `list.remove` takes exactly one copy of the letter out of the pool and leaves every other count alone |
| `Scoring.ListStepCount` | src/core/game.py:146-149 | the membership test followed by `remove` takes one copy of the guess letter when any is left, none otherwise, and leaves other letters' counts alone |
| `Scoring.FirstPass` | src/core/game.py:126-136 | the first pass covers the positions of the zipped words; a position is marked Exact with its upper-cased letter exactly where secret and guess agree, and is left blank otherwise |
| `Scoring.FirstPassPool` | src/core/game.py:123-133 | after the first pass the pool holds, of every letter, exactly the copies in the secret that no exact match consumed |
| `Scoring.VisitCount` | src/core/game.py:143-152 | a non-exact position is Partial, and its letter joins the correct set, exactly when the count of its letter left in the pool is positive; otherwise it is Absent and its letter joins the used set; the visit lowers that letter's count by one, to no less than zero, and leaves every other count alone |
| `Scoring.SecondPass` | src/core/game.py:139-152 | the second pass leaves a letter and a mark slot for every guess position, also when the guess is longer than the secret |
| `Scoring.SecondPassShape` | src/core/game.py:139-152 | the second pass keeps the earlier positions and the exact positions, and gives every other position its upper-cased letter and a Partial or Absent mark |
| `Scoring.StrikeCount` | src/core/game.py:123-133 | after the first pass the pool holds, of each letter, the secret's copies at positions that are not exact matches |
| `Scoring.PoolCount` | src/core/game.py:139-149 | from one position to a later one, the pool gives up one copy of a letter for each non-exact position holding it, until none is left |
| `Scoring.Scanned` | src/core/game.py:122-152 | after both passes every position is marked, carries the upper-cased normalised letter, and is Exact exactly where the letters agree |
| `Scoring.GetFeedback` | src/core/game.py:98-154 | the result is the upper-cased normalised guess, one mark per guess letter, Exact exactly where the normalised letters agree, correct = letters at marked positions, used = letters at Absent positions |
| `Scoring.SecondPassReference` | src/core/game.py:139-152 | started with a pool holding, of every letter, its unmatched copies less those handed to earlier non-exact positions, the second pass gives every later non-exact position the mark of the reference definition |
| `Scoring.FeedbackMatchesReference` | src/core/game.py:122-152 | the scorer's marks equal the independent reference marks at every position |
| `Scoring.MultiplicityBound` | src/core/game.py:123-149 | for each letter, the positions holding it that are marked Exact or Partial are at most its copies in the secret |
| `Scoring.CorrectLettersSound` | src/core/game.py:131-148 | every letter reported correct occurs in the upper-cased normalised secret |
| `Scoring.AbsentLettersSound` | src/core/game.py:146-152 | for lower-case words, a letter reported absent and not also correct does not occur in the secret |
| `ScoringExamples.SelfScoreAllExact` | src/core/game.py:127-133 | scoring a word against itself marks every position Exact, reports no absent letter, and reports all its letters correct |
| `ScoringExamples.ExactMatchExample` | tests/test_scenarios.py:208 | "слово" against itself reads back "СЛОВО", all Exact |
| `ScoringExamples.PlainWordsMatchReference` | src/core/game.py:113-115 | for words without ё or Ё, the marks are the reference marks of the words as given |
| `ScoringExamples.NoSharedLetterExample` | tests/test_scenarios.py:206 | "книга" against "слово" is all Absent |
| `ScoringExamples.PartialExample` | tests/test_scenarios.py:207 | "солнц" against "слово" is Exact, Partial, Partial, Absent, Absent |
| `ScoringExamples.RepeatedLetterExample` | src/core/game.py:146-151 | "оооо" against "слон" marks only the exact о |
| `ScoringExamples.RepeatedLetterInBothSets` | src/core/game.py:148-152 | within one call a repeated letter can be in both the correct and the used set |
| `Legacy.LegacyNormalize` | game.py:6-7 | the legacy normalisation keeps the length, turns every ё into е, and keeps every other character, so a capital Ё survives |
| `Legacy.LegacyFeedback` | game.py:3-25 | one pass over the zipped words: as long as the shorter word, upper-cased letters, Exact where equal, Partial where unequal but present anywhere in the secret, Absent otherwise, with the letter sets of the marked and Absent positions |
| `Legacy.LegacyLoop` | game.py:13-24 | the loop keeps its earlier output and gives each later position its upper-cased letter and the legacy mark |
| `Legacy.LegacyLettersExact` | game.py:16-23 | for lower-case guesses a guess letter is reported correct exactly when it occurs in the secret, and the two sets are disjoint |
| `Legacy.LegacyRefinesExact` | game.py:13-23 | without capital Ё, the legacy result is the start of the two-pass result, and all of it when the guess is no longer than the secret; on the positions the legacy loop scores, Exact agrees and each two-pass Partial is a legacy Partial |
| `Legacy.LegacyOverCounts` | game.py:18-20 | against "слон" the guess "оооо" gets four marked о's for one о in the secret; the two-pass scorer marks one |
| `Legacy.LegacyCreateGame` | game.py:27-38 | a fresh record (waiting for the word, empty secret, no attempts, 6 attempts allowed) under the ordered key, other keys unchanged |
| `Legacy.LegacyGetGame` | game.py:40-42 | the record under the ordered key, or nothing |
| `Legacy.LegacyDeleteGame` | game.py:44-47 | removes only that key; no change when absent |
| `Sessions.CreateGame` | src/core/game.py:44-69 | a game with the dataclass defaults (waiting for the word, empty secret, no attempts, 6 allowed, no language, empty letter sets) under (setter, guesser), replacing any game there; every other key unchanged |
| `Sessions.GetGame` | src/core/game.py:72-83 | exactly the game stored under the ordered key, or nothing |
| `Sessions.DeleteGame` | src/core/game.py:86-95 | removes exactly that key; a no-op when the key is absent; the other games keep their insertion order |
| `Sessions.KeyIsOrdered` | src/core/game.py:68 | creating A's game for B leaves B's game for A untouched |
| `Directory.GetUserChatId` | src/core/user.py:35-45 | the stored chat id, or nothing for an unknown user or a record without one |
| `Directory.UpdateUserData` | src/core/user.py:48-64 | the record gets the chat id (created if missing), the last partner only when a non-empty one is given, and no other record changes |
| `Directory.RecordPairing` | src/bot/handlers/game.py:121-124 | both players are registered with their chat ids and each has the other as last partner; nobody else changes |
| `GameHandlers.CallbackData` | src/bot/keyboards/inline.py:16 | the button data is the prefix followed by the partner's name |
| `GameHandlers.CallbackPartner` | src/bot/handlers/game.py:238 | decoding never lengthens the data, leaves data without the prefix unchanged, and shortens data that contains the prefix by at least the prefix's length |
| `GameHandlers.CallbackRoundTrip` | src/bot/handlers/game.py:238 | the button decodes back to its partner whenever the name does not contain the prefix |
| `GameHandlers.NewGameCommand` | src/bot/handlers/game.py:78-90 | no user name is refused; otherwise the prompt carries a last-partner button exactly when a non-empty last partner is stored, encoding that partner |
| `GameHandlers.ParsePartner` | src/bot/handlers/game.py:104-107 | the partner is the stripped text without its leading `@`, or the stripped text itself when there is none |
| `GameHandlers.ParsePartnerForms` | src/bot/handlers/game.py:104-107 | a name typed with or without `@` reads back as the name |
| `GameHandlers.SetPlayer` | src/bot/handlers/game.py:104-127 | refused, changing nothing, exactly when the partner is unknown or the pair already has a game; otherwise a fresh game with both chat ids, other games unchanged, and both players recorded as partners |
| `GameHandlers.HandleLastPartner` | src/bot/handlers/game.py:238-269 | the same refusal and pairing, with the partner decoded from the button and both chat ids read from the directory |
| `GameHandlers.DetectLanguage` | src/bot/handlers/game.py:162-169 | a word given a language is made of lower-case letters; a non-empty word is Russian exactly when all its letters are а..я or ё and English exactly when all are a..z, so the order of the tests matters only for the empty word; a word given none is non-empty |
| `GameHandlers.ReceiveWord` | src/bot/handlers/game.py:153-173 | a word of the wrong length or with a non-letter, or in mixed alphabets, changes nothing; otherwise the language is set, and a game waiting for its word also takes the word as secret and starts awaiting guesses; no other game changes |
| `GameHandlers.CancelCommand` | src/bot/handlers/game.py:210-221 | deletes the first game the user takes part in, whatever its state, and only that one, keeping the other games in their order; without one, nothing changes |
| `GuessHandler.ActiveGameOf` | src/bot/handlers/guess.py:39-48 | the first game in which the user is the guesser and guesses are awaited, or nothing when there is none |
| `GuessHandler.InAlphabet` | src/bot/handlers/guess.py:64-74 | a game without a language accepts any guess; a Russian game accepts exactly the guesses whose letters are all а..я or ё; a guess accepted by a game with a language is lower case once ё is read as е |
| `GuessHandler.MergeLetters` | src/bot/handlers/guess.py:88-89 | known letters are never forgotten, new letters come only from the attempt, and disjoint sets stay disjoint |
| `GuessHandler.Record` | src/bot/handlers/guess.py:84-89 | an attempt appends exactly one scored entry at the end and otherwise changes only the letter sets, which only grow |
| `GuessHandler.DecideAttempt` | src/bot/handlers/guess.py:84-268 | for a guess that passed the checks: the attempt is recorded; an undelivered reply stops there; otherwise the game is won exactly when the guess equals the secret after normalisation, lost when the attempts reach the allowance, and goes on with a positive remaining count otherwise; a win or loss deletes the game, keeping the other games in their order, and records the partners |
| `GuessHandler.CheckedGuess` | src/bot/handlers/guess.py:54-268 | a guess of the wrong length or with a non-letter is refused with the secret's length, one outside the game's alphabet is refused as the wrong language, both without any change; any other guess is decided as above |
| `GuessHandler.HandleGuess` | src/bot/handlers/guess.py:35-268 | no game, a bad length or non-letter, or the wrong alphabet change nothing; an accepted guess wins exactly when it equals the secret after normalisation, whatever the count; otherwise it loses when the attempts reach the allowance, revealing the upper-cased secret; a win or loss deletes the game, keeping the other games in their order, and records the partners; otherwise the attempt is recorded and the remaining count is positive |
| `AddTryHandler.SetterGameOf` | src/bot/handlers/addtry.py:19-23 | the first game the user set that awaits guesses, or nothing when there is none |
| `AddTryHandler.AddTry` | src/bot/handlers/addtry.py:17-32 | without such a game nothing changes; otherwise only that game's allowance grows by one, and its guesser is notified |
| `Invariants.CreateGameValid` | src/core/game.py:62-68 | creating a game keeps the registry valid |
| `Invariants.SetPlayerValid` | src/bot/handlers/game.py:104-127 | pairing by name keeps the registry valid |
| `Invariants.HandleLastPartnerValid` | src/bot/handlers/game.py:238-269 | pairing by button keeps the registry valid |
| `Invariants.ReceiveWordValid` | src/bot/handlers/game.py:153-173 | setting the word keeps the registry valid: a started game has a language and a lower-case secret of four to eight letters |
| `Invariants.CancelValid` | src/bot/handlers/game.py:210-221 | cancelling keeps the registry valid |
| `Invariants.AddTryValid` | src/bot/handlers/addtry.py:19-28 | adding an attempt keeps the registry valid |
| `Invariants.MergeKeepsSound` | src/bot/handlers/guess.py:88-89 | merging a sound attempt into sound knowledge keeps it sound |
| `Invariants.AttemptScored` | src/bot/handlers/guess.py:84-85 | the attempt recorded for an accepted guess carries the reference marks of the guess it shows against the secret |
| `Invariants.RecordValid` | src/bot/handlers/guess.py:84-89 | recording an accepted guess keeps the game valid: every attempt stays scored against the secret, and the letter sets stay sound |
| `Invariants.HandleGuessValid` | src/bot/handlers/guess.py:35-268 | every guess keeps the registry valid |
| `Invariants.DetectedLanguageAccepts` | src/bot/handlers/guess.py:64-74 | the language set for a word is Russian exactly when the word passes the guess check of a Russian game, and English exactly when it passes only the check of an English game; a word passes the check of the language set for it |
| `Invariants.SetWordIsAcceptableGuess` | src/bot/handlers/game.py:163-173 | a word the setter can set passes the guesser's length, letter and alphabet checks and reads back unchanged from a message |
| `Invariants.SecondWordLocksSecret` | src/bot/handlers/game.py:162-173 | a second, English word for a game with a Russian secret that already awaits guesses changes only the language, after which the secret fails its own game's alphabet check |
| `Invariants.WrongAlphabetRefused` | src/bot/handlers/guess.py:64-74 | a guess of the right length and all letters, but outside the active game's alphabet, is refused as being in the wrong language, even when it spells the secret |
| `Invariants.LockedSecretExample` | src/bot/handlers/guess.py:71-74 | after the setter of the Russian game "слово" sends "word", the guess "слово" is refused as being in the wrong language |
| `Invariants.SwitchBackExample` | src/bot/handlers/game.py:162-173 | when the same setter then sends the Russian word "мама", the game switches back to Russian and the guess "слово" wins it |
| `Invariants.GuessingTheSecretWins` | src/bot/handlers/guess.py:175-218 | sending the secret of one's active game wins it, whenever the secret passes the game's current alphabet check |

## Left out

- Telegram I/O is not modelled: replies, notifications, Markdown text, the deletion of the previous attempt message, command-menu updates and logging. Each handler returns the reply it chooses as an outcome value.
- The retry ladders on timeouts are not modelled, except the one that ends `handle_guess` early. That one is the `replyDelivered` parameter.
- The random GIF choice is not modelled, because it depends on the file system and on randomness.
- Loading and saving the user file is not modelled. The directory is the in-memory map.
- Concurrent updates are not modelled. Every handler is one atomic step on the registry.
- The conversation state that tells `receive_word` which game is meant is not modelled. It becomes the `setter` and `guesser` parameters.
- The legacy monolithic bot in `main.py` and the command plumbing are not modelled.
- The remaining-letters display and the emoji rendering of marks are not modelled. Marks are the values Exact, Partial and Absent.
- Characters: upper and lower case are modelled only for ASCII and Cyrillic U+0400..U+045F. `isalpha` accepts only those letters. `strip` uses Python's white-space set.
- GameHandlers.ReceiveWord: requires the game to exist only when the word passes the length and letter checks and lies in one alphabet. Only then does the source set the language on the game, and on a missing game that raises.
- GameHandlers.SetPlayer: requires the partner's record to hold a chat id when the pairing goes ahead. The source reads it unguarded.
- GameHandlers.HandleLastPartner: requires both records to hold chat ids when the pairing goes ahead. The source reads them unguarded.
- GameHandlers.NewGameCommand: a missing user name is modelled as the empty name.
- Invariants.GuessingTheSecretWins: states the Won outcome only. The attempt count it reports is stated by `GuessHandler.HandleGuess`. It also requires the secret to pass the game's current alphabet check. A second word in the other alphabet breaks that check: the game's secret then cannot be guessed until the setter sends another word in the secret's alphabet (`SecondWordLocksSecret`, `LockedSecretExample`, `SwitchBackExample`).

## Findings

| source | as written | input that shows it | evidently intended | confidence | as-written member | corrected member |
|---|---|---|---|---|---|---|
| game.py:18-20 | a guess letter that differs from the secret letter is Partial whenever it occurs anywhere in the secret, however many times the guess repeats it | secret "слон", guess "оооо": marked Partial, Partial, Exact, Partial, so four marked о's for one о | a letter is marked no more often than it occurs in the secret, as the two-pass scorer in src/core/game.py:122-152 does | high for the input shown, not executed | `Legacy.LegacyOverCounts` | `Scoring.MultiplicityBound` |
