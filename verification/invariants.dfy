/**
  The registry invariant every handler keeps: each game sits under its own
  (setter, guesser) key; a game waiting for its word is fresh; a game
  waiting for guesses has a language and a well-formed lower-case secret,
  attempts of the secret's length that carry the reference marks of the
  guess they show, and letter sets that never mislead the guesser.
*/
module Invariants {
  import opened Wrappers
  import opened Text
  import opened OrderedDict
  import opened Scoring
  import opened Sessions
  import opened Directory
  import opened GameHandlers
  import opened GuessHandler
  import opened AddTryHandler

  /** What the guesser is told is true of the secret: every correct letter
      occurs in it, no used letter does, and no letter is in both sets. */
  predicate KnowledgeSound(g: Game) {
    && g.correct !! g.used
    && g.correct <= SecretLetters(g.secret)
    && g.used !! SecretLetters(g.secret)
  }

  /** An attempt carries the marks the scorer gives its shown guess, read in
      lower case, against this secret. */
  predicate ScoredAgainst(secret: string, a: Attempt) {
    a.feedback == ReferenceMarks(Normalize(secret), Lower(a.result))
  }

  predicate ValidGame(k: Key, g: Game) {
    && g.setter == k.setter && g.guesser == k.guesser
    && (g.state == WaitingForWord ==>
          g.secret == "" && g.attempts == [] && g.language == None && g.correct == {} && g.used == {})
    && (g.state == WaitingForGuess ==>
          && g.language.Some?
          && WordAccepted(g.secret) && LowerWord(g.secret)
          && (forall j :: 0 <= j < |g.attempts| ==>
                && |g.attempts[j].result| == |g.secret| && |g.attempts[j].feedback| == |g.secret|
                && ScoredAgainst(g.secret, g.attempts[j]))
          && KnowledgeSound(g))
  }

  predicate ValidStore(games: Games) {
    DistinctKeys(games) && forall k :: k in View(games) ==> ValidGame(k, View(games)[k])
  }

  lemma ValidAt(games: Games, i: nat)
    requires ValidStore(games) && i < |games|
    ensures games[i].key in View(games) && View(games)[games[i].key] == games[i].value
    ensures ValidGame(games[i].key, games[i].value)
  {
    ViewAt(games, i);
  }

  /** A fresh game keeps the store valid. */
  lemma CreateGameValid(games: Games, setter: string, guesser: string, setterChat: int, guesserChat: int)
    requires ValidStore(games)
    ensures ValidStore(CreateGame(games, setter, guesser, setterChat, guesserChat))
  {
    var r := CreateGame(games, setter, guesser, setterChat, guesserChat);
    forall k | k in View(r)
      ensures ValidGame(k, View(r)[k])
    {
      if k != Key(setter, guesser) {
        assert Get(r, k) == Get(games, k);
      }
    }
  }

  lemma SetPlayerValid(games: Games, users: Users, setter: string, setterChat: int, text: string)
    requires ValidStore(games) && SetPlayerReads(games, users, setter, text)
    ensures ValidStore(SetPlayer(games, users, setter, setterChat, text).games)
  {
    var p := ParsePartner(text);
    if p in users && GetGame(games, setter, p).None? {
      var guesserChat := if p == setter then setterChat else users[p].chatId.value;
      CreateGameValid(games, setter, p, setterChat, guesserChat);
    }
  }

  lemma HandleLastPartnerValid(games: Games, users: Users, setter: string, data: string)
    requires ValidStore(games) && LastPartnerReads(games, users, setter, data)
    ensures ValidStore(HandleLastPartner(games, users, setter, data).games)
  {
    var p := CallbackPartner(data);
    if p in users && GetGame(games, setter, p).None? {
      CreateGameValid(games, setter, p, users[setter].chatId.value, users[p].chatId.value);
    }
  }

  /** A word in either alphabet is lower case once ё is read as е. */
  lemma LanguageWordIsLower(w: string)
    requires IsRussianWord(w) || IsEnglishWord(w)
    ensures LowerWord(w)
  {
  }

  lemma ReceiveWordValid(games: Games, setter: string, guesser: string, text: string)
    requires ValidStore(games) && ReceiveWordReads(games, setter, guesser, text)
    ensures ValidStore(ReceiveWord(games, setter, guesser, text).games)
  {
    var r := ReceiveWord(games, setter, guesser, text);
    var word, k := Lower(Strip(text)), Key(setter, guesser);
    if r.outcome.WordSet? || r.outcome.LanguageOnly? {
      var g, g' := View(games)[k], View(r.games)[k];
      assert ValidGame(k, g);
      if r.outcome.WordSet? {
        LanguageWordIsLower(word);
        assert KnowledgeSound(g');
      } else {
        assert g'.attempts == g.attempts && g'.secret == g.secret;
      }
      assert ValidGame(k, g');
      UpdatedStoreValid(games, r.games, k, g');
    }
  }

  lemma CancelValid(games: Games, user: string)
    requires ValidStore(games)
    ensures ValidStore(CancelCommand(games, user).games)
  {
  }

  /** Replacing one valid game by another valid one keeps the store valid. */
  lemma UpdatedStoreValid(games: Games, games': Games, k: Key, g': Game)
    requires ValidStore(games) && k in View(games) && ValidGame(k, g')
    requires Keys(games') == Keys(games) && View(games') == View(games)[k := g']
    ensures ValidStore(games')
  {
    assert DistinctKeys(games');
    forall k' | k' in View(games')
      ensures ValidGame(k', View(games')[k'])
    {
      if k' != k {
        assert View(games')[k'] == View(games)[k'];
      }
    }
  }

  /** Deleting a game keeps the store valid. */
  lemma RemovedStoreValid(games: Games, games': Games, k: Key)
    requires ValidStore(games) && DistinctKeys(games') && View(games') == View(games) - {k}
    ensures ValidStore(games')
  {
  }

  lemma AddTryValid(games: Games, setter: string)
    requires ValidStore(games)
    ensures ValidStore(AddTry(games, setter).games)
  {
    var r := AddTry(games, setter);
    if r.notify.Some? {
      var i := SetterGameOf(games, setter).value;
      ValidAt(games, i);
      UpdatedStoreValid(games, r.games, games[i].key, r.games[i].value);
    }
  }

  /** The alphabet check makes a guess lower case once ё is read as е. */
  lemma InAlphabetIsLower(language: Option<Language>, msg: string)
    requires language.Some? && InAlphabet(language, msg)
    ensures LowerWord(msg)
  {
    if language == Some(Russian) {
      var m := ReplaceChar(msg, CyrIo, CyrIe);
      assert forall i :: 0 <= i < |msg| ==> CyrA <= m[i] <= CyrYa;
    }
  }

  /** Merging what an attempt revealed keeps the guesser's knowledge sound,
      provided the attempt's own correct letters occur in the secret and its
      absent letters that are not also correct do not. */
  lemma MergeKeepsSound(correct: set<char>, used: set<char>, cl: set<char>, ul: set<char>, s: set<char>)
    requires correct <= s && used !! s && cl <= s && (ul - cl) !! s
    ensures var m := MergeLetters(correct, used, cl, ul); m.0 <= s && m.1 !! s
  {
  }

  /** The attempt recorded for a guess in lower case (once ё is read as е) is
      scored against the secret: its marks are the reference marks of the
      guess it shows. */
  lemma AttemptScored(secret: string, msg: string)
    requires LowerWord(msg)
    ensures var fb := GetFeedback(secret, msg); ScoredAgainst(secret, Attempt(fb.result, fb.marks))
  {
    assert forall i :: 0 <= i < |msg| ==> IsLowerLetter(Normalize(msg)[i]);
    UpperLowerRoundTrip(Normalize(msg));
    FeedbackMatchesReference(secret, msg);
  }

  /** Recording a lower-case guess of the secret's length keeps every attempt
      of the secret's length and scored against it. */
  lemma RecordKeepsAttemptsScored(g: Game, msg: string)
    requires |msg| == |g.secret| && LowerWord(msg)
    requires forall j :: 0 <= j < |g.attempts| ==>
               && |g.attempts[j].result| == |g.secret| && |g.attempts[j].feedback| == |g.secret|
               && ScoredAgainst(g.secret, g.attempts[j])
    ensures var g' := Record(g, msg);
            forall j :: 0 <= j < |g'.attempts| ==>
              && |g'.attempts[j].result| == |g'.secret| && |g'.attempts[j].feedback| == |g'.secret|
              && ScoredAgainst(g'.secret, g'.attempts[j])
  {
    AttemptScored(g.secret, msg);
    var g' := Record(g, msg);
    assert forall j :: 0 <= j < |g.attempts| ==> g'.attempts[j] == g.attempts[j];
  }

  /** An accepted attempt keeps a valid game valid. */
  lemma RecordValid(k: Key, g: Game, msg: string)
    requires ValidGame(k, g) && g.state == WaitingForGuess && Acceptable(g, msg)
    ensures ValidGame(k, Record(g, msg))
  {
    var fb := GetFeedback(g.secret, msg);
    InAlphabetIsLower(g.language, msg);
    RecordKeepsAttemptsScored(g, msg);
    CorrectLettersSound(g.secret, msg);
    AbsentLettersSound(g.secret, msg);
    MergeKeepsSound(g.correct, g.used, fb.correct, fb.used, SecretLetters(g.secret));
    var g' := Record(g, msg);
    assert forall j :: 0 <= j < |g.attempts| ==> g'.attempts[j] == g.attempts[j];
  }

  lemma HandleGuessValid(games: Games, users: Users, guesser: string, guesserChat: int, text: string,
                         replyDelivered: bool)
    requires ValidStore(games)
    ensures ValidStore(HandleGuess(games, users, guesser, guesserChat, text, replyDelivered).games)
  {
    var r := HandleGuess(games, users, guesser, guesserChat, text, replyDelivered);
    if r.outcome.ReplyFailed? || r.outcome.TryAgain? {
      var i := ActiveGameOf(games, guesser).value;
      var k, g, msg := games[i].key, games[i].value, Lower(Strip(text));
      ValidAt(games, i);
      RecordValid(k, g, msg);
      UpdatedStoreValid(games, r.games, k, Record(g, msg));
    } else if r.outcome.Won? || r.outcome.Lost? {
      var i := ActiveGameOf(games, guesser).value;
      RemovedStoreValid(games, r.games, games[i].key);
    }
  }

  /** A word in either alphabet reads back unchanged from a message holding it. */
  lemma LanguageWordReadsBack(w: string)
    requires IsAlpha(w) && (IsRussianWord(w) || IsEnglishWord(w))
    ensures Lower(Strip(w)) == w
  {
    LetterNotSpace(w[0]);
    LetterNotSpace(w[|w| - 1]);
    StripStripped(w);
    forall i | 0 <= i < |w|
      ensures Lower(w)[i] == w[i]
    {
      assert IsLowerLetter(w[i]);
      LowerFixesLower(w[i]);
    }
  }

  /** The language `receive_word` detects for a word is the one whose alphabet
      check in `handle_guess` the word passes: Russian when it passes the
      Russian check, English when it passes only the English one, and none when
      it passes neither. In particular a word passes the check of the language
      detected for it. */
  lemma DetectedLanguageAccepts(w: string)
    ensures DetectLanguage(w) == Some(Russian) <==> InAlphabet(Some(Russian), w)
    ensures DetectLanguage(w) == Some(English) <==> !InAlphabet(Some(Russian), w) && InAlphabet(Some(English), w)
    ensures DetectLanguage(w).Some? ==> InAlphabet(DetectLanguage(w), w)
  {
    if DetectLanguage(w) == Some(Russian) {
      var m := ReplaceChar(w, CyrIo, CyrIe);
      assert forall i :: 0 <= i < |m| ==> CyrA <= m[i] <= CyrYa;
    }
  }

  /** The word a setter sets is a guess its game accepts, and it reads back
      unchanged from the guesser's message: `ReceiveWord` sets exactly such
      a word as the secret, with exactly this language. */
  lemma SetWordIsAcceptableGuess(g: Game, word: string)
    requires WordAccepted(word) && DetectLanguage(word).Some?
    requires g.secret == word && g.language == DetectLanguage(word)
    ensures Acceptable(g, g.secret) && Lower(Strip(g.secret)) == g.secret
  {
    DetectedLanguageAccepts(word);
    LanguageWordReadsBack(word);
  }

  /** A second word for a game that already awaits guesses switches only its
      language. When the secret is Russian and the second word English, the
      secret no longer passes the alphabet check of its own game, until a
      later Russian word switches the language back. */
  lemma SecondWordLocksSecret(games: Games, setter: string, guesser: string, text: string)
    requires Key(setter, guesser) in View(games)
    requires var g := View(games)[Key(setter, guesser)];
             g.state == WaitingForGuess && |g.secret| > 0 && IsRussianWord(g.secret)
    requires WordAccepted(Lower(Strip(text))) && IsEnglishWord(Lower(Strip(text)))
    ensures var k, r := Key(setter, guesser), ReceiveWord(games, setter, guesser, text);
            && r.outcome == LanguageOnly
            && View(r.games)[k].secret == View(games)[k].secret
            && !InAlphabet(View(r.games)[k].language, View(games)[k].secret)
  {
    var k, word := Key(setter, guesser), Lower(Strip(text));
    var g := View(games)[k];
    assert DetectLanguage(word) == Some(English);
    var r := ReceiveWord(games, setter, guesser, text);
    assert r.outcome == LanguageOnly;
    assert View(r.games)[k] == g.(language := Some(English));
    assert !InAlphabet(Some(English), g.secret) by { assert !('a' <= g.secret[0] <= 'z'); }
  }

  /** The Russian game of ann and bob with the secret "слово". */
  function SlovoGame(language: Language): Game {
    Game("ann", "bob", 1, 2, "слово", WaitingForGuess, [], 6, Some(language), {}, {})
  }

  /** Sending "word" to the Russian "слово" game switches it to English. */
  lemma LanguageSwitchExample()
    ensures ReceiveWord([Entry(Key("ann", "bob"), SlovoGame(Russian))], "ann", "bob", "word")
            == WordResult([Entry(Key("ann", "bob"), SlovoGame(English))], LanguageOnly)
  {
    var games := [Entry(Key("ann", "bob"), SlovoGame(Russian))];
    LanguageWordReadsBack("word");
    SecondWordLocksSecret(games, "ann", "bob", "word");
  }

  /** A well-formed guess outside the alphabet of the guesser's active game is
      refused, whether or not it spells the secret. */
  lemma WrongAlphabetRefused(games: Games, users: Users, guesser: string, guesserChat: int, text: string,
                             replyDelivered: bool)
    requires ActiveGameOf(games, guesser).Some?
    requires var g, msg := games[ActiveGameOf(games, guesser).value].value, Lower(Strip(text));
             |msg| == |g.secret| && IsAlpha(msg) && !InAlphabet(g.language, msg)
    ensures HandleGuess(games, users, guesser, guesserChat, text, replyDelivered).outcome == WrongLanguage
  {
  }

  /** "слово" reads back unchanged and is all letters, but not English ones. */
  lemma SlovoNotEnglish()
    ensures Lower(Strip("слово")) == "слово" && IsAlpha("слово") && !InAlphabet(Some(English), "слово")
  {
    LanguageWordReadsBack("слово");
    assert !InAlphabet(Some(English), "слово") by { assert !('a' <= "слово"[0] <= 'z'); }
  }

  /** In the switched game the guess "слово", the secret itself, is refused. */
  lemma SwitchedSecretRefused(users: Users)
    ensures HandleGuess([Entry(Key("ann", "bob"), SlovoGame(English))], users, "bob", 2, "слово", true).outcome
            == WrongLanguage
  {
    var games := [Entry(Key("ann", "bob"), SlovoGame(English))];
    SlovoNotEnglish();
    assert ActiveGameOf(games, "bob") == Some(0);
    WrongAlphabetRefused(games, users, "bob", 2, "слово", true);
  }

  /** The secret "слово" of a Russian game cannot be guessed after the setter
      sends "word": the guess that equals the secret is refused as being in
      the wrong alphabet, until a Russian word switches the game back
      (`SwitchBackExample`). */
  lemma LockedSecretExample(users: Users)
    ensures var r := ReceiveWord([Entry(Key("ann", "bob"), SlovoGame(Russian))], "ann", "bob", "word");
            && r.outcome == LanguageOnly
            && HandleGuess(r.games, users, "bob", 2, "слово", true).outcome == WrongLanguage
  {
    LanguageSwitchExample();
    SwitchedSecretRefused(users);
  }

  /** Sending "мама" to the switched game switches it back to Russian. */
  lemma LanguageSwitchBackExample()
    ensures ReceiveWord([Entry(Key("ann", "bob"), SlovoGame(English))], "ann", "bob", "мама")
            == WordResult([Entry(Key("ann", "bob"), SlovoGame(Russian))], LanguageOnly)
  {
    var games := [Entry(Key("ann", "bob"), SlovoGame(English))];
    LanguageWordReadsBack("мама");
    assert DetectLanguage("мама") == Some(Russian) by { assert !('a' <= "мама"[0] <= 'z'); }
  }

  /** The Russian "слово" game accepts its secret as a guess. */
  lemma SlovoAcceptable()
    ensures Acceptable(SlovoGame(Russian), "слово") && Lower(Strip("слово")) == "слово"
  {
    assert DetectLanguage("слово") == Some(Russian) by { assert !('a' <= "слово"[0] <= 'z'); }
    SetWordIsAcceptableGuess(SlovoGame(Russian), "слово");
  }

  /** In the Russian "слово" game the guess "слово" wins. */
  lemma RestoredSecretWins(users: Users)
    ensures HandleGuess([Entry(Key("ann", "bob"), SlovoGame(Russian))], users, "bob", 2, "слово", true).outcome.Won?
  {
    var games := [Entry(Key("ann", "bob"), SlovoGame(Russian))];
    SlovoAcceptable();
    assert ActiveGameOf(games, "bob") == Some(0);
    GuessingTheSecretWins(games, users, "bob", 2);
  }

  /** The lock is not permanent: once the setter sends a word in the secret's
      alphabet again, the secret "слово" is once more a winning guess. */
  lemma SwitchBackExample(users: Users)
    ensures var r1 := ReceiveWord([Entry(Key("ann", "bob"), SlovoGame(Russian))], "ann", "bob", "word");
            var r2 := ReceiveWord(r1.games, "ann", "bob", "мама");
            && r1.outcome == LanguageOnly && r2.outcome == LanguageOnly
            && HandleGuess(r2.games, users, "bob", 2, "слово", true).outcome.Won?
  {
    LanguageSwitchExample();
    LanguageSwitchBackExample();
    RestoredSecretWins(users);
  }

  /** Sending the secret of one's active game wins it, on any attempt, as long
      as the secret passes the game's current alphabet check: the win is
      decided before the attempt count. */
  lemma GuessingTheSecretWins(games: Games, users: Users, guesser: string, guesserChat: int)
    requires ActiveGameOf(games, guesser).Some?
    requires var g := games[ActiveGameOf(games, guesser).value].value;
             Acceptable(g, g.secret) && Lower(Strip(g.secret)) == g.secret
    ensures var g := games[ActiveGameOf(games, guesser).value].value;
            HandleGuess(games, users, guesser, guesserChat, g.secret, true).outcome.Won?
  {
  }
}
