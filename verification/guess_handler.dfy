/**
  The guess handler (src/bot/handlers/guess.py): finds the guesser's active
  game, checks the guess, scores it, records the attempt and the letters it
  revealed, and decides between a win, a loss and another try.
*/
module GuessHandler {
  import opened Wrappers
  import opened Text
  import opened OrderedDict
  import opened Scoring
  import opened Sessions
  import opened Directory

  /** Whether the entry is a game this user is guessing in. */
  predicate GuessingIn(guesser: string, k: Key, g: Game) {
    k.guesser == guesser && g.state == WaitingForGuess
  }

  /** The first game, in insertion order, in which the user is guessing. */
  function ActiveGameOf(games: Games, guesser: string): (r: Option<nat>)
    ensures r.Some? ==> r.value < |games| && GuessingIn(guesser, games[r.value].key, games[r.value].value)
    ensures r.Some? ==> forall j :: 0 <= j < r.value ==> !GuessingIn(guesser, games[j].key, games[j].value)
    ensures r.None? <==> forall j :: 0 <= j < |games| ==> !GuessingIn(guesser, games[j].key, games[j].value)
  {
    FindFirst(games, (k: Key, g: Game) => GuessingIn(guesser, k, g))
  }

  /** The alphabet check of a guess: a Russian game takes а..я once ё is read
      as е, an English game takes a..z, and a game without a language takes
      anything. A guess a language accepts is lower case once ё is read as е. */
  function InAlphabet(language: Option<Language>, msg: string): (b: bool)
    ensures language == None ==> b
    ensures language == Some(Russian) ==>
              (b <==> forall i :: 0 <= i < |msg| ==> CyrA <= msg[i] <= CyrYa || msg[i] == CyrIo)
    ensures b && language.Some? ==> LowerWord(msg)
  {
    match language
    case Some(Russian) =>
      var m := ReplaceChar(msg, CyrIo, CyrIe);
      forall i :: 0 <= i < |m| ==> CyrA <= m[i] <= CyrYa
    case Some(English) => forall i :: 0 <= i < |msg| ==> 'a' <= msg[i] <= 'z'
    case None => true
  }

  /** The letter bookkeeping after an attempt: newly correct letters are added
      unless already known absent, and newly absent ones unless now known
      correct. Known letters are never forgotten, and the two sets stay
      disjoint. */
  function MergeLetters(correct: set<char>, used: set<char>, cl: set<char>, ul: set<char>)
    : (r: (set<char>, set<char>))
    ensures correct <= r.0 && used <= r.1
    ensures r.0 <= correct + cl && r.1 <= used + ul
    ensures cl - used <= r.0 && ul - r.0 <= r.1
    ensures correct !! used ==> r.0 !! r.1
  {
    var c := correct + (cl - used);
    (c, used + (ul - c))
  }

  /** The game after one scored attempt of `msg`. */
  function Record(g: Game, msg: string): (g': Game)
    ensures g'.attempts == g.attempts + [Attempt(GetFeedback(g.secret, msg).result, GetFeedback(g.secret, msg).marks)]
    ensures g' == g.(attempts := g'.attempts, correct := g'.correct, used := g'.used)
    ensures g.correct <= g'.correct && g.used <= g'.used
  {
    var fb := GetFeedback(g.secret, msg);
    var letters := MergeLetters(g.correct, g.used, fb.correct, fb.used);
    g.(attempts := g.attempts + [Attempt(fb.result, fb.marks)], correct := letters.0, used := letters.1)
  }

  datatype GuessOutcome =
    | NoActiveGame
    | InvalidGuess(length: nat)
    | WrongLanguage
    | ReplyFailed
    | Won(attempts: nat)
    | Lost(secretShown: string)
    | TryAgain(remaining: int)

  datatype GuessResult = GuessResult(games: Games, users: Users, outcome: GuessOutcome)

  /** A guess that passes the length, letter and alphabet checks. */
  predicate Acceptable(g: Game, msg: string) {
    |msg| == |g.secret| && IsAlpha(msg) && InAlphabet(g.language, msg)
  }

  /** The part of `handle_guess` after the guess passed every check: the
      attempt is recorded, then the game at position `i` is won, lost or goes
      on. `replyDelivered` is false when sending the attempt to the guesser
      timed out twice: the attempt stays recorded and the game is not decided. */
  function DecideAttempt(games: Games, users: Users, i: nat, guesser: string, guesserChat: int, msg: string,
                         replyDelivered: bool): (r: GuessResult)
    requires i < |games| && games[i].key.guesser == guesser
    ensures var k, g := games[i].key, games[i].value;
            && (r.outcome.ReplyFailed? || r.outcome.Won? || r.outcome.Lost? || r.outcome.TryAgain?)
            && (r.outcome.ReplyFailed? <==> !replyDelivered)
            && (r.outcome.Won? <==> replyDelivered && Normalize(msg) == Normalize(g.secret))
            && (r.outcome.Lost? <==>
                  replyDelivered && Normalize(msg) != Normalize(g.secret) && |g.attempts| + 1 >= g.maxAttempts)
            && (r.outcome.Won? ==> r.outcome.attempts == |g.attempts| + 1)
            && (r.outcome.Lost? ==> r.outcome.secretShown == Upper(g.secret))
            && (r.outcome.TryAgain? ==> r.outcome.remaining == g.maxAttempts - (|g.attempts| + 1) > 0)
            && (r.outcome.Won? || r.outcome.Lost? ==>
                  && View(r.games) == View(games) - {k}
                  && (DistinctKeys(games) ==> r.games == games[..i] + games[i + 1..])
                  && r.users == RecordPairing(users, k.setter, g.setterChat, guesser, guesserChat))
            && (r.outcome.ReplyFailed? || r.outcome.TryAgain? ==>
                  && r.users == users
                  && Keys(r.games) == Keys(games)
                  && r.games[i].value == Record(g, msg)
                  && (forall j :: 0 <= j < |games| && j != i ==> r.games[j] == games[j])
                  && (DistinctKeys(games) ==> View(r.games) == View(games)[k := Record(g, msg)]))
    ensures DistinctKeys(games) ==> DistinctKeys(r.games)
  {
    var k, g := games[i].key, games[i].value;
    var g' := Record(g, msg);
    var attemptNumber := |g'.attempts|;
    if !replyDelivered then GuessResult(UpdateAt(games, i, g'), users, ReplyFailed)
    else if Normalize(msg) == Normalize(g.secret) || attemptNumber >= g'.maxAttempts then
      var rest := DeleteGame(games, k.setter, guesser);
      assert k == Key(k.setter, guesser);
      assert DistinctKeys(games) ==> rest == games[..i] + games[i + 1..];
      var pairs := RecordPairing(users, k.setter, g.setterChat, guesser, guesserChat);
      if Normalize(msg) == Normalize(g.secret) then GuessResult(rest, pairs, Won(attemptNumber))
      else GuessResult(rest, pairs, Lost(Upper(g.secret)))
    else
      GuessResult(UpdateAt(games, i, g'), users, TryAgain(g'.maxAttempts - attemptNumber))
  }

  /** What `handle_guess` promises once the guesser's active game is the one
      at position `i` and the stripped, lower-cased message is `msg`: the
      length and letter check, then the alphabet check, then the attempt is
      recorded and the game is won exactly when the guess is the secret once ё
      is read as е, lost when the attempts reach the allowance, and otherwise
      goes on. */
  predicate GuessSettled(games: Games, users: Users, i: nat, guesser: string, guesserChat: int, msg: string,
                         replyDelivered: bool, r: GuessResult)
    requires i < |games|
  {
    var k, g := games[i].key, games[i].value;
    && (r.outcome.InvalidGuess? <==> |msg| != |g.secret| || !IsAlpha(msg))
    && (r.outcome.InvalidGuess? ==> r.outcome.length == |g.secret|)
    && (r.outcome.WrongLanguage? <==> |msg| == |g.secret| && IsAlpha(msg) && !InAlphabet(g.language, msg))
    && (r.outcome.ReplyFailed? <==> Acceptable(g, msg) && !replyDelivered)
    && (r.outcome.Won? <==> Acceptable(g, msg) && replyDelivered && Normalize(msg) == Normalize(g.secret))
    && (r.outcome.Lost? <==>
          Acceptable(g, msg) && replyDelivered && Normalize(msg) != Normalize(g.secret)
          && |g.attempts| + 1 >= g.maxAttempts)
    && (r.outcome.Won? ==> r.outcome.attempts == |g.attempts| + 1)
    && (r.outcome.Lost? ==> r.outcome.secretShown == Upper(g.secret))
    && (r.outcome.TryAgain? ==> r.outcome.remaining == g.maxAttempts - (|g.attempts| + 1) > 0)
    && (r.outcome.Won? || r.outcome.Lost? ==>
          && View(r.games) == View(games) - {k}
          && (DistinctKeys(games) ==> r.games == games[..i] + games[i + 1..])
          && r.users == RecordPairing(users, k.setter, g.setterChat, guesser, guesserChat))
    && (r.outcome.ReplyFailed? || r.outcome.TryAgain? ==>
          && r.users == users
          && Keys(r.games) == Keys(games)
          && r.games[i].value == Record(g, msg)
          && (forall j :: 0 <= j < |games| && j != i ==> r.games[j] == games[j])
          && (DistinctKeys(games) ==> View(r.games) == View(games)[k := Record(g, msg)]))
  }

  /** `handle_guess` from the length check on, for the guesser's active game
      at position `i`. */
  function CheckedGuess(games: Games, users: Users, i: nat, guesser: string, guesserChat: int, msg: string,
                        replyDelivered: bool): (r: GuessResult)
    requires i < |games| && games[i].key.guesser == guesser
    ensures !r.outcome.NoActiveGame?
    ensures DistinctKeys(games) ==> DistinctKeys(r.games)
    ensures r.outcome.InvalidGuess? || r.outcome.WrongLanguage? ==> r.games == games && r.users == users
    ensures GuessSettled(games, users, i, guesser, guesserChat, msg, replyDelivered, r)
  {
    var g := games[i].value;
    if |msg| != |g.secret| || !IsAlpha(msg) then GuessResult(games, users, InvalidGuess(|g.secret|))
    else if !InAlphabet(g.language, msg) then GuessResult(games, users, WrongLanguage)
    else DecideAttempt(games, users, i, guesser, guesserChat, msg, replyDelivered)
  }

  /** `handle_guess`. `replyDelivered` is false when sending the attempt to
      the guesser timed out twice: the attempt stays recorded and the handler
      stops before deciding the game. */
  function HandleGuess(games: Games, users: Users, guesser: string, guesserChat: int, text: string,
                       replyDelivered: bool): (r: GuessResult)
    ensures r.outcome.NoActiveGame? <==> ActiveGameOf(games, guesser).None?
    ensures DistinctKeys(games) ==> DistinctKeys(r.games)
    ensures r.outcome.NoActiveGame? || r.outcome.InvalidGuess? || r.outcome.WrongLanguage? ==>
              r.games == games && r.users == users
    ensures ActiveGameOf(games, guesser).Some? ==>
              GuessSettled(games, users, ActiveGameOf(games, guesser).value, guesser, guesserChat,
                           Lower(Strip(text)), replyDelivered, r)
  {
    match ActiveGameOf(games, guesser)
    case None => GuessResult(games, users, NoActiveGame)
    case Some(i) => CheckedGuess(games, users, i, guesser, guesserChat, Lower(Strip(text)), replyDelivered)
  }
}
