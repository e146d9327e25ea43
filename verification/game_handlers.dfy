/**
  The pairing, word-setting and cancelling handlers (src/bot/handlers/game.py).
  Each handler is a function from the games registry, the user directory and
  the message to the new registry, the new directory and the reply chosen.
*/
module GameHandlers {
  import opened Wrappers
  import opened Text
  import opened OrderedDict
  import opened Sessions
  import opened Directory

  // ---------------------------------------------------------------------
  // /new_game and the last-partner button.
  // ---------------------------------------------------------------------

  const CallbackPrefix: string := "last_partner_"

  /** The button's callback data for a partner (src/bot/keyboards/inline.py). */
  function CallbackData(partner: string): (r: string)
    ensures StartsWith(r, CallbackPrefix) && r[|CallbackPrefix|..] == partner
  {
    CallbackPrefix + partner
  }

  /** `query.data.replace('last_partner_', '')`. */
  function CallbackPartner(data: string): (r: string)
    ensures |r| <= |data|
    ensures !Contains(data, CallbackPrefix) ==> r == data
    ensures Contains(data, CallbackPrefix) ==> |r| <= |data| - |CallbackPrefix|
  {
    RemoveAll(data, CallbackPrefix)
  }

  /** The button decodes to the partner it was made for, unless the name
      itself contains the prefix. */
  lemma CallbackRoundTrip(partner: string)
    requires !Contains(partner, CallbackPrefix)
    ensures CallbackPartner(CallbackData(partner)) == partner
  {
    RemoveAllPrefix(CallbackPrefix, partner);
  }

  datatype NewGameReply = NoUsername | Prompt(button: Option<string>)

  /** `/new_game`: refuses a user without a user name; otherwise prompts for the
      partner, with a button for the stored last partner when there is one. */
  function NewGameCommand(users: Users, name: string): (r: NewGameReply)
    ensures r.NoUsername? <==> name == ""
    ensures r.Prompt? ==> (r.button.Some? <==> name in users && Given(users[name].lastPartner))
    ensures r.Prompt? && r.button.Some? ==> r.button == Some(CallbackData(users[name].lastPartner.value))
  {
    if name == "" then NoUsername
    else if name in users && Given(users[name].lastPartner) then Prompt(Some(CallbackData(users[name].lastPartner.value)))
    else Prompt(None)
  }

  // ---------------------------------------------------------------------
  // Pairing: set_player and handle_last_partner.
  // ---------------------------------------------------------------------

  datatype PairingOutcome = PartnerUnavailable(shown: string) | Paired(setter: string, guesser: string)

  datatype PairingResult = PairingResult(games: Games, users: Users, outcome: PairingOutcome)

  /** `set_player`'s reading of the partner: stripped, with one leading `@`
      added when missing and then dropped. */
  function ParsePartner(text: string): (r: string)
    ensures var t := Strip(text); r == (if StartsWith(t, "@") then t[1..] else t)
  {
    var t := Strip(text);
    var shown := if StartsWith(t, "@") then t else "@" + t;
    shown[1..]
  }

  lemma StripStripped(s: string)
    requires s == [] || (!IsSpace(s[0]) && !IsSpace(s[|s| - 1]))
    ensures Strip(s) == s
  {
    var r := Strip(s);
    var a :| TrimmedAt(s, r, a);
    if s != [] {
      assert !IsSpace(s[0]) && !IsSpace(s[|s| - 1]);
    }
  }

  /** A partner name typed with or without its `@` reads back as the name. */
  lemma ParsePartnerForms(name: string)
    requires name != [] && !IsSpace(name[0]) && !IsSpace(name[|name| - 1]) && name[0] != '@'
    ensures ParsePartner(name) == name
    ensures ParsePartner("@" + name) == name
  {
    StripStripped(name);
    StripStripped("@" + name);
  }

  /** The chat-id reads `set_player` performs succeed: when the pairing goes
      ahead, the partner's record (already rewritten if it is the setter's
      own) carries a chat id. */
  predicate SetPlayerReads(games: Games, users: Users, setter: string, text: string) {
    var p := ParsePartner(text);
    p in users && GetGame(games, setter, p).None? && p != setter ==> users[p].chatId.Some?
  }

  /** `set_player`: refuses a partner unknown to the directory or one this
      setter already has a game with; otherwise records each player as the
      other's last partner and opens a game waiting for the word. */
  function SetPlayer(games: Games, users: Users, setter: string, setterChat: int, text: string): (r: PairingResult)
    requires SetPlayerReads(games, users, setter, text)
    ensures var p := ParsePartner(text);
            && (r.outcome.PartnerUnavailable? <==> p !in users || GetGame(games, setter, p).Some?)
            && (r.outcome.PartnerUnavailable? ==>
                  r.games == games && r.users == users && r.outcome.shown == "@" + p)
            && (r.outcome.Paired? ==>
                  var guesserChat := if p == setter then setterChat else users[p].chatId.value;
                  && r.outcome == Paired(setter, p)
                  && PairingApplied(r.games, r.users, games, users, setter, setterChat, p, guesserChat))
  {
    var p := ParsePartner(text);
    if p !in users || GetGame(games, setter, p).Some? then
      PairingResult(games, users, PartnerUnavailable("@" + p))
    else
      var users1 := UpdateUserData(users, setter, setterChat, Some(p));
      var guesserChat := users1[p].chatId.value;
      var users2 := UpdateUserData(users1, p, guesserChat, Some(setter));
      PairingResult(CreateGame(games, setter, p, setterChat, guesserChat), users2, Paired(setter, p))
  }

  /** The state after a successful pairing: a fresh game under the ordered key
      with both chat ids, every other game as it was, and the directory
      updated for exactly the two players. */
  ghost predicate PairingApplied(games': Games, users': Users, games: Games, users: Users,
                                 setter: string, setterChat: int, guesser: string, guesserChat: int)
  {
    && GetGame(games', setter, guesser) == Some(NewGame(setter, guesser, setterChat, guesserChat))
    && (forall k :: k != Key(setter, guesser) ==> Get(games', k) == Get(games, k))
    && users' == RecordPairing(users, setter, setterChat, guesser, guesserChat)
  }

  /** The chat-id reads `handle_last_partner` performs succeed: when the
      pairing goes ahead, both players' records carry a chat id. */
  predicate LastPartnerReads(games: Games, users: Users, setter: string, data: string) {
    var p := CallbackPartner(data);
    p in users && GetGame(games, setter, p).None? ==>
      setter in users && users[setter].chatId.Some? && users[p].chatId.Some?
  }

  /** `handle_last_partner`: the pairing of `set_player`, with the partner
      decoded from the button and the setter's chat id read from the directory. */
  function HandleLastPartner(games: Games, users: Users, setter: string, data: string): (r: PairingResult)
    requires LastPartnerReads(games, users, setter, data)
    ensures var p := CallbackPartner(data);
            && (r.outcome.PartnerUnavailable? <==> p !in users || GetGame(games, setter, p).Some?)
            && (r.outcome.PartnerUnavailable? ==>
                  r.games == games && r.users == users && r.outcome.shown == "@" + p)
            && (r.outcome.Paired? ==>
                  && r.outcome == Paired(setter, p)
                  && PairingApplied(r.games, r.users, games, users, setter, users[setter].chatId.value,
                            p, users[p].chatId.value))
  {
    var p := CallbackPartner(data);
    if p !in users then
      PairingResult(games, users, PartnerUnavailable("@" + p))
    else if GetGame(games, setter, p).Some? then
      PairingResult(games, users, PartnerUnavailable("@" + p))
    else
      var setterChat := users[setter].chatId.value;
      var guesserChat := users[p].chatId.value;
      var games' := CreateGame(games, setter, p, setterChat, guesserChat);
      PairingResult(games', RecordPairing(users, setter, setterChat, p, guesserChat), Paired(setter, p))
  }

  // ---------------------------------------------------------------------
  // receive_word.
  // ---------------------------------------------------------------------

  predicate IsRussianWord(w: string) {
    forall i :: 0 <= i < |w| ==> (CyrA <= w[i] <= CyrYa || w[i] == CyrIo)
  }

  predicate IsEnglishWord(w: string) {
    forall i :: 0 <= i < |w| ==> 'a' <= w[i] <= 'z'
  }

  /** The language test of `receive_word`, Russian first. A word with a
      language is made of lower-case letters; for a non-empty word the two
      alphabets exclude each other, so the order of the tests decides nothing. */
  function DetectLanguage(w: string): (r: Option<Language>)
    ensures r.Some? ==> forall i :: 0 <= i < |w| ==> IsLetter(w[i]) && LowerChar(w[i]) == w[i]
    ensures r.None? ==> |w| > 0
    ensures |w| > 0 ==> (r == Some(Russian) <==> IsRussianWord(w)) && (r == Some(English) <==> IsEnglishWord(w))
  {
    if IsRussianWord(w) then
      assert |w| > 0 ==> !('a' <= w[0] <= 'z');
      Some(Russian)
    else if IsEnglishWord(w) then Some(English)
    else None
  }

  /** A secret the setter may choose: four to eight letters. */
  predicate WordAccepted(word: string) {
    4 <= |word| <= 8 && IsAlpha(word)
  }

  datatype WordOutcome = InvalidWord | MixedLanguage | WordSet(language: Language, length: nat) | LanguageOnly

  datatype WordResult = WordResult(games: Games, outcome: WordOutcome)

  /** What `receive_word` reads without a guard: the game of (setter, guesser),
      once the word has passed the length, letter and alphabet checks. */
  predicate ReceiveWordReads(games: Games, setter: string, guesser: string, text: string) {
    var word := Lower(Strip(text));
    WordAccepted(word) && DetectLanguage(word).Some? ==> Key(setter, guesser) in View(games)
  }

  /** `receive_word` for the game of (setter, guesser): the word is the
      stripped, lower-cased message; a word of the wrong length or with a
      non-letter, or one mixing alphabets, changes nothing. Otherwise the
      game's language is set, and only a game still waiting for its word also
      takes the word as its secret and starts waiting for guesses. */
  function ReceiveWord(games: Games, setter: string, guesser: string, text: string): (r: WordResult)
    requires ReceiveWordReads(games, setter, guesser, text)
    ensures var word, k := Lower(Strip(text)), Key(setter, guesser);
            && (r.outcome.InvalidWord? <==> !WordAccepted(word))
            && (r.outcome.MixedLanguage? <==>
                  WordAccepted(word) && !IsRussianWord(word) && !IsEnglishWord(word))
            && (r.outcome.InvalidWord? || r.outcome.MixedLanguage? ==> r.games == games)
            && (r.outcome.WordSet? <==>
                  WordAccepted(word) && DetectLanguage(word).Some? && View(games)[k].state == WaitingForWord)
            && (r.outcome.WordSet? || r.outcome.LanguageOnly? ==>
                  var g, lang := View(games)[k], DetectLanguage(word).value;
                  && Keys(r.games) == Keys(games)
                  && k in View(r.games)
                  && View(r.games) == View(games)[k := View(r.games)[k]]
                  && View(r.games)[k].language == Some(lang)
                  && (r.outcome.WordSet? ==>
                        && r.outcome == WordSet(lang, |word|)
                        && View(r.games)[k] == g.(language := Some(lang), secret := word, state := WaitingForGuess))
                  && (r.outcome.LanguageOnly? ==> View(r.games)[k] == g.(language := Some(lang))))
  {
    var word, k := Lower(Strip(text)), Key(setter, guesser);
    if !WordAccepted(word) then WordResult(games, InvalidWord)
    else match DetectLanguage(word)
      case None => WordResult(games, MixedLanguage)
      case Some(lang) =>
        var g := GetGame(games, setter, guesser).value.(language := Some(lang));
        if g.state == WaitingForWord then
          WordResult(Set(games, k, g.(secret := word, state := WaitingForGuess)), WordSet(lang, |word|))
        else
          WordResult(Set(games, k, g), LanguageOnly)
  }

  // ---------------------------------------------------------------------
  // /cancel.
  // ---------------------------------------------------------------------

  /** Whether the user takes part in the game stored under the key. */
  predicate Involves(user: string, k: Key) {
    k.setter == user || k.guesser == user
  }

  datatype CancelResult = CancelResult(games: Games, cancelled: Option<Key>)

  /** `/cancel`: deletes the first game, in insertion order, in which the user
      is setter or guesser, whatever its state; reports when there is none. */
  function CancelCommand(games: Games, user: string): (r: CancelResult)
    ensures r.cancelled.None? <==> forall i :: 0 <= i < |games| ==> !Involves(user, games[i].key)
    ensures r.cancelled.None? ==> r.games == games
    ensures r.cancelled.Some? ==>
              var k := r.cancelled.value;
              && Involves(user, k) && k in View(games)
              && View(r.games) == View(games) - {k}
              && (exists i :: 0 <= i < |games| && games[i].key == k &&
                    (forall j :: 0 <= j < i ==> !Involves(user, games[j].key)) &&
                    (DistinctKeys(games) ==> r.games == games[..i] + games[i + 1..]))
    ensures DistinctKeys(games) ==> DistinctKeys(r.games)
  {
    match FindFirst(games, (k: Key, g: Game) => Involves(user, k))
    case None => CancelResult(games, None)
    case Some(i) =>
      RemoveEntry(games, i);
      CancelResult(Remove(games, games[i].key), Some(games[i].key))
  }
}
