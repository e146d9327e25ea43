/** The `/addtry` handler (src/bot/handlers/addtry.py). */
module AddTryHandler {
  import opened Wrappers
  import opened OrderedDict
  import opened Sessions

  /** Whether the entry is a game this user set and that awaits guesses. */
  predicate SettingIn(setter: string, k: Key, g: Game) {
    k.setter == setter && g.state == WaitingForGuess
  }

  /** The first game, in insertion order, that the user set and that awaits guesses. */
  function SetterGameOf(games: Games, setter: string): (r: Option<nat>)
    ensures r.Some? ==> r.value < |games| && SettingIn(setter, games[r.value].key, games[r.value].value)
    ensures r.Some? ==> forall j :: 0 <= j < r.value ==> !SettingIn(setter, games[j].key, games[j].value)
    ensures r.None? <==> forall j :: 0 <= j < |games| ==> !SettingIn(setter, games[j].key, games[j].value)
  {
    FindFirst(games, (k: Key, g: Game) => SettingIn(setter, k, g))
  }

  /** The result: the new registry and the guesser's chat to notify, if any. */
  datatype AddTryResult = AddTryResult(games: Games, notify: Option<int>)

  /** `/addtry`: the setter's first game awaiting guesses gets one more allowed
      attempt and its guesser is notified; nothing else changes. Without such
      a game nothing changes at all. */
  function AddTry(games: Games, setter: string): (r: AddTryResult)
    ensures r.notify.None? <==> SetterGameOf(games, setter).None?
    ensures r.notify.None? ==> r.games == games
    ensures r.notify.Some? ==>
              var i := SetterGameOf(games, setter).value;
              r.notify == Some(games[i].value.guesserChat) && AddedOne(games, r.games, i)
  {
    match SetterGameOf(games, setter)
    case None => AddTryResult(games, None)
    case Some(i) =>
      var g := games[i].value;
      AddTryResult(UpdateAt(games, i, g.(maxAttempts := g.maxAttempts + 1)), Some(g.guesserChat))
  }

  /** `games'` is `games` with the allowance of the game at position i raised
      by one, every other field and every other game unchanged. */
  predicate AddedOne(games: Games, games': Games, i: nat) {
    && i < |games| == |games'|
    && Keys(games') == Keys(games)
    && games'[i].value == games[i].value.(maxAttempts := games[i].value.maxAttempts + 1)
    && (forall j :: 0 <= j < |games| && j != i ==> games'[j] == games[j])
    && (DistinctKeys(games) ==> DistinctKeys(games') && View(games') == View(games)[games[i].key := games'[i].value])
  }
}
