/**
  The game record and the registry of running games (src/core/game.py): a
  dictionary keyed by the ordered pair (word setter, guesser).
*/
module Sessions {
  import opened Wrappers
  import opened OrderedDict
  import Scoring

  /** Attempts a guesser starts with. */
  const MaxAttempts: int := 6

  /** The stored states; a finished game is deleted rather than stored. */
  datatype State = WaitingForWord | WaitingForGuess

  datatype Language = Russian | English

  /** One recorded attempt: the upper-cased guess and its marks. */
  datatype Attempt = Attempt(result: string, feedback: seq<Scoring.Mark>)

  datatype Game = Game(
    setter: string,
    guesser: string,
    setterChat: int,
    guesserChat: int,
    secret: string,
    state: State,
    attempts: seq<Attempt>,
    maxAttempts: int,
    language: Option<Language>,
    correct: set<char>,
    used: set<char>)

  /** The ordered pair (setter, guesser): a game from A to B is not a game from B to A. */
  datatype Key = Key(setter: string, guesser: string)

  type Games = Dict<Key, Game>

  /** A game as the dataclass defaults make it. */
  function NewGame(setter: string, guesser: string, setterChat: int, guesserChat: int): Game
  {
    Game(setter, guesser, setterChat, guesserChat, "", WaitingForWord, [], MaxAttempts, None, {}, {})
  }

  /** `create_game`: stores a fresh game under (setter, guesser), replacing any
      game already there and leaving every other key alone. */
  function CreateGame(games: Games, setter: string, guesser: string, setterChat: int, guesserChat: int)
    : (r: Games)
    ensures Key(setter, guesser) in View(r)
    ensures var g := View(r)[Key(setter, guesser)];
            && g.setter == setter && g.guesser == guesser
            && g.setterChat == setterChat && g.guesserChat == guesserChat
            && g.state == WaitingForWord && g.secret == "" && g.attempts == []
            && g.maxAttempts == MaxAttempts && g.language == None
            && g.correct == {} && g.used == {}
    ensures forall k :: k != Key(setter, guesser) ==> Get(r, k) == Get(games, k)
    ensures View(r).Keys == View(games).Keys + {Key(setter, guesser)}
    ensures DistinctKeys(games) ==> DistinctKeys(r)
  {
    Set(games, Key(setter, guesser), NewGame(setter, guesser, setterChat, guesserChat))
  }

  /** `get_game`: exactly the game stored under the ordered key, if any. */
  function GetGame(games: Games, setter: string, guesser: string): (r: Option<Game>)
    ensures r.Some? <==> Key(setter, guesser) in View(games)
    ensures r.Some? ==> r.value == View(games)[Key(setter, guesser)]
  {
    Get(games, Key(setter, guesser))
  }

  /** `delete_game`: removes that key only, and changes nothing when it is
      absent; the other games keep their insertion order. */
  function DeleteGame(games: Games, setter: string, guesser: string): (r: Games)
    ensures View(r) == View(games) - {Key(setter, guesser)}
    ensures Key(setter, guesser) !in View(games) ==> r == games
    ensures DistinctKeys(games) ==> DistinctKeys(r)
    ensures forall i :: DistinctKeys(games) && 0 <= i < |games| && games[i].key == Key(setter, guesser) ==>
              r == games[..i] + games[i + 1..]
  {
    var k := Key(setter, guesser);
    forall i | DistinctKeys(games) && 0 <= i < |games| && games[i].key == k
      ensures Remove(games, k) == games[..i] + games[i + 1..]
    {
      RemoveAt(games, k, i);
    }
    Remove(games, k)
  }

  /** The key is ordered: creating A's game for B does not touch B's game for A. */
  lemma KeyIsOrdered(games: Games, a: string, b: string, aChat: int, bChat: int)
    requires a != b
    ensures GetGame(CreateGame(games, a, b, aChat, bChat), b, a) == GetGame(games, b, a)
  {
    assert Key(b, a) != Key(a, b);
  }
}
