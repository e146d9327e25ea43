/**
  The user directory (src/core/user.py): user name -> chat id and last
  partner. Loading and saving the JSON file are left to the caller; the
  directory is the in-memory map.
*/
module Directory {
  import opened Wrappers

  /** A stored user record; either field may be missing from a loaded file. */
  datatype UserRecord = UserRecord(chatId: Option<int>, lastPartner: Option<string>)

  type Users = map<string, UserRecord>

  /** Every record carries a chat id, as every record `UpdateUserData` writes does. */
  predicate HasChatIds(users: Users) {
    forall u :: u in users ==> users[u].chatId.Some?
  }

  /** `get_user_chat_id`: the stored chat id, or None for an unknown user or a
      record without one. */
  function GetUserChatId(users: Users, name: string): (r: Option<int>)
    ensures r.Some? <==> name in users && users[name].chatId.Some?
    ensures r.Some? ==> r.value == users[name].chatId.value
  {
    if name in users then users[name].chatId else None
  }

  /** Python's truthiness of the optional `last_partner` argument. */
  predicate Given(partner: Option<string>) {
    partner.Some? && partner.value != ""
  }

  /** `update_user_data`: records the chat id (creating the record if needed),
      overwrites the last partner only when a non-empty one is given, and
      leaves every other user's record alone. */
  function UpdateUserData(users: Users, name: string, chatId: int, lastPartner: Option<string>): (r: Users)
    ensures r.Keys == users.Keys + {name}
    ensures r[name].chatId == Some(chatId)
    ensures Given(lastPartner) ==> r[name].lastPartner == lastPartner
    ensures !Given(lastPartner) && name in users ==> r[name].lastPartner == users[name].lastPartner
    ensures !Given(lastPartner) && name !in users ==> r[name].lastPartner == None
    ensures forall u :: u in users && u != name ==> r[u] == users[u]
    ensures HasChatIds(users) ==> HasChatIds(r)
  {
    var old_ := if name in users then users[name] else UserRecord(None, None);
    var rec := old_.(chatId := Some(chatId));
    var rec' := if Given(lastPartner) then rec.(lastPartner := lastPartner) else rec;
    users[name := rec']
  }

  /** The two `update_user_data` calls made when a pairing starts or a game
      ends: each player records the other as last partner. */
  function RecordPairing(users: Users, setter: string, setterChat: int, guesser: string, guesserChat: int)
    : (r: Users)
    ensures r.Keys == users.Keys + {setter, guesser}
    ensures r[guesser].chatId == Some(guesserChat)
    ensures setter != guesser ==> r[setter].chatId == Some(setterChat)
    ensures setter != "" ==> r[guesser].lastPartner == Some(setter)
    ensures guesser != "" ==> r[setter].lastPartner == Some(if setter == guesser then setter else guesser)
    ensures forall u :: u in users && u != setter && u != guesser ==> r[u] == users[u]
    ensures HasChatIds(users) ==> HasChatIds(r)
  {
    UpdateUserData(UpdateUserData(users, setter, setterChat, Some(guesser)), guesser, guesserChat, Some(setter))
  }
}
