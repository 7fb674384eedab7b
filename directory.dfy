/**
 * The user and channel directories a connected Team holds (`state.users`,
 * `state.channels`), and the lookups `findUser`, `findUserName`,
 * `findChannel` and `findChannelName` of team.js.
 */
module Directory {
  import opened Wrappers
  import opened JsString

  /** A workspace member; `color` is the hex colour the author name is drawn in. */
  datatype User = User(id: string, name: string, color: string)

  datatype Channel = Channel(id: string, name: string)

  // ---------------------------------------------------------------------
  // Users
  // ---------------------------------------------------------------------

  /** `users[i]` is the first user whose id is `id`. */
  ghost predicate FirstUser(users: seq<User>, id: string, i: int)
  {
    0 <= i < |users| && users[i].id == id && forall j :: 0 <= j < i ==> users[j].id != id
  }

  ghost predicate NoUser(users: seq<User>, id: string)
  {
    forall j :: 0 <= j < |users| ==> users[j].id != id
  }

  /** `users.find(user => user.id === id)`: the first user with that id, if any. */
  function FindUser(users: seq<User>, id: string): (r: Option<User>)
    ensures NoUser(users, id) ==> r == None
    ensures forall i :: FirstUser(users, id, i) ==> r == Some(users[i])
  {
    if users == [] then None
    else if users[0].id == id then Some(users[0])
    else
      var r := FindUser(users[1..], id);
      assert forall i :: FirstUser(users, id, i) ==> FirstUser(users[1..], id, i - 1);
      r
  }

  /**
   * `findUserName(id, def)`: the name of the user found, unless it is
   * empty; then `def`, unless that is empty; then the id itself.
   * (An absent `def` is written "", falsy like `undefined`.)
   */
  function FindUserName(users: seq<User>, id: string, def: string): (r: string)
    ensures forall i :: FirstUser(users, id, i) ==>
              r == (if users[i].name != "" then users[i].name else if def != "" then def else id)
    ensures NoUser(users, id) ==> r == (if def != "" then def else id)
  {
    match FindUser(users, id)
    case Some(user) => Or(Or(user.name, def), id)
    case None => Or(def, id)
  }

  // ---------------------------------------------------------------------
  // Channels
  // ---------------------------------------------------------------------

  ghost predicate FirstChannel(channels: seq<Channel>, id: string, i: int)
  {
    0 <= i < |channels| && channels[i].id == id && forall j :: 0 <= j < i ==> channels[j].id != id
  }

  ghost predicate NoChannel(channels: seq<Channel>, id: string)
  {
    forall j :: 0 <= j < |channels| ==> channels[j].id != id
  }

  /** `channels.find(channel => channel.id === id)`. */
  function FindChannel(channels: seq<Channel>, id: string): (r: Option<Channel>)
    ensures NoChannel(channels, id) ==> r == None
    ensures forall i :: FirstChannel(channels, id, i) ==> r == Some(channels[i])
  {
    if channels == [] then None
    else if channels[0].id == id then Some(channels[0])
    else
      var r := FindChannel(channels[1..], id);
      assert forall i :: FirstChannel(channels, id, i) ==> FirstChannel(channels[1..], id, i - 1);
      r
  }

  /** `findChannelName(id, def)`: channel name, else `def`, else the id, skipping empty strings. */
  function FindChannelName(channels: seq<Channel>, id: string, def: string): (r: string)
    ensures forall i :: FirstChannel(channels, id, i) ==>
              r == (if channels[i].name != "" then channels[i].name else if def != "" then def else id)
    ensures NoChannel(channels, id) ==> r == (if def != "" then def else id)
  {
    match FindChannel(channels, id)
    case Some(channel) => Or(Or(channel.name, def), id)
    case None => Or(def, id)
  }

  // ---------------------------------------------------------------------
  // Properties
  // ---------------------------------------------------------------------

  /** Either some user is the first with the id, or none has it: the two contracts above cover every case. */
  lemma {:induction false} UserFoundOrNot(users: seq<User>, id: string)
    ensures NoUser(users, id) || exists i :: FirstUser(users, id, i)
  {
    if users != [] && users[0].id != id {
      UserFoundOrNot(users[1..], id);
      if !NoUser(users[1..], id) {
        var i :| FirstUser(users[1..], id, i);
        assert FirstUser(users, id, i + 1);
      }
    } else if users != [] {
      assert FirstUser(users, id, 0);
    }
  }

  /** Likewise for channels: some channel is the first with the id, or none has it. */
  lemma {:induction false} ChannelFoundOrNot(channels: seq<Channel>, id: string)
    ensures NoChannel(channels, id) || exists i :: FirstChannel(channels, id, i)
  {
    if channels != [] && channels[0].id != id {
      ChannelFoundOrNot(channels[1..], id);
      if !NoChannel(channels[1..], id) {
        var i :| FirstChannel(channels[1..], id, i);
        assert FirstChannel(channels, id, i + 1);
      }
    } else if channels != [] {
      assert FirstChannel(channels, id, 0);
    }
  }

  /** The lookup never gives an empty name unless the id itself is empty. */
  lemma UserNameNonEmpty(users: seq<User>, id: string, def: string)
    requires id != ""
    ensures FindUserName(users, id, def) != ""
  {
    UserFoundOrNot(users, id);
  }

  /** The fallback for an unknown id with no default is the id. */
  lemma UnknownUserIsId(users: seq<User>, id: string)
    requires NoUser(users, id)
    ensures FindUserName(users, id, "") == id
  {
  }

  /** Only the first user with an id is seen: a later record with the same id changes nothing. */
  lemma {:induction false} LaterUserShadowed(users: seq<User>, id: string, extra: User)
    requires !NoUser(users, id)
    ensures FindUser(users + [extra], id) == FindUser(users, id)
  {
    UserFoundOrNot(users, id);
    var i :| FirstUser(users, id, i);
    assert FirstUser(users + [extra], id, i);
  }
}
