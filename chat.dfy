/**
 * The websocket chat relay: a server that knows users, registered clients
 * and houses; houses and rooms that keep member sets and fan messages out
 * to them; and clients that keep the set of houses they joined.
 *
 * Each goroutine `select` case is a direct method call, and each client's
 * buffered `send` channel is the sequence of messages queued on it.  Fresh
 * UUIDs are parameters.  The house and user tables are sequences of rows.
 */
module Chat {
  import opened Wrappers
  import opened KeyedSeq

  // ---------------------------------------------------------------------
  // Messages
  // ---------------------------------------------------------------------

  /** The action names a message can carry. */
  datatype Action =
    | SendMessageAction
    | JoinRoomAction
    | LeaveRoomAction
    | UserJoinedAction
    | UserLeftAction
    | JoinRoomPrivateAction
    | JoinHousePrivateAction
    | RoomJoinedAction
    | JoinHouseAction
    | LeaveHouseAction
    | HouseJoinedAction

  /** The wire name of each action. */
  function Tag(a: Action): string {
    match a
    case SendMessageAction => "send-message"
    case JoinRoomAction => "join-room"
    case LeaveRoomAction => "leave-room"
    case UserJoinedAction => "user-join"
    case UserLeftAction => "user-left"
    case JoinRoomPrivateAction => "join-room-private"
    case JoinHousePrivateAction => "join-house-private"
    case RoomJoinedAction => "room-joined"
    case JoinHouseAction => "join-house"
    case LeaveHouseAction => "leave-house"
    case HouseJoinedAction => "house-joined"
  }

  /** The action whose wire name is `s`, if there is one. */
  function ParseAction(s: string): (r: Option<Action>)
    ensures r.Some? ==> Tag(r.value) == s
    ensures r.None? ==> forall a: Action :: Tag(a) != s
  {
    if s == "send-message" then Some(SendMessageAction)
    else if s == "join-room" then Some(JoinRoomAction)
    else if s == "leave-room" then Some(LeaveRoomAction)
    else if s == "user-join" then Some(UserJoinedAction)
    else if s == "user-left" then Some(UserLeftAction)
    else if s == "join-room-private" then Some(JoinRoomPrivateAction)
    else if s == "join-house-private" then Some(JoinHousePrivateAction)
    else if s == "room-joined" then Some(RoomJoinedAction)
    else if s == "join-house" then Some(JoinHouseAction)
    else if s == "leave-house" then Some(LeaveHouseAction)
    else if s == "house-joined" then Some(HouseJoinedAction)
    else None
  }

  /** Wire names are distinct: every action is recovered from its name. */
  lemma TagRoundTrip(a: Action)
    ensures ParseAction(Tag(a)) == Some(a)
  {
  }

  /** A user as it appears in the user table and as a message sender. */
  datatype User = User(id: string, name: string)

  function UserId(u: User): string { u.id }

  /** The public part of a house: what a message carries about it. */
  datatype HouseInfo = HouseInfo(id: string, name: string, isPrivate: bool)

  function HouseName(h: HouseInfo): string { h.name }

  /** The public part of a room. */
  datatype RoomInfo = RoomInfo(id: string, name: string, isPrivate: bool)

  /** A chat message; absent `room`, `house` and `sender` encode as null. */
  datatype Message = Message(
    action: string,
    message: string,
    room: Option<RoomInfo>,
    house: Option<HouseInfo>,
    sender: Option<User>)

  /** The text form of the all-zero UUID, the identifier of a client that
      connected without one and of a decoded sender without one. */
  const ZeroUuid := "00000000-0000-0000-0000-000000000000"

  /** The sender of a decoded message: a missing sender decodes to a client
      with the zero UUID and an empty name. */
  function DecodedSender(m: Message): User {
    m.sender.GetOr(User(ZeroUuid, ""))
  }

  /** The welcome text, "<name> joined the room". */
  function Welcome(name: string): (r: string)
    ensures |r| == |name| + 16
    ensures r[..|name|] == name && r[|name|..] == " joined the room"
  {
    name + " joined the room"
  }

  function HouseWelcome(h: HouseInfo, joiner: string): Message {
    Message(Tag(SendMessageAction), Welcome(joiner), None, Some(h), None)
  }

  function RoomWelcome(r: RoomInfo, joiner: string): Message {
    Message(Tag(SendMessageAction), Welcome(joiner), Some(r), None, None)
  }

  function HouseJoinedNotice(h: HouseInfo, sender: Option<User>): Message {
    Message(Tag(HouseJoinedAction), "", None, Some(h), sender)
  }

  function Invitation(target: User, h: HouseInfo, inviter: User): Message {
    Message(Tag(JoinHousePrivateAction), target.id, None, Some(h), Some(inviter))
  }

  function OnlineUserNotice(u: User): Message {
    Message(Tag(UserJoinedAction), "", None, None, Some(u))
  }

  /** One user-join notice per user, in order. */
  function OnlineUserNotices(us: seq<User>): (r: seq<Message>)
    ensures |r| == |us|
    ensures forall i :: 0 <= i < |us| ==> r[i] == OnlineUserNotice(us[i])
  {
    if us == [] then [] else OnlineUserNotices(us[..|us| - 1]) + [OnlineUserNotice(us[|us| - 1])]
  }

  lemma NoticesSnoc(us: seq<User>, u: User)
    ensures OnlineUserNotices(us + [u]) == OnlineUserNotices(us) + [OnlineUserNotice(u)]
  {
    assert (us + [u])[..|us|] == us;
  }

  /** The user table's answer to "which users are online": each user id once,
      the first entry of that id, in order of first appearance. */
  function OnlineUsers(us: seq<User>): seq<User> {
    DedupBy(us, UserId)
  }

  /** The online listing names every known user id exactly once. */
  lemma OnlineUsersDistinct(us: seq<User>)
    ensures DistinctKeys(OnlineUsers(us), UserId)
    ensures KeySet(OnlineUsers(us), UserId) == KeySet(us, UserId)
    ensures forall u :: u in OnlineUsers(us) ==> u in us
  {
    DedupByProperties(us, UserId);
  }

  /** The user list after a user-left message: the first user with the id is
      replaced by the last user and the list is shortened by one. */
  function WithoutFirstUser(us: seq<User>, id: string): seq<User> {
    match IndexOfKey(us, UserId, id)
    case None => us
    case Some(i) => us[i := us[|us| - 1]][..|us| - 1]
  }

  /** One more user of the table in the online listing loop: a new id adds
      the user and its notice, a known id changes nothing. */
  lemma ListingStep(us: seq<User>, i: nat)
    requires i < |us|
    ensures us[i].id in KeySet(us[..i], UserId) ==>
      KeySet(us[..i + 1], UserId) == KeySet(us[..i], UserId) &&
      DedupBy(us[..i + 1], UserId) == DedupBy(us[..i], UserId)
    ensures us[i].id !in KeySet(us[..i], UserId) ==>
      KeySet(us[..i + 1], UserId) == KeySet(us[..i], UserId) + {us[i].id} &&
      DedupBy(us[..i + 1], UserId) == DedupBy(us[..i], UserId) + [us[i]] &&
      OnlineUserNotices(DedupBy(us[..i], UserId) + [us[i]])
        == OnlineUserNotices(DedupBy(us[..i], UserId)) + [OnlineUserNotice(us[i])]
  {
    assert us[..i + 1] == us[..i] + [us[i]];
    DedupBySnoc(us[..i], us[i], UserId);
    KeySetSnoc(us[..i], us[i], UserId);
    NoticesSnoc(DedupBy(us[..i], UserId), us[i]);
  }

  /** The loop of the online listing: walks the user table, remembering the
      ids already listed, and emits one user-join notice per new id. */
  method OnlineNotices(us: seq<User>) returns (out: seq<Message>)
    ensures out == OnlineUserNotices(OnlineUsers(us))
  {
    var seen: set<string> := {};
    ghost var listed: seq<User> := [];
    out := [];
    var i := 0;
    while i < |us|
      invariant 0 <= i <= |us|
      invariant seen == KeySet(us[..i], UserId)
      invariant listed == DedupBy(us[..i], UserId)
      invariant out == OnlineUserNotices(listed)
    {
      var u := us[i];
      ListingStep(us, i);
      if u.id !in seen {
        out := out + [OnlineUserNotice(u)];
        seen := seen + {u.id};
        listed := listed + [u];
      }
      i := i + 1;
    }
    assert us[..i] == us;
  }

  /** Removal takes out exactly one user, the first with the id, and keeps
      every other entry (possibly in another order); an unknown id changes
      nothing. */
  lemma WithoutFirstUserRemovesOne(us: seq<User>, id: string)
    ensures id !in KeySet(us, UserId) ==> WithoutFirstUser(us, id) == us
    ensures id in KeySet(us, UserId) ==>
      var i := IndexOfKey(us, UserId, id).value;
      |WithoutFirstUser(us, id)| == |us| - 1 &&
      multiset(WithoutFirstUser(us, id)) == multiset(us) - multiset{us[i]}
  {
    if id in KeySet(us, UserId) {
      SwapRemoveMultiset(us, IndexOfKey(us, UserId, id).value);
    }
  }

  /** Removal by swapping can reorder the remaining users. */
  lemma WithoutFirstUserReorders()
    ensures WithoutFirstUser([User("a", "A"), User("b", "B"), User("c", "C")], "a")
         == [User("c", "C"), User("b", "B")]
  {
    var us := [User("a", "A"), User("b", "B"), User("c", "C")];
    assert IndexOfKey(us, UserId, "a") == Some(0);
  }

  // ---------------------------------------------------------------------
  // Rooms
  // ---------------------------------------------------------------------

  class Room {
    const id: string
    const name: string
    const isPrivate: bool
    var clients: set<Client>

    /** A new room with identifier `id` (a fresh UUID) and no members. */
    constructor (name: string, isPrivate: bool, id: string)
      ensures this.id == id && this.name == name && this.isPrivate == isPrivate
      ensures clients == {}
    {
      this.id := id;
      this.name := name;
      this.isPrivate := isPrivate;
      clients := {};
    }

    function Info(): RoomInfo {
      RoomInfo(id, name, isPrivate)
    }

    /** Queues one copy of `m` on every member and on nobody else. */
    method Broadcast(m: Message)
      modifies clients`send
      ensures forall c :: c in clients ==> c.send == old(c.send) + [m]
    {
      var todo := clients;
      while todo != {}
        invariant todo <= clients
        invariant forall c :: c in clients && c !in todo ==> c.send == old(c.send) + [m]
        invariant forall c :: c in todo ==> c.send == old(c.send)
        decreases |todo|
      {
        var c :| c in todo;
        c.send := c.send + [m];
        todo := todo - {c};
      }
    }

    /** Tells the current members that `client` joined. */
    method NotifyClientJoined(client: Client)
      modifies clients`send
      ensures forall c :: c in clients ==> c.send == old(c.send) + [RoomWelcome(Info(), client.name)]
    {
      Broadcast(RoomWelcome(Info(), client.name));
    }

    /** Adds `client`; in a public room the members present before it are
        welcomed first, in a private room nobody is told. */
    method RegisterClient(client: Client)
      modifies this`clients, clients`send
      ensures clients == old(clients) + {client}
      ensures forall c :: c in old(clients) ==>
        c.send == old(c.send) + (if isPrivate then [] else [RoomWelcome(Info(), client.name)])
      ensures client !in old(clients) ==> client.send == old(client.send)
    {
      if !isPrivate {
        NotifyClientJoined(client);
      }
      clients := clients + {client};
    }

    /** Removes `client` if it is a member; nothing is sent. */
    method UnregisterClient(client: Client)
      modifies this`clients
      ensures clients == old(clients) - {client}
    {
      if client in clients {
        clients := clients - {client};
      }
    }
  }

  // ---------------------------------------------------------------------
  // Houses
  // ---------------------------------------------------------------------

  class House {
    const id: string
    const name: string
    const isPrivate: bool
    var clients: set<Client>
    var rooms: set<Room>

    /** A new house with identifier `id` (a fresh UUID), no members and no rooms. */
    constructor (name: string, isPrivate: bool, id: string)
      ensures this.id == id && this.name == name && this.isPrivate == isPrivate
      ensures clients == {} && rooms == {}
    {
      this.id := id;
      this.name := name;
      this.isPrivate := isPrivate;
      clients := {};
      rooms := {};
    }

    function Info(): HouseInfo {
      HouseInfo(id, name, isPrivate)
    }

    /** Creates a room in this house; the members are left alone. */
    method CreateRoom(name: string, isPrivate: bool, newId: string) returns (room: Room)
      modifies this`rooms
      ensures fresh(room) && room.Info() == RoomInfo(newId, name, isPrivate) && room.clients == {}
      ensures rooms == old(rooms) + {room}
    {
      room := new Room(name, isPrivate, newId);
      rooms := rooms + {room};
    }

    /** Queues one copy of `m` on every member and on nobody else. */
    method Broadcast(m: Message)
      modifies clients`send
      ensures forall c :: c in clients ==> c.send == old(c.send) + [m]
    {
      var todo := clients;
      while todo != {}
        invariant todo <= clients
        invariant forall c :: c in clients && c !in todo ==> c.send == old(c.send) + [m]
        invariant forall c :: c in todo ==> c.send == old(c.send)
        decreases |todo|
      {
        var c :| c in todo;
        c.send := c.send + [m];
        todo := todo - {c};
      }
    }

    /** Tells the current members that `client` joined. */
    method NotifyClientJoined(client: Client)
      modifies clients`send
      ensures forall c :: c in clients ==> c.send == old(c.send) + [HouseWelcome(Info(), client.name)]
    {
      Broadcast(HouseWelcome(Info(), client.name));
    }

    /** Welcomes `client` to the members present before it, then adds it.
        Registering a member again welcomes it again but adds nothing. */
    method RegisterClient(client: Client)
      modifies this`clients, clients`send
      ensures clients == old(clients) + {client}
      ensures forall c :: c in old(clients) ==> c.send == old(c.send) + [HouseWelcome(Info(), client.name)]
      ensures client !in old(clients) ==> client.send == old(client.send)
    {
      NotifyClientJoined(client);
      clients := clients + {client};
    }

    /** Removes `client` if it is a member; nothing is sent. */
    method UnregisterClient(client: Client)
      modifies this`clients
      ensures clients == old(clients) - {client}
    {
      if client in clients {
        clients := clients - {client};
      }
    }
  }

  /** Some house of `hs` is called `name`. */
  ghost predicate HasHouseNamed(hs: set<House>, name: string) {
    exists h :: h in hs && h.name == name
  }

  // ---------------------------------------------------------------------
  // Server
  // ---------------------------------------------------------------------

  class Server {
    var users: seq<User>
    var clients: set<Client>
    var houses: set<House>
    /** Rows of the house table, in insertion order. */
    var houseRepository: seq<HouseInfo>
    /** Rows of the user table, in insertion order. */
    var userRepository: seq<User>

    /** A server over the given tables; the known users are the user table. */
    constructor (houseRows: seq<HouseInfo>, userRows: seq<User>)
      ensures users == userRows && clients == {} && houses == {}
      ensures houseRepository == houseRows && userRepository == userRows
    {
      users := userRows;
      clients := {};
      houses := {};
      houseRepository := houseRows;
      userRepository := userRows;
    }

    /** Every client that is a member of a running house. */
    ghost function Members(): set<Client>
      reads this, houses
    {
      set h, c | h in houses && c in h.clients :: c
    }

    /** The bookkeeping the relay keeps: registered clients are open and only
        know running houses, members of running houses are registered, and a
        registered client lists a running house exactly when it is a member. */
    ghost predicate Consistent()
      reads this, clients, houses
    {
      && (forall c :: c in clients ==> c.houses <= houses && !c.closed)
      && (forall h :: h in houses ==> h.clients <= clients)
      && (forall c, h :: c in clients && h in houses ==> (c in h.clients <==> h in c.houses))
    }

    /** The first known user with identifier `id`. */
    method FindUserByID(id: string) returns (found: Option<User>)
      ensures found == FindByKey(users, UserId, id)
    {
      found := None;
      var i := 0;
      while i < |users|
        invariant 0 <= i <= |users|
        invariant forall j :: 0 <= j < i ==> users[j].id != id
      {
        if users[i].id == id {
          found := Some(users[i]);
          assert users[..i + 1][..i] == users[..i];
          IndexOfKeyFirst(users, id, i);
          return;
        }
        i := i + 1;
      }
      assert forall k :: k in KeySet(users, UserId) ==> k != id;
    }

    /** Queues on `client` one user-join notice per distinct user id. */
    method ListOnlineClients(client: Client)
      modifies client`send
      ensures client.send == old(client.send) + OnlineUserNotices(OnlineUsers(users))
    {
      var notices := OnlineNotices(users);
      client.send := client.send + notices;
    }

    /** Registers `client`: the user table gains it when its id is not a
        known user; it is then sent the online users and added. */
    method RegisterClient(client: Client)
      modifies this`userRepository, this`clients, client`send
      ensures userRepository == old(userRepository)
        + (if FindByKey(users, UserId, client.id).None? then [client.AsUser()] else [])
      ensures client.send == old(client.send) + OnlineUserNotices(OnlineUsers(users))
      ensures clients == old(clients) + {client}
      ensures old(Consistent()) && client.houses == {} && client !in old(Members()) && !client.closed
        ==> Consistent()
    {
      var user := FindUserByID(client.id);
      if user.None? {
        userRepository := userRepository + [client.AsUser()];
      }
      ListOnlineClients(client);
      clients := clients + {client};
    }

    /** Removes `client` from the registered clients if present. */
    method UnregisterClient(client: Client)
      modifies this`clients
      ensures clients == old(clients) - {client}
    {
      if client in clients {
        clients := clients - {client};
      }
    }

    /** Queues one copy of `m` on every registered client. */
    method BroadcastToClients(m: Message)
      modifies clients`send
      ensures forall c :: c in clients ==> c.send == old(c.send) + [m]
    {
      var todo := clients;
      while todo != {}
        invariant todo <= clients
        invariant forall c :: c in clients && c !in todo ==> c.send == old(c.send) + [m]
        invariant forall c :: c in todo ==> c.send == old(c.send)
        decreases |todo|
      {
        var c :| c in todo;
        c.send := c.send + [m];
        todo := todo - {c};
      }
    }

    /** A user-join from another instance: the sender becomes a known user
        and the message goes to every registered client. */
    method HandleUserJoined(m: Message)
      modifies this`users, clients`send
      ensures users == old(users) + [DecodedSender(m)]
      ensures forall c :: c in clients ==>
        c.send == old(c.send) + [m.(sender := Some(DecodedSender(m)))]
    {
      var sender := DecodedSender(m);
      users := users + [sender];
      BroadcastToClients(m.(sender := Some(sender)));
    }

    /** A user-left from another instance: the first known user with the
        sender's id is swap-removed and the message goes to every registered
        client. */
    method HandleUserLeft(m: Message)
      modifies this`users, clients`send
      ensures users == WithoutFirstUser(old(users), DecodedSender(m).id)
      ensures forall c :: c in clients ==>
        c.send == old(c.send) + [m.(sender := Some(DecodedSender(m)))]
    {
      var sender := DecodedSender(m);
      var i := 0;
      while i < |users|
        invariant 0 <= i <= |users|
        invariant users == old(users)
        invariant forall j :: 0 <= j < i ==> users[j].id != sender.id
      {
        if users[i].id == sender.id {
          IndexOfKeyFirst(users, sender.id, i);
          users := users[i := users[|users| - 1]];
          users := users[..|users| - 1];
          break;
        }
        i := i + 1;
      }
      if i == |old(users)| {
        assert forall k :: k in KeySet(users, UserId) ==> k != sender.id;
      }
      BroadcastToClients(m.(sender := Some(sender)));
    }

    /** Every registered client whose identifier is `id`. */
    method FindClientsByID(id: string) returns (found: set<Client>)
      ensures found == set c | c in clients && c.id == id
    {
      found := {};
      var todo := clients;
      while todo != {}
        invariant todo <= clients
        invariant found == set c | c in clients && c !in todo && c.id == id
        decreases |todo|
      {
        var c :| c in todo;
        if c.id == id {
          found := found + {c};
        }
        todo := todo - {c};
      }
    }

    /** The running house with identifier `id`; the house table is not consulted. */
    method FindHouseByID(id: string) returns (house: House?)
      ensures house != null ==> house in houses && house.id == id
      ensures house == null ==> forall h :: h in houses ==> h.id != id
    {
      house := null;
      var todo := houses;
      while todo != {}
        invariant todo <= houses
        invariant forall h :: h in houses && h !in todo ==> h.id != id
        decreases |todo|
      {
        var h :| h in todo;
        if h.id == id {
          house := h;
          return;
        }
        todo := todo - {h};
      }
    }

    /** Starts the house stored under `name` in the house table, if any. */
    method RunHouseFromRepository(name: string) returns (house: House?)
      modifies this`houses
      ensures IndexOfKey(houseRepository, HouseName, name).None? ==> house == null && houses == old(houses)
      ensures IndexOfKey(houseRepository, HouseName, name).Some? ==>
        house != null && fresh(house) &&
        house.Info() == houseRepository[IndexOfKey(houseRepository, HouseName, name).value] &&
        house.clients == {} && house.rooms == {} &&
        houses == old(houses) + {house}
    {
      house := null;
      var row := FindByKey(houseRepository, HouseName, name);
      if row.Some? {
        house := new House(row.value.name, row.value.isPrivate, row.value.id);
        houses := houses + {house};
      }
    }

    /** A running house called `name`; failing that, the one stored in the
        house table, which is started; failing that, none. */
    method FindHouseByName(name: string) returns (house: House?)
      modifies this`houses
      ensures HasHouseNamed(old(houses), name) ==>
        house != null && house in old(houses) && house.name == name && houses == old(houses)
      ensures !HasHouseNamed(old(houses), name) && IndexOfKey(houseRepository, HouseName, name).None? ==>
        house == null && houses == old(houses)
      ensures !HasHouseNamed(old(houses), name) && IndexOfKey(houseRepository, HouseName, name).Some? ==>
        house != null && fresh(house) &&
        house.Info() == houseRepository[IndexOfKey(houseRepository, HouseName, name).value] &&
        house.clients == {} && house.rooms == {} &&
        houses == old(houses) + {house}
    {
      house := null;
      var todo := houses;
      while todo != {}
        invariant todo <= houses
        invariant forall h :: h in houses && h !in todo ==> h.name != name
        decreases |todo|
      {
        var h :| h in todo;
        if h.name == name {
          house := h;
          return;
        }
        todo := todo - {h};
      }
      house := RunHouseFromRepository(name);
    }

    /** The house a join by name enters: the running house of that name, or
        one restored from the house table, or a new one. */
    method HouseNamed(name: string, isPrivate: bool, newId: string) returns (house: House)
      modifies this`houses, this`houseRepository
      ensures house.name == name
      ensures houses == old(houses) + {house}
      ensures HasHouseNamed(old(houses), name) ==> house in old(houses)
      ensures house in old(houses) ==> houseRepository == old(houseRepository)
      ensures house !in old(houses) ==>
        fresh(house) && house.clients == {} && house.rooms == {} &&
        match IndexOfKey(old(houseRepository), HouseName, name)
        case Some(i) =>
          house.Info() == old(houseRepository)[i] && houseRepository == old(houseRepository)
        case None =>
          house.Info() == HouseInfo(newId, name, isPrivate) &&
          houseRepository == old(houseRepository) + [house.Info()]
    {
      var found := FindHouseByName(name);
      if found == null {
        found := CreateHouse(name, isPrivate, newId);
      }
      house := found;
    }

    /** Creates a house, stores it in the house table and starts it. */
    method CreateHouse(name: string, isPrivate: bool, newId: string) returns (house: House)
      modifies this`houses, this`houseRepository
      ensures fresh(house) && house.Info() == HouseInfo(newId, name, isPrivate)
      ensures house.clients == {} && house.rooms == {}
      ensures houses == old(houses) + {house}
      ensures houseRepository == old(houseRepository) + [house.Info()]
    {
      house := new House(name, isPrivate, newId);
      houseRepository := houseRepository + [house.Info()];
      houses := houses + {house};
    }
  }

  /** A scan that stops at the first match found the first index. */
  lemma IndexOfKeyFirst(us: seq<User>, id: string, i: nat)
    requires i < |us| && us[i].id == id
    requires forall j :: 0 <= j < i ==> us[j].id != id
    ensures IndexOfKey(us, UserId, id) == Some(i)
  {
    assert UserId(us[i]) == id;
    assert id in KeySet(us, UserId);
  }

  // ---------------------------------------------------------------------
  // Clients
  // ---------------------------------------------------------------------

  class Client {
    const server: Server
    const id: string
    const name: string
    var houses: set<House>
    var send: seq<Message>
    var closed: bool

    /** A connection of user `name`; a missing identifier becomes the zero UUID. */
    constructor (server: Server, name: string, id: string)
      ensures this.server == server && this.name == name
      ensures this.id == (if id == "" then ZeroUuid else id)
      ensures houses == {} && send == [] && !closed
    {
      this.server := server;
      this.name := name;
      this.id := if id == "" then ZeroUuid else id;
      houses := {};
      send := [];
      closed := false;
    }

    /** The client as a message sender or a user-table row. */
    function AsUser(): User {
      User(id, name)
    }

    /** Whether the client counts itself a member of `house`; on a
        consistent server this agrees with the house's own member set. */
    predicate IsInHouse(house: House): (b: bool)
      reads this, server, server.clients, server.houses
      ensures server.Consistent() && this in server.clients && house in server.houses ==>
        (b <==> this in house.clients)
    {
      house in houses
    }

    /** Queues, on this client only, the notice that it joined `house`. */
    method NotifyHouseJoined(house: House, sender: Option<User>)
      modifies this`send
      ensures send == old(send) + [HouseJoinedNotice(house.Info(), sender)]
    {
      send := send + [HouseJoinedNotice(house.Info(), sender)];
    }

    /** Queues, on this client's own queue, the invitation of `target` to `house`. */
    method InviteTargetUser(target: User, house: House)
      modifies this`send
      ensures send == old(send) + [Invitation(target, house.Info(), AsUser())]
    {
      send := send + [Invitation(target, house.Info(), AsUser())];
    }

    /** What a join sends the joiner itself: nothing unless it `entered`
        the house; otherwise the house-joined notice, after a welcome when
        it was already among the house's members. */
    function JoinerNotices(h: HouseInfo, entered: bool, member: bool, sender: Option<User>): seq<Message> {
      if !entered then []
      else if member then [HouseWelcome(h, name), HouseJoinedNotice(h, sender)]
      else [HouseJoinedNotice(h, sender)]
    }

    /** The effect of a join of `houseName` with `sender`: `house` is the
        house found or created and `before` its members beforehand; a
        public request (no sender) for a private house is refused.  This
        client's queue ends with `extra`, whatever the caller queued after
        the join. */
    twostate predicate Joined(houseName: string, sender: Option<User>, newId: string,
                              new joined: House?, new house: House, new before: set<Client>,
                              extra: seq<Message>)
      reads *
    {
      // which house
      && house.name == houseName
      && server.houses == old(server.houses) + {house}
      && (HasHouseNamed(old(server.houses), houseName) ==> house in old(server.houses))
      && (house in old(server.houses) ==>
            before == old(house.clients) && server.houseRepository == old(server.houseRepository))
      && (house !in old(server.houses) ==>
            fresh(house) && before == {} && house.rooms == {} &&
            match IndexOfKey(old(server.houseRepository), HouseName, houseName)
            case Some(i) =>
              house.Info() == old(server.houseRepository)[i] &&
              server.houseRepository == old(server.houseRepository)
            case None =>
              house.Info() == HouseInfo(newId, houseName, sender.Some?) &&
              server.houseRepository == old(server.houseRepository) + [house.Info()])
      // refusal
      && joined == (if sender.None? && house.isPrivate then null else house)
      // membership: only a first accepted join changes it
      && houses == old(houses) + (if joined != null then {house} else {})
      && house.clients == before + (if joined != null && house !in old(houses) then {this} else {})
      // queues: the members present before are welcomed, the joiner is told
      && (forall c :: c in before && c != this ==>
            c.send == old(c.send) +
              (if joined != null && house !in old(houses) then [HouseWelcome(house.Info(), name)] else []))
      && send == old(send) +
           JoinerNotices(house.Info(), joined != null && house !in old(houses), this in before, sender) + extra
      // nothing else
      && (forall h :: h in old(server.houses) && h != house ==> h.clients == old(h.clients))
      && (forall c :: c in old(server.Members()) && c !in before && c != this ==> c.send == old(c.send))
    }

    /** Neither this client, nor the server's houses and tables, nor any
        member's queue changed. */
    twostate predicate Untouched()
      reads *
    {
      && houses == old(houses) && send == old(send)
      && server.houses == old(server.houses) && server.houseRepository == old(server.houseRepository)
      && (forall h :: h in old(server.houses) ==> h.clients == old(h.clients))
      && (forall c :: c in old(server.Members()) ==> c.send == old(c.send))
    }

    /** The effect of a leave of the house with id `houseId`: `left` is the
        running house with that id, or null when there is none. */
    twostate predicate Left(houseId: string, new left: House?)
      reads *
    {
      && server.houses == old(server.houses) && server.houseRepository == old(server.houseRepository)
      && send == old(send)
      && (forall c :: c in old(server.Members()) ==> c.send == old(c.send))
      && (left == null ==>
            (forall h :: h in server.houses ==> h.id != houseId) &&
            houses == old(houses) && (forall h :: h in old(server.houses) ==> h.clients == old(h.clients)))
      && (left != null ==>
            left in old(server.houses) && left.id == houseId &&
            houses == old(houses) - {left} && left.clients == old(left.clients) - {this} &&
            (forall h :: h in old(server.houses) && h != left ==> h.clients == old(h.clients)))
    }

    /** The effect of a private join with the user `targetId`: nothing
        when no known user has that id; otherwise a join, with the target
        as sender, of the house named by the target id followed by this
        client's id, and then the invitation on this client's own queue. */
    twostate predicate JoinedPrivate(targetId: string, newId: string,
                                     new joined: House?, new house: House?, new before: set<Client>)
      reads *
    {
      match FindByKey(server.users, UserId, targetId)
      case None => joined == null && house == null && Untouched()
      case Some(target) =>
        house != null && joined == house &&
        Joined(targetId + id, Some(target), newId, joined, house, before,
               [Invitation(target, house.Info(), AsUser())])
    }

    /** Finds or creates the house `houseName` and joins it. */
    method JoinHouse(houseName: string, sender: Option<User>, newId: string)
      returns (joined: House?, ghost house: House, ghost before: set<Client>)
      modifies this`houses, this`send, server`houses, server`houseRepository
      modifies server.houses`clients, server.Members()`send
      ensures Joined(houseName, sender, newId, joined, house, before, [])
      ensures old(server.Consistent()) && this in old(server.clients) ==>
        server.Consistent() && (this in before <==> house in old(houses))
    {
      var found := server.HouseNamed(houseName, sender.Some?, newId);
      house := found;
      before := found.clients;
      if sender.None? && found.isPrivate {
        joined := null;
        return;
      }
      assert found in old(server.houses) ==> found.clients <= old(server.Members());
      Enter(found, sender);
      joined := found;
    }

    /** The join step: unless this client already lists `house`, it lists
        it, registers in it (welcoming the members present before) and is
        told that it joined.  A repeated join changes nothing. */
    method Enter(house: House, sender: Option<User>)
      modifies this`houses, this`send, house`clients, house.clients`send
      ensures houses == old(houses) + {house}
      ensures house.clients == old(house.clients) + (if house !in old(houses) then {this} else {})
      ensures forall c :: c in old(house.clients) && c != this ==>
        c.send == old(c.send) + (if house !in old(houses) then [HouseWelcome(house.Info(), name)] else [])
      ensures send == old(send) +
        (if house in old(houses) then []
         else if this in old(house.clients) then [HouseWelcome(house.Info(), name), HouseJoinedNotice(house.Info(), sender)]
         else [HouseJoinedNotice(house.Info(), sender)])
    {
      if !IsInHouse(house) {
        houses := houses + {house};
        house.RegisterClient(this);
        NotifyHouseJoined(house, sender);
      }
    }

    /** join-house: a public join of the house named by the message text. */
    method HandleJoinHouseMessage(m: Message, newId: string)
      returns (ghost joined: House?, ghost house: House, ghost before: set<Client>)
      modifies this`houses, this`send, server`houses, server`houseRepository
      modifies server.houses`clients, server.Members()`send
      ensures Joined(m.message, None, newId, joined, house, before, [])
      ensures old(server.Consistent()) && this in old(server.clients) ==> server.Consistent()
    {
      var entered;
      entered, house, before := JoinHouse(m.message, None, newId);
      joined := entered;
    }

    /** leave-house: drops the running house with the message's id, if any,
        and unregisters from it whether or not this client was a member. */
    method HandleLeaveHouseMessage(m: Message) returns (ghost left: House?)
      modifies this`houses, server.houses`clients
      ensures Left(m.message, left)
      ensures old(server.Consistent()) ==> server.Consistent()
    {
      var house := server.FindHouseByID(m.message);
      left := house;
      if house == null {
        return;
      }
      if house in houses {
        houses := houses - {house};
      }
      house.UnregisterClient(this);
    }

    /** join-house-private: with a known target user, joins the private house
        named by the target id followed by this client's id and queues an
        invitation of the target on this client's own queue. */
    method HandleJoinHousePrivateMessage(m: Message, newId: string)
      returns (ghost joined: House?, ghost house: House?, ghost before: set<Client>)
      modifies this`houses, this`send, server`houses, server`houseRepository
      modifies server.houses`clients, server.Members()`send
      ensures JoinedPrivate(m.message, newId, joined, house, before)
      ensures old(server.Consistent()) && this in old(server.clients) ==> server.Consistent()
    {
      joined, house, before := null, null, {};
      var target := server.FindUserByID(m.message);
      if target.None? {
        return;
      }
      var houseName := m.message + id;
      var entered, h, b := JoinHouse(houseName, target, newId);
      joined, house, before := entered, h, b;
      if entered != null {
        InviteTargetUser(target.value, entered);
      }
    }

    /** Handles one inbound frame; `frame` is None when it did not decode.
        A send-message without a house makes the server dereference a nil
        house and the process stops: `crashed` is then true.  `target` is
        the running house a send-message was relayed to; `joined`, `house`
        and `before` describe a join, and `house` the house left by a
        leave. */
    method HandleNewMessage(frame: Option<Message>, newId: string)
      returns (crashed: bool, ghost target: House?, ghost joined: House?, ghost house: House?,
               ghost before: set<Client>)
      modifies this`houses, this`send, server`houses, server`houseRepository
      modifies server.houses`clients, server.Members()`send
      ensures crashed <==>
        frame.Some? && ParseAction(frame.value.action) == Some(SendMessageAction) && frame.value.house.None?
      ensures crashed ==> Untouched()
      ensures (frame.None? ||
               ParseAction(frame.value.action) !in
                 {Some(SendMessageAction), Some(JoinHouseAction), Some(LeaveHouseAction), Some(JoinHousePrivateAction)})
        ==> Untouched()
      ensures frame.Some? && ParseAction(frame.value.action) == Some(SendMessageAction) && !crashed ==>
        houses == old(houses) && server.houses == old(server.houses) &&
        server.houseRepository == old(server.houseRepository) &&
        (forall h :: h in server.houses ==> h.clients == old(h.clients)) &&
        (target == null ==>
          Untouched() && forall h :: h in server.houses ==> h.id != frame.value.house.value.id) &&
        (target != null ==>
          target in server.houses && target.id == frame.value.house.value.id &&
          (forall c :: c in target.clients ==> c.send == old(c.send) + [frame.value.(sender := Some(AsUser()))]) &&
          (forall c :: c in old(server.Members()) && c !in target.clients ==> c.send == old(c.send)) &&
          (this !in target.clients ==> send == old(send)))
      ensures frame.Some? && ParseAction(frame.value.action) == Some(JoinHouseAction) ==>
        house != null && Joined(frame.value.message, None, newId, joined, house, before, [])
      ensures frame.Some? && ParseAction(frame.value.action) == Some(LeaveHouseAction) ==>
        Left(frame.value.message, house)
      ensures frame.Some? && ParseAction(frame.value.action) == Some(JoinHousePrivateAction) ==>
        JoinedPrivate(frame.value.message, newId, joined, house, before)
      ensures old(server.Consistent()) && this in old(server.clients) ==> server.Consistent()
    {
      crashed, target, joined, house, before := false, null, null, null, {};
      if frame.None? {
        return;
      }
      var message := frame.value.(sender := Some(AsUser()));
      var action := ParseAction(message.action);
      if action == Some(SendMessageAction) {
        if message.house.None? {
          crashed := true;
          return;
        }
        var found := server.FindHouseByID(message.house.value.id);
        if found != null {
          assert found.clients <= old(server.Members());
          found.Broadcast(message);
          target := found;
        }
      } else if action == Some(JoinHouseAction) {
        ghost var h;
        joined, h, before := HandleJoinHouseMessage(message, newId);
        house := h;
      } else if action == Some(LeaveHouseAction) {
        house := HandleLeaveHouseMessage(message);
      } else if action == Some(JoinHousePrivateAction) {
        joined, house, before := HandleJoinHousePrivateMessage(message, newId);
      }
    }

    /** Unregisters from the server and from every house this client lists,
        then closes the queue. */
    method Disconnect()
      modifies server`clients, houses`clients, this`closed
      ensures server.clients == old(server.clients) - {this}
      ensures forall h :: h in houses ==> h.clients == old(h.clients) - {this}
      ensures closed
      ensures old(server.Consistent()) ==> server.Consistent()
    {
      server.UnregisterClient(this);
      var todo := houses;
      while todo != {}
        invariant todo <= houses
        invariant server.clients == old(server.clients) - {this}
        invariant forall h :: h in houses && h !in todo ==> h.clients == old(h.clients) - {this}
        invariant forall h :: h in todo ==> h.clients == old(h.clients)
        decreases |todo|
      {
        var h :| h in todo;
        h.UnregisterClient(this);
        todo := todo - {h};
      }
      closed := true;
    }
  }
}
