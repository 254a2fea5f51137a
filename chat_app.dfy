/**
 * The browser side of the chat: the page's state (joined houses, known
 * users, login fields, the socket and the reconnect delay) and the handlers
 * that change it.
 *
 * Decoding a line of JSON is a parameter (`None` is a parse error).  A
 * JavaScript exception, from the decoder or from a handler touching a null
 * field, ends the processing of the frame; `completed` is then false.
 */
module ChatApp {
  import opened Wrappers
  import opened KeyedSeq
  import Chat

  // ---------------------------------------------------------------------
  // Splitting a frame into lines
  // ---------------------------------------------------------------------

  /** A frame split at every "\n" and every "\r\n"; a lone "\r" stays in its line. */
  function SplitLines(s: string): (r: seq<string>)
    ensures |r| >= 1
    ensures forall i :: 0 <= i < |r| ==> '\n' !in r[i]
  {
    if s == [] then [""]
    else if s[0] == '\n' then [""] + SplitLines(s[1..])
    else if s[0] == '\r' && |s| >= 2 && s[1] == '\n' then [""] + SplitLines(s[2..])
    else
      var rest := SplitLines(s[1..]);
      [[s[0]] + rest[0]] + rest[1..]
  }

  /** Lines joined back with "\n". */
  function JoinLines(ls: seq<string>): string
    requires |ls| >= 1
  {
    if |ls| == 1 then ls[0] else ls[0] + "\n" + JoinLines(ls[1..])
  }

  /** Without carriage returns, splitting loses nothing: joining the lines
      with "\n" gives the frame back. */
  lemma {:induction false} SplitJoinRoundTrip(s: string)
    requires '\r' !in s
    ensures JoinLines(SplitLines(s)) == s
  {
    if s == [] {
    } else if s[0] == '\n' {
      SplitJoinRoundTrip(s[1..]);
      assert s == "\n" + s[1..];
    } else {
      assert '\r' !in s[1..];
      SplitJoinRoundTrip(s[1..]);
      var rest := SplitLines(s[1..]);
      if |rest| == 1 {
        assert s == [s[0]] + rest[0];
      } else {
        assert ([[s[0]] + rest[0]] + rest[1..])[1..] == rest[1..];
        assert s == [s[0]] + (rest[0] + "\n" + JoinLines(rest[1..]));
      }
    }
  }

  /** A frame has one line more than it has "\n" characters. */
  function Newlines(s: string): nat {
    if s == [] then 0 else (if s[0] == '\n' then 1 else 0) + Newlines(s[1..])
  }

  lemma {:induction false} SplitLinesCount(s: string)
    ensures |SplitLines(s)| == Newlines(s) + 1
  {
    if s == [] {
    } else if s[0] == '\n' {
      SplitLinesCount(s[1..]);
    } else if s[0] == '\r' && |s| >= 2 && s[1] == '\n' {
      SplitLinesCount(s[2..]);
      assert Newlines(s) == Newlines(s[1..]) == 1 + Newlines(s[2..]) by {
        assert s[1..][1..] == s[2..];
      }
    } else {
      SplitLinesCount(s[1..]);
    }
  }

  // ---------------------------------------------------------------------
  // The page's lists and how incoming messages change them
  // ---------------------------------------------------------------------

  /** A joined house as the page holds it. `newMessage` is the text box,
      undefined until typed into. */
  datatype HouseView = HouseView(
    id: string,
    name: string,
    isPrivate: bool,
    messages: seq<Chat.Message>,
    newMessage: Option<string>)

  function ViewId(h: HouseView): string { h.id }

  /** The two lists incoming messages change. */
  datatype Lists = Lists(houses: seq<HouseView>, users: seq<Chat.User>)

  /** send-message: appended to the first house with the message's house
      id; ignored if there is none; a message without a house throws. */
  function ChatMessageStep(houses: seq<HouseView>, msg: Chat.Message): (r: Option<seq<HouseView>>)
    ensures r.None? <==> msg.house.None?
    ensures r.Some? ==> |r.value| == |houses| && forall j :: 0 <= j < |houses| ==> r.value[j].id == houses[j].id
  {
    if msg.house.None? then None
    else
      match IndexOfKey(houses, ViewId, msg.house.value.id)
      case None => Some(houses)
      case Some(i) => Some(houses[i := houses[i].(messages := houses[i].messages + [msg])])
  }

  /** user-join: the sender is added unless a user with its id is known.
      The list holds users only, so a null sender is an exception here,
      although with an empty list the page would push the null. */
  function UserJoinedStep(users: seq<Chat.User>, msg: Chat.Message): (r: Option<seq<Chat.User>>)
    ensures r.None? <==> msg.sender.None?
    ensures r.Some? ==> users <= r.value && |r.value| <= |users| + 1
    ensures r.Some? ==> (r.value == users <==> msg.sender.value.id in KeySet(users, Chat.UserId))
    ensures r.Some? && msg.sender.value.id !in KeySet(users, Chat.UserId) ==> r.value == users + [msg.sender.value]
  {
    if msg.sender.None? then None
    else if msg.sender.value.id in KeySet(users, Chat.UserId) then Some(users)
    else Some(users + [msg.sender.value])
  }

  /** user-left: the first user with the sender's id is spliced out, the
      others keeping their order. */
  function UserLeftStep(users: seq<Chat.User>, msg: Chat.Message): (r: Option<seq<Chat.User>>)
    ensures r.None? <==> msg.sender.None? && users != []
    ensures r.Some? ==> multiset(r.value) <= multiset(users) && |users| - 1 <= |r.value| <= |users|
    ensures r.Some? && msg.sender.Some? ==> (r.value == users <==> msg.sender.value.id !in KeySet(users, Chat.UserId))
  {
    if msg.sender.None? then (if users == [] then Some(users) else None)
    else
      match IndexOfKey(users, Chat.UserId, msg.sender.value.id)
      case None => Some(users)
      case Some(i) =>
        assert users == users[..i] + [users[i]] + users[i + 1..];
        Some(users[..i] + users[i + 1..])
  }

  /** house-joined: the house is appended with no messages, named after the
      sender when private; nothing prevents a second entry for the same id. */
  function HouseJoinedStep(houses: seq<HouseView>, msg: Chat.Message): (r: Option<seq<HouseView>>)
    ensures r.None? <==> msg.house.None? || (msg.house.value.isPrivate && msg.sender.None?)
    ensures r.Some? ==>
      houses < r.value && |r.value| == |houses| + 1 &&
      r.value[|houses|].id == msg.house.value.id && r.value[|houses|].messages == [] &&
      r.value[|houses|].isPrivate == msg.house.value.isPrivate &&
      (msg.house.value.isPrivate ==> r.value[|houses|].name == msg.sender.value.name)
  {
    if msg.house.None? then None
    else if msg.house.value.isPrivate && msg.sender.None? then None
    else
      var h := msg.house.value;
      Some(houses + [HouseView(h.id, if h.isPrivate then msg.sender.value.name else h.name, h.isPrivate, [], None)])
  }

  /** One decoded message, routed by its action; other actions change nothing. */
  function Dispatch(st: Lists, msg: Chat.Message): (r: Option<Lists>)
    ensures r.None? ==> msg.action in {"send-message", "user-join", "user-left", "house-joined"}
    ensures r.Some? && r.value.houses != st.houses ==> msg.action in {"send-message", "house-joined"}
    ensures r.Some? && r.value.users != st.users ==> msg.action in {"user-join", "user-left"}
  {
    if msg.action == "send-message" then
      match ChatMessageStep(st.houses, msg)
      case None => None
      case Some(hs) => Some(st.(houses := hs))
    else if msg.action == "user-join" then
      match UserJoinedStep(st.users, msg)
      case None => None
      case Some(us) => Some(st.(users := us))
    else if msg.action == "user-left" then
      match UserLeftStep(st.users, msg)
      case None => None
      case Some(us) => Some(st.(users := us))
    else if msg.action == "house-joined" then
      match HouseJoinedStep(st.houses, msg)
      case None => None
      case Some(hs) => Some(st.(houses := hs))
    else Some(st)
  }

  /** The lines of a frame, processed in order until the first exception. */
  function ProcessLines(st: Lists, lines: seq<string>, parse: string -> Option<Chat.Message>): (Lists, bool)
    decreases |lines|
  {
    if lines == [] then (st, true)
    else
      match parse(lines[0])
      case None => (st, false)
      case Some(msg) =>
        match Dispatch(st, msg)
        case None => (st, false)
        case Some(next) => ProcessLines(next, lines[1..], parse)
  }

  /** Unknown actions leave the page unchanged. */
  lemma DispatchIgnoresOtherActions(st: Lists, msg: Chat.Message)
    requires msg.action !in {"send-message", "user-join", "user-left", "house-joined"}
    ensures Dispatch(st, msg) == Some(st)
  {
  }

  /** A chat message reaches exactly one house, the first with its id, and
      is appended to it once; every other house is unchanged. */
  lemma ChatMessageRouting(houses: seq<HouseView>, msg: Chat.Message)
    requires msg.house.Some?
    ensures ChatMessageStep(houses, msg).Some?
    ensures var r := ChatMessageStep(houses, msg).value;
      |r| == |houses| &&
      match IndexOfKey(houses, ViewId, msg.house.value.id)
      case None => r == houses
      case Some(i) =>
        r[i].messages == houses[i].messages + [msg] && r[i].id == houses[i].id &&
        (forall j :: 0 <= j < |houses| && j != i ==> r[j] == houses[j]) &&
        (forall j :: 0 <= j < i ==> houses[j].id != msg.house.value.id)
  {
  }

  /** Removing a user by splice keeps the others in order, and with unique
      ids the sender's id is gone afterwards. */
  lemma UserLeftRemovesId(users: seq<Chat.User>, msg: Chat.Message)
    requires msg.sender.Some? && DistinctKeys(users, Chat.UserId)
    ensures UserLeftStep(users, msg).Some?
    ensures msg.sender.value.id !in KeySet(UserLeftStep(users, msg).value, Chat.UserId)
    ensures multiset(UserLeftStep(users, msg).value) <= multiset(users)
    ensures |UserLeftStep(users, msg).value| ==
      if msg.sender.value.id in KeySet(users, Chat.UserId) then |users| - 1 else |users|
  {
    var id := msg.sender.value.id;
    match IndexOfKey(users, Chat.UserId, id)
    case None =>
    case Some(i) =>
      var r := users[..i] + users[i + 1..];
      assert users == users[..i] + [users[i]] + users[i + 1..];
      forall k | 0 <= k < |r| ensures r[k].id != id {
        if k < i { assert r[k] == users[k]; } else { assert r[k] == users[k + 1]; }
      }
  }

  /** Appending a user whose id is not yet known keeps the ids unique. */
  lemma AppendNewKeepsDistinct(users: seq<Chat.User>, u: Chat.User)
    requires DistinctKeys(users, Chat.UserId)
    requires u.id !in KeySet(users, Chat.UserId)
    ensures DistinctKeys(users + [u], Chat.UserId)
  {
    var us := users + [u];
    forall i, j | 0 <= i < j < |us| ensures us[i].id != us[j].id {
      if j == |users| {
        assert Chat.UserId(users[i]) in KeySet(users, Chat.UserId);
      }
    }
  }

  /** Splicing one user out keeps the ids unique. */
  lemma SpliceKeepsDistinct(users: seq<Chat.User>, k: nat)
    requires DistinctKeys(users, Chat.UserId)
    requires k < |users|
    ensures DistinctKeys(users[..k] + users[k + 1..], Chat.UserId)
  {
    var us := users[..k] + users[k + 1..];
    forall i, j | 0 <= i < j < |us| ensures us[i].id != us[j].id {
      var i' := if i < k then i else i + 1;
      var j' := if j < k then j else j + 1;
      assert us[i] == users[i'] && us[j] == users[j'];
    }
  }

  /** Every message keeps the user ids unique. */
  lemma DispatchKeepsUsersDistinct(st: Lists, msg: Chat.Message)
    requires DistinctKeys(st.users, Chat.UserId)
    requires Dispatch(st, msg).Some?
    ensures DistinctKeys(Dispatch(st, msg).value.users, Chat.UserId)
  {
    if msg.action == "user-join" && msg.sender.Some? && msg.sender.value.id !in KeySet(st.users, Chat.UserId) {
      AppendNewKeepsDistinct(st.users, msg.sender.value);
    } else if msg.action == "user-left" && msg.sender.Some? {
      match IndexOfKey(st.users, Chat.UserId, msg.sender.value.id)
      case None =>
      case Some(k) =>
        SpliceKeepsDistinct(st.users, k);
    }
  }

  /** A whole frame keeps the user ids unique, however far it gets. */
  lemma {:induction false} ProcessKeepsUsersDistinct(st: Lists, lines: seq<string>, parse: string -> Option<Chat.Message>)
    requires DistinctKeys(st.users, Chat.UserId)
    ensures DistinctKeys(ProcessLines(st, lines, parse).0.users, Chat.UserId)
    decreases |lines|
  {
    if lines != [] {
      match parse(lines[0])
      case None =>
      case Some(msg) =>
        match Dispatch(st, msg)
        case None =>
        case Some(next) =>
          DispatchKeepsUsersDistinct(st, msg);
          ProcessKeepsUsersDistinct(next, lines[1..], parse);
    }
  }

  // ---------------------------------------------------------------------
  // Reconnect backoff
  // ---------------------------------------------------------------------

  const InitialReconnectDelay := 1000
  const MaxReconnectDelay := 16000

  /** The delay after a reconnect: doubled while below the maximum. */
  function NextDelay(d: int): int {
    if d < MaxReconnectDelay then d * 2 else d
  }

  /** The delay after `n` reconnects without a successful open. */
  function DelayAfter(d: int, n: nat): int
    decreases n
  {
    if n == 0 then d else DelayAfter(NextDelay(d), n - 1)
  }

  /** The waits before each of `n` successive reconnects, starting at delay `d`. */
  function Waits(d: int, n: nat): (r: seq<int>)
    ensures |r| == n
    ensures forall k :: 0 <= k < n ==> r[k] == DelayAfter(d, k)
    decreases n
  {
    if n == 0 then [] else [d] + Waits(NextDelay(d), n - 1)
  }

  function Pow2(n: nat): nat {
    if n == 0 then 1 else 2 * Pow2(n - 1)
  }

  /** After a successful open the delay doubles from 1000 to 16000 and stays there. */
  lemma {:induction false} BackoffAfterOpen(n: nat)
    ensures DelayAfter(1000, n) == if n < 4 then 1000 * Pow2(n) else MaxReconnectDelay
  {
    if n >= 4 {
      assert DelayAfter(1000, 4) == 16000 by {
        assert DelayAfter(1000, 4) == DelayAfter(2000, 3) == DelayAfter(4000, 2) == DelayAfter(8000, 1);
      }
      StaysAtMax(n - 4);
      DelayAfterSplit(1000, 4, n - 4);
    } else if n > 0 {
      BackoffAfterOpenSmall(n);
    }
  }

  lemma BackoffAfterOpenSmall(n: nat)
    requires 0 < n < 4
    ensures DelayAfter(1000, n) == 1000 * Pow2(n)
  {
    assert DelayAfter(8000, 0) == 8000;
    assert DelayAfter(4000, 1) == 8000;
    assert DelayAfter(2000, 2) == 8000;
    assert DelayAfter(2000, 1) == 4000;
  }

  lemma {:induction false} StaysAtMax(n: nat)
    ensures DelayAfter(MaxReconnectDelay, n) == MaxReconnectDelay
  {
    if n > 0 {
      StaysAtMax(n - 1);
    }
  }

  lemma {:induction false} DelayAfterSplit(d: int, a: nat, b: nat)
    ensures DelayAfter(d, a + b) == DelayAfter(DelayAfter(d, a), b)
    decreases a
  {
    if a > 0 {
      DelayAfterSplit(NextDelay(d), a - 1, b);
    }
  }

  /** The first six waits after an open. */
  lemma WaitsAfterOpen()
    ensures Waits(1000, 6) == [1000, 2000, 4000, 8000, 16000, 16000]
  {
    forall k | 0 <= k < 6 ensures Waits(1000, 6)[k] == [1000, 2000, 4000, 8000, 16000, 16000][k] {
      BackoffAfterOpen(k);
    }
  }

  /** Before any successful open the delay is 0 and stays 0: every reconnect
      is immediate. */
  lemma {:induction false} BackoffBeforeOpen(n: nat)
    ensures DelayAfter(0, n) == 0
  {
    if n > 0 {
      BackoffBeforeOpen(n - 1);
    }
  }

  // ---------------------------------------------------------------------
  // The page
  // ---------------------------------------------------------------------

  /** The login form's fields. */
  datatype Credentials = Credentials(name: string, username: string, password: string, token: string)

  /** The house reference an outgoing chat message carries. */
  datatype HouseRef = HouseRef(id: string, name: string)

  /** A frame written to the socket. `None` in `message` is written as
      null; `None` in `house` is an undefined field, left out of the JSON. */
  datatype OutFrame = OutFrame(action: string, message: Option<string>, house: Option<HouseRef>)

  /** The socket address: the token when there is one, the name otherwise. */
  function SocketUrl(serverUrl: string, user: Credentials): string {
    if user.token != "" then serverUrl + "?bearer=" + user.token
    else serverUrl + "?name=" + user.name
  }

  class App {
    const serverUrl: string
    /** The socket, as the address it was opened on; None is null. */
    var ws: Option<string>
    /** Whether the socket's open event has fired: a new socket is still
        connecting, and sending on it throws. */
    var open: bool
    /** The house-name input field; None is its initial null. */
    var houseInput: Option<string>
    var houses: seq<HouseView>
    var user: Credentials
    var users: seq<Chat.User>
    var currentReconnectDelay: int
    /** Every frame written to a socket, in order. */
    var sent: seq<OutFrame>

    /** The page's initial data, served from `host`. */
    constructor (host: string)
      ensures serverUrl == "ws://" + host + "/ws" && ws == None && !open
      ensures houseInput == None
      ensures houses == [] && users == [] && user == Credentials("", "", "", "")
      ensures currentReconnectDelay == 0 && sent == []
    {
      serverUrl := "ws://" + host + "/ws";
      ws := None;
      open := false;
      houseInput := None;
      houses := [];
      user := Credentials("", "", "", "");
      users := [];
      currentReconnectDelay := 0;
      sent := [];
    }

    function Current(): Lists
      reads this
    {
      Lists(houses, users)
    }

    /** `ws.send` succeeds only on a socket whose open event has fired; on
        null it throws a TypeError, while connecting an InvalidStateError. */
    predicate CanSend()
      reads this
    {
      ws.Some? && open
    }

    /** Opens a socket authenticated by token, or by name without one; the
        new socket is still connecting. */
    method ConnectToWebsocket()
      modifies this`ws, this`open
      ensures ws == Some(SocketUrl(serverUrl, user)) && !open && !CanSend()
      ensures user.token != "" ==> ws == Some(serverUrl + "?bearer=" + user.token)
      ensures user.token == "" ==> ws == Some(serverUrl + "?name=" + user.name)
    {
      if user.token != "" {
        ws := Some(serverUrl + "?bearer=" + user.token);
      } else {
        ws := Some(serverUrl + "?name=" + user.name);
      }
      open := false;
    }

    /** A successful open resets the delay to 1000; from now on the socket
        can send. */
    method OnWebsocketOpen()
      modifies this`currentReconnectDelay, this`open
      ensures currentReconnectDelay == InitialReconnectDelay && open
      ensures ws.Some? ==> CanSend()
    {
      currentReconnectDelay := 1000;
      open := true;
    }

    /** A close drops the socket; the reconnect is scheduled after `wait`
        milliseconds, the current delay. */
    method OnWebsocketClose() returns (wait: int)
      modifies this`ws, this`open
      ensures ws == None && !open && !CanSend() && wait == currentReconnectDelay
    {
      ws := None;
      open := false;
      wait := currentReconnectDelay;
    }

    /** Doubles the delay while it is below the maximum, then reconnects. */
    method ReconnectToWebsocket()
      modifies this`ws, this`open, this`currentReconnectDelay
      ensures currentReconnectDelay == NextDelay(old(currentReconnectDelay))
      ensures ws == Some(SocketUrl(serverUrl, user)) && !CanSend()
    {
      if currentReconnectDelay < MaxReconnectDelay {
        currentReconnectDelay := currentReconnectDelay * 2;
      }
      ConnectToWebsocket();
    }

    /** The index of the first house with identifier `id`. */
    method FindHouse(id: string) returns (index: Option<nat>)
      ensures index == IndexOfKey(houses, ViewId, id)
    {
      var i := 0;
      while i < |houses|
        invariant 0 <= i <= |houses|
        invariant forall j :: 0 <= j < i ==> houses[j].id != id
      {
        if houses[i].id == id {
          assert ViewId(houses[i]) == id && id in KeySet(houses, ViewId);
          return Some(i);
        }
        i := i + 1;
      }
      assert forall k :: k in KeySet(houses, ViewId) ==> k != id;
      return None;
    }

    /** Whether a known user has the identifier of `u`. */
    method UserExists(u: Chat.User) returns (exists_: bool)
      ensures exists_ <==> u.id in KeySet(users, Chat.UserId)
    {
      var i := 0;
      while i < |users|
        invariant 0 <= i <= |users|
        invariant forall j :: 0 <= j < i ==> users[j].id != u.id
      {
        if users[i].id == u.id {
          assert Chat.UserId(users[i]) == u.id;
          return true;
        }
        i := i + 1;
      }
      assert forall k :: k in KeySet(users, Chat.UserId) ==> k != u.id;
      return false;
    }

    method HandleChatMessage(msg: Chat.Message) returns (ok: bool)
      modifies this`houses
      ensures ok == ChatMessageStep(old(houses), msg).Some?
      ensures houses == ChatMessageStep(old(houses), msg).GetOr(old(houses))
    {
      if msg.house.None? {
        return false;
      }
      var index := FindHouse(msg.house.value.id);
      if index.Some? {
        var i := index.value;
        houses := houses[i := houses[i].(messages := houses[i].messages + [msg])];
      }
      return true;
    }

    method HandleUserJoined(msg: Chat.Message) returns (ok: bool)
      modifies this`users
      ensures ok == UserJoinedStep(old(users), msg).Some?
      ensures users == UserJoinedStep(old(users), msg).GetOr(old(users))
    {
      if msg.sender.None? {
        return false;
      }
      var known := UserExists(msg.sender.value);
      if !known {
        users := users + [msg.sender.value];
      }
      return true;
    }

    method HandleUserLeft(msg: Chat.Message) returns (ok: bool)
      modifies this`users
      ensures ok == UserLeftStep(old(users), msg).Some?
      ensures users == UserLeftStep(old(users), msg).GetOr(old(users))
    {
      if msg.sender.None? {
        return users == [];
      }
      var i := 0;
      while i < |users|
        invariant 0 <= i <= |users|
        invariant users == old(users)
        invariant forall j :: 0 <= j < i ==> users[j].id != msg.sender.value.id
      {
        if users[i].id == msg.sender.value.id {
          assert Chat.UserId(users[i]) == msg.sender.value.id;
          users := users[..i] + users[i + 1..];
          return true;
        }
        i := i + 1;
      }
      assert forall k :: k in KeySet(users, Chat.UserId) ==> k != msg.sender.value.id;
      return true;
    }

    method HandleHouseJoined(msg: Chat.Message) returns (ok: bool)
      modifies this`houses
      ensures ok == HouseJoinedStep(old(houses), msg).Some?
      ensures houses == HouseJoinedStep(old(houses), msg).GetOr(old(houses))
    {
      if msg.house.None? || (msg.house.value.isPrivate && msg.sender.None?) {
        return false;
      }
      var h := msg.house.value;
      var name := if h.isPrivate then msg.sender.value.name else h.name;
      houses := houses + [HouseView(h.id, name, h.isPrivate, [], None)];
      return true;
    }

    /** The `switch` on the action of one decoded line. */
    method HandleMessage(m: Chat.Message) returns (ok: bool)
      modifies this`houses, this`users
      ensures ok == Dispatch(old(Current()), m).Some?
      ensures Current() == Dispatch(old(Current()), m).GetOr(old(Current()))
    {
      ok := true;
      if m.action == "send-message" {
        ok := HandleChatMessage(m);
      } else if m.action == "user-join" {
        ok := HandleUserJoined(m);
      } else if m.action == "user-left" {
        ok := HandleUserLeft(m);
      } else if m.action == "house-joined" {
        ok := HandleHouseJoined(m);
      }
    }

    /** Processes one socket frame line by line; `completed` is false when a
        line failed to decode or a handler threw, which ends the frame. */
    method HandleNewMessage(data: string, parse: string -> Option<Chat.Message>) returns (completed: bool)
      modifies this`houses, this`users
      ensures (Current(), completed) == ProcessLines(old(Current()), SplitLines(data), parse)
      ensures DistinctKeys(old(users), Chat.UserId) ==> DistinctKeys(users, Chat.UserId)
    {
      if DistinctKeys(users, Chat.UserId) {
        ProcessKeepsUsersDistinct(Current(), SplitLines(data), parse);
      }
      var lines := SplitLines(data);
      var i := 0;
      while i < |lines|
        invariant 0 <= i <= |lines|
        invariant ProcessLines(Current(), lines[i..], parse) == ProcessLines(old(Current()), lines, parse)
      {
        var msg := parse(lines[i]);
        if msg.None? {
          return false;
        }
        var ok := HandleMessage(msg.value);
        if !ok {
          return false;
        }
        assert lines[i..][1..] == lines[i + 1..];
        i := i + 1;
      }
      return true;
    }

    /** Sends the text box of house `i` unless it is empty, then clears it;
        without an open socket the send throws before the box is cleared. */
    method SendMessage(i: nat) returns (ok: bool)
      requires i < |houses|
      modifies this`houses, this`sent
      ensures var h := old(houses)[i];
        if h.newMessage == Some("") then
          ok && houses == old(houses) && sent == old(sent)
        else if !CanSend() then
          !ok && houses == old(houses) && sent == old(sent)
        else
          ok && sent == old(sent) + [OutFrame("send-message", h.newMessage, Some(HouseRef(h.id, h.name)))] &&
          houses == old(houses)[i := h.(newMessage := Some(""))]
    {
      var h := houses[i];
      if h.newMessage != Some("") {
        if !CanSend() {
          return false;
        }
        sent := sent + [OutFrame("send-message", h.newMessage, Some(HouseRef(h.id, h.name)))];
        houses := houses[i := h.(newMessage := Some(""))];
      }
      return true;
    }

    /** Sends leave-house for `house`, then removes the first house with its
        identifier; without an open socket the send throws first. */
    method LeaveHouse(house: HouseView) returns (ok: bool)
      modifies this`houses, this`sent
      ensures ok == CanSend()
      ensures ok ==> sent == old(sent) + [OutFrame("leave-house", Some(house.id), None)]
      ensures !ok ==> sent == old(sent) && houses == old(houses)
      ensures ok ==> match IndexOfKey(old(houses), ViewId, house.id)
        case None => houses == old(houses)
        case Some(k) => houses == old(houses)[..k] + old(houses)[k + 1..]
    {
      if !CanSend() {
        return false;
      }
      sent := sent + [OutFrame("leave-house", Some(house.id), None)];
      var index := FindHouse(house.id);
      if index.Some? {
        houses := houses[..index.value] + houses[index.value + 1..];
      }
      return true;
    }

    /** Sends join-house with the house-name field, then clears the field;
        without an open socket the send throws before the field is cleared. */
    method JoinHouse() returns (ok: bool)
      modifies this`houseInput, this`sent
      ensures ok == CanSend()
      ensures ok ==> sent == old(sent) + [OutFrame("join-house", old(houseInput), None)] && houseInput == Some("")
      ensures !ok ==> sent == old(sent) && houseInput == old(houseInput)
    {
      if !CanSend() {
        return false;
      }
      sent := sent + [OutFrame("join-house", houseInput, None)];
      houseInput := Some("");
      return true;
    }

    /** Sends join-house-private naming the user `id`, whose private house
        with this user is to be joined; without an open socket it throws. */
    method JoinPrivateHouse(id: string) returns (ok: bool)
      modifies this`sent
      ensures ok == CanSend()
      ensures ok ==> sent == old(sent) + [OutFrame("join-house-private", Some(id), None)]
      ensures !ok ==> sent == old(sent)
    {
      if !CanSend() {
        return false;
      }
      sent := sent + [OutFrame("join-house-private", Some(id), None)];
      return true;
    }
  }
}
