# A verified model of the chat relay, the trucking API's utilities and the address formatter

This project models, in Dafny, the parts of three code bases that carry real logic.

- **The websocket chat relay** (`GO-Socket-Chat-app`). A `Server` knows the users, the
  registered clients and the running houses. A `House` or `Room` keeps a set of member
  clients and fans messages out to them. A `Client` keeps the set of houses it joined and
  an outbound queue. Every goroutine `select` case becomes a direct method call, and each
  client's buffered `send` channel is a `seq<Message>` field that the methods append to.
  The house and user tables are sequences of rows. Fresh UUIDs are method parameters.
  (module `Chat`, `chat.dfy`)
- **The browser client of the chat** (`public/assets/app.js`). The Vue `data` object is a
  class `App`. Its handlers split a frame into lines, route each decoded message by
  action, keep the user list free of duplicate ids, and run the reconnect backoff. The
  backoff resets to 1000 ms on open and doubles below 16000 ms. (module `ChatApp`,
  `chat_app.dfy`)
- **The Express API's utilities** (`Trucking-Game-API`):
  - the pagination middleware (`pagination.dfy`);
  - the slug generator (`slug.dfy`), with `String.prototype.trim`-style trimming,
    `parseInt` and decimal printing modelled in `js_text.dfy`;
  - the view counting and top-k selection of the metrics controllers
    (`view_metrics.dfy`);
  - the article access rule, search filters, author options and editing lock
    (`articles.dfy`);
  - the ticket status filters, creation numbering, status update, admin assignment and
    batch delete, over an in-memory map of tickets (`tickets.dfy`).
- **`CustomAddress` of the Stripe integration service**: its five-argument constructor
  and `toString`, with Java's `null` as `None` (`address.dfy`).

Two small shared modules hold generic pieces. `wrappers.dfy` has `Option` and `Result`.
`keyed_seq.dfy` has first-occurrence lookup and de-duplication of a sequence by a key.
Those helpers back the online-user listing, the author options and the view counter.

Database calls are modelled as functions of an explicit store. A Mongoose lookup by a
malformed id throws a cast error; the model writes this as `Thrown`. An Express handler
that calls `next(err)` without returning keeps running. The model therefore records
every store write and the first response sent (`Tickets.FirstSent`).

Where the code and its description differ, the model follows the code:
- The reconnect delay starts at 0, not at the initial delay. A successful open resets it
  to the literal 1000. Before the first open every reconnect is immediate
  (`ChatApp.BackoffBeforeOpen`).
- A send-message to a house the client has not joined is still relayed. No membership
  check is made. A send-message naming a house id that no running house has is dropped
  silently, with no error event.
- A send-message frame with no house (or `"house": null`) makes the server read the id
  of a nil house. The panic is not recovered, so the server process stops.
  `Chat.Client.HandleNewMessage` reports this frame as `crashed`.
- A private join naming an unknown user does nothing. No error event is sent.

## Model

| member | source | states |
|---|---|---|
| Chat.ParseAction | GO-Socket-Chat-app/message.go:10-20 | a wire name parses to an action whose name it is; an unparsed name is no action's name |
| Chat.TagRoundTrip | GO-Socket-Chat-app/message.go:10-20 | the eleven wire names are distinct: every action is recovered from its name |
| Chat.Welcome | GO-Socket-Chat-app/room.go:9 | the welcome text is the joiner's name followed by " joined the room" |
| Chat.OnlineUserNotices | GO-Socket-Chat-app/chatServer.go:163-168 | one user-join notice per listed user, in order, each carrying that user as sender |
| Chat.OnlineUsersDistinct | GO-Socket-Chat-app/chatServer.go:159-171 | the online listing names each user id of the table exactly once, with entries taken from the table |
| Chat.ListingStep | GO-Socket-Chat-app/chatServer.go:161-169 | one more table row adds a notice exactly when its id was not listed yet |
| Chat.OnlineNotices | GO-Socket-Chat-app/chatServer.go:159-171 | the listing loop with its seen-set emits the notices of the first-occurrence de-duplication of the user table |
| Chat.WithoutFirstUserRemovesOne | GO-Socket-Chat-app/chatServer.go:138-147 | user-left removes exactly one entry, the first with the id, and keeps the rest as a multiset; an unknown id changes nothing |
| Chat.WithoutFirstUserReorders | GO-Socket-Chat-app/chatServer.go:142-143 | the swap removal can change the order of the remaining users |
| Chat.Room.constructor | GO-Socket-Chat-app/room.go:22-32 | a new room has the given name, flag and fresh id, and no members |
| Chat.Room.Broadcast | GO-Socket-Chat-app/room.go:64-68 | every current member gets exactly one copy queued |
| Chat.Room.NotifyClientJoined | GO-Socket-Chat-app/room.go:71-79 | the current members are sent the welcome naming the joiner |
| Chat.Room.RegisterClient | GO-Socket-Chat-app/room.go:49-54 | the client becomes a member; in a public room only the members present before are welcomed, in a private room nobody is |
| Chat.Room.UnregisterClient | GO-Socket-Chat-app/room.go:57-61 | removes a present client, no-op otherwise, and sends nothing |
| Chat.House.constructor | GO-Socket-Chat-app/house.go:21-32 | a new house has the given name, flag and fresh id, no members and no rooms |
| Chat.House.CreateRoom | GO-Socket-Chat-app/house.go:49-55 | a fresh empty room is added to the house's rooms; the members are untouched |
| Chat.House.Broadcast | GO-Socket-Chat-app/house.go:86-90 | every current member gets exactly one copy queued |
| Chat.House.NotifyClientJoined | GO-Socket-Chat-app/house.go:93-101 | the current members are sent a send-message welcome naming the joiner |
| Chat.House.RegisterClient | GO-Socket-Chat-app/house.go:73-76 | the members present before are welcomed, the newcomer is not; membership is a set, so a repeat adds nothing but welcomes again |
| Chat.House.UnregisterClient | GO-Socket-Chat-app/house.go:79-83 | removes a present client, no-op otherwise, and sends nothing |
| Chat.Server.constructor | GO-Socket-Chat-app/chatServer.go:26-40 | a new server has no clients and no houses, and its known users are the user table |
| Chat.Server.FindUserByID | GO-Socket-Chat-app/chatServer.go:232-242 | finds the first known user with the id, or none |
| Chat.Server.ListOnlineClients | GO-Socket-Chat-app/chatServer.go:159-171 | the client is sent one user-join per distinct known user id, first occurrence first |
| Chat.Server.RegisterClient | GO-Socket-Chat-app/chatServer.go:59-71 | the user table gains the client only when its id is not a known user; `users` itself is not changed; the client gets the online listing and is added; consistency is kept |
| Chat.Server.UnregisterClient | GO-Socket-Chat-app/chatServer.go:73-80 | removes a present client, no-op otherwise |
| Chat.Server.BroadcastToClients | GO-Socket-Chat-app/chatServer.go:173-177 | every registered client gets exactly one copy |
| Chat.Server.HandleUserJoined | GO-Socket-Chat-app/chatServer.go:132-136 | the sender is appended to the known users and the message goes to every registered client |
| Chat.Server.HandleUserLeft | GO-Socket-Chat-app/chatServer.go:138-149 | the first user with the sender's id is swap-removed, then the message goes to every registered client |
| Chat.Server.FindClientsByID | GO-Socket-Chat-app/chatServer.go:244-253 | exactly the registered clients with the id, possibly several |
| Chat.Server.FindHouseByID | GO-Socket-Chat-app/chatServer.go:210-220 | a running house with the id, or none when no running house has it; the house table is not consulted |
| Chat.Server.RunHouseFromRepository | GO-Socket-Chat-app/chatServer.go:196-208 | a stored house of that name is started as a fresh empty house with the stored id and flag; otherwise nothing changes |
| Chat.Server.FindHouseByName | GO-Socket-Chat-app/chatServer.go:179-194 | a running house of that name if any; else one restored from the table and started; else none |
| Chat.Server.CreateHouse | GO-Socket-Chat-app/chatServer.go:222-230 | a fresh empty house is added both to the table and to the running houses |
| Chat.Server.HouseNamed | GO-Socket-Chat-app/client.go:240-243 | find-or-create by name: a new house is created only when neither the running houses nor the table have the name, and is private exactly when requested |
| Chat.Client.constructor | GO-Socket-Chat-app/client.go:51-66 | a new client has no houses and an empty queue; a missing id becomes the zero UUID |
| Chat.Client.IsInHouse | GO-Socket-Chat-app/client.go:263-269 | on a consistent server, the client counts itself a member of a running house exactly when the house lists the client |
| Chat.Client.NotifyHouseJoined | GO-Socket-Chat-app/client.go:286-294 | one house-joined notice is queued on this client only |
| Chat.Client.InviteTargetUser | GO-Socket-Chat-app/client.go:271-284 | one invitation naming the target is queued on this client's own queue |
| Chat.Client.JoinHouse | GO-Socket-Chat-app/client.go:238-261 | the house is the running one of that name, else one restored from the table, else a new one that is private exactly for a private join; a public join of a private house is refused; a first accepted join adds the house to the client, registers it, welcomes the members present before and queues one house-joined notice on the joiner; a repeat or refused join queues nothing on anyone and changes no membership; no other house or client is touched |
| Chat.Client.Enter | GO-Socket-Chat-app/client.go:250-256 | the join step is idempotent: only a house not yet listed is added, registered in and announced |
| Chat.Client.HandleJoinHouseMessage | GO-Socket-Chat-app/client.go:198-202 | has exactly the effect of a public join of the house named by the message text, as stated for `JoinHouse`; consistency is kept |
| Chat.Client.HandleLeaveHouseMessage | GO-Socket-Chat-app/client.go:204-215 | an unknown id is a no-op; otherwise the house is dropped from the client's set and the client unregistered from it, member or not |
| Chat.Client.HandleJoinHousePrivateMessage | GO-Socket-Chat-app/client.go:217-236 | an unknown target changes no house, membership, table or queue; otherwise the join of the house named target id + own id, with the target as sender, after which the joiner's queue is the join's notices followed by the invitation of the target |
| Chat.Client.HandleNewMessage | GO-Socket-Chat-app/client.go:168-196 | undecodable frames and other actions change nothing; a send-message without a house crashes the server and changes nothing; a send-message with a house reaches every member of the running house with its id, with this client as sender and no membership check, and an unknown id is dropped; join-house, leave-house and join-house-private have exactly the effects of their handlers |
| Chat.Client.Disconnect | GO-Socket-Chat-app/client.go:133-139 | the client is unregistered from the server and from every house it lists, then closed; consistency is kept |
| ChatApp.SplitLines | GO-Socket-Chat-app/public/assets/app.js:73 | splitting at "\n" and "\r\n" gives at least one line, none holding "\n" |
| ChatApp.SplitJoinRoundTrip | GO-Socket-Chat-app/public/assets/app.js:73 | without carriage returns, joining the lines with "\n" gives the frame back |
| ChatApp.SplitLinesCount | GO-Socket-Chat-app/public/assets/app.js:73 | a frame has one line more than it has "\n" characters |
| ChatApp.DispatchIgnoresOtherActions | GO-Socket-Chat-app/public/assets/app.js:78-93 | actions other than the four handled ones leave the page unchanged |
| ChatApp.Dispatch | GO-Socket-Chat-app/public/assets/app.js:78-93 | only the four handled actions can throw; the house list changes only for send-message and house-joined, the user list only for user-join and user-left |
| ChatApp.ChatMessageRouting | GO-Socket-Chat-app/public/assets/app.js:97-102 | a chat message is appended once, to the first house with its id, and every other house is unchanged; with no such house nothing changes |
| ChatApp.ChatMessageStep | GO-Socket-Chat-app/public/assets/app.js:97-102 | a message without a house throws; otherwise the house list keeps its length and the ids of its houses |
| ChatApp.UserJoinedStep | GO-Socket-Chat-app/public/assets/app.js:103-107 | the known users are kept in order, and the sender is appended, and nothing else, exactly when no known user has its id |
| ChatApp.UserLeftStep | GO-Socket-Chat-app/public/assets/app.js:108-115 | a null sender throws unless the list is empty; otherwise at most one user is removed, none added, and the list changes exactly when a user has the sender's id |
| ChatApp.HouseJoinedStep | GO-Socket-Chat-app/public/assets/app.js:116-121 | a message without a house, or a private one without a sender, throws; otherwise one house is appended, with the message's id and privacy, no messages, and the sender's name when private |
| ChatApp.UserLeftRemovesId | GO-Socket-Chat-app/public/assets/app.js:108-115 | with unique ids, the sender's id is gone afterwards, the others are kept and the list shrinks by one exactly when the id was present |
| ChatApp.DispatchKeepsUsersDistinct | GO-Socket-Chat-app/public/assets/app.js:103-115 | every message keeps user ids unique |
| ChatApp.ProcessKeepsUsersDistinct | GO-Socket-Chat-app/public/assets/app.js:71-96 | a whole frame keeps user ids unique, however far it gets before an exception |
| ChatApp.Waits | GO-Socket-Chat-app/public/assets/app.js:58-60 | the k-th wait is the delay after k reconnects |
| ChatApp.BackoffAfterOpen | GO-Socket-Chat-app/public/assets/app.js:52-67 | after an open the delay is 1000·2^n for n < 4 and 16000 from then on |
| ChatApp.StaysAtMax | GO-Socket-Chat-app/public/assets/app.js:65-67 | once at 16000 the delay no longer grows |
| ChatApp.WaitsAfterOpen | GO-Socket-Chat-app/public/assets/app.js:52-69 | the waits after an open are 1000, 2000, 4000, 8000, 16000, 16000 |
| ChatApp.BackoffBeforeOpen | GO-Socket-Chat-app/public/assets/app.js:64-67 | from the initial delay of 0, before any open, doubling keeps it 0 |
| ChatApp.App.constructor | GO-Socket-Chat-app/public/assets/app.js:3-19 | the initial data: no socket and none open, no houses or users, empty credentials, a null house box, delay 0 |
| ChatApp.App.ConnectToWebsocket | GO-Socket-Chat-app/public/assets/app.js:40-45 | the socket URL carries bearer=token when the token is non-empty, else name=name; the new socket is still connecting and cannot send |
| ChatApp.App.OnWebsocketOpen | GO-Socket-Chat-app/public/assets/app.js:50-53 | a successful open resets the delay to 1000 and makes the socket able to send |
| ChatApp.App.OnWebsocketClose | GO-Socket-Chat-app/public/assets/app.js:55-62 | a close drops the socket, so nothing can be sent, and waits the current delay |
| ChatApp.App.ReconnectToWebsocket | GO-Socket-Chat-app/public/assets/app.js:64-69 | the delay doubles only below 16000, then the socket is reopened |
| ChatApp.App.FindHouse | GO-Socket-Chat-app/public/assets/app.js:135-141 | the index of the first house with the id, or none |
| ChatApp.App.UserExists | GO-Socket-Chat-app/public/assets/app.js:159-166 | true exactly when a known user has the id |
| ChatApp.App.HandleChatMessage | GO-Socket-Chat-app/public/assets/app.js:97-102 | appends to the first house with the id; a message without a house throws |
| ChatApp.App.HandleUserJoined | GO-Socket-Chat-app/public/assets/app.js:103-107 | adds the sender only when no user has its id |
| ChatApp.App.HandleUserLeft | GO-Socket-Chat-app/public/assets/app.js:108-115 | splices out the first user with the sender's id; an absent id is a no-op |
| ChatApp.App.HandleHouseJoined | GO-Socket-Chat-app/public/assets/app.js:116-121 | appends the house with no messages, named after the sender when private, without de-duplication |
| ChatApp.App.HandleMessage | GO-Socket-Chat-app/public/assets/app.js:78-93 | routes one message by action to its handler |
| ChatApp.App.HandleNewMessage | GO-Socket-Chat-app/public/assets/app.js:71-96 | processes the lines in order until the first decode error or exception, keeping user ids unique |
| ChatApp.App.SendMessage | GO-Socket-Chat-app/public/assets/app.js:122-134 | a non-empty text box is sent with the house id and name, then cleared; an empty one sends nothing; without an open socket the send throws and nothing changes |
| ChatApp.App.LeaveHouse | GO-Socket-Chat-app/public/assets/app.js:146-155 | sends leave-house, then removes the first house with the id; without an open socket it throws before changing anything |
| ChatApp.App.JoinHouse | GO-Socket-Chat-app/public/assets/app.js:142-145 | with an open socket, sends join-house with the house box, then clears the box; otherwise it throws and nothing changes |
| ChatApp.App.JoinPrivateHouse | GO-Socket-Chat-app/public/assets/app.js:156-158 | with an open socket, sends join-house-private with the house id; otherwise it throws and nothing is sent |
| JsText.TrimStart | Trucking-Game-API/utils/generateSlug.js:11 | removes exactly the leading white space |
| JsText.TrimEnd | Trucking-Game-API/utils/generateSlug.js:11 | removes exactly the trailing white space |
| JsText.TrimUnchanged | Trucking-Game-API/utils/generateSlug.js:11 | text without white space at either end is left unchanged |
| JsText.NatToString | Trucking-Game-API/utils/generateSlug.js:35 | the decimal text of a number is non-empty digits without a leading zero |
| JsText.NatToStringRoundTrip | Trucking-Game-API/utils/generateSlug.js:35 | the decimal text reads back as the number |
| JsText.ParseIntOfNat | Trucking-Game-API/middleware/pagination.js:13-14 | `parseInt` reads back the decimal text of every natural number |
| JsText.ParseInt | Trucking-Game-API/middleware/pagination.js:13-14 | blank text gives NaN; a number needs a decimal digit right after the leading white space and at most one sign; a negative number needs that sign to be a minus |
| JsText.ParseIntStopsAtNonDigit | Trucking-Game-API/middleware/pagination.js:13-14 | `parseInt` reads decimal digits up to the first non-digit, leading zeros included, unless a lone 0 followed by x makes the text hexadecimal |
| JsText.ParseUnsignedDigits | Trucking-Game-API/middleware/pagination.js:13-14 | any run of decimal digits reads as its value |
| JsText.ParseIntOneDigit | Trucking-Game-API/middleware/pagination.js:13-14 | a single digit reads as its value, and with a leading minus sign as the negated value |
| JsText.ParseIntNegative | Trucking-Game-API/middleware/pagination.js:13-14 | a leading minus negates what follows |
| Pagination.LimitRule | Trucking-Game-API/middleware/pagination.js:13-27 | only a limit above 100 is refused, with the fixed message; otherwise the limit passes unchanged, or 10 when missing, unreadable or zero |
| Pagination.Paginate | Trucking-Game-API/middleware/pagination.js:16-27 | exactly a limit above 100 is refused, with the fixed message; a passed limit is non-zero and at most 100; a falsy page starts at 0 and any other page p at (p - 1) times the limit |
| Pagination.PaginateQuery | Trucking-Game-API/middleware/pagination.js:10-29 | without a limit the page size is 10; without a page, or with page text parseInt reads as 0 or NaN, the start is 0; a page text read as p starts at (p - 1) times the limit; a refusal needs a limit holding a digit |
| Pagination.FirstPageDefault | Trucking-Game-API/middleware/pagination.js:19-27 | a missing, unreadable or zero page starts at 0 |
| Pagination.NoParameters | Trucking-Game-API/middleware/pagination.js:13-27 | no parameters give limit 10 and start 0 |
| Pagination.PagesAdjacent | Trucking-Game-API/middleware/pagination.js:26-27 | page p + 1 starts where page p ends |
| Pagination.PagesDisjoint | Trucking-Game-API/middleware/pagination.js:26-27 | with a positive limit, distinct pages cover disjoint ranges |
| Pagination.NegativeValuesPass | Trucking-Game-API/middleware/pagination.js:16-27 | a negative limit or page passes through and can give a negative start |
| Pagination.NegativeQueryText | Trucking-Game-API/middleware/pagination.js:13 | the text "-5" is read as -5 |
| Slug.LowerChar | Trucking-Game-API/utils/generateSlug.js:13 | a capital's lower case differs from it and holds no capital; A-Z become the letter at the same place of a-z; anything else stays as it is; only capital I with dot above becomes two characters |
| Slug.Lower | Trucking-Game-API/utils/generateSlug.js:13 | the result is at least as long as the input and holds no capital; without capital I with dot above it has the input's length and each character is the lower case of the input's character at that place |
| Slug.LowerOfUpper | Trucking-Game-API/utils/generateSlug.js:13 | lower-casing the upper case of a small Latin letter of the regular pairs gives the letter back |
| Slug.UpperOfLower | Trucking-Game-API/utils/generateSlug.js:13 | every regular capital is the upper case of its lower case, so distinct capitals lower to distinct letters |
| Slug.LowerAppend | Trucking-Game-API/utils/generateSlug.js:13 | lower-casing a concatenation lower-cases each part |
| Slug.TableShape | Trucking-Game-API/utils/generateSlug.js:15-18 | the two table strings have 98 characters each, chunk by chunk |
| Slug.ApplyTable | Trucking-Game-API/utils/generateSlug.js:20-22 | the loop of global single-character replacements maps each character through the whole table, entries applied in order |
| Slug.TableKeepsSlugChars | Trucking-Game-API/utils/generateSlug.js:15-22 | letters, digits, space and hyphen come out of the table unchanged |
| Slug.PunctuationBecomesHyphen | Trucking-Game-API/utils/generateSlug.js:15-22 | each of the characters ·/_,:; becomes a hyphen |
| Slug.SharpSBecomesCapital | Trucking-Game-API/utils/generateSlug.js:15-22 | sharp s is replaced by the capital B |
| Slug.SharpSRemoved | Trucking-Game-API/utils/generateSlug.js:15-25 | that capital B is then deleted by the filter |
| Slug.CapitalEntriesNeverMatch | Trucking-Game-API/utils/generateSlug.js:13-22 | after lower-casing, no capital entry of the table can match |
| Slug.KeepSlugChars | Trucking-Game-API/utils/generateSlug.js:25 | the filter keeps only a-z, 0-9, space and hyphen |
| Slug.ReplaceRunsChars | Trucking-Game-API/utils/generateSlug.js:26-27 | a run replacement outputs the replacement or characters from outside the runs |
| Slug.ReplaceRunsNoRepeat | Trucking-Game-API/utils/generateSlug.js:27 | after collapsing, no two hyphens are adjacent |
| Slug.Transform | Trucking-Game-API/utils/generateSlug.js:11-27 | the transformed text holds only a-z, 0-9 and '-', never two hyphens in a row |
| Slug.SlugFixed | Trucking-Game-API/utils/generateSlug.js:11-27 | text that is already a slug is returned unchanged |
| Slug.TransformIdempotent | Trucking-Game-API/utils/generateSlug.js:11-27 | transforming a slug again returns it unchanged |
| Slug.SpacesBecomeOneHyphen | Trucking-Game-API/utils/generateSlug.js:26-27 | a run of spaces between two words becomes one hyphen |
| Slug.SuffixReadsBack | Trucking-Game-API/utils/generateSlug.js:32-39 | with no matches the base is returned; with n matches, base + "-" + text that reads back as n + 1 |
| Slug.SuffixKeepsSlug | Trucking-Game-API/utils/generateSlug.js:32-39 | a suffixed slug is still a slug when the base does not end in a hyphen |
| Slug.GenerateSlug | Trucking-Game-API/utils/generateSlug.js:8-44 | the transform, then the suffix rule on the number of matches; a failed lookup returns its error |
| ViewMetrics.CountsOfKeys | Trucking-Game-API/controllers/metrics/articleViewMetrics.controller.js:196-208 | the counter's keys are exactly the viewed ids, each once |
| ViewMetrics.CountsOf | Trucking-Game-API/controllers/metrics/articleViewMetrics.controller.js:196-208 | the counter has an entry exactly for each viewed article, each at least 1 |
| ViewMetrics.CountStep | Trucking-Game-API/controllers/metrics/articleViewMetrics.controller.js:200-204 | one more view increments an entry or creates it with 1 |
| ViewMetrics.GetViewsCount | Trucking-Game-API/controllers/metrics/articleViewMetrics.controller.js:196-208 | the loop maps each viewed id to its number of views, keys in order of first view |
| ViewMetrics.CountsSumToViews | Trucking-Game-API/controllers/metrics/interactionMetrics.controller.js:149-161 | the counts add up to the number of views |
| ViewMetrics.MaxKey | Trucking-Game-API/controllers/metrics/articleViewMetrics.controller.js:229-231 | the reduce returns one of the keys |
| ViewMetrics.MaxKeyIsMaximum | Trucking-Game-API/controllers/metrics/articleViewMetrics.controller.js:229-231 | the chosen key has the largest count |
| ViewMetrics.MaxKeyIsLastMaximum | Trucking-Game-API/controllers/metrics/articleViewMetrics.controller.js:230 | on equal counts the later key wins |
| ViewMetrics.WithoutMembers | Trucking-Game-API/controllers/metrics/articleViewMetrics.controller.js:237 | deleting removes exactly that key |
| ViewMetrics.WithoutDistinct | Trucking-Game-API/controllers/metrics/articleViewMetrics.controller.js:237 | deleting from distinct keys leaves distinct keys, one fewer |
| ViewMetrics.Pick | Trucking-Game-API/controllers/metrics/articleViewMetrics.controller.js:227-238 | n rounds give n ids, or fail on an empty reduce |
| ViewMetrics.TopIds | Trucking-Game-API/controllers/metrics/articleViewMetrics.controller.js:216-241 | an empty counter gives no ids; otherwise k ids, or the failure of an empty reduce |
| ViewMetrics.GetTopIds | Trucking-Game-API/controllers/metrics/articleViewMetrics.controller.js:216-241 | the selection loop over a copy of the keys computes the top-k selection |
| ViewMetrics.PickOk | Trucking-Game-API/controllers/metrics/articleViewMetrics.controller.js:227-231 | selection from distinct keys succeeds exactly when there are at least n keys |
| ViewMetrics.PickDistinct | Trucking-Game-API/controllers/metrics/articleViewMetrics.controller.js:234-237 | no key is selected twice |
| ViewMetrics.PickDescending | Trucking-Game-API/controllers/metrics/articleViewMetrics.controller.js:227-238 | selected keys come in non-increasing count order |
| ViewMetrics.PickDominates | Trucking-Game-API/controllers/metrics/articleViewMetrics.controller.js:227-238 | no key left out has a larger count than a selected one |
| ViewMetrics.TopViewIdsOutcome | Trucking-Game-API/controllers/metrics/articleViewMetrics.controller.js:216-241 | no views give []; otherwise selection fails, by an empty reduce, exactly when fewer than k ids were viewed, and succeeds with k ids |
| ViewMetrics.TopViewIdsRanked | Trucking-Game-API/controllers/metrics/interactionMetrics.controller.js:169-194 | the selected ids are distinct viewed ids, most viewed first, and none left out was viewed more often |
| ViewMetrics.PairCounts | Trucking-Game-API/controllers/metrics/articleViewMetrics.controller.js:34-41 | each fetched article is paired with its count; a missing article throws |
| ViewMetrics.Pairing | Trucking-Game-API/controllers/metrics/articleViewMetrics.controller.js:34-41 | one entry per selected id; it fails exactly when some selected article is missing |
| ViewMetrics.TopViewedArticles | Trucking-Game-API/controllers/metrics/articleViewMetrics.controller.js:25-41 | count, select, fetch and pair, as the top-viewed handlers do |
| ViewMetrics.TopViewed | Trucking-Game-API/controllers/metrics/articleViewMetrics.controller.js:25-41 | at most k entries, and none when there are no views |
| ViewMetrics.TopViewedCounts | Trucking-Game-API/controllers/metrics/articleViewMetrics.controller.js:34-41 | each entry reports the true, positive number of views of a distinct article, most viewed first |
| ViewMetrics.TopViewedFails | Trucking-Game-API/controllers/metrics/articleViewMetrics.controller.js:248-266 | the handler fails exactly when selection fails or a selected article is missing |
| ViewMetrics.MyInteractionStatistics | Trucking-Game-API/controllers/metrics/interactionMetrics.controller.js:19-40 | total interactions are traffic plus comments on the user's articles |
| ViewMetrics.TotalInteractionsRule | Trucking-Game-API/controllers/metrics/interactionMetrics.controller.js:67-138 | admins get traffic plus comments, other users own views plus own comments and at most six articles; an unknown user makes the handler throw a ReferenceError |
| ViewMetrics.UserInteractionStatistics | Trucking-Game-API/controllers/metrics/interactionMetrics.controller.js:67-138 | it throws the ReferenceError exactly for an unknown user, and never answers with the 400 |
| ViewMetrics.KnownUserStatistics | Trucking-Game-API/controllers/metrics/interactionMetrics.controller.js:72-134 | a role below 3 gets the ticket counts, own articles and comments, and traffic, with interactions = traffic + comments on own articles; other users get exactly the top-six list of their views, failing exactly when that selection fails, with own views + own comments as interactions; never the not-found answer |
| ViewMetrics.UnknownUserNeverAnswered | Trucking-Game-API/controllers/metrics/interactionMetrics.controller.js:136 | as written, no input gets the 400 for an unknown user; the unknown user gets an error instead |
| ViewMetrics.UserInteractionStatisticsFixed | Trucking-Game-API/controllers/metrics/interactionMetrics.controller.js:135-137 | the corrected handler answers the 400 exactly for an unknown user and never throws the ReferenceError |
| ViewMetrics.UnknownUserRefused | Trucking-Game-API/controllers/metrics/interactionMetrics.controller.js:135-137 | corrected: the 400 exactly for an unknown user, and the written behaviour for every known user |
| Articles.GetOneBySlug | Trucking-Game-API/controllers/articles.controller.js:17-39 | a returned article is in the store with that slug, and is free or the user has paid access |
| Articles.AccessRule | Trucking-Game-API/controllers/articles.controller.js:23-38 | unknown slug gives 400; a free article is returned; otherwise it is returned exactly when role < 3 or paid, else 204 "Upgrade account" |
| Articles.FreeArticleForEveryone | Trucking-Game-API/controllers/articles.controller.js:23-25 | a free article is returned the same to every user |
| Articles.AuthorOptionsSpec | Trucking-Game-API/controllers/articles.controller.js:54-58 | each author id appears once, every article's author id is present, each option comes from an article, in order of first appearance |
| Articles.FindAuthorIndex | Trucking-Game-API/controllers/articles.controller.js:55 | -1 exactly when no author has the id, else the first index |
| Articles.GetAuthorOptions | Trucking-Game-API/controllers/articles.controller.js:49-64 | the loop computes the first-occurrence de-duplication of the authors |
| Articles.MatchingMembers | Trucking-Game-API/controllers/articles.controller.js:375-388 | an article matches exactly when it passes the isFree, tags and author filters |
| Articles.Matching | Trucking-Game-API/controllers/articles.controller.js:375-388 | every article returned is in the store and passes the filters, and there are no more than the store holds |
| Articles.InsertNewestMultiset | Trucking-Game-API/controllers/articles.controller.js:390 | insertion keeps every article |
| Articles.InsertNewestSorted | Trucking-Game-API/controllers/articles.controller.js:390 | insertion keeps newest-first order |
| Articles.SortNewestSpec | Trucking-Game-API/controllers/articles.controller.js:390 | the sort by -createdAt is a permutation in newest-first order |
| Articles.SortNewest | Trucking-Game-API/controllers/articles.controller.js:390 | the sort keeps the length and the multiset of articles |
| Articles.LimitCount | Trucking-Game-API/controllers/articles.controller.js:390 | a limit of 0 lets every available article through; any other limit lets through the smaller of its absolute value and what is available |
| Articles.WindowSpec | Trucking-Game-API/controllers/articles.controller.js:390 | skip and limit give the consecutive run of the input starting at the skip, as long as the limit allows, empty past the end; it keeps the order |
| Articles.Window | Trucking-Game-API/controllers/articles.controller.js:390 | the window is the run starting at the skip, as long as the limit allows, and empty past the end |
| Articles.SearchPage | Trucking-Game-API/controllers/articles.controller.js:364-406 | the query fails exactly on a negative skip; otherwise the page is exactly the skip/limit slice of the newest-first sorted matches, and the total counts all matches |
| Articles.ExecuteSearchQuery | Trucking-Game-API/controllers/articles.controller.js:364-406 | it fails exactly on a negative skip; the page is no longer than the total, which is at most the number of stored articles |
| Articles.GetArticlesByQuery | Trucking-Game-API/controllers/articles.controller.js:76-101 | the handler answers the fixed 400 exactly when the query fails |
| Articles.FreeOnlyWithoutAccess | Trucking-Game-API/controllers/articles.controller.js:375-378 | without paid access only free articles are returned and counted |
| Articles.SearchUsesAccess | Trucking-Game-API/controllers/articles.controller.js:76-101 | a successful search is the search page computed with paid access exactly for admins (role below 3) and paying users |
| Articles.TotalIgnoresWindow | Trucking-Game-API/controllers/articles.controller.js:390-393 | the total ignores sort, skip and limit |
| Articles.MatchingSameFilters | Trucking-Game-API/controllers/articles.controller.js:375-388 | the matches depend only on the filters |
| Articles.SearchFailure | Trucking-Game-API/controllers/articles.controller.js:90-92 | the handler fails exactly when the query fails, with the fixed 400 message |
| Articles.AccessAgreesWithSearch | Trucking-Game-API/controllers/articles.controller.js:81 | the single-article rule and the unfiltered search agree on which articles a user may see |
| Articles.ToggleRule | Trucking-Game-API/controllers/articles.controller.js:334-354 | unknown id throws; a non-author gets the 400; the author flips editingLocked of that article only |
| Articles.ToggleEditingLocked | Trucking-Game-API/controllers/articles.controller.js:334-354 | a successful toggle keeps the number of articles |
| Articles.ToggleTwice | Trucking-Game-API/models/Article.js:92-95 | toggling twice restores the store |
| Tickets.StatusFiltersPartition | Trucking-Game-API/controllers/tickets.controller.js:43-68 | within the status enum, incomplete and completed partition the tickets |
| Tickets.OutOfEnumInNeither | Trucking-Game-API/controllers/tickets.controller.js:43-68 | a status above 4 is in neither list |
| Tickets.CreateRule | Trucking-Game-API/controllers/tickets.controller.js:215-235 | one new open unassigned ticket is stored exactly when the fields are valid and the number and id are free; otherwise nothing is stored; missing fields give 400 |
| Tickets.CreateTicketAsWritten | Trucking-Game-API/controllers/tickets.controller.js:215-235 | a created ticket is numbered the document count plus one, is open and is the only addition; a failure stores nothing |
| Tickets.CreateTicket | Trucking-Game-API/controllers/tickets.controller.js:215-235 | the corrected numbering creates a ticket exactly for valid fields and a free id, and numbers it above every number in use |
| Tickets.NumberCollidesAfterDeletion | Trucking-Game-API/controllers/tickets.controller.js:222-225 | after a deletion the count-based number repeats one in use and creation fails |
| Tickets.CreateKeepsNumbersUnique | Trucking-Game-API/models/Ticket.js:5-9 | numbering past the maximum always creates a ticket on valid input and keeps numbers unique |
| Tickets.StatusWrittenDespiteComplaint | Trucking-Game-API/controllers/tickets.controller.js:335-351 | the status is overwritten whatever its value; only the response reports the validation |
| Tickets.UpdateTicketStatusAsWritten | Trucking-Game-API/controllers/tickets.controller.js:331-362 | the set of tickets is kept; the store changes only by writing the given status, valid or not, to an existing ticket; a complaint about the status is the response |
| Tickets.StatusSevenWritten | Trucking-Game-API/controllers/tickets.controller.js:339-351 | status 7 is reported invalid and written, leaving both status lists |
| Tickets.ZeroReportedMissing | Trucking-Game-API/controllers/tickets.controller.js:335-337 | status 0 is reported as missing |
| Tickets.UpdateKeepsEnum | Trucking-Game-API/models/Ticket.js:14-18 | the corrected update writes only statuses in 0..3, answers 200 exactly when it writes, and keeps the store's invariants |
| Tickets.UpdateTicketStatus | Trucking-Game-API/controllers/tickets.controller.js:331-362 | the corrected update changes the store only by writing a status in 0..3 to an existing ticket, and answers 400 for any other status |
| Tickets.AssignRuleAsWritten | Trucking-Game-API/controllers/tickets.controller.js:286-321 | the set of tickets is kept; assignedTo changes only when the user found has role >= 3, on the named ticket or, with no id, on some ticket; otherwise the store is unchanged and the handler throws or the 400 went first |
| Tickets.AssignTicketToAdminAsWritten | Trucking-Game-API/controllers/tickets.controller.js:286-321 | the set of tickets is kept; a missing parameter gets the 400 whatever follows; the store changes only when the user found has role >= 3 |
| Tickets.FindUser | Trucking-Game-API/controllers/tickets.controller.js:292 | a found user is in the table; without an email the filter matches every user, so one is found exactly when the table is non-empty |
| Tickets.MissingEmailAssignsFirstUser | Trucking-Game-API/controllers/tickets.controller.js:288-306 | without adminEmail the answer is the 400, yet the ticket is assigned to the first user when that user has role >= 3 |
| Tickets.MissingIdAssignsSomeTicket | Trucking-Game-API/controllers/tickets.controller.js:288-306 | without ticketId the answer is the 400, yet some ticket is assigned when the user found has role >= 3 |
| Tickets.AdminRefusedAsWritten | Trucking-Game-API/controllers/tickets.controller.js:296-316 | an admin of role 1 is refused, by a thrown error |
| Tickets.AssignOnlyToAdmins | Trucking-Game-API/controllers/users.controller.js:37 | corrected: tickets are assigned to admins only, refusals are 400s, invariants kept |
| Tickets.AssignTicketToAdmin | Trucking-Game-API/controllers/tickets.controller.js:286-322 | the corrected assignment answers 400 and changes nothing when a parameter is missing or empty, keeps the set of tickets, and changes one only for an existing user of an admin role |
| Tickets.DeletePrefixStops | Trucking-Game-API/controllers/tickets.controller.js:405-415 | the remaining ids are the input suffix from the first id not found |
| Tickets.DeletePrefixPresent | Trucking-Game-API/controllers/tickets.controller.js:406-411 | every deleted id was present and valid, none deleted twice |
| Tickets.DeletePrefixKeys | Trucking-Game-API/controllers/tickets.controller.js:405-415 | exactly the deleted prefix leaves the store |
| Tickets.DeletePrefixUnchanged | Trucking-Game-API/controllers/tickets.controller.js:405-415 | tickets outside the deleted prefix are untouched |
| Tickets.DeletePrefixSize | Trucking-Game-API/controllers/tickets.controller.js:405-415 | the store shrinks by the number deleted |
| Tickets.DeleteMultipleTickets | Trucking-Game-API/controllers/tickets.controller.js:396-429 | the loop deleting in list order and shifting incompleteIds computes the delete semantics |
| Tickets.DeleteMultipleRule | Trucking-Game-API/controllers/tickets.controller.js:417-428 | a non-empty remainder gives 400 with those ids, an empty one 200 |
| Tickets.SingleIdDeletesNothing | Trucking-Game-API/controllers/tickets.controller.js:403-406 | a single id is spread into characters, the lookup throws and nothing is deleted |
| Tickets.DeleteMultipleAsWritten | Trucking-Game-API/controllers/tickets.controller.js:396-429 | deletion only removes tickets and leaves the rest untouched; no parameter is a 400 with nothing deleted; a single non-empty id throws and deletes nothing |
| Tickets.SingleIdDeleted | Trucking-Game-API/controllers/tickets.controller.js:403-415 | corrected: a single present id is deleted with a 200 |
| Tickets.DeleteKeepsInvariants | Trucking-Game-API/models/Ticket.js:5-18 | deletion keeps statuses in the enum and numbers unique |
| Address.FiveArgs | Stripe-SpringBoot-Integration/src/main/java/com/baasllc/stripeintegrationms/commons/CustomAddress.java:19-25 | every field but lineTwo is set from its argument, lineTwo stays null |
| Address.ToString | Stripe-SpringBoot-Integration/src/main/java/com/baasllc/stripeintegrationms/commons/CustomAddress.java:28-43 | it throws exactly when lineOne is null |
| Address.Show | Stripe-SpringBoot-Integration/src/main/java/com/baasllc/stripeintegrationms/commons/CustomAddress.java:28-43 | a set field is written as it is, and the text "null" stands both for a null field and for a field holding "null" |
| Address.ToStringJoinsParts | Stripe-SpringBoot-Integration/src/main/java/com/baasllc/stripeintegrationms/commons/CustomAddress.java:29-41 | the output is lineOne, lineTwo when set, city, state, country and postal code joined by single spaces, null written "null" |
| Address.ToStringShape | Stripe-SpringBoot-Integration/src/main/java/com/baasllc/stripeintegrationms/commons/CustomAddress.java:28-43 | the output begins with lineOne and ends with state, country, postal code |
| Address.FiveArgsShortForm | Stripe-SpringBoot-Integration/src/main/java/com/baasllc/stripeintegrationms/commons/CustomAddress.java:19-25 | a five-argument address is written in the five-part form |
| Address.FieldsReadBack | Stripe-SpringBoot-Integration/src/main/java/com/baasllc/stripeintegrationms/commons/CustomAddress.java:28-43 | when no field holds a space, splitting the text at spaces gives the fields back |

## Left out

- Transport: the websocket read and write pumps, `ServeWs`, JSON encoding and decoding, and channel buffering. A decoded inbound frame is `Option<Message>`, and the page's line decoder is a parameter.
- Concurrency: the goroutines `Run`, `RunHouse` and `RunRoom` are sequential method calls, so interleavings are not modelled.
- Redis pub/sub: `publishClientJoined`, `publishClientLeft`, `listenPubSubChannel` and `handleUserJoinPrivate` are left out. Their only entry points are the pub/sub channel, which is commented out of registration.
- SQL repositories are sequences of rows. `AddUser` and `AddHouse` append, and a lookup by name takes the first row.
- Random UUIDs are method parameters.
- The page's login posts to the server and is out of scope. Timers are modelled as the returned wait.
- Chat.Client.constructor keeps a non-empty id as given. Go's `uuid.Parse` writes a valid id back in canonical lower-case form and leaves the zero UUID, or a partly filled one, for a malformed id. The model takes ids to be canonical UUID text; the private house name, built from the client id's text, rests on the same assumption.
- ChatApp.App.HandleUserJoined: a null sender that arrives while the user list is empty is pushed as null by app.js:104-105. The model's list holds users only, so it treats that case as an exception, which also stops the rest of the frame.
- ChatApp.UserJoinedStep: the same null-sender case as `ChatApp.App.HandleUserJoined`.
- ChatApp.App.ConnectToWebsocket records the URL and that the socket is still connecting. Event-listener registration is not modelled: the open and close events are the methods `OnWebsocketOpen` and `OnWebsocketClose`.
- Slug.LowerChar covers the Latin letters only: ASCII, Latin-1, Latin Extended-A/B, Latin Extended Additional and the irregular capitals. Other scripts are assumed to have no capitals.
- Slug.GenerateSlug takes the number of stored slugs that the base matches as a parameter (the database regex query). A title that is not a string is not modelled.
- JsText.ParseIntOfNat: `parseInt` is modelled on exact integers. Precision loss above 2^53 and exponent notation are not modelled.
- ViewMetrics.MaxKey reads a key absent from the count map as 0. The keys it reads are always present.
- ViewMetrics.GetTopIds: the copy the selection makes is implicit, because the caller's counter is a value and cannot be changed.
- Articles.SortNewestSpec: ties in createdAt are kept in store order. The database's order for ties is unspecified.
- Articles.ToggleEditingLocked works on the article store as a value, not as a document method that saves itself.
- Articles: the database query failing for reasons other than a negative skip is not modelled.
- The ticket listing pages (sort, skip and limit of the two status queries) are left out. Only their filters are modelled.
- Tickets: a missing or non-numeric status in the request body is not modelled. The status is an integer.
- Tickets.CreateRule models ticketNumber as a natural number, although the schema stores it as a string.
- Query parameters are `Option<string>`, `None` being a missing one. A filter field that is `undefined` is dropped by Mongoose, so `findOne` with it matches every user and `findByIdAndUpdate` with it matches some ticket; which ticket is not modelled, only that one exists.
- Mongoose semantics are assumed, not modelled from its source: an id that is neither 12 characters nor 24 hex digits fails the cast and throws; a negative limit means its absolute value and 0 means no limit; a negative skip fails the query.
- The error middleware, `asyncHandler` and `ErrorResponse` are not part of this model. A thrown error is the response `Thrown`.
- Address: `CustomAddress`'s other constructors, getters and setters carry no logic and are left out.

## Findings

| source | as written | input that shows it | evidently intended | confidence | as-written member | corrected member |
|---|---|---|---|---|---|---|
| Trucking-Game-API/controllers/tickets.controller.js:296 | assigns only users with role >= 3, but admins are roles 1 and 2 (users.controller.js:37) | an admin of role 1 as adminEmail | assign when role < 3 | high, not executed | Tickets.AdminRefusedAsWritten | Tickets.AssignOnlyToAdmins |
| Trucking-Game-API/controllers/tickets.controller.js:316-319 | the refusal messages use an undefined `userId`, so a ReferenceError is thrown instead of a 400 | an adminEmail no user has | a 400 naming the requested email | high, not executed | Tickets.AssignRuleAsWritten | Tickets.AssignOnlyToAdmins |
| Trucking-Game-API/controllers/tickets.controller.js:289-291 | the missing-parameter check calls `next` without returning, and Mongoose drops an undefined filter field | a request without adminEmail while the first user has role 3 | answer 400 and assign nothing | medium, not executed | Tickets.MissingEmailAssignsFirstUser | Tickets.AssignTicketToAdmin |
| Trucking-Game-API/controllers/tickets.controller.js:335-351 | the validation calls `next` without returning, so the status is written anyway; 0 is reported missing | status 7 for an existing ticket | refuse and write nothing outside 0..3 | high, not executed | Tickets.StatusSevenWritten | Tickets.UpdateKeepsEnum |
| Trucking-Game-API/controllers/tickets.controller.js:403-406 | a single `ticketId` query value is a string and is spread into characters | ?ticketId=<one valid id> | a single id treated as a one-element list | medium, not executed | Tickets.SingleIdDeletesNothing | Tickets.SingleIdDeleted |
| Trucking-Game-API/controllers/tickets.controller.js:222-225 | the ticket number is the document count plus one, which repeats a number in use after a deletion | a store holding one ticket numbered 2 | a number not yet in use | medium, not executed | Tickets.NumberCollidesAfterDeletion | Tickets.CreateKeepsNumbersUnique |
| Trucking-Game-API/controllers/metrics/interactionMetrics.controller.js:136 | `ErrorResponse` is never imported by the module (lines 1-7), so the unknown-user branch throws a ReferenceError instead of answering 400 | a userId that no user has | a 400 saying the user does not exist | high, not executed | ViewMetrics.UnknownUserNeverAnswered | ViewMetrics.UnknownUserRefused |
