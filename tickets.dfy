/**
 * The tickets controller over an in-memory ticket collection: the
 * incomplete/completed filters, ticket creation and its numbering, status
 * updates, assignment to an admin, and the deletion of several tickets.
 *
 * Handlers that call `next(error)` without returning go on running: the
 * client receives the first response sent, while the store still sees every
 * write the handler goes on to make.  Each handler is modelled as written,
 * with its store effect and the first response; where the code evidently
 * means something else, a corrected handler sits beside it.
 */
module Tickets {
  import opened Wrappers
  import opened JsText
  import opened KeyedSeq

  type Id = string

  /** A ticket document; `status` is a plain number, so a value outside the
      schema's 0..4 can be written by an update that skips validation. */
  datatype Ticket = Ticket(
    ticketNumber: nat, message: string, status: int, category: string,
    createdBy: string, assignedTo: Option<Id>, createdAt: int)

  /** The ticket collection, keyed by document id. */
  type Store = map<Id, Ticket>

  /** A user document as the assignment handler reads it. */
  datatype Account = Account(id: Id, email: string, role: int)

  function AccountEmail(u: Account): string { u.email }

  /** The first response the client receives. */
  datatype Response =
    | ErrorReply(message: string, status: int)
    | TicketReply(status: int, ticket: Ticket)
    | DeleteReply(status: int, success: bool, message: string, incompleteIds: seq<Id>)
    | Thrown

  datatype Outcome = Outcome(response: Response, store: Store)

  /** A response sent earlier wins over a later one. */
  function FirstSent(earlier: Option<Response>, later: Response): Response {
    earlier.GetOr(later)
  }

  /** Strings a document id can be cast from: 12 characters, or 24
      hexadecimal digits.  Any other id makes a lookup throw. */
  predicate ValidObjectId(s: string) {
    |s| == 12 || (|s| == 24 && forall i :: 0 <= i < |s| ==> IsHexDigit(s[i]))
  }

  /** The decimal text of an integer, as a template literal writes it. */
  function IntToString(i: int): string {
    if i < 0 then "-" + NatToString(-i) else NatToString(i)
  }

  function NoSuchTicket(ticketId: string): string {
    "Ticket with id " + ticketId + " does not exist"
  }

  // ---------------------------------------------------------------------
  // Status filters

  const Completed := 4

  /** The statuses the schema allows. */
  predicate StatusInEnum(t: Ticket) {
    0 <= t.status <= 4
  }

  predicate StatusesInEnum(store: Store) {
    forall id :: id in store ==> StatusInEnum(store[id])
  }

  /** `{ status: { $lt: 4 } }` */
  function IncompleteIds(store: Store): set<Id> {
    set id | id in store && store[id].status < Completed
  }

  /** `{ status: 4 }` */
  function CompletedIds(store: Store): set<Id> {
    set id | id in store && store[id].status == Completed
  }

  /** Over the schema's statuses the two lists split the collection: every
      ticket is in exactly one of them. */
  lemma StatusFiltersPartition(store: Store)
    requires StatusesInEnum(store)
    ensures IncompleteIds(store) + CompletedIds(store) == store.Keys
    ensures IncompleteIds(store) * CompletedIds(store) == {}
  {
  }

  /** A ticket whose status lies above 4 is in neither list. */
  lemma OutOfEnumInNeither(store: Store, id: Id)
    requires id in store && store[id].status > Completed
    ensures id !in IncompleteIds(store) && id !in CompletedIds(store)
  {
  }

  // ---------------------------------------------------------------------
  // Creating a ticket

  const AllFieldsRequired := "All fields are required"

  predicate EmailChar(c: char) {
    c != '@' && c != ' ' && c != '\t' && c != '\r' && c != '\n'
  }

  /** `s[at - 1] @ s[at + 1 .. dot] . s[dot + 1]` is a match of the
      validator's pattern. */
  predicate EmailMatchAt(s: string, at: int, dot: int) {
    1 <= at && at + 1 < dot && dot + 1 < |s| &&
    s[at] == '@' && s[dot] == '.' && EmailChar(s[at - 1]) && EmailChar(s[dot + 1]) &&
    forall k :: at < k < dot ==> EmailChar(s[k])
  }

  /** The `createdBy` validator: some part of the text looks like
      `x@y.z`, with no '@' or white space inside x, y and z. */
  predicate ValidEmail(s: string) {
    exists at, dot | 0 <= at < dot < |s| :: EmailMatchAt(s, at, dot)
  }

  /** Some ticket already carries the number. */
  predicate NumberTaken(store: Store, n: nat) {
    exists id :: id in store && store[id].ticketNumber == n
  }

  /** Creates the ticket with the given number.  A missing field sends 400
      first; the schema then refuses the empty field, an invalid email or a
      duplicate number or id, and nothing is stored. */
  function CreateWithNumber(store: Store, message: string, email: string, category: string,
                            newId: Id, now: int, number: nat): (o: Outcome)
    ensures o.store == store || (newId in o.store && o.store == store[newId := o.store[newId]])
  {
    var first := if message == "" || email == "" || category == "" then Some(ErrorReply(AllFieldsRequired, 400)) else None;
    if message == "" || email == "" || category == "" || !ValidEmail(email) ||
       NumberTaken(store, number) || newId in store
    then Outcome(FirstSent(first, Thrown), store)
    else
      var t := Ticket(number, message, 0, category, email, None, now);
      Outcome(TicketReply(200, t), store[newId := t])
  }

  /** `_createTicket` as written: the number is the document count plus one. */
  function CreateTicketAsWritten(store: Store, message: string, email: string, category: string,
                                 newId: Id, now: int): (o: Outcome)
    ensures o.response.TicketReply? ==>
      o.response.ticket.ticketNumber == |store| + 1 && o.response.ticket.status == 0 &&
      o.store == store[newId := o.response.ticket] && |o.store| == |store| + 1
    ensures !o.response.TicketReply? ==> o.store == store
  {
    CreateRule(store, message, email, category, newId, now, |store| + 1);
    CreateWithNumber(store, message, email, category, newId, now, |store| + 1)
  }

  /** A successful creation stores exactly one new open, unassigned ticket
      with the requested fields and the given number; any failure leaves the
      store as it was, and a missing field is answered with 400. */
  lemma CreateRule(store: Store, message: string, email: string, category: string,
                   newId: Id, now: int, number: nat)
    ensures
      var o := CreateWithNumber(store, message, email, category, newId, now, number);
      (o.response.TicketReply? <==>
        message != "" && email != "" && category != "" && ValidEmail(email) &&
        !NumberTaken(store, number) && newId !in store) &&
      (o.response.TicketReply? ==>
        o.store == store[newId := o.response.ticket] && |o.store| == |store| + 1 &&
        o.response.ticket == Ticket(number, message, 0, category, email, None, now)) &&
      (!o.response.TicketReply? ==> o.store == store) &&
      ((message == "" || email == "" || category == "") ==> o.response == ErrorReply(AllFieldsRequired, 400))
  {
  }

  /** After a deletion the count-based number can repeat a number still in
      use, and then creation fails. */
  lemma NumberCollidesAfterDeletion()
    ensures
      var t := Ticket(2, "m", 0, "c", "a@b.co", None, 0);
      var store := map["x" := t];
      CreateTicketAsWritten(store, "m", "a@b.co", "c", "y", 0).response == Thrown &&
      CreateTicketAsWritten(store, "m", "a@b.co", "c", "y", 0).store == store
  {
    var t := Ticket(2, "m", 0, "c", "a@b.co", None, 0);
    var store := map["x" := t];
    assert EmailMatchAt("a@b.co", 1, 3);
    assert store["x"].ticketNumber == |store| + 1;
  }

  /** The largest ticket number in use, or 0. */
  ghost function MaxNumber(store: Store): (m: nat)
    ensures forall id :: id in store ==> store[id].ticketNumber <= m
    decreases |store|
  {
    if store == map[] then 0
    else
      var id :| id in store;
      var rest := store - {id};
      var m := MaxNumber(rest);
      assert forall k :: k in store && k != id ==> k in rest && rest[k] == store[k];
      if store[id].ticketNumber > m then store[id].ticketNumber else m
  }

  /** `_createTicket` numbering one past the largest number in use. */
  ghost function CreateTicket(store: Store, message: string, email: string, category: string,
                              newId: Id, now: int): (o: Outcome)
    ensures o.response.TicketReply? ==>
      forall id :: id in store ==> store[id].ticketNumber < o.response.ticket.ticketNumber
    ensures o.response.TicketReply? <==>
      message != "" && email != "" && category != "" && ValidEmail(email) && newId !in store
  {
    CreateWithNumber(store, message, email, category, newId, now, MaxNumber(store) + 1)
  }

  /** No two tickets share a number. */
  predicate UniqueNumbers(store: Store) {
    forall a, b :: a in store && b in store && a != b ==> store[a].ticketNumber != store[b].ticketNumber
  }

  /** With numbering past the maximum, valid input always creates a ticket,
      and numbers stay unique. */
  lemma CreateKeepsNumbersUnique(store: Store, message: string, email: string, category: string,
                                 newId: Id, now: int)
    requires UniqueNumbers(store) && StatusesInEnum(store)
    ensures UniqueNumbers(CreateTicket(store, message, email, category, newId, now).store)
    ensures StatusesInEnum(CreateTicket(store, message, email, category, newId, now).store)
    ensures message != "" && email != "" && category != "" && ValidEmail(email) && newId !in store ==>
      CreateTicket(store, message, email, category, newId, now).response.TicketReply?
  {
    var n := MaxNumber(store) + 1;
    assert !NumberTaken(store, n);
  }

  // ---------------------------------------------------------------------
  // Updating a status

  const StatusRequired := "Status field is required"

  function InvalidStatus(status: int): string {
    IntToString(status) + " is not a valid ticket satus"
  }

  /** The validation message, if any: 0 counts as missing, and anything
      outside 0..3 is invalid. */
  function StatusComplaint(status: int): Option<Response> {
    if status == 0 then Some(ErrorReply(StatusRequired, 400))
    else if status < 0 || status > 3 then Some(ErrorReply(InvalidStatus(status), 400))
    else None
  }

  /** Writes the status to the ticket with the id, if there is one. */
  function WriteStatus(store: Store, ticketId: string, status: int, first: Option<Response>): Outcome {
    if !ValidObjectId(ticketId) then Outcome(FirstSent(first, Thrown), store)
    else if ticketId in store then
      var t := store[ticketId].(status := status);
      Outcome(FirstSent(first, TicketReply(200, t)), store[ticketId := t])
    else Outcome(FirstSent(first, ErrorReply(NoSuchTicket(ticketId), 400)), store)
  }

  /** `_updateTicketStatus` as written: the validation answers the client
      but does not stop the update. */
  function UpdateTicketStatusAsWritten(store: Store, ticketId: string, status: int): (o: Outcome)
    ensures o.store.Keys == store.Keys
    ensures o.store != store ==>
      ValidObjectId(ticketId) && ticketId in store && o.store == store[ticketId := store[ticketId].(status := status)]
    ensures StatusComplaint(status).Some? ==> o.response == StatusComplaint(status).value
  {
    WriteStatus(store, ticketId, status, StatusComplaint(status))
  }

  /** Whatever the status, the ticket's status is overwritten; only the
      response reports the validation. */
  lemma StatusWrittenDespiteComplaint(store: Store, ticketId: string, status: int)
    requires ValidObjectId(ticketId) && ticketId in store
    ensures
      var o := UpdateTicketStatusAsWritten(store, ticketId, status);
      o.store == store[ticketId := store[ticketId].(status := status)] &&
      (o.response.ErrorReply? <==> status < 1 || status > 3)
  {
  }

  /** A status of 7 is reported as invalid and written anyway; the ticket
      then leaves both status lists. */
  lemma StatusSevenWritten(store: Store, ticketId: string)
    requires ValidObjectId(ticketId) && ticketId in store
    ensures UpdateTicketStatusAsWritten(store, ticketId, 7).response == ErrorReply(InvalidStatus(7), 400)
    ensures !StatusesInEnum(UpdateTicketStatusAsWritten(store, ticketId, 7).store)
    ensures ticketId !in IncompleteIds(UpdateTicketStatusAsWritten(store, ticketId, 7).store)
    ensures ticketId !in CompletedIds(UpdateTicketStatusAsWritten(store, ticketId, 7).store)
  {
    var o := UpdateTicketStatusAsWritten(store, ticketId, 7);
    assert !StatusInEnum(o.store[ticketId]);
  }

  /** A status of 0 is reported missing, although it is a valid status. */
  lemma ZeroReportedMissing(store: Store, ticketId: string)
    ensures UpdateTicketStatusAsWritten(store, ticketId, 0).response == ErrorReply(StatusRequired, 400)
  {
  }

  /** `_updateTicketStatus` with the validation returning: a status outside
      0..3 is answered with 400 and nothing is written. */
  function UpdateTicketStatus(store: Store, ticketId: string, status: int): (o: Outcome)
    ensures o.store != store ==>
      0 <= status <= 3 && ticketId in store && o.store == store[ticketId := store[ticketId].(status := status)]
    ensures !(0 <= status <= 3) ==> o.response == ErrorReply(InvalidStatus(status), 400)
  {
    if status < 0 || status > 3 then Outcome(ErrorReply(InvalidStatus(status), 400), store)
    else WriteStatus(store, ticketId, status, None)
  }

  /** The corrected update writes only valid statuses, keeps the schema's
      statuses and ticket numbers, and answers 200 exactly when it writes. */
  lemma UpdateKeepsEnum(store: Store, ticketId: string, status: int)
    requires StatusesInEnum(store) && UniqueNumbers(store)
    ensures StatusesInEnum(UpdateTicketStatus(store, ticketId, status).store)
    ensures UniqueNumbers(UpdateTicketStatus(store, ticketId, status).store)
    ensures UpdateTicketStatus(store, ticketId, status).response.TicketReply? <==>
      0 <= status <= 3 && ValidObjectId(ticketId) && ticketId in store
    ensures !UpdateTicketStatus(store, ticketId, status).response.TicketReply? ==>
      UpdateTicketStatus(store, ticketId, status).store == store
  {
  }

  // ---------------------------------------------------------------------
  // Assigning a ticket

  const ParametersRequired := "Ticket id and user id parameters are required"

  /** Sets `assignedTo` of the ticket with the id. */
  function Assign(store: Store, ticketId: string, admin: Account, first: Option<Response>): Outcome {
    if !ValidObjectId(ticketId) then Outcome(FirstSent(first, Thrown), store)
    else if ticketId in store then
      var t := store[ticketId].(assignedTo := Some(admin.id));
      Outcome(FirstSent(first, TicketReply(200, t)), store[ticketId := t])
    else Outcome(FirstSent(first, ErrorReply(NoSuchTicket(ticketId), 400)), store)
  }

  /** A query parameter is `None` when the request does not carry it; it
      is falsy when absent or empty. */
  predicate Blank(p: Option<string>) {
    p == None || p == Some("")
  }

  function MissingParameters(ticketId: Option<string>, adminEmail: Option<string>): Option<Response> {
    if Blank(ticketId) || Blank(adminEmail) then Some(ErrorReply(ParametersRequired, 400)) else None
  }

  /** `User.findOne({ email: adminEmail })`: an absent email is dropped from
      the filter, which then matches every user, the first one first. */
  function FindUser(users: seq<Account>, adminEmail: Option<string>): (u: Option<Account>)
    ensures u.Some? ==> u.value in users
    ensures adminEmail.None? ==> (u.Some? <==> users != [])
  {
    match adminEmail
    case None => if users == [] then None else Some(users[0])
    case Some(e) => FindByKey(users, AccountEmail, e)
  }

  /** `Ticket.findByIdAndUpdate(ticketId, …)` as written: an absent id is
      dropped from the filter, which then matches some ticket of the
      collection, whichever the database returns first. */
  ghost function AssignAny(store: Store, ticketId: Option<string>, admin: Account, first: Option<Response>): Outcome {
    match ticketId
    case Some(id) => Assign(store, id, admin, first)
    case None =>
      if store.Keys == {} then Outcome(FirstSent(first, ErrorReply(NoSuchTicket("undefined"), 400)), store)
      else
        var k :| k in store.Keys;
        var t := store[k].(assignedTo := Some(admin.id));
        Outcome(FirstSent(first, TicketReply(200, t)), store[k := t])
  }

  /** `_assignTicketToAdmin` as written: the missing-parameter check does not
      return, it assigns only to users of role 3 or more, and both refusals
      build their message from an undefined variable, which throws. */
  ghost function AssignTicketToAdminAsWritten(store: Store, users: seq<Account>, ticketId: Option<string>, adminEmail: Option<string>): (o: Outcome)
    ensures o.store.Keys == store.Keys
    ensures Blank(ticketId) || Blank(adminEmail) ==> o.response == ErrorReply(ParametersRequired, 400)
    ensures o.store != store ==> FindUser(users, adminEmail).Some? && FindUser(users, adminEmail).value.role >= 3
  {
    var first := MissingParameters(ticketId, adminEmail);
    match FindUser(users, adminEmail)
    case None => Outcome(FirstSent(first, Thrown), store)
    case Some(u) =>
      if u.role >= 3 then AssignAny(store, ticketId, u, first)
      else Outcome(FirstSent(first, Thrown), store)
  }

  /** As written, the ticket set is kept and one ticket's `assignedTo`
      changes only when the user found has role 3 or more: the named ticket,
      or some ticket when no id is given; otherwise the store is unchanged
      and the handler throws, unless the 400 for a missing parameter went
      first. */
  lemma AssignRuleAsWritten(store: Store, users: seq<Account>, ticketId: Option<string>, adminEmail: Option<string>)
    ensures
      var o := AssignTicketToAdminAsWritten(store, users, ticketId, adminEmail);
      var u := FindUser(users, adminEmail);
      o.store.Keys == store.Keys &&
      (o.store != store ==>
        u.Some? && u.value.role >= 3 &&
        (ticketId.Some? ==>
           (ticketId.value in store &&
            o.store == store[ticketId.value := store[ticketId.value].(assignedTo := Some(u.value.id))])) &&
        (ticketId.None? ==> exists k :: k in store && o.store == store[k := store[k].(assignedTo := Some(u.value.id))])) &&
      (u.None? || u.value.role < 3 ==> o.store == store && (o.response == Thrown || o.response == ErrorReply(ParametersRequired, 400)))
  {
    var o := AssignTicketToAdminAsWritten(store, users, ticketId, adminEmail);
    var u := FindUser(users, adminEmail);
    if ticketId.None? && u.Some? && u.value.role >= 3 && store.Keys != {} {
      var k :| k in store.Keys && o.store == store[k := store[k].(assignedTo := Some(u.value.id))];
    }
  }

  /** As written, a request without `adminEmail` is answered 400 and still
      assigns the ticket to the first user, when that user has role 3 or
      more. */
  lemma MissingEmailAssignsFirstUser(store: Store, users: seq<Account>, ticketId: string)
    requires users != [] && users[0].role >= 3
    requires ValidObjectId(ticketId) && ticketId in store
    ensures AssignTicketToAdminAsWritten(store, users, Some(ticketId), None) ==
      Outcome(ErrorReply(ParametersRequired, 400),
              store[ticketId := store[ticketId].(assignedTo := Some(users[0].id))])
  {
  }

  /** As written, a request without `ticketId` is answered 400 and still
      assigns some stored ticket to the user named by the email. */
  lemma MissingIdAssignsSomeTicket(store: Store, users: seq<Account>, adminEmail: string)
    requires store.Keys != {}
    requires FindByKey(users, AccountEmail, adminEmail).Some?
    requires FindByKey(users, AccountEmail, adminEmail).value.role >= 3
    ensures
      var o := AssignTicketToAdminAsWritten(store, users, None, Some(adminEmail));
      o.response == ErrorReply(ParametersRequired, 400) && o.store.Keys == store.Keys &&
      exists k :: k in store && o.store[k].assignedTo == Some(FindByKey(users, AccountEmail, adminEmail).value.id)
  {
    var o := AssignTicketToAdminAsWritten(store, users, None, Some(adminEmail));
    var k :| k in store.Keys && o.store == store[k := store[k].(assignedTo := Some(FindByKey(users, AccountEmail, adminEmail).value.id))];
    assert o.store[k].assignedTo == Some(FindByKey(users, AccountEmail, adminEmail).value.id);
  }

  /** An admin (role 1) is refused, and the refusal throws instead of
      answering 400. */
  lemma AdminRefusedAsWritten(store: Store, ticketId: string)
    requires ticketId != ""
    ensures AssignTicketToAdminAsWritten(store, [Account("u", "admin@x.co", 1)], Some(ticketId), Some("admin@x.co"))
      == Outcome(Thrown, store)
  {
  }

  /** `_assignTicketToAdmin` as evidently meant: a missing parameter ends the
      request with its 400, admins are the roles below 3, and the refusals
      name the requested email. */
  function AssignTicketToAdmin(store: Store, users: seq<Account>, ticketId: Option<string>, adminEmail: Option<string>): (o: Outcome)
    ensures o.store.Keys == store.Keys
    ensures Blank(ticketId) || Blank(adminEmail) ==> o == Outcome(ErrorReply(ParametersRequired, 400), store)
    ensures o.store != store ==>
      FindUser(users, adminEmail).Some? && FindUser(users, adminEmail).value.role < 3
  {
    if Blank(ticketId) || Blank(adminEmail) then Outcome(ErrorReply(ParametersRequired, 400), store)
    else
      var email := adminEmail.value;
      match FindByKey(users, AccountEmail, email)
      case None => Outcome(ErrorReply("User with id " + email + " does not exist", 400), store)
      case Some(u) =>
        if u.role < 3 then Assign(store, ticketId.value, u, None)
        else Outcome(ErrorReply("User with id " + email + " is not an admin", 400), store)
  }

  /** Corrected: tickets are assigned to admins only and only when both
      parameters are given, refusals are answered with 400, and statuses
      and numbers are kept. */
  lemma AssignOnlyToAdmins(store: Store, users: seq<Account>, ticketId: Option<string>, adminEmail: Option<string>)
    requires StatusesInEnum(store) && UniqueNumbers(store)
    ensures
      var o := AssignTicketToAdmin(store, users, ticketId, adminEmail);
      var u := FindUser(users, adminEmail);
      StatusesInEnum(o.store) && UniqueNumbers(o.store) &&
      (o.store != store ==>
        (!Blank(ticketId) && !Blank(adminEmail) && u.Some? && u.value.role < 3 && ticketId.value in store &&
         o.store[ticketId.value].assignedTo == Some(u.value.id))) &&
      (u.None? || u.value.role >= 3 ==> o.store == store && o.response.ErrorReply? && o.response.status == 400)
  {
  }

  // ---------------------------------------------------------------------
  // Deleting several tickets

  /** The `ticketId` query parameter: absent, given once (a string) or
      repeated (an array). */
  datatype IdsParam = Absent | Single(id: string) | Many(ids: seq<Id>)

  const IdsRequired := "TicketId parameter is required"
  const DeleteFailed := "Failed to delete one or more tickets"
  const DeleteSucceeded := "Successfully deleted tickets"

  /** Spreading a string yields its characters, one string each. */
  function Chars(s: string): (r: seq<string>)
    ensures |r| == |s| && forall i :: 0 <= i < |r| ==> r[i] == [s[i]]
  {
    if s == [] then [] else [[s[0]]] + Chars(s[1..])
  }

  /** The ids listed in `ids`. */
  function IdSet(ids: seq<Id>): set<Id> {
    set j | 0 <= j < |ids| :: ids[j]
  }

  /** Where the deletion loop ends: the store after it, the ids still
      listed (`incompleteIds`), and whether a lookup threw. */
  datatype DeleteRun = DeleteRun(store: Store, incompleteIds: seq<Id>, threw: bool)

  /** Deletes the ids in order, stopping at the first one that is not found
      or that cannot be cast to a document id. */
  function DeletePrefix(store: Store, ids: seq<Id>): (r: DeleteRun)
    ensures |r.incompleteIds| <= |ids|
  {
    if ids == [] then DeleteRun(store, [], false)
    else if !ValidObjectId(ids[0]) then DeleteRun(store, ids, true)
    else if ids[0] in store then DeletePrefix(store - {ids[0]}, ids[1..])
    else DeleteRun(store, ids, false)
  }

  /** How many ids the loop deleted. */
  function DeletedCount(store: Store, ids: seq<Id>): nat {
    |ids| - |DeletePrefix(store, ids).incompleteIds|
  }

  /** The deletion stops at a suffix of the ids, which starts with the id
      that could not be cast (when a lookup threw) or was not found. */
  lemma {:induction false} DeletePrefixStops(store: Store, ids: seq<Id>)
    ensures
      var r := DeletePrefix(store, ids);
      r.incompleteIds == ids[DeletedCount(store, ids)..] &&
      (r.threw ==> r.incompleteIds != [] && !ValidObjectId(r.incompleteIds[0])) &&
      (!r.threw && r.incompleteIds != [] ==>
        ValidObjectId(r.incompleteIds[0]) && r.incompleteIds[0] !in r.store)
  {
    if ids != [] && ValidObjectId(ids[0]) && ids[0] in store {
      DeletePrefixStops(store - {ids[0]}, ids[1..]);
      var k := DeletedCount(store, ids);
      assert ids[1..][k - 1..] == ids[k..];
    }
  }

  /** Every deleted id was present in the store when it was reached, so the
      deleted ids are valid, present and pairwise distinct. */
  lemma {:induction false} DeletePrefixPresent(store: Store, ids: seq<Id>)
    ensures forall j :: 0 <= j < DeletedCount(store, ids) ==> ids[j] in store && ValidObjectId(ids[j])
    ensures forall i, j :: 0 <= i < j < DeletedCount(store, ids) ==> ids[i] != ids[j]
  {
    if ids != [] && ValidObjectId(ids[0]) && ids[0] in store {
      var rest := store - {ids[0]};
      DeletePrefixPresent(rest, ids[1..]);
      var k := DeletedCount(store, ids);
      assert k - 1 == DeletedCount(rest, ids[1..]);
      forall j | 0 <= j < k ensures ids[j] in store && ValidObjectId(ids[j]) {
        if j > 0 { assert ids[j] == ids[1..][j - 1]; }
      }
      forall i, j | 0 <= i < j < k ensures ids[i] != ids[j] {
        assert ids[j] == ids[1..][j - 1];
        if i > 0 { assert ids[i] == ids[1..][i - 1]; }
      }
    }
  }

  /** The store afterwards lacks exactly the deleted ids. */
  lemma {:induction false} DeletePrefixKeys(store: Store, ids: seq<Id>)
    ensures DeletePrefix(store, ids).store.Keys == store.Keys - IdSet(ids[..DeletedCount(store, ids)])
  {
    if ids != [] && ValidObjectId(ids[0]) && ids[0] in store {
      var rest := store - {ids[0]};
      DeletePrefixKeys(rest, ids[1..]);
      var k := DeletedCount(store, ids);
      assert k - 1 == DeletedCount(rest, ids[1..]);
      assert ids[..k] == [ids[0]] + ids[1..][..k - 1];
      assert IdSet(ids[..k]) == {ids[0]} + IdSet(ids[1..][..k - 1]);
    } else {
      assert ids[..0] == [];
    }
  }

  /** Every ticket left is unchanged. */
  lemma {:induction false} DeletePrefixUnchanged(store: Store, ids: seq<Id>)
    ensures forall id :: id in DeletePrefix(store, ids).store ==>
      id in store && DeletePrefix(store, ids).store[id] == store[id]
  {
    if ids != [] && ValidObjectId(ids[0]) && ids[0] in store {
      var rest := store - {ids[0]};
      DeletePrefixUnchanged(rest, ids[1..]);
      assert forall id :: id in rest ==> id in store && rest[id] == store[id];
    }
  }

  /** One ticket is removed per deleted id. */
  lemma {:induction false} DeletePrefixSize(store: Store, ids: seq<Id>)
    ensures |DeletePrefix(store, ids).store| == |store| - DeletedCount(store, ids)
  {
    if ids != [] && ValidObjectId(ids[0]) && ids[0] in store {
      var rest := store - {ids[0]};
      DeletePrefixSize(rest, ids[1..]);
      assert rest.Keys == store.Keys - {ids[0]};
      assert |rest.Keys| == |store.Keys| - 1;
    }
  }

  /** The store afterwards lacks exactly the deleted ids, one ticket per
      deleted id, and every ticket left is unchanged. */
  lemma DeletePrefixStore(store: Store, ids: seq<Id>)
    ensures
      var r := DeletePrefix(store, ids);
      var k := DeletedCount(store, ids);
      r.store.Keys == store.Keys - IdSet(ids[..k]) &&
      (forall id :: id in r.store ==> r.store[id] == store[id]) &&
      |r.store| == |store| - k
  {
    DeletePrefixKeys(store, ids);
    DeletePrefixUnchanged(store, ids);
    DeletePrefixSize(store, ids);
  }

  /** The response once the loop has ended. */
  function DeleteResponse(r: DeleteRun): Response {
    if r.threw then Thrown
    else if |r.incompleteIds| > 0 then DeleteReply(400, false, DeleteFailed, r.incompleteIds)
    else DeleteReply(200, true, DeleteSucceeded, [])
  }

  /** `_deleteMultipleTickets` as written: an absent parameter is answered
      with 400 before the spread throws; a single id is spread into its
      characters; an array is deleted by `DeletePrefix`. */
  function DeleteMultipleAsWritten(store: Store, param: IdsParam): (o: Outcome)
    ensures o.store.Keys <= store.Keys && forall id :: id in o.store ==> o.store[id] == store[id]
    ensures param.Absent? ==> o == Outcome(ErrorReply(IdsRequired, 400), store)
    ensures param.Single? ==> o.store == store && (param.id != "" ==> o.response == Thrown)
  {
    match param
    case Absent => Outcome(ErrorReply(IdsRequired, 400), store)
    case Single(s) =>
      var r := DeletePrefix(store, Chars(s));
      assert s != "" ==> Chars(s)[0] == [s[0]];
      Outcome(if s == "" then ErrorReply(IdsRequired, 400) else DeleteResponse(r), r.store)
    case Many(ids) =>
      var r := DeletePrefix(store, ids);
      DeletePrefixUnchanged(store, ids);
      Outcome(DeleteResponse(r), r.store)
  }

  /** The deletion loop: each id is looked up in order; a found ticket is
      removed and its id shifted off `incompleteIds`; the loop stops at the
      first id that is not found. */
  method DeleteMultipleTickets(store: Store, param: IdsParam) returns (o: Outcome)
    ensures o == DeleteMultipleAsWritten(store, param)
  {
    if param.Absent? {
      return Outcome(ErrorReply(IdsRequired, 400), store);
    }
    var ticketId := if param.Single? then Chars(param.id) else param.ids;
    var s := store;
    var incompleteIds := ticketId;
    var threw := false;
    var i := 0;
    while i < |ticketId|
      invariant 0 <= i <= |ticketId|
      invariant incompleteIds == ticketId[i..]
      invariant DeletePrefix(store, ticketId) == DeletePrefix(s, ticketId[i..])
    {
      assert ticketId[i..][1..] == ticketId[i + 1..];
      if !ValidObjectId(ticketId[i]) {
        threw := true;
        break;
      }
      if ticketId[i] in s {
        s := s - {ticketId[i]};
        incompleteIds := incompleteIds[1..];
        i := i + 1;
      } else {
        break;
      }
    }
    var r := DeleteRun(s, incompleteIds, threw);
    assert r == DeletePrefix(store, ticketId);
    if param.Single? && param.id == "" {
      o := Outcome(ErrorReply(IdsRequired, 400), s);
    } else {
      o := Outcome(DeleteResponse(r), s);
    }
  }

  /** With an array of ids: 200 exactly when every id was deleted, 400 with
      the remaining suffix exactly when the loop stopped at an id that was
      not found; tickets outside the deleted prefix are untouched. */
  lemma DeleteMultipleRule(store: Store, ids: seq<Id>)
    ensures
      var o := DeleteMultipleAsWritten(store, Many(ids));
      var r := DeletePrefix(store, ids);
      var k := DeletedCount(store, ids);
      (o.response == DeleteReply(200, true, DeleteSucceeded, []) <==> k == |ids|) &&
      (o.response.DeleteReply? && o.response.status == 400 ==>
        o.response.incompleteIds == ids[k..] && ids[k] !in o.store) &&
      (o.response == Thrown <==> r.threw) &&
      o.store.Keys == store.Keys - IdSet(ids[..k]) &&
      (forall id :: id in o.store ==> o.store[id] == store[id])
  {
    var r := DeletePrefix(store, ids);
    assert DeleteMultipleAsWritten(store, Many(ids)) == Outcome(DeleteResponse(r), r.store);
    DeletePrefixStops(store, ids);
    DeletePrefixStore(store, ids);
  }

  /** A single id is spread into one-character strings, none of which is a
      document id: the handler throws and deletes nothing. */
  lemma SingleIdDeletesNothing(store: Store, id: string)
    requires id != ""
    ensures DeleteMultipleAsWritten(store, Single(id)) == Outcome(Thrown, store)
  {
    assert Chars(id)[0] == [id[0]];
  }

  /** `_deleteMultipleTickets` as evidently meant: a single id is a list of
      one id. */
  function DeleteMultiple(store: Store, param: IdsParam): Outcome {
    match param
    case Absent => Outcome(ErrorReply(IdsRequired, 400), store)
    case Single(s) =>
      if s == "" then Outcome(ErrorReply(IdsRequired, 400), store)
      else
        var r := DeletePrefix(store, [s]);
        Outcome(DeleteResponse(r), r.store)
    case Many(ids) =>
      var r := DeletePrefix(store, ids);
      Outcome(DeleteResponse(r), r.store)
  }

  /** Corrected: a single present id is deleted, and nothing else is; the
      statuses and numbers of the remaining tickets are kept. */
  lemma SingleIdDeleted(store: Store, id: string)
    requires ValidObjectId(id) && id in store
    ensures DeleteMultiple(store, Single(id)) ==
      Outcome(DeleteReply(200, true, DeleteSucceeded, []), store - {id})
  {
    assert [id][1..] == [];
    assert DeletePrefix(store, [id]) == DeletePrefix(store - {id}, []);
  }

  lemma DeleteKeepsInvariants(store: Store, param: IdsParam)
    requires StatusesInEnum(store) && UniqueNumbers(store)
    ensures StatusesInEnum(DeleteMultiple(store, param).store)
    ensures UniqueNumbers(DeleteMultiple(store, param).store)
  {
    match param
    case Absent =>
    case Single(s) => if s != "" { DeletePrefixStore(store, [s]); }
    case Many(ids) => DeletePrefixStore(store, ids);
  }
}
