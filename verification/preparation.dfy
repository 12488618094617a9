/** The client's login bookkeeping: the two open-connection replies and the four rejection packets
    update a record of what the server has told the client, and the session can be created once
    both replies were accepted and nothing cancelled the login. The packets arrive decoded; their
    wire formats are not part of this model. */
module Preparation {
  import opened Wrappers
  import opened Constants

  /** The server's socket address (the Java `InetSocketAddress`), set by the client itself. */
  datatype Address = Address(host: seq<int>, port: int)

  /** Why a login was abandoned. */
  datatype CancelReason =
    | MagicInvalid            // a reply without the offline-message marker
    | MtuOutOfRange           // a first reply announcing an MTU outside the protocol bounds
    | MtuTooHigh              // a reply announcing more than the client can handle
    | DecodeFailed            // a second reply that did not decode
    | GuidMismatch            // a second reply from a different server
    | AlreadyConnected
    | NoFreeIncomingConnections
    | Banned
    | IncompatibleProtocol(networkProtocol: int)

  /** A login reply, decoded. `connectionType` stands for the library's connection-type record,
      which is carried through and never inspected. */
  datatype Reply =
    | ReplyOne(magic: bool, serverGuid: int, maximumTransferUnit: int)
    | ReplyTwo(failed: bool, magic: bool, serverGuid: int, maximumTransferUnit: int, connectionType: int)
    | AlreadyConnectedReply
    | NoFreeIncomingConnectionsReply
    | ConnectionBannedReply(serverGuid: int)
    | IncompatibleProtocolReply(serverGuid: int, networkProtocol: int)
    | UnrelatedReply

  /** The preparation data. `guid` and `maximumTransferUnit` are -1 until set. */
  datatype Prep = Prep(
    initialMaximumTransferUnit: int,
    cancelReason: Option<CancelReason>,
    guid: int,
    maximumTransferUnit: int,
    connectionType: Option<int>,
    address: Option<Address>,
    replyOneHandled: bool,
    replyTwoHandled: bool)

  /** The constructor: nothing known yet. */
  function New(initialMaximumTransferUnit: int): (p: Prep)
    ensures p.cancelReason == None && p.guid == -1 && p.maximumTransferUnit == -1
    ensures !p.replyOneHandled && !p.replyTwoHandled && p.address == None
    ensures MtuBounded(p)
  {
    Prep(initialMaximumTransferUnit, None, -1, -1, None, None, false, false)
  }

  /** `handleMessage`. A failed check records why, and a later packet may replace that reason
      but never clears it; an accepted reply records what it announced. */
  function HandleMessage(p: Prep, reply: Reply): (r: Prep)
    ensures r.initialMaximumTransferUnit == p.initialMaximumTransferUnit && r.address == p.address
    ensures p.cancelReason.Some? ==> r.cancelReason.Some?
    ensures r.cancelReason != p.cancelReason ==> r.cancelReason.Some?
    ensures r.maximumTransferUnit != p.maximumTransferUnit ==>
              (reply.ReplyOne? && MINIMUM_MTU_SIZE <= r.maximumTransferUnit <= MAXIMUM_MTU_SIZE
               && r.maximumTransferUnit <= p.initialMaximumTransferUnit)
              || (reply.ReplyTwo? && r.maximumTransferUnit < p.maximumTransferUnit)
    ensures r.replyOneHandled != p.replyOneHandled ==> reply.ReplyOne?
    ensures r.replyTwoHandled != p.replyTwoHandled ==> reply.ReplyTwo? && reply.serverGuid == p.guid
  {
    match reply
    case ReplyOne(magic, serverGuid, mtu) =>
      if !magic then p.(cancelReason := Some(MagicInvalid))
      else if mtu > MAXIMUM_MTU_SIZE || mtu < MINIMUM_MTU_SIZE then p.(cancelReason := Some(MtuOutOfRange))
      else if mtu > p.initialMaximumTransferUnit then p.(cancelReason := Some(MtuTooHigh))
      else p.(maximumTransferUnit := mtu, guid := serverGuid, replyOneHandled := true)
    case ReplyTwo(failed, magic, serverGuid, mtu, connectionType) =>
      if failed then p.(cancelReason := Some(DecodeFailed))
      else if !magic then p.(cancelReason := Some(MagicInvalid))
      else if serverGuid != p.guid then p.(cancelReason := Some(GuidMismatch))
      else if mtu > p.maximumTransferUnit then p.(cancelReason := Some(MtuTooHigh))
      else p.(replyTwoHandled := true, maximumTransferUnit := mtu, connectionType := Some(connectionType))
    case AlreadyConnectedReply => p.(cancelReason := Some(AlreadyConnected))
    case NoFreeIncomingConnectionsReply => p.(cancelReason := Some(NoFreeIncomingConnections))
    case ConnectionBannedReply(serverGuid) =>
      if serverGuid == p.guid then p.(cancelReason := Some(Banned)) else p
    case IncompatibleProtocolReply(serverGuid, networkProtocol) =>
      if serverGuid == p.guid then p.(cancelReason := Some(IncompatibleProtocol(networkProtocol))) else p
    case UnrelatedReply => p
  }

  /** `readyForSession`: not cancelled, server identity, MTU and address known, and both replies
      handled. */
  predicate ReadyForSession(p: Prep) {
    && p.cancelReason.None?
    && p.guid != -1 && p.maximumTransferUnit != -1 && p.address.Some?
    && p.replyOneHandled && p.replyTwoHandled
  }

  /** The arguments the session is created with. */
  datatype SessionParams = SessionParams(connectionType: Option<int>, guid: int, maximumTransferUnit: int, address: Address)

  /** `createSession`: the session parameters once ready, nothing before. */
  function CreateSession(p: Prep): (r: Option<SessionParams>)
    ensures r.Some? <==> ReadyForSession(p)
    ensures r.Some? ==> r.value.guid == p.guid && r.value.maximumTransferUnit == p.maximumTransferUnit
                        && r.value.connectionType == p.connectionType && Some(r.value.address) == p.address
  {
    if !ReadyForSession(p) then None
    else Some(SessionParams(p.connectionType, p.guid, p.maximumTransferUnit, p.address.value))
  }

  // ---------------------------------------------------------------------------------------------
  // Properties over any sequence of packets

  /** The packets handled in order. */
  function HandleAll(p: Prep, replies: seq<Reply>): (r: Prep)
    ensures r.initialMaximumTransferUnit == p.initialMaximumTransferUnit && r.address == p.address
    decreases |replies|
  {
    if |replies| == 0 then p else HandleAll(HandleMessage(p, replies[0]), replies[1..])
  }

  /** A cancelled login stays cancelled, whatever arrives afterwards, and is never ready. */
  lemma {:induction false} CancelIsFinal(p: Prep, replies: seq<Reply>)
    requires p.cancelReason.Some?
    ensures HandleAll(p, replies).cancelReason.Some?
    ensures CreateSession(HandleAll(p, replies)) == None
    decreases |replies|
  {
    if |replies| > 0 {
      CancelIsFinal(HandleMessage(p, replies[0]), replies[1..]);
    }
  }

  /** The larger of two numbers. */
  function Max(a: int, b: int): int {
    if a >= b then a else b
  }

  /** The recorded MTU, once set, never exceeds the protocol maximum nor what the client can
      handle. */
  predicate MtuBounded(p: Prep) {
    p.maximumTransferUnit <= Max(-1, if p.initialMaximumTransferUnit < MAXIMUM_MTU_SIZE then p.initialMaximumTransferUnit else MAXIMUM_MTU_SIZE)
  }

  /** Whatever packets arrive, the MTU bound holds from construction on. */
  lemma {:induction false} MtuStaysBounded(p: Prep, replies: seq<Reply>)
    requires MtuBounded(p)
    ensures MtuBounded(HandleAll(p, replies))
    decreases |replies|
  {
    if |replies| > 0 {
      MtuStaysBounded(HandleMessage(p, replies[0]), replies[1..]);
    }
  }

  /** A rejection naming another server is ignored; the two unconditional rejections always
      cancel. */
  lemma RejectionsByGuid(p: Prep, serverGuid: int, networkProtocol: int)
    ensures serverGuid != p.guid ==>
              HandleMessage(p, ConnectionBannedReply(serverGuid)) == p
              && HandleMessage(p, IncompatibleProtocolReply(serverGuid, networkProtocol)) == p
    ensures serverGuid == p.guid ==>
              HandleMessage(p, ConnectionBannedReply(serverGuid)).cancelReason == Some(Banned)
    ensures HandleMessage(p, AlreadyConnectedReply).cancelReason == Some(AlreadyConnected)
    ensures HandleMessage(p, NoFreeIncomingConnectionsReply).cancelReason == Some(NoFreeIncomingConnections)
  {
  }

  /** The successful login: a first reply within the bounds and the client's limit, then a second
      reply from the same server with an MTU no larger, make the preparation ready with the second
      reply's MTU and connection type. */
  lemma LoginSucceeds(initial: int, address: Address, guid: int, mtu1: int, mtu2: int, connectionType: int)
    requires guid != -1 && mtu2 != -1
    requires MINIMUM_MTU_SIZE <= mtu1 <= MAXIMUM_MTU_SIZE && mtu1 <= initial && mtu2 <= mtu1
    ensures var p := HandleAll(New(initial).(address := Some(address)),
                               [ReplyOne(true, guid, mtu1), ReplyTwo(false, true, guid, mtu2, connectionType)]);
            CreateSession(p) == Some(SessionParams(Some(connectionType), guid, mtu2, address))
  {
    var p0 := New(initial).(address := Some(address));
    var replies := [ReplyOne(true, guid, mtu1), ReplyTwo(false, true, guid, mtu2, connectionType)];
    assert replies[1..][1..] == [];
    assert HandleAll(p0, replies) == HandleAll(HandleMessage(HandleMessage(p0, replies[0]), replies[1]), []);
  }

  /** The second reply is checked only against the MTU already recorded, not against the protocol
      minimum: it can lower the MTU below MINIMUM_MTU_SIZE and the login still completes. */
  lemma SecondReplyMayGoBelowMinimum(initial: int, address: Address, guid: int, mtu1: int)
    requires guid != -1
    requires MINIMUM_MTU_SIZE <= mtu1 <= MAXIMUM_MTU_SIZE && mtu1 <= initial
    ensures var p := HandleAll(New(initial).(address := Some(address)),
                               [ReplyOne(true, guid, mtu1), ReplyTwo(false, true, guid, 1, 0)]);
            CreateSession(p).Some? && CreateSession(p).value.maximumTransferUnit < MINIMUM_MTU_SIZE
  {
    LoginSucceeds(initial, address, guid, mtu1, 1, 0);
  }
}
