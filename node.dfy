/** The node: name validation, `name@subdomain` parsing, identity checks, and the
    state machine that runs discovery, heartbeats and maintenance from `loop`. */
module Node {
  import opened Common
  import opened MeshTypes
  import opened Routing

  // ---------------------------------------------------------------------------
  // Names and addresses
  // ---------------------------------------------------------------------------

  /** A character allowed in a node id or subdomain: `[A-Za-z0-9_-]`. */
  predicate NameChar(c: Char8)
  {
    ('a' <= c <= 'z') || ('A' <= c <= 'Z') || ('0' <= c <= '9') || c == '_' || c == '-'
  }

  /** A valid name: 3 to 20 characters, each a name character. */
  predicate ValidName(s: Str)
  {
    3 <= |s| <= 20 && forall i :: 0 <= i < |s| ==> NameChar(s[i])
  }

  /** `isValidNodeId`: the length check, then a scan that stops at the first bad character. */
  method IsValidNodeId(s: Str) returns (r: bool)
    ensures r <==> ValidName(s)
  {
    if |s| < 3 || |s| > 20 {
      return false;
    }
    var i := 0;
    while i < |s|
      invariant 0 <= i <= |s|
      invariant forall j :: 0 <= j < i ==> NameChar(s[j])
    {
      var c := s[i];
      if !(('a' <= c <= 'z') || ('A' <= c <= 'Z') || ('0' <= c <= '9') || c == '_' || c == '-') {
        return false;
      }
      i := i + 1;
    }
    return true;
  }

  /** `isValidSubdomain`: the same rules as a node id. */
  method IsValidSubdomain(s: Str) returns (r: bool)
    ensures r <==> ValidName(s)
  {
    r := IsValidNodeId(s);
  }

  /** A valid name never contains `@`, so it can be the node id of an address that parses back. */
  lemma ValidNameHasNoAt(s: Str)
    requires ValidName(s)
    ensures NoAt(s)
  {
    forall i | 0 <= i < |s| ensures s[i] != '@' {
      assert NameChar(s[i]);
    }
  }

  /** `String::indexOf(c)`: the first position of `c`, or -1 when it does not occur. */
  function IndexOf(s: Str, c: Char8): (i: int)
    ensures -1 <= i < |s|
    ensures i == -1 <==> c !in s
    ensures i >= 0 ==> s[i] == c && c !in s[..i]
  {
    if s == [] then -1
    else if s[0] == c then 0
    else
      var j := IndexOf(s[1..], c);
      assert s[1..] == s[1..][..|s| - 1];
      if j == -1 then -1
      else
        assert s[..j + 1] == [s[0]] + s[1..][..j];
        j + 1
  }

  /** `parseAddress`: split at the first `@`; without one, the empty strings of a fresh address.
      The UUID of the result is never assigned, so it is whatever `uuid` holds. */
  function ParseAddress(text: Str, uuid: NodeUUID): (a: NodeAddress)
    ensures '@' !in text ==> a == NodeAddress([], [], uuid) && !IsValidAddress(a)
    ensures '@' in text ==> NoAt(a.nodeId) && a.nodeId + "@" + a.subdomain == text && a.uuid == uuid
  {
    var at := IndexOf(text, '@');
    if at == -1 then NodeAddress([], [], uuid)
    else
      assert text == text[..at] + "@" + text[at + 1..];
      NodeAddress(text[..at], text[at + 1..], uuid)
  }

  /** Parsing a full address gives back its node id and subdomain, whenever the node id has no `@`;
      the subdomain may hold further `@` characters. */
  lemma ParseFullAddress(a: NodeAddress, uuid: NodeUUID)
    requires NoAt(a.nodeId)
    ensures ParseAddress(FullAddress(a), uuid) == a.(uuid := uuid)
  {
    FullAddressLayout(a);
    var t := FullAddress(a);
    assert '@' in t by { assert t[|a.nodeId|] == '@'; }
    var b := ParseAddress(t, uuid);
    FullAddressLayout(b);
    FullAddressInjective(a, b);
  }

  /** A node id and subdomain that both pass validation parse back from their full address. */
  lemma ValidNamesParseBack(a: NodeAddress, uuid: NodeUUID)
    requires ValidName(a.nodeId) && ValidName(a.subdomain)
    ensures var b := ParseAddress(FullAddress(a), uuid);
      b.nodeId == a.nodeId && b.subdomain == a.subdomain && IsValidAddress(b)
  {
    ValidNameHasNoAt(a.nodeId);
    ParseFullAddress(a, uuid);
  }

  /** An `@` at the very start or end parses to an address that is not valid. */
  lemma EdgeAtIsInvalid(rest: Str, uuid: NodeUUID)
    ensures !IsValidAddress(ParseAddress("@" + rest, uuid))
    ensures NoAt(rest) ==> !IsValidAddress(ParseAddress(rest + "@", uuid))
  {
    var t := "@" + rest;
    assert t[0] == '@';
    if NoAt(rest) {
      var u := rest + "@";
      assert u[|rest|] == '@';
      var b := ParseAddress(u, uuid);
      assert '@' !in rest;
      assert u[..|rest|] == rest;
    }
  }

  /** `validateStoredIdentity`: both names valid, and a UUID whose first byte is not zero. */
  method ValidateStoredIdentity(a: NodeAddress) returns (r: bool)
    ensures r <==> ValidName(a.nodeId) && ValidName(a.subdomain) && a.uuid.bytes[0] != 0
  {
    var idOk := IsValidNodeId(a.nodeId);
    var subOk := IsValidSubdomain(a.subdomain);
    r := idOk && subOk && a.uuid.bytes[0] != 0;
  }

  /** `String(n)` for an unsigned value: its decimal digits, without leading zeros. */
  function Decimal(n: nat): (s: Str)
    ensures |s| >= 1 && forall i :: 0 <= i < |s| ==> '0' <= s[i] <= '9'
    ensures n < 10 ==> |s| == 1
  {
    if n < 10 then [('0' as int + n) as char]
    else Decimal(n / 10) + [('0' as int + n % 10) as char]
  }

  lemma {:induction false} DecimalLength(n: nat, k: nat)
    requires n < Pow10(k) && k >= 1
    ensures |Decimal(n)| <= k
  {
    if n >= 10 {
      DecimalLength(n / 10, k - 1);
    }
  }

  function Pow10(k: nat): nat
  {
    if k == 0 then 1 else 10 * Pow10(k - 1)
  }

  /** The names `createNewIdentity` makes up when none is given: a prefix and a random number. */
  function DefaultName(prefix: Str, random: u32, modulus: nat): Str
    requires modulus > 0
  {
    prefix + Decimal(random % modulus)
  }

  /** The default node id `node<0..9998>` and subdomain `mesh<0..98>` always pass validation. */
  lemma DefaultNamesValid(r1: u32, r2: u32)
    ensures ValidName(DefaultName("node", r1, 9999)) && ValidName(DefaultName("mesh", r2, 99))
  {
    DecimalLength(r1 % 9999, 4);
    DecimalLength(r2 % 99, 2);
    var a := DefaultName("node", r1, 9999);
    var b := DefaultName("mesh", r2, 99);
    forall i | 0 <= i < |a| ensures NameChar(a[i]) {
      if i >= 4 { assert a[i] == Decimal(r1 % 9999)[i - 4]; }
    }
    forall i | 0 <= i < |b| ensures NameChar(b[i]) {
      if i >= 4 { assert b[i] == Decimal(r2 % 99)[i - 4]; }
    }
  }

  // ---------------------------------------------------------------------------
  // The state machine
  // ---------------------------------------------------------------------------

  datatype NodeState = Initializing | NameConflict | Discovering | Operational | Error

  const DiscoveryBroadcastInterval: u32 := 10000
  const MaintenanceInterval: u32 := 60000

  /** A step of the node that may call `sendHeartbeat`: when `attempted`, the send log and the
      router's heartbeat time change as that one call changes them; otherwise neither changes. */
  predicate MaybeHeartbeat(attempted: bool, before: seq<Transmission>, after: seq<Transmission>, last0: u32, last1: u32,
                           now: u32, status: NodeStatus, hasCallback: bool, own: NodeAddress, json: Str, sequence: u16)
  {
    if attempted then HeartbeatAttempt(before, after, last0, last1, now, status, hasCallback, own, json, sequence)
    else after == before && last1 == last0
  }

  /** Where `loop` leaves the state: discovery ends once the join timeout has passed. */
  function LoopState(state: NodeState, now: u32, discoveryStart: u32): NodeState
  {
    if state == Discovering && Elapsed(now, discoveryStart) > NetworkJoinTimeout then Operational else state
  }

  /** `loop` never leaves ERROR or OPERATIONAL, and discovery ends in OPERATIONAL exactly when more
      than the join timeout has passed since it started. */
  lemma LoopStateFacts(state: NodeState, now: u32, discoveryStart: u32)
    ensures state != Discovering ==> LoopState(state, now, discoveryStart) == state
    ensures state == Discovering ==>
      (LoopState(state, now, discoveryStart) == Operational <==> Elapsed(now, discoveryStart) > NetworkJoinTimeout)
    ensures LoopState(state, now, discoveryStart) in {state, Operational}
  {
  }

  /** Discovery started at `start` is over by any time more than 30 s later, and not before. */
  lemma DiscoveryEnds(start: u32, now: u32)
    requires start <= now
    ensures LoopState(Discovering, now, start) == Operational <==> now - start > 30000
  {
  }

  /** `sendMessage` and `sendPublicMessage` need an operational node with a router. */
  predicate CanSend(state: NodeState, hasRouter: bool)
  {
    state == Operational && hasRouter
  }

  /** `sendEmergencyMessage` needs a router and any state but ERROR. */
  predicate CanSendEmergency(state: NodeState, hasRouter: bool)
  {
    hasRouter && state != Error
  }

  /** An emergency message can go whenever an ordinary one can, and also while initialising,
      in a name conflict and during discovery. */
  lemma EmergencyGuardWeaker(state: NodeState, hasRouter: bool)
    ensures CanSend(state, hasRouter) ==> CanSendEmergency(state, hasRouter)
    ensures hasRouter && state in {Initializing, NameConflict, Discovering} ==>
      CanSendEmergency(state, hasRouter) && !CanSend(state, hasRouter)
    ensures !CanSendEmergency(Error, hasRouter) && !CanSend(Error, hasRouter)
  {
  }

  /** `RealMeshNode`: the fields `loop` and the state machine work on. The router is the one
      `begin` installs, or null before that. */
  class RealMeshNode {
    const router: RealMeshRouter?
    var ownAddress: NodeAddress
    var currentState: NodeState
    var desiredNodeId: Str
    var desiredSubdomain: Str
    var baseNodeId: Str
    var hasValidIdentity: bool
    var nameConflictActive: bool
    var nameConflictStartTime: u32
    var lastDiscoveryBroadcast: u32
    var discoveryStartTime: u32
    var discoveryComplete: bool
    var lastMaintenanceRun: u32
    var nodeStartTime: u32
    var autoHeartbeat: bool
    /** The (old, new) pairs handed to the state-change callback and transition hook. */
    var transitions: seq<(NodeState, NodeState)>
    /** How many times periodic maintenance has run. */
    var maintenanceRuns: nat

    predicate Valid()
      reads this, router
    {
      router != null ==> router.Valid()
    }

    /** The frame of the router and its send log. */
    function RouterParts(): set<object>
      reads this
    {
      if router == null then {} else {router, router.sink}
    }

    /** The constructor: initialising, no identity, automatic heartbeats on, started at `now`.
        `nameConflictActive` and the bytes of `ownAddress.uuid` are not initialised, so their
        starting values are parameters; the address's names start empty. */
    constructor (router: RealMeshRouter?, conflictFlag: bool, uuid: NodeUUID, now: u32)
      requires router != null ==> router.Valid()
      ensures Valid() && this.router == router
      ensures currentState == Initializing && !hasValidIdentity && autoHeartbeat
      ensures nameConflictActive == conflictFlag && nameConflictStartTime == 0
      ensures lastDiscoveryBroadcast == 0 && discoveryStartTime == 0 && !discoveryComplete
      ensures lastMaintenanceRun == 0 && transitions == [] && maintenanceRuns == 0 && nodeStartTime == now
      ensures ownAddress == NodeAddress([], [], uuid) && desiredNodeId == [] && desiredSubdomain == [] && baseNodeId == []
    {
      this.router := router;
      ownAddress := NodeAddress([], [], uuid);
      currentState := Initializing;
      desiredNodeId := [];
      desiredSubdomain := [];
      baseNodeId := [];
      hasValidIdentity := false;
      nameConflictActive := conflictFlag;
      nameConflictStartTime := 0;
      lastDiscoveryBroadcast := 0;
      discoveryStartTime := 0;
      discoveryComplete := false;
      lastMaintenanceRun := 0;
      nodeStartTime := now;
      autoHeartbeat := true;
      transitions := [];
      maintenanceRuns := 0;
    }

    /** `changeState`: a new state is taken and reported; re-entering the current state does nothing. */
    method ChangeState(newState: NodeState)
      modifies this`currentState, this`transitions
      ensures currentState == newState
      ensures transitions == if old(currentState) == newState then old(transitions)
                             else old(transitions) + [(old(currentState), newState)]
    {
      if currentState != newState {
        var oldState := currentState;
        currentState := newState;
        transitions := transitions + [(oldState, newState)];
      }
    }

    /** `setAutoHeartbeat`. */
    method SetAutoHeartbeat(enabled: bool)
      modifies this`autoHeartbeat
      ensures autoHeartbeat == enabled
    {
      autoHeartbeat := enabled;
    }

    /** `broadcastPresence`: with a router, send a heartbeat and note the time. */
    method BroadcastPresence(now: u32, json: Str, sequence: u16)
      requires Valid()
      modifies RouterParts(), this`lastDiscoveryBroadcast
      ensures Valid()
      ensures router == null ==> lastDiscoveryBroadcast == old(lastDiscoveryBroadcast)
      ensures router != null ==> lastDiscoveryBroadcast == now
      ensures router != null ==>
        router.RoutingState() == old(router.RoutingState())
        && HeartbeatAttempt(old(router.sink.sent), router.sink.sent, old(router.lastHeartbeat), router.lastHeartbeat,
                            now, router.ownStatus, router.hasSendCallback, router.ownAddress, json, sequence)
    {
      if router == null {
        return;
      }
      var _ := router.SendHeartbeat(now, json, sequence);
      lastDiscoveryBroadcast := now;
    }

    /** `startNetworkDiscovery`: enter DISCOVERING, note the start, and announce ourselves. */
    method StartNetworkDiscovery(now: u32, json: Str, sequence: u16)
      requires Valid()
      modifies RouterParts(), this`currentState, this`transitions, this`discoveryStartTime,
               this`discoveryComplete, this`lastDiscoveryBroadcast
      ensures Valid()
      ensures currentState == Discovering && discoveryStartTime == now && !discoveryComplete
      ensures lastDiscoveryBroadcast == if router == null then old(lastDiscoveryBroadcast) else now
      ensures transitions == if old(currentState) == Discovering then old(transitions)
                             else old(transitions) + [(old(currentState), Discovering)]
      ensures router != null ==>
        router.RoutingState() == old(router.RoutingState())
        && HeartbeatAttempt(old(router.sink.sent), router.sink.sent, old(router.lastHeartbeat), router.lastHeartbeat,
                            now, router.ownStatus, router.hasSendCallback, router.ownAddress, json, sequence)
    {
      ChangeState(Discovering);
      discoveryStartTime := now;
      discoveryComplete := false;
      BroadcastPresence(now, json, sequence);
    }

    /** `handleDiscoveryTimeout`: rebroadcast after 10 s of silence, and finish discovery once
        the 30 s join timeout has passed. */
    method HandleDiscoveryTimeout(now: u32, json: Str, sequence: u16)
      requires Valid()
      modifies RouterParts(), this`currentState, this`transitions, this`discoveryComplete,
               this`lastDiscoveryBroadcast
      ensures Valid()
      ensures lastDiscoveryBroadcast ==
        if Elapsed(now, old(lastDiscoveryBroadcast)) > DiscoveryBroadcastInterval && router != null then now
        else old(lastDiscoveryBroadcast)
      ensures router != null ==>
        router.RoutingState() == old(router.RoutingState())
        && MaybeHeartbeat(Elapsed(now, old(lastDiscoveryBroadcast)) > DiscoveryBroadcastInterval,
                          old(router.sink.sent), router.sink.sent, old(router.lastHeartbeat), router.lastHeartbeat,
                          now, router.ownStatus, router.hasSendCallback, router.ownAddress, json, sequence)
      ensures Elapsed(now, discoveryStartTime) > NetworkJoinTimeout ==>
        discoveryComplete && currentState == Operational
        && transitions == if old(currentState) == Operational then old(transitions)
                          else old(transitions) + [(old(currentState), Operational)]
      ensures Elapsed(now, discoveryStartTime) <= NetworkJoinTimeout ==>
        discoveryComplete == old(discoveryComplete) && currentState == old(currentState)
        && transitions == old(transitions)
    {
      if Elapsed(now, lastDiscoveryBroadcast) > DiscoveryBroadcastInterval {
        BroadcastPresence(now, json, sequence);
      }
      if Elapsed(now, discoveryStartTime) > NetworkJoinTimeout {
        discoveryComplete := true;
        ChangeState(Operational);
      }
    }

    /** `handleNameConflictTimeout`: once a conflict has run 30 s, the proposed name becomes the base name. */
    method HandleNameConflictTimeout(now: u32)
      modifies this`baseNodeId, this`nameConflictActive
      ensures old(nameConflictActive) && Elapsed(now, nameConflictStartTime) > NameTimeoutMs ==>
        baseNodeId == ownAddress.nodeId && !nameConflictActive
      ensures !(old(nameConflictActive) && Elapsed(now, nameConflictStartTime) > NameTimeoutMs) ==>
        baseNodeId == old(baseNodeId) && nameConflictActive == old(nameConflictActive)
    {
      if nameConflictActive && Elapsed(now, nameConflictStartTime) > NameTimeoutMs {
        baseNodeId := ownAddress.nodeId;
        nameConflictActive := false;
      }
    }

    /** The heartbeat step of `loop`, for DISCOVERING and OPERATIONAL. */
    method LoopHeartbeat(now: u32, json: Str, sequence: u16)
      requires Valid()
      modifies RouterParts()
      ensures Valid()
      ensures router != null && !autoHeartbeat ==>
        router.sink.sent == old(router.sink.sent) && router.lastHeartbeat == old(router.lastHeartbeat)
      ensures router != null && autoHeartbeat ==>
        old(router.sink.sent) <= router.sink.sent && |router.sink.sent| <= |old(router.sink.sent)| + 1
        && forall t :: t in router.sink.sent[|old(router.sink.sent)|..] ==>
             t.packet.header.messageType == MsgHeartbeat && t.packet.header.routingFlags == RouteFlood
      ensures router != null ==>
        router.RoutingState() == old(router.RoutingState())
        && MaybeHeartbeat(autoHeartbeat, old(router.sink.sent), router.sink.sent, old(router.lastHeartbeat), router.lastHeartbeat,
                          now, router.ownStatus, router.hasSendCallback, router.ownAddress, json, sequence)
    {
      if autoHeartbeat && router != null {
        var _ := router.SendHeartbeat(now, json, sequence);
      }
    }

    /** `loop`: nothing in ERROR; otherwise the state's own step (DISCOVERING runs the discovery
        check and then the OPERATIONAL heartbeat), then maintenance once a minute. */
    method Loop(now: u32, json: Str, sequence: u16)
      requires Valid()
      modifies RouterParts(), this`currentState, this`transitions, this`discoveryComplete,
               this`lastDiscoveryBroadcast, this`baseNodeId, this`nameConflictActive,
               this`lastMaintenanceRun, this`maintenanceRuns
      ensures Valid()
      ensures currentState == LoopState(old(currentState), now, discoveryStartTime)
      ensures transitions == if old(currentState) == Discovering && Elapsed(now, discoveryStartTime) > NetworkJoinTimeout
                             then old(transitions) + [(Discovering, Operational)] else old(transitions)
      ensures old(currentState) == Error ==>
        transitions == old(transitions) && lastMaintenanceRun == old(lastMaintenanceRun)
        && maintenanceRuns == old(maintenanceRuns) && lastDiscoveryBroadcast == old(lastDiscoveryBroadcast)
        && baseNodeId == old(baseNodeId) && nameConflictActive == old(nameConflictActive)
        && (router != null ==> router.sink.sent == old(router.sink.sent))
      ensures old(currentState) != Error && Elapsed(now, old(lastMaintenanceRun)) > MaintenanceInterval ==>
        lastMaintenanceRun == now && maintenanceRuns == old(maintenanceRuns) + 1
      ensures old(currentState) != Error && Elapsed(now, old(lastMaintenanceRun)) <= MaintenanceInterval ==>
        lastMaintenanceRun == old(lastMaintenanceRun) && maintenanceRuns == old(maintenanceRuns)
      ensures old(currentState) != NameConflict ==>
        baseNodeId == old(baseNodeId) && nameConflictActive == old(nameConflictActive)
      ensures router != null ==> router.RoutingState() == old(router.RoutingState())
      ensures router != null && old(currentState) in {Initializing, NameConflict} ==>
        router.sink.sent == old(router.sink.sent) && router.lastHeartbeat == old(router.lastHeartbeat)
      ensures router != null && old(currentState) == Operational ==>
        MaybeHeartbeat(autoHeartbeat, old(router.sink.sent), router.sink.sent, old(router.lastHeartbeat), router.lastHeartbeat,
                       now, router.ownStatus, router.hasSendCallback, router.ownAddress, json, sequence)
      ensures router != null && old(currentState) == Discovering ==>
        exists mid: seq<Transmission>, midLast: u32 ::
          MaybeHeartbeat(Elapsed(now, old(lastDiscoveryBroadcast)) > DiscoveryBroadcastInterval,
                         old(router.sink.sent), mid, old(router.lastHeartbeat), midLast,
                         now, router.ownStatus, router.hasSendCallback, router.ownAddress, json, sequence)
          && MaybeHeartbeat(autoHeartbeat, mid, router.sink.sent, midLast, router.lastHeartbeat,
                            now, router.ownStatus, router.hasSendCallback, router.ownAddress, json, sequence)
    {
      if currentState == Error {
        return;
      }
      ghost var mid: seq<Transmission>, midLast: u32 := [], 0;
      match currentState {
        case NameConflict =>
          HandleNameConflictTimeout(now);
        case Discovering =>
          HandleDiscoveryTimeout(now, json, sequence);
          if router != null {
            mid, midLast := router.sink.sent, router.lastHeartbeat;
          }
          LoopHeartbeat(now, json, sequence);
        case Operational =>
          LoopHeartbeat(now, json, sequence);
        case _ =>
      }
      if Elapsed(now, lastMaintenanceRun) > MaintenanceInterval {
        maintenanceRuns := maintenanceRuns + 1;
        lastMaintenanceRun := now;
      }
      if router != null && old(currentState) == Discovering {
        assert MaybeHeartbeat(Elapsed(now, old(lastDiscoveryBroadcast)) > DiscoveryBroadcastInterval,
                              old(router.sink.sent), mid, old(router.lastHeartbeat), midLast,
                              now, router.ownStatus, router.hasSendCallback, router.ownAddress, json, sequence);
        assert MaybeHeartbeat(autoHeartbeat, mid, router.sink.sent, midLast, router.lastHeartbeat,
                              now, router.ownStatus, router.hasSendCallback, router.ownAddress, json, sequence);
      }
    }

    /** `sendMessage`: only when operational with a router, and only to an address that parses
        to a valid one; then a direct message through the router. */
    method SendMessage(target: Str, message: Str, junk: NodeUUID, now: u32, sequence: u16) returns (ok: bool)
      requires Valid()
      modifies RouterParts()
      ensures Valid()
      ensures !CanSend(currentState, router != null) || !IsValidAddress(ParseAddress(target, junk)) ==>
        !ok && (router != null ==> router.sink.sent == old(router.sink.sent))
      ensures router != null ==> old(router.sink.sent) <= router.sink.sent
      ensures router != null && CanSend(currentState, true) && IsValidAddress(ParseAddress(target, junk)) ==>
        forall t :: t in router.sink.sent[|old(router.sink.sent)|..] ==>
          t.packet.header.priority == PriorityDirect && t.packet.header.messageType == MsgData
          && (t.packet.header.routingFlags != RouteSubdomainRetry ==> t.packet.destination == ParseAddress(target, junk))
    {
      if currentState != Operational || router == null {
        return false;
      }
      var address := ParseAddress(target, junk);
      if !IsValidAddress(address) {
        return false;
      }
      ok := router.SendDirectMessage(address, message, now, sequence);
    }

    /** `sendPublicMessage`: only when operational with a router. */
    method SendPublicMessage(message: Str, now: u32, sequence: u16) returns (ok: bool)
      requires Valid()
      modifies RouterParts()
      ensures Valid()
      ensures !CanSend(currentState, router != null) ==>
        !ok && (router != null ==> router.sink.sent == old(router.sink.sent))
      ensures router != null ==> old(router.sink.sent) <= router.sink.sent
    {
      if currentState != Operational || router == null {
        return false;
      }
      ok := router.SendPublicMessage(message, now, sequence);
    }

    /** `sendEmergencyMessage`: with a router, in every state but ERROR. */
    method SendEmergencyMessage(message: Str, now: u32, sequence: u16) returns (ok: bool)
      requires Valid()
      modifies RouterParts()
      ensures Valid()
      ensures !CanSendEmergency(currentState, router != null) ==>
        !ok && (router != null ==> router.sink.sent == old(router.sink.sent))
      ensures router != null ==> old(router.sink.sent) <= router.sink.sent
    {
      if router == null {
        return false;
      }
      if currentState == Error {
        return false;
      }
      ok := router.SendEmergencyMessage(message, now, sequence);
    }

    /** `createNewIdentity`: fill in missing names from the random numbers given, refuse invalid
        names without touching the address, otherwise take the UUID and names; `stored` is
        whether writing the identity to flash succeeded. */
    method CreateNewIdentity(random1: u32, random2: u32, uuid: NodeUUID, stored: bool) returns (ok: bool)
      modifies this`desiredNodeId, this`desiredSubdomain, this`ownAddress, this`hasValidIdentity
      ensures desiredNodeId == if old(desiredNodeId) == [] then DefaultName("node", random1, 9999) else old(desiredNodeId)
      ensures desiredSubdomain == if old(desiredSubdomain) == [] then DefaultName("mesh", random2, 99) else old(desiredSubdomain)
      ensures !(ValidName(desiredNodeId) && ValidName(desiredSubdomain)) ==>
        !ok && ownAddress == old(ownAddress) && hasValidIdentity == old(hasValidIdentity)
      ensures ValidName(desiredNodeId) && ValidName(desiredSubdomain) ==>
        ownAddress == NodeAddress(desiredNodeId, desiredSubdomain, uuid)
        && ok == stored && hasValidIdentity == (stored || old(hasValidIdentity))
    {
      if desiredNodeId == [] {
        desiredNodeId := DefaultName("node", random1, 9999);
      }
      if desiredSubdomain == [] {
        desiredSubdomain := DefaultName("mesh", random2, 99);
      }
      var idOk := IsValidNodeId(desiredNodeId);
      var subOk := IsValidSubdomain(desiredSubdomain);
      if !idOk || !subOk {
        return false;
      }
      ownAddress := ownAddress.(uuid := uuid);
      ownAddress := ownAddress.(nodeId := desiredNodeId, subdomain := desiredSubdomain);
      if !stored {
        return false;
      }
      hasValidIdentity := true;
      ok := true;
    }
  }
}
