/** The routing engine: a routing table keyed by full address, a subdomain table
    with its stationary hubs, the bridge memory, loop prevention through the
    header path history, and the direct / subdomain / flood strategies. */
module Routing {
  import opened Common
  import opened MeshTypes
  import opened Packet

  datatype NodeStatus = Offline | Mobile | Stationary | Conflict

  datatype RoutingEntry = RoutingEntry(
    destination: NodeAddress,
    nextHop: NodeAddress,
    backupHop: NodeAddress,
    lastUsed: u32,
    hopCount: u16,
    signalStrength: u8,
    reliability: u8,
    isValid: bool)

  datatype IntermediaryEntry = IntermediaryEntry(
    nodeA: NodeAddress,
    nodeB: NodeAddress,
    lastBridged: u32,
    bridgeCount: u16,
    isActive: bool)

  datatype SubdomainInfo = SubdomainInfo(
    subdomainName: Str,
    knownNodes: seq<NodeAddress>,
    stationaryHubs: seq<NodeAddress>,
    lastUpdated: u32,
    isLocal: bool)

  /** A subdomain entry created by `subdomains[name]` for a name not yet present. */
  const NewSubdomainInfo: SubdomainInfo := SubdomainInfo([], [], [], 0, false)

  /** The integer counters of `NetworkStats` (the floating-point RSSI average is not modelled). */
  datatype NetworkStats = NetworkStats(
    messagesSent: u32,
    messagesReceived: u32,
    messagesForwarded: u32,
    messagesDropped: u32,
    routingTableSize: u32,
    lastHeartbeat: u32,
    networkLoad: u8)

  /** One call of the send callback: the packet handed over and the answer it gave. */
  datatype Transmission = Transmission(packet: MessagePacket, accepted: bool)

  // ---------------------------------------------------------------------------
  // Route table
  // ---------------------------------------------------------------------------

  const ExpireStationary: u32 := 86400000   // 24 hours
  const ExpireMobile: u32 := 3600000        // 1 hour
  const InitialReliability: u8 := 100
  const EvictionThreshold: u8 := 20

  type RouteTable = map<Str, RoutingEntry>

  /** `isRouteExpired`: more milliseconds since the last use than the status allows. */
  predicate IsRouteExpired(entry: RoutingEntry, status: NodeStatus, now: u32)
  {
    Elapsed(now, entry.lastUsed) > (if status == Stationary then ExpireStationary else ExpireMobile)
  }

  /** A route used at `now` is not expired, and neither is one used within the last hour. */
  lemma RecentRouteNotExpired(entry: RoutingEntry, status: NodeStatus, now: u32)
    requires entry.lastUsed <= now && now - entry.lastUsed <= ExpireMobile
    ensures !IsRouteExpired(entry, status, now)
  {
  }

  /** A mobile node drops a route that a stationary node keeps: more than an hour and at most a day. */
  lemma ExpiryDependsOnStatus(entry: RoutingEntry, now: u32)
    requires entry.lastUsed <= now && ExpireMobile < now - entry.lastUsed <= ExpireStationary
    ensures IsRouteExpired(entry, Mobile, now) && !IsRouteExpired(entry, Stationary, now)
  {
  }

  /** The clock wraps: a route used just before the 32-bit wrap is still fresh just after it. */
  lemma ExpiryAcrossWrap(entry: RoutingEntry, status: NodeStatus)
    requires entry.lastUsed == 0xFFFF_FFFF
    ensures !IsRouteExpired(entry, status, 1000)
  {
  }

  /** `findRoute`: the entry under the destination's full address, if it is valid and not expired. */
  function LookupRoute(table: RouteTable, destination: NodeAddress, status: NodeStatus, now: u32)
    : (r: Option<RoutingEntry>)
    ensures r.Some? <==> FullAddress(destination) in table && table[FullAddress(destination)].isValid
                         && !IsRouteExpired(table[FullAddress(destination)], status, now)
    ensures r.Some? ==> r.value == table[FullAddress(destination)]
  {
    var key := FullAddress(destination);
    if key in table && table[key].isValid && !IsRouteExpired(table[key], status, now) then Some(table[key])
    else None
  }

  /** `addRoute`: insert or overwrite the entry under the destination's key; an overwritten
      entry keeps its backup hop, a new one has the empty address there. */
  function WithRoute(table: RouteTable, destination: NodeAddress, nextHop: NodeAddress, hopCount: u8, now: u32)
    : (t: RouteTable)
    ensures t.Keys == table.Keys + {FullAddress(destination)}
    ensures forall k :: k in table && k != FullAddress(destination) ==> t[k] == table[k]
  {
    var key := FullAddress(destination);
    var backup := if key in table then table[key].backupHop else EmptyAddress;
    table[key := RoutingEntry(destination, nextHop, backup, now, hopCount, 0, InitialReliability, true)]
  }

  /** `removeRoute`: drop the destination's key, if present. */
  function WithoutRoute(table: RouteTable, destination: NodeAddress): (t: RouteTable)
    ensures t.Keys == table.Keys - {FullAddress(destination)}
    ensures forall k :: k in t ==> t[k] == table[k]
  {
    map k | k in table && k != FullAddress(destination) :: table[k]
  }

  /** The score update of `updateRouteQuality`: +5 capped at 100 on success, -20 floored at 0 on failure. */
  function UpdatedReliability(r: u8, success: bool): (s: u8)
    ensures success ==> s >= r || s == 100
    ensures !success ==> s <= r
    ensures r <= 100 ==> s <= 100
    ensures success ==> s == Min(100, r + 5)
    ensures !success ==> s == Max(0, r - 20)
  {
    if success then Min(100, r + 5) else Max(0, r - 20)
  }

  /** `updateRouteQuality`: refresh the time and signal of a known route, rescore it, and
      remove it once its reliability falls below 20. An unknown destination changes nothing. */
  function WithQuality(table: RouteTable, destination: NodeAddress, rssi: i16, success: bool, now: u32)
    : (t: RouteTable)
    ensures FullAddress(destination) !in table ==> t == table
    ensures t.Keys <= table.Keys
    ensures forall k :: k in table && k != FullAddress(destination) ==> k in t && t[k] == table[k]
    ensures FullAddress(destination) in table ==>
      var e := table[FullAddress(destination)];
      var s := UpdatedReliability(e.reliability, success);
      (FullAddress(destination) in t <==> s >= EvictionThreshold)
      && (FullAddress(destination) in t ==>
            t[FullAddress(destination)] == e.(lastUsed := now, signalStrength := rssi % 0x100, reliability := s))
  {
    var key := FullAddress(destination);
    if key !in table then table
    else
      var e := table[key];
      var e' := e.(lastUsed := now, signalStrength := rssi % 0x100,
                   reliability := UpdatedReliability(e.reliability, success));
      if e'.reliability < EvictionThreshold then WithoutRoute(table[key := e'], destination)
      else table[key := e']
  }

  /** Every entry sits under its destination's full address and has a reliability in 20..100. */
  predicate WellKeyed(table: RouteTable)
  {
    forall k :: k in table ==> FullAddress(table[k].destination) == k
                               && EvictionThreshold <= table[k].reliability <= 100
  }

  lemma WithRouteWellKeyed(table: RouteTable, destination: NodeAddress, nextHop: NodeAddress, hopCount: u8, now: u32)
    requires WellKeyed(table)
    ensures WellKeyed(WithRoute(table, destination, nextHop, hopCount, now))
  {
  }

  lemma WithQualityWellKeyed(table: RouteTable, destination: NodeAddress, rssi: i16, success: bool, now: u32)
    requires WellKeyed(table)
    ensures WellKeyed(WithQuality(table, destination, rssi, success, now))
  {
  }

  /** A successful direct send refreshes the route's last use; other tables are left alone. */
  function Refreshed(table: RouteTable, destination: NodeAddress, now: u32): RouteTable
  {
    var key := FullAddress(destination);
    if key in table then table[key := table[key].(lastUsed := now)] else table
  }

  lemma RefreshedWellKeyed(table: RouteTable, destination: NodeAddress, now: u32)
    requires WellKeyed(table)
    ensures WellKeyed(Refreshed(table, destination, now)) && Refreshed(table, destination, now).Keys == table.Keys
  {
  }

  /** After `addRoute` the route is found at once, with the given next hop and full reliability. */
  lemma AddThenFind(table: RouteTable, destination: NodeAddress, nextHop: NodeAddress, hopCount: u8,
                    status: NodeStatus, now: u32)
    ensures var r := LookupRoute(WithRoute(table, destination, nextHop, hopCount, now), destination, status, now);
      r.Some? && r.value.nextHop == nextHop && r.value.hopCount == hopCount
      && r.value.reliability == 100 && r.value.lastUsed == now && r.value.destination == destination
  {
  }

  /** After `removeRoute` the route is gone, and removing it again changes nothing. */
  lemma RemoveThenFind(table: RouteTable, destination: NodeAddress, status: NodeStatus, now: u32)
    ensures LookupRoute(WithoutRoute(table, destination), destination, status, now).None?
    ensures WithoutRoute(WithoutRoute(table, destination), destination) == WithoutRoute(table, destination)
  {
  }

  /** n failures applied to a score, in a row. */
  function Failures(r: u8, n: nat): u8
  {
    if n == 0 then r else Failures(UpdatedReliability(r, false), n - 1)
  }

  /** Starting from a fresh route, n failures in a row leave it at 100 - 20n, floored at 0. */
  lemma {:induction false} FailuresFromFull(n: nat)
    ensures Failures(InitialReliability, n) == Max(0, 100 - 20 * n)
  {
    if n > 0 {
      FailuresAfter(100 - 20, n - 1);
    }
  }

  lemma {:induction false} FailuresAfter(r: u8, n: nat)
    ensures Failures(r, n) == Max(0, r - 20 * n)
  {
    if n > 0 {
      FailuresAfter(Max(0, r - 20), n - 1);
    }
  }

  /** A fresh route survives four consecutive failures and is evicted by the fifth. */
  lemma FailuresToEviction(n: nat)
    ensures Failures(InitialReliability, n) >= EvictionThreshold <==> n < 5
  {
    FailuresFromFull(n);
  }

  /** A success never evicts a known, well-scored route, and it stamps the route's last use. */
  lemma SuccessNeverEvicts(table: RouteTable, destination: NodeAddress, rssi: i16, now: u32)
    requires WellKeyed(table) && FullAddress(destination) in table
    ensures FullAddress(destination) in WithQuality(table, destination, rssi, true, now)
    ensures WithQuality(table, destination, rssi, true, now)[FullAddress(destination)].lastUsed == now
  {
  }

  // ---------------------------------------------------------------------------
  // Stationary hubs
  // ---------------------------------------------------------------------------

  /** No two hubs share a full address. */
  predicate DistinctHubs(hubs: seq<NodeAddress>)
  {
    forall i, j :: 0 <= i < j < |hubs| ==> FullAddress(hubs[i]) != FullAddress(hubs[j])
  }

  predicate HasHub(hubs: seq<NodeAddress>, hub: NodeAddress)
  {
    exists i :: 0 <= i < |hubs| && FullAddress(hubs[i]) == FullAddress(hub)
  }

  /** The hub list after `addStationaryHub`: appended only when no hub has that full address. */
  function WithHub(hubs: seq<NodeAddress>, hub: NodeAddress): (r: seq<NodeAddress>)
    ensures HasHub(r, hub)
    ensures DistinctHubs(hubs) ==> DistinctHubs(r)
    ensures hubs <= r && |r| <= |hubs| + 1
  {
    if HasHub(hubs, hub) then hubs
    else
      assert FullAddress((hubs + [hub])[|hubs|]) == FullAddress(hub);
      hubs + [hub]
  }

  /** Adding a hub twice is adding it once. */
  lemma WithHubIdempotent(hubs: seq<NodeAddress>, hub: NodeAddress)
    ensures WithHub(WithHub(hubs, hub), hub) == WithHub(hubs, hub)
  {
  }

  /** The subdomain table after `addStationaryHub`: the hub's subdomain is created if unknown
      and the hub appended to its list if no hub there has its full address. */
  function WithStationaryHub(subdomains: map<Str, SubdomainInfo>, hub: NodeAddress): map<Str, SubdomainInfo>
  {
    var info := if hub.subdomain in subdomains then subdomains[hub.subdomain] else NewSubdomainInfo;
    subdomains[hub.subdomain := info.(stationaryHubs := WithHub(info.stationaryHubs, hub))]
  }

  /** The hubs recorded for a subdomain, none if it is unknown. */
  function HubsOf(subdomains: map<Str, SubdomainInfo>, target: Str): seq<NodeAddress>
  {
    if target in subdomains then subdomains[target].stationaryHubs else []
  }

  /** Every subdomain's hubs are distinct and belong to that subdomain. */
  predicate HubsWellFormed(subdomains: map<Str, SubdomainInfo>)
  {
    forall s :: s in subdomains ==>
      DistinctHubs(subdomains[s].stationaryHubs)
      && forall i :: 0 <= i < |subdomains[s].stationaryHubs| ==> subdomains[s].stationaryHubs[i].subdomain == s
  }

  /** Adding a hub keeps every subdomain's hubs distinct and in that subdomain, records the hub
      under its subdomain, and leaves the other subdomains alone. */
  lemma WithStationaryHubWellFormed(subdomains: map<Str, SubdomainInfo>, hub: NodeAddress)
    requires HubsWellFormed(subdomains)
    ensures var r := WithStationaryHub(subdomains, hub);
      HubsWellFormed(r) && HasHub(HubsOf(r, hub.subdomain), hub)
      && forall s :: s in subdomains && s != hub.subdomain ==> s in r && r[s] == subdomains[s]
  {
    var r := WithStationaryHub(subdomains, hub);
    var info := if hub.subdomain in subdomains then subdomains[hub.subdomain] else NewSubdomainInfo;
    var hubs := WithHub(info.stationaryHubs, hub);
    assert r[hub.subdomain].stationaryHubs == hubs;
    forall i | 0 <= i < |hubs| ensures hubs[i].subdomain == hub.subdomain {
      if i < |info.stationaryHubs| { assert hubs[i] == info.stationaryHubs[i]; }
    }
  }

  /** Adding the same hub twice is adding it once. */
  lemma WithStationaryHubIdempotent(subdomains: map<Str, SubdomainInfo>, hub: NodeAddress)
    ensures WithStationaryHub(WithStationaryHub(subdomains, hub), hub) == WithStationaryHub(subdomains, hub)
  {
    var info := if hub.subdomain in subdomains then subdomains[hub.subdomain] else NewSubdomainInfo;
    WithHubIdempotent(info.stationaryHubs, hub);
  }

  /** The hubs of `hubs`, in order, that have a usable route: what `findSubdomainHelpers` collects. */
  function RoutedHubs(hubs: seq<NodeAddress>, table: RouteTable, status: NodeStatus, now: u32): seq<NodeAddress>
  {
    if hubs == [] then []
    else
      var last := hubs[|hubs| - 1];
      RoutedHubs(hubs[..|hubs| - 1], table, status, now)
      + (if LookupRoute(table, last, status, now).Some? then [last] else [])
  }

  /** A helper is exactly a hub with a route. */
  lemma {:induction false} RoutedHubsMembers(hubs: seq<NodeAddress>, table: RouteTable, status: NodeStatus, now: u32)
    ensures forall h :: h in RoutedHubs(hubs, table, status, now) <==> h in hubs && LookupRoute(table, h, status, now).Some?
  {
    if hubs != [] {
      RoutedHubsMembers(hubs[..|hubs| - 1], table, status, now);
      assert hubs == hubs[..|hubs| - 1] + [hubs[|hubs| - 1]];
    }
  }

  // ---------------------------------------------------------------------------
  // Bridges
  // ---------------------------------------------------------------------------

  /** An entry records the bridge between a and b, in either order. */
  predicate SameBridge(e: IntermediaryEntry, a: NodeAddress, b: NodeAddress)
  {
    (FullAddress(e.nodeA) == FullAddress(a) && FullAddress(e.nodeB) == FullAddress(b))
    || (FullAddress(e.nodeA) == FullAddress(b) && FullAddress(e.nodeB) == FullAddress(a))
  }

  /** No two entries record the same unordered pair. */
  predicate DistinctBridges(memory: seq<IntermediaryEntry>)
  {
    forall i, j :: 0 <= i < j < |memory| ==> !SameBridge(memory[i], memory[j].nodeA, memory[j].nodeB)
  }

  /** The position of the first entry recording the bridge between a and b. */
  function BridgeIndex(memory: seq<IntermediaryEntry>, a: NodeAddress, b: NodeAddress): (r: Option<nat>)
    ensures r.Some? ==> r.value < |memory| && SameBridge(memory[r.value], a, b)
                        && forall i :: 0 <= i < r.value ==> !SameBridge(memory[i], a, b)
    ensures r.None? ==> forall i :: 0 <= i < |memory| ==> !SameBridge(memory[i], a, b)
  {
    if memory == [] then None
    else if SameBridge(memory[0], a, b) then Some(0)
    else match BridgeIndex(memory[1..], a, b)
      case None => None
      case Some(i) => Some(i + 1)
  }

  /** The bridge memory after `recordBridge`: the first matching entry is refreshed, its count
      incremented (a 16-bit counter) and marked active; otherwise a new entry with count 1 is appended. */
  function WithBridge(memory: seq<IntermediaryEntry>, a: NodeAddress, b: NodeAddress, now: u32)
    : (r: seq<IntermediaryEntry>)
    ensures BridgeIndex(memory, a, b).Some? ==> |r| == |memory|
    ensures BridgeIndex(memory, a, b).None? ==> |r| == |memory| + 1
    ensures BridgeIndex(memory, a, b).Some? ==>
      var i := BridgeIndex(memory, a, b).value;
      r[i] == memory[i].(lastBridged := now, bridgeCount := Inc16(memory[i].bridgeCount), isActive := true)
      && forall j :: 0 <= j < |r| && j != i ==> r[j] == memory[j]
    ensures BridgeIndex(memory, a, b).None? ==> r == memory + [IntermediaryEntry(a, b, now, 1, true)]
  {
    match BridgeIndex(memory, a, b)
    case Some(i) =>
      memory[i := memory[i].(lastBridged := now, bridgeCount := Inc16(memory[i].bridgeCount), isActive := true)]
    case None =>
      memory + [IntermediaryEntry(a, b, now, 1, true)]
  }

  lemma SameBridgeSymmetric(e: IntermediaryEntry, a: NodeAddress, b: NodeAddress)
    ensures SameBridge(e, a, b) <==> SameBridge(e, b, a)
  {
  }

  /** (a, b) and (b, a) find the same entry. */
  lemma {:induction false} BridgeIndexSymmetric(memory: seq<IntermediaryEntry>, a: NodeAddress, b: NodeAddress)
    ensures BridgeIndex(memory, a, b) == BridgeIndex(memory, b, a)
  {
    if memory != [] {
      SameBridgeSymmetric(memory[0], a, b);
      BridgeIndexSymmetric(memory[1..], a, b);
    }
  }

  /** Recording a known bridge in the other direction updates the same entry in the same way. */
  lemma WithBridgeSymmetric(memory: seq<IntermediaryEntry>, a: NodeAddress, b: NodeAddress, now: u32)
    requires BridgeIndex(memory, a, b).Some?
    ensures WithBridge(memory, a, b, now) == WithBridge(memory, b, a, now)
  {
    BridgeIndexSymmetric(memory, a, b);
  }

  /** Recording never creates a second entry for one pair. */
  lemma WithBridgeDistinct(memory: seq<IntermediaryEntry>, a: NodeAddress, b: NodeAddress, now: u32)
    requires DistinctBridges(memory)
    ensures DistinctBridges(WithBridge(memory, a, b, now))
  {
    var r := WithBridge(memory, a, b, now);
    match BridgeIndex(memory, a, b)
    case Some(k) =>
      forall i, j | 0 <= i < j < |r| ensures !SameBridge(r[i], r[j].nodeA, r[j].nodeB) {
        assert r[i].nodeA == memory[i].nodeA && r[i].nodeB == memory[i].nodeB;
        assert r[j].nodeA == memory[j].nodeA && r[j].nodeB == memory[j].nodeB;
      }
    case None =>
      forall i, j | 0 <= i < j < |r| ensures !SameBridge(r[i], r[j].nodeA, r[j].nodeB) {
        if j == |memory| {
          assert !SameBridge(memory[i], a, b);
        }
      }
  }

  /** Recording (a, b) and then (b, a) leaves one entry for the pair, bridged at least twice
      unless the 16-bit counter wrapped. */
  lemma RecordedBothWays(memory: seq<IntermediaryEntry>, a: NodeAddress, b: NodeAddress, t1: u32, t2: u32)
    requires BridgeIndex(memory, a, b).None?
    ensures var m := WithBridge(WithBridge(memory, a, b, t1), b, a, t2);
      |m| == |memory| + 1 && m[|memory|] == IntermediaryEntry(a, b, t2, 2, true)
  {
    var m1 := WithBridge(memory, a, b, t1);
    assert SameBridge(m1[|memory|], b, a);
    assert BridgeIndex(m1, b, a) == Some(|memory|) by {
      forall i | 0 <= i < |memory| ensures !SameBridge(m1[i], b, a) {
        SameBridgeSymmetric(memory[i], a, b);
      }
      BridgeIndexFirst(m1, b, a, |memory|);
    }
  }

  /** The first matching position is the one `BridgeIndex` reports. */
  lemma {:induction false} BridgeIndexFirst(memory: seq<IntermediaryEntry>, a: NodeAddress, b: NodeAddress, k: nat)
    requires k < |memory| && SameBridge(memory[k], a, b)
    requires forall i :: 0 <= i < k ==> !SameBridge(memory[i], a, b)
    ensures BridgeIndex(memory, a, b) == Some(k)
  {
    if k > 0 {
      BridgeIndexFirst(memory[1..], a, b, k - 1);
    }
  }

  // ---------------------------------------------------------------------------
  // Packet predicates
  // ---------------------------------------------------------------------------

  /** `isValidPacket`. */
  predicate IsValidPacket(p: MessagePacket)
  {
    IsValidAddress(p.source) && p.header.protocolVersion == ProtocolVersion
    && p.header.payloadLength <= MaxPayloadSize
  }

  /** `isPacketForUs`: addressed to us, a broadcast, or a broadcast to our subdomain. */
  predicate IsPacketForUs(p: MessagePacket, own: NodeAddress)
  {
    FullAddress(p.destination) == FullAddress(own)
    || (p.destination.nodeId == [] && p.destination.subdomain == [])
    || (p.destination.nodeId == [] && p.destination.subdomain == own.subdomain)
  }

  /** A packet naming another node is not for us; the empty address reaches every node. */
  lemma DeliveryCases(p: MessagePacket, own: NodeAddress)
    ensures p.destination == EmptyAddress ==> IsPacketForUs(p, own)
    ensures p.destination.nodeId != [] && NoAt(p.destination.nodeId) && NoAt(own.nodeId)
            && (p.destination.nodeId != own.nodeId || p.destination.subdomain != own.subdomain)
            ==> !IsPacketForUs(p, own)
  {
    if p.destination.nodeId != [] && NoAt(p.destination.nodeId) && NoAt(own.nodeId)
       && FullAddress(p.destination) == FullAddress(own) {
      FullAddressInjective(p.destination, own);
    }
  }

  /** The packet with our id pushed into the path history. */
  function WithOwnHop(p: MessagePacket, own: NodeAddress): MessagePacket
  {
    p.(header := PathShift(p.header, own.uuid.bytes[0]))
  }

  /** `isInPathHistory` as a set membership test. */
  predicate InPathHistory(h: MessageHeader, id: byte)
  {
    id in h.pathHistory
  }

  /** Loop prevention: a node that has handled a packet finds itself in its path history. */
  lemma OwnHopRecorded(p: MessagePacket, own: NodeAddress)
    ensures InPathHistory(WithOwnHop(p, own).header, own.uuid.bytes[0])
    ensures forall id :: InPathHistory(p.header, id) && id != p.header.pathHistory[2]
                         ==> InPathHistory(WithOwnHop(p, own).header, id)
  {
  }

  /** The copy handed to the send callback: the header's checksum stamped over its final fields. */
  function Stamped(p: MessagePacket): (q: MessagePacket)
    ensures ValidateChecksum(q.header)
    ensures q.(header := p.header) == p && q.header.(checksum := p.header.checksum) == p.header
  {
    p.(header := Stamp(p.header))
  }

  /** Two packets carry the same message: they differ at most in routing flags, hop count,
      path history and checksum. */
  predicate SameMessage(p: MessagePacket, q: MessagePacket)
  {
    q.source == p.source && q.destination == p.destination && q.payload == p.payload
    && q.header.(routingFlags := p.header.routingFlags, hopCount := p.header.hopCount,
                 pathHistory := p.header.pathHistory, checksum := p.header.checksum) == p.header
  }

  /** A transmission of the message `p` with flag `flag`, under a stamped checksum. */
  predicate AttemptOf(t: Transmission, p: MessagePacket, flag: u8)
  {
    t.packet.header.routingFlags == flag && ValidateChecksum(t.packet.header)
    && t.packet.source == p.source && t.packet.payload == p.payload
    && t.packet.header.messageId == p.header.messageId && t.packet.header.messageType == p.header.messageType
    && t.packet.header.payloadLength == p.header.payloadLength && t.packet.header.priority == p.header.priority
  }

  lemma AttemptOfSameMessage(t: Transmission, p: MessagePacket, q: MessagePacket, flag: u8)
    requires SameMessage(p, q) && AttemptOf(t, q, flag)
    ensures AttemptOf(t, p, flag)
  {
  }

  /** Carrying the same message is transitive. */
  lemma SameMessageTransitive(p: MessagePacket, q: MessagePacket, r: MessagePacket)
    requires SameMessage(p, q) && SameMessage(q, r)
    ensures SameMessage(p, r)
  {
  }

  /** Attempts of the direct or the flood strategy: the message under that flag, to its destination. */
  predicate Addressed(a: seq<Transmission>, p: MessagePacket, flag: u8)
  {
    forall t :: t in a ==> AttemptOf(t, p, flag) && t.packet.destination == p.destination
  }

  /** Attempts of the subdomain strategy: the message as SUBDOMAIN_RETRY, each to one of `hubs`. */
  predicate SentToHubs(a: seq<Transmission>, p: MessagePacket, hubs: seq<NodeAddress>)
  {
    forall t :: t in a ==> AttemptOf(t, p, RouteSubdomainRetry) && t.packet.destination in hubs
  }

  /** Subdomain attempts each addressed to one of `hubs` that has a route. */
  predicate HubAttempts(a: seq<Transmission>, p: MessagePacket, hubs: seq<NodeAddress>,
                        table: RouteTable, status: NodeStatus, now: u32)
  {
    SentToHubs(a, p, hubs) && forall t :: t in a ==> LookupRoute(table, t.packet.destination, status, now).Some?
  }

  /** No transmission in `a` was accepted. */
  predicate NoneAccepted(a: seq<Transmission>)
  {
    forall i :: 0 <= i < |a| ==> !a[i].accepted
  }

  /** Only the last transmission may have been accepted, and the outcome is whether it was. */
  predicate StopsAtFirstSuccess(a: seq<Transmission>, ok: bool)
  {
    (ok <==> |a| > 0 && a[|a| - 1].accepted)
    && forall i :: 0 <= i < |a| - 1 ==> !a[i].accepted
  }

  /** Routing flags never decrease along the attempts, and only subdomain attempts repeat a flag. */
  predicate StrategyOrder(a: seq<Transmission>)
  {
    forall i, j :: 0 <= i < j < |a| ==>
      a[i].packet.header.routingFlags < a[j].packet.header.routingFlags
      || a[i].packet.header.routingFlags == a[j].packet.header.routingFlags == RouteSubdomainRetry
  }

  /** An attempt under one of the three strategy flags, carrying the message to the address that
      strategy uses: the destination, or one of `hubs` for the subdomain strategy. */
  predicate FlaggedAttempt(t: Transmission, p: MessagePacket, hubs: seq<NodeAddress>)
  {
    AttemptOf(t, p, t.packet.header.routingFlags)
    && t.packet.header.routingFlags in {RouteDirect, RouteSubdomainRetry, RouteFlood}
    && (t.packet.header.routingFlags == RouteSubdomainRetry ==> t.packet.destination in hubs)
    && (t.packet.header.routingFlags != RouteSubdomainRetry ==> t.packet.destination == p.destination)
  }

  /** What `routeMessage` promises of the attempts `a` it makes for the message `p`: they stop at
      their first success, go direct, then subdomain, then flood, each carries the message under
      its strategy's flag and address, the subdomain strategy is skipped inside our own subdomain,
      and with a send callback a failure always ends in a flood attempt. */
  predicate RoutedInOrder(a: seq<Transmission>, ok: bool, p: MessagePacket, hubs: seq<NodeAddress>,
                          sameSubdomain: bool, callback: bool)
  {
    StopsAtFirstSuccess(a, ok) && StrategyOrder(a)
    && (forall t :: t in a ==> FlaggedAttempt(t, p, hubs))
    && (sameSubdomain ==> forall t :: t in a ==> t.packet.header.routingFlags != RouteSubdomainRetry)
    && (callback && !ok ==> |a| > 0 && a[|a| - 1].packet.header.routingFlags == RouteFlood)
  }

  /** The attempts after a failed direct send: routed in order, and none of them direct. */
  predicate FallbackInOrder(a: seq<Transmission>, ok: bool, p: MessagePacket, hubs: seq<NodeAddress>,
                            sameSubdomain: bool)
  {
    RoutedInOrder(a, ok, p, hubs, sameSubdomain, true)
    && forall t :: t in a ==> t.packet.header.routingFlags != RouteDirect
  }

  /** The helpers `routeMessage` tries for `destination`: none inside our own subdomain, and
      otherwise the routed hubs of the destination's subdomain, in hub order. */
  function HelpersFor(subdomains: map<Str, SubdomainInfo>, table: RouteTable, destination: NodeAddress,
                      own: NodeAddress, status: NodeStatus, now: u32): seq<NodeAddress>
  {
    if destination.subdomain == own.subdomain then []
    else RoutedHubs(HubsOf(subdomains, destination.subdomain), table, status, now)
  }

  /** Subdomain attempts set against the helpers: addressed to them in order, and every one of
      them tried unless one accepted. */
  predicate HubsTried(a: seq<Transmission>, ok: bool, helpers: seq<NodeAddress>)
  {
    |a| <= |helpers| && (forall i :: 0 <= i < |a| ==> a[i].packet.destination == helpers[i])
    && (!ok ==> |a| == |helpers|)
  }

  /** The attempts of `routeMessage` set against the routing table: one direct attempt exactly
      when `direct` (the destination has a usable route), then one subdomain attempt per helper
      in order, then one flood attempt; only an accepted send ends the run early. */
  predicate TriedInTurn(a: seq<Transmission>, ok: bool, direct: bool, helpers: seq<NodeAddress>)
  {
    var k := if direct then 1 else 0;
    k <= |a| <= k + |helpers| + 1
    && (direct ==> a[0].packet.header.routingFlags == RouteDirect)
    && (forall i :: k <= i < |a| && i < k + |helpers| ==>
          a[i].packet.header.routingFlags == RouteSubdomainRetry && a[i].packet.destination == helpers[i - k])
    && (|a| == k + |helpers| + 1 ==> a[|a| - 1].packet.header.routingFlags == RouteFlood)
    && (!ok ==> |a| == k + |helpers| + 1)
  }

  /** Read back from `TriedInTurn`: the first attempt is direct exactly when a route exists, there
      is no subdomain attempt without helpers, and a run that fails has tried every strategy. */
  lemma TriedInTurnShape(a: seq<Transmission>, ok: bool, direct: bool, helpers: seq<NodeAddress>)
    requires TriedInTurn(a, ok, direct, helpers)
    ensures direct <==> |a| > 0 && a[0].packet.header.routingFlags == RouteDirect
    ensures helpers == [] ==> forall t :: t in a ==> t.packet.header.routingFlags != RouteSubdomainRetry
    ensures !ok ==> |a| == (if direct then 1 else 0) + |helpers| + 1
                    && a[|a| - 1].packet.header.routingFlags == RouteFlood
  {
    var k := if direct then 1 else 0;
    if !direct && |a| > 0 && |helpers| == 0 {
      assert |a| == k + |helpers| + 1;
    }
    if helpers == [] {
      forall t | t in a ensures t.packet.header.routingFlags != RouteSubdomainRetry {
        var i :| 0 <= i < |a| && a[i] == t;
        if i >= k {
          assert |a| == k + 1;
        }
      }
    }
  }

  /** Subdomain attempts to the helpers, followed by a flood attempt when none was accepted,
      are tried in turn. */
  lemma FallbackTried(s: seq<Transmission>, sentOk: bool, f: seq<Transmission>, ok: bool, helpers: seq<NodeAddress>)
    requires HubsTried(s, sentOk, helpers)
    requires forall t :: t in s ==> t.packet.header.routingFlags == RouteSubdomainRetry
    requires sentOk ==> f == [] && ok
    requires !sentOk ==> |f| == 1 && f[0].packet.header.routingFlags == RouteFlood
    ensures TriedInTurn(s + f, ok, false, helpers)
  {
    var a := s + f;
    forall i | 0 <= i < |a| && i < |helpers|
      ensures a[i].packet.header.routingFlags == RouteSubdomainRetry && a[i].packet.destination == helpers[i]
    {
      assert i < |s| && a[i] == s[i] && s[i] in s;
    }
    if !sentOk {
      assert a[|a| - 1] == f[0];
    }
  }

  /** One more subdomain attempt, to the next helper, keeps the attempts addressed in helper order. */
  lemma HubsTriedExtend(a: seq<Transmission>, b: seq<Transmission>, helpers: seq<NodeAddress>)
    requires |a| < |helpers| && forall j :: 0 <= j < |a| ==> a[j].packet.destination == helpers[j]
    requires |b| == |a| + 1 && b[..|a|] == a && b[|a|].packet.destination == helpers[|a|]
    ensures forall j :: 0 <= j < |b| ==> b[j].packet.destination == helpers[j]
  {
    forall j | 0 <= j < |b| ensures b[j].packet.destination == helpers[j] {
      if j < |a| {
        assert b[j] == b[..|a|][j];
      }
    }
  }

  /** A direct attempt (one exactly when `direct`) before attempts tried in turn without one. */
  lemma DirectThenTried(d: seq<Transmission>, rest: seq<Transmission>, ok: bool, direct: bool, helpers: seq<NodeAddress>)
    requires |d| == (if direct then 1 else 0)
    requires forall t :: t in d ==> t.packet.header.routingFlags == RouteDirect
    requires TriedInTurn(rest, ok, false, helpers)
    ensures TriedInTurn(d + rest, ok, direct, helpers)
  {
    var a := d + rest;
    var k := |d|;
    if direct {
      assert a[0] == d[0] && d[0] in d;
    }
    forall i | k <= i < |a| && i < k + |helpers|
      ensures a[i].packet.header.routingFlags == RouteSubdomainRetry && a[i].packet.destination == helpers[i - k]
    {
      assert a[i] == rest[i - k];
    }
    if |a| == k + |helpers| + 1 {
      assert a[|a| - 1] == rest[|rest| - 1];
    }
  }

  /** Failed attempts followed by attempts that stop at their first success stop at it as a whole. */
  lemma StopsCompose(a: seq<Transmission>, b: seq<Transmission>, ok: bool)
    requires NoneAccepted(a) && StopsAtFirstSuccess(b, ok)
    ensures StopsAtFirstSuccess(a + b, ok)
  {
    if b == [] {
      assert a + b == a;
    } else {
      assert (a + b)[|a + b| - 1] == b[|b| - 1];
      forall i | 0 <= i < |a + b| - 1 ensures !(a + b)[i].accepted {
        if i >= |a| { assert (a + b)[i] == b[i - |a|]; }
      }
    }
  }

  /** One more subdomain attempt, sent to a routed hub, extends the attempts so far. */
  lemma HubAttemptAppended(a: seq<Transmission>, p: MessagePacket, q0: MessagePacket, q: MessagePacket,
                           accepted: bool, hubs: seq<NodeAddress>, table: RouteTable, status: NodeStatus, now: u32)
    requires NoneAccepted(a) && HubAttempts(a, p, hubs, table, status, now)
    requires SameMessage(p, q0) && q.header.routingFlags == RouteSubdomainRetry
    requires q.source == q0.source && q.payload == q0.payload
    requires q.header.(routingFlags := q0.header.routingFlags, pathHistory := q0.header.pathHistory) == q0.header
    requires q.destination in hubs && LookupRoute(table, q.destination, status, now).Some?
    ensures HubAttempts(a + [Transmission(Stamped(q), accepted)], p, hubs, table, status, now)
    ensures !accepted ==> NoneAccepted(a + [Transmission(Stamped(q), accepted)])
    ensures accepted ==> StopsAtFirstSuccess(a + [Transmission(Stamped(q), accepted)], true)
  {
    var b := a + [Transmission(Stamped(q), accepted)];
    forall t | t in b
      ensures AttemptOf(t, p, RouteSubdomainRetry) && t.packet.destination in hubs
              && LookupRoute(table, t.packet.destination, status, now).Some?
    {
      if t !in a {
        assert t == Transmission(Stamped(q), accepted);
      }
    }
    forall i | 0 <= i < |b| - 1 ensures !b[i].accepted {
      assert b[i] == a[i];
    }
  }

  /** Subdomain attempts for a copy of the message are attempts for the message itself. */
  lemma SubdomainAttemptsOf(s: seq<Transmission>, p: MessagePacket, q: MessagePacket, hubs: seq<NodeAddress>,
                            table: RouteTable, status: NodeStatus, now: u32)
    requires SameMessage(p, q) && HubAttempts(s, q, hubs, table, status, now)
    ensures SentToHubs(s, p, hubs)
  {
    forall t | t in s ensures AttemptOf(t, p, RouteSubdomainRetry) {
      AttemptOfSameMessage(t, p, q, RouteSubdomainRetry);
    }
  }

  /** The stamped copy of a flood packet for the message is a flood attempt for it. */
  lemma FloodAttempt(p: MessagePacket, q: MessagePacket, accepted: bool)
    requires SameMessage(p, q) && q.header.routingFlags == RouteFlood
    ensures Addressed([Transmission(Stamped(q), accepted)], p, RouteFlood)
  {
    assert AttemptOf(Transmission(Stamped(q), accepted), p, RouteFlood);
  }

  /** Subdomain attempts of which the last succeeded are a fallback in order. */
  lemma SubdomainRouted(s: seq<Transmission>, p: MessagePacket, hubs: seq<NodeAddress>, sameSubdomain: bool)
    requires SentToHubs(s, p, hubs) && StopsAtFirstSuccess(s, true)
    requires sameSubdomain ==> s == []
    ensures FallbackInOrder(s, true, p, hubs, sameSubdomain)
  {
  }

  /** Failed subdomain attempts followed by one flood attempt are a fallback in order. */
  lemma ComposeFallback(s: seq<Transmission>, f: seq<Transmission>, ok: bool, p: MessagePacket,
                        hubs: seq<NodeAddress>, sameSubdomain: bool)
    requires SentToHubs(s, p, hubs) && StopsAtFirstSuccess(s, false)
    requires |f| == 1 && f[0].accepted == ok && Addressed(f, p, RouteFlood)
    requires sameSubdomain ==> s == []
    ensures FallbackInOrder(s + f, ok, p, hubs, sameSubdomain)
  {
    var a := s + f;
    StopsCompose(s, f, ok);
    forall i | 0 <= i < |a|
      ensures a[i] in s || a[i] == f[0]
      ensures a[i].packet.header.routingFlags == if i < |s| then RouteSubdomainRetry else RouteFlood
    {
      if i < |s| { assert a[i] == s[i]; } else { assert a[i] == f[0]; }
    }
    assert a[|a| - 1] == f[0];
    if sameSubdomain {
      assert a == f;
    }
  }

  /** A direct attempt that succeeded routes in order, and is tried in turn whatever the helpers. */
  lemma DirectRouted(d: seq<Transmission>, p: MessagePacket, hubs: seq<NodeAddress>, sameSubdomain: bool,
                     helpers: seq<NodeAddress>)
    requires |d| <= 1 && Addressed(d, p, RouteDirect) && StopsAtFirstSuccess(d, true)
    ensures RoutedInOrder(d, true, p, hubs, sameSubdomain, true)
    ensures TriedInTurn(d, true, true, helpers)
  {
    assert d[0] in d;
  }

  /** A direct attempt that failed, followed by a fallback in order, routes in order. */
  lemma ComposeRoute(d: seq<Transmission>, rest: seq<Transmission>, ok: bool,
                     p: MessagePacket, hubs: seq<NodeAddress>, sameSubdomain: bool)
    requires |d| <= 1 && Addressed(d, p, RouteDirect) && StopsAtFirstSuccess(d, false)
    requires FallbackInOrder(rest, ok, p, hubs, sameSubdomain)
    ensures RoutedInOrder(d + rest, ok, p, hubs, sameSubdomain, true)
  {
    var a := d + rest;
    StopsCompose(d, rest, ok);
    assert rest != [] && a[|a| - 1] == rest[|rest| - 1];
    forall i, j | 0 <= i < j < |a|
      ensures a[i].packet.header.routingFlags < a[j].packet.header.routingFlags
              || a[i].packet.header.routingFlags == a[j].packet.header.routingFlags == RouteSubdomainRetry
    {
      assert a[j] == rest[j - |d|] && a[j] in rest;
      if i >= |d| {
        assert a[i] == rest[i - |d|];
      } else {
        assert a[i] == d[i];
      }
    }
  }

  /** The copy a relay sends on: the hop count one higher (as a `uint8_t`) and our hop recorded. */
  function ForwardCopy(p: MessagePacket, own: NodeAddress): MessagePacket
  {
    WithOwnHop(p.(header := p.header.(hopCount := (p.header.hopCount + 1) % 0x100)), own)
  }

  /** A packet that passed the hop limit is relayed with exactly one more hop, the same message,
      and our id in its path history. */
  lemma ForwardCopyHop(p: MessagePacket, own: NodeAddress)
    requires p.header.hopCount < p.header.maxHops
    ensures ForwardCopy(p, own).header.hopCount == p.header.hopCount + 1
    ensures SameMessage(p, ForwardCopy(p, own)) && ForwardCopy(p, own).header.routingFlags == p.header.routingFlags
    ensures InPathHistory(ForwardCopy(p, own).header, own.uuid.bytes[0])
  {
  }

  /** The packets a relay never sends on: those that already passed it, and those out of hops. */
  predicate MustDrop(p: MessagePacket, own: NodeAddress)
  {
    InPathHistory(p.header, own.uuid.bytes[0]) || p.header.hopCount >= p.header.maxHops
  }

  /** Whether `shouldForwardPacket` tries the hub relay for a packet that is not for us. */
  predicate TriesHub(p: MessagePacket, own: NodeAddress, status: NodeStatus, table: RouteTable, now: u32, hasCallback: bool)
  {
    hasCallback && !MustDrop(p, own) && HubRelays(p, own, status, table, now)
  }

  /** Whether `shouldForwardPacket` may flood a packet that is not for us. */
  predicate TriesFlood(p: MessagePacket, own: NodeAddress, hasCallback: bool)
  {
    hasCallback && !MustDrop(p, own) && HasFlag(p.header.routingFlags, RouteFlood)
  }

  /** The hub relay was tried and accepted: the first copy sent is the accepted hub copy. */
  predicate Bridged(sent: seq<Transmission>, p: MessagePacket, own: NodeAddress, status: NodeStatus,
                    table: RouteTable, now: u32, hasCallback: bool)
  {
    TriesHub(p, own, status, table, now, hasCallback) && |sent| > 0 && sent[0].accepted
  }

  /** What the forwarding decision sends for a packet that is not for us: one hub copy when the
      hub relay applies, then one flood copy for a FLOOD packet unless the hub copy was accepted;
      every copy is the relayed packet, and it reports success iff one was accepted. */
  predicate Forwarded(sent: seq<Transmission>, p: MessagePacket, own: NodeAddress, status: NodeStatus,
                      table: RouteTable, now: u32, hasCallback: bool, r: bool)
  {
    |sent| == (if TriesHub(p, own, status, table, now, hasCallback) then 1 else 0)
              + (if TriesFlood(p, own, hasCallback) && !Bridged(sent, p, own, status, table, now, hasCallback) then 1 else 0)
    && (forall t :: t in sent ==> t.packet == Stamped(ForwardCopy(p, own)))
    && (r <==> exists t :: t in sent && t.accepted)
  }

  /** The cases of the forwarding outcome: nothing is sent for a packet that must be dropped or
      without a callback; a FLOOD packet that the hub case does not cover is relayed exactly once;
      a hub relay that is accepted is not followed by a flood copy. */
  lemma ForwardedCases(sent: seq<Transmission>, p: MessagePacket, own: NodeAddress, status: NodeStatus,
                       table: RouteTable, now: u32, hasCallback: bool, r: bool)
    requires Forwarded(sent, p, own, status, table, now, hasCallback, r)
    ensures !hasCallback || MustDrop(p, own) ==> sent == [] && !r
    ensures TriesFlood(p, own, hasCallback) && !TriesHub(p, own, status, table, now, hasCallback) ==>
              |sent| == 1 && (r <==> sent[0].accepted)
    ensures TriesHub(p, own, status, table, now, hasCallback) ==>
              |sent| >= 1 && (sent[0].accepted ==> |sent| == 1 && r)
  {
    if |sent| == 1 {
      assert sent[0] in sent;
    }
    if r {
      var t :| t in sent && t.accepted;
    }
  }

  /** The outcome of `shouldForwardPacket`, its hub copy and its flood copy taken together. */
  lemma ForwardOutcome(viaHub: seq<Transmission>, viaFlood: seq<Transmission>, p: MessagePacket,
                       own: NodeAddress, status: NodeStatus, table: RouteTable, now: u32, r: bool, hasCallback: bool)
    requires forall i :: 0 <= i < |viaHub| ==> viaHub[i].packet == Stamped(ForwardCopy(p, own))
    requires forall i :: 0 <= i < |viaFlood| ==> viaFlood[i].packet == Stamped(ForwardCopy(p, own))
    requires |viaHub| == if TriesHub(p, own, status, table, now, hasCallback) then 1 else 0
    requires |viaFlood| == if TriesFlood(p, own, hasCallback) && !(|viaHub| == 1 && viaHub[0].accepted) then 1 else 0
    requires r <==> (|viaHub| == 1 && viaHub[0].accepted) || (|viaFlood| == 1 && viaFlood[0].accepted)
    ensures Forwarded(viaHub + viaFlood, p, own, status, table, now, hasCallback, r)
    ensures Bridged(viaHub + viaFlood, p, own, status, table, now, hasCallback) <==> |viaHub| == 1 && viaHub[0].accepted
  {
    var sent := viaHub + viaFlood;
    if |viaHub| == 1 {
      assert sent[0] == viaHub[0];
    }
    if r {
      if |viaHub| == 1 && viaHub[0].accepted {
        assert sent[0] == viaHub[0];
      } else {
        assert sent[|viaHub|] == viaFlood[0];
      }
    }
    forall t | t in sent
      ensures t.packet == Stamped(ForwardCopy(p, own))
    {
      var i :| 0 <= i < |sent| && sent[i] == t;
      if i < |viaHub| { assert t == viaHub[i]; } else { assert t == viaFlood[i - |viaHub|]; }
    }
  }

  /** What handling a packet for us sends: one ACK to its sender for a DATA packet when a send
      callback is set, and nothing otherwise. */
  predicate Acknowledged(before: seq<Transmission>, after: seq<Transmission>, p: MessagePacket, own: NodeAddress,
                         now: u32, sequence: u16, hasCallback: bool)
  {
    if p.header.messageType == MsgData && hasCallback then
      |after| == |before| + 1 && after[..|before|] == before
      && after[|before|].packet == CreateAckPacket(own, p.source, p.header.messageId, now, sequence)
    else after == before
  }

  /** A relayed copy is dropped when it comes back to the same node: forwarding cannot loop through it. */
  lemma ForwardedCopyNotForwardedAgain(p: MessagePacket, own: NodeAddress)
    ensures MustDrop(ForwardCopy(p, own), own)
  {
  }

  /** The hub case of `shouldForwardPacket`: a stationary node relays SUBDOMAIN_RETRY packets
      for its own subdomain to a destination it has a route to. */
  predicate HubRelays(p: MessagePacket, own: NodeAddress, status: NodeStatus, table: RouteTable, now: u32)
  {
    status == Stationary && p.destination.subdomain == own.subdomain
    && HasFlag(p.header.routingFlags, RouteSubdomainRetry)
    && LookupRoute(table, p.destination, status, now).Some?
  }

  /** The smallest gap between heartbeats: 3 s during the first minute of uptime, then 15 s for a
      stationary node and 30 s for a mobile one. */
  function HeartbeatInterval(now: u32, status: NodeStatus): (d: u32)
    ensures 3000 <= d <= HeartbeatMobile
    ensures now < 60000 ==> d == 3000
    ensures now >= 60000 && status == Stationary ==> d == HeartbeatStationary
    ensures now >= 60000 && status != Stationary ==> d == HeartbeatMobile
  {
    if now < 60000 then 3000 else if status == Stationary then HeartbeatStationary else HeartbeatMobile
  }

  /** A stationary node never waits longer between heartbeats than a mobile one. */
  lemma StationaryBeatsMoreOften(now: u32)
    ensures HeartbeatInterval(now, Stationary) <= HeartbeatInterval(now, Mobile)
    ensures now >= 60000 ==> HeartbeatInterval(now, Stationary) < HeartbeatInterval(now, Mobile)
  {
  }

  /** What one `sendHeartbeat` call does to the send log and to the time of the last heartbeat:
      nothing before the interval has elapsed or without a send callback; otherwise one heartbeat
      is sent, and its time is kept iff the send was accepted. */
  predicate HeartbeatAttempt(before: seq<Transmission>, after: seq<Transmission>, last0: u32, last1: u32,
                             now: u32, status: NodeStatus, hasCallback: bool, own: NodeAddress, json: Str, sequence: u16)
  {
    if Elapsed(now, last0) < HeartbeatInterval(now, status) || !hasCallback then
      after == before && last1 == last0
    else
      |after| == |before| + 1 && after[..|before|] == before
      && after[|before|].packet == CreateHeartbeatPacket(own, json, now, sequence)
      && last1 == if after[|before|].accepted then now else last0
  }

  /** An accepted heartbeat holds back any further one at the same instant: a second attempt
      right after it sends nothing. */
  lemma HeartbeatHoldsBackNext(b0: seq<Transmission>, b1: seq<Transmission>, b2: seq<Transmission>,
                               l0: u32, l1: u32, l2: u32, now: u32, status: NodeStatus, hasCallback: bool,
                               own: NodeAddress, json: Str, sequence: u16, json2: Str, sequence2: u16)
    requires HeartbeatAttempt(b0, b1, l0, l1, now, status, hasCallback, own, json, sequence)
    requires HeartbeatAttempt(b1, b2, l1, l2, now, status, hasCallback, own, json2, sequence2)
    requires |b1| > |b0| && b1[|b0|].accepted
    ensures b2 == b1 && l2 == l1 == now
  {
    assert l1 == now;
    assert Elapsed(now, l1) == 0;
  }

  /** The route learnt by `updatePathFromPacket` from a packet heard directly: a one-hop route
      to the sender through the sender, then scored as a success at signal `rssi`. */
  function LearnedRoutes(table: RouteTable, p: MessagePacket, rssi: i16, now: u32): RouteTable
  {
    if p.header.hopCount == 0 then
      WithQuality(WithRoute(table, p.source, p.source, 1, now), p.source, rssi, true, now)
    else table
  }

  /** A packet heard directly leaves a usable one-hop route back to its sender at full reliability. */
  lemma LearnedRouteFound(table: RouteTable, p: MessagePacket, rssi: i16, status: NodeStatus, now: u32)
    requires p.header.hopCount == 0
    ensures var r := LookupRoute(LearnedRoutes(table, p, rssi, now), p.source, status, now);
      r.Some? && r.value.nextHop == p.source && r.value.hopCount == 1 && r.value.reliability == 100
      && r.value.lastUsed == now && r.value.signalStrength == rssi % 0x100
  {
    AddThenFind(table, p.source, p.source, 1, status, now);
  }

  /** The subdomain table after `begin`: our own subdomain named, marked local, stamped with the
      time and with us among its known nodes. */
  function WithLocalSubdomain(subdomains: map<Str, SubdomainInfo>, own: NodeAddress, now: u32): map<Str, SubdomainInfo>
  {
    var info := if own.subdomain in subdomains then subdomains[own.subdomain] else NewSubdomainInfo;
    subdomains[own.subdomain := info.(subdomainName := own.subdomain, knownNodes := info.knownNodes + [own],
                                      lastUpdated := now, isLocal := true)]
  }

  /** `begin` leaves every subdomain's hubs as they were, so the hub invariant is kept. */
  lemma WithLocalSubdomainWellFormed(subdomains: map<Str, SubdomainInfo>, own: NodeAddress, now: u32)
    requires HubsWellFormed(subdomains)
    ensures var r := WithLocalSubdomain(subdomains, own, now);
      HubsWellFormed(r) && own.subdomain in r && r[own.subdomain].isLocal && own in r[own.subdomain].knownNodes
      && HubsOf(r, own.subdomain) == HubsOf(subdomains, own.subdomain)
  {
  }

  // ---------------------------------------------------------------------------
  // The routing engine
  // ---------------------------------------------------------------------------

  /** The send callback as an oracle that answers each packet and keeps a log of them. */
  class PacketSink {
    var sent: seq<Transmission>

    constructor ()
      ensures sent == []
    {
      sent := [];
    }

    method Send(p: MessagePacket) returns (accepted: bool)
      modifies this
      ensures sent == old(sent) + [Transmission(p, accepted)]
    {
      accepted := *;
      sent := sent + [Transmission(p, accepted)];
    }
  }

  class RealMeshRouter {
    const ownAddress: NodeAddress
    const sink: PacketSink
    var ownStatus: NodeStatus
    var routingTable: RouteTable
    var subdomains: map<Str, SubdomainInfo>
    var intermediaryMemory: seq<IntermediaryEntry>
    var stats: NetworkStats
    var lastHeartbeat: u32
    var hasSendCallback: bool
    var hasMessageCallback: bool
    /** The packets handed to the message callback. */
    var delivered: seq<MessagePacket>

    predicate Valid()
      reads this
    {
      WellKeyed(routingTable) && HubsWellFormed(subdomains) && DistinctBridges(intermediaryMemory)
    }

    /** Everything of the router except its send log, its heartbeat time and its statistics. */
    function RoutingState(): (RouteTable, map<Str, SubdomainInfo>, seq<IntermediaryEntry>, NodeStatus, bool, bool, seq<MessagePacket>)
      reads this
    {
      (routingTable, subdomains, intermediaryMemory, ownStatus, hasSendCallback, hasMessageCallback, delivered)
    }

    /** The constructor: mobile, empty tables, no callbacks, the stats' heartbeat time set to `now`. */
    constructor (own: NodeAddress, sink: PacketSink, now: u32)
      ensures Valid()
      ensures ownAddress == own && this.sink == sink && ownStatus == Mobile
      ensures routingTable == map[] && subdomains == map[] && intermediaryMemory == []
      ensures stats == NetworkStats(0, 0, 0, 0, 0, now, 0) && lastHeartbeat == 0
      ensures !hasSendCallback && !hasMessageCallback && delivered == []
    {
      ownAddress := own;
      this.sink := sink;
      ownStatus := Mobile;
      routingTable := map[];
      subdomains := map[];
      intermediaryMemory := [];
      stats := NetworkStats(0, 0, 0, 0, 0, now, 0);
      lastHeartbeat := 0;
      hasSendCallback := false;
      hasMessageCallback := false;
      delivered := [];
    }

    /** `setCallbacks`: which callbacks are installed (the route-update callback only logs). */
    method SetCallbacks(send: bool, message: bool)
      modifies this`hasSendCallback, this`hasMessageCallback
      ensures hasSendCallback == send && hasMessageCallback == message
    {
      hasSendCallback := send;
      hasMessageCallback := message;
    }

    /** `findRoute`. */
    function FindRoute(destination: NodeAddress, now: u32): (r: Option<RoutingEntry>)
      reads this
      ensures r == LookupRoute(routingTable, destination, ownStatus, now)
    {
      LookupRoute(routingTable, destination, ownStatus, now)
    }

    /** `sendCallback && sendCallback(packet)`, with the checksum restamped over the header as sent. */
    method Transmit(p: MessagePacket) returns (ok: bool)
      modifies sink
      ensures sink.sent == old(sink.sent) + if hasSendCallback then [Transmission(Stamped(p), ok)] else []
      ensures !hasSendCallback ==> !ok
    {
      if !hasSendCallback {
        return false;
      }
      ok := sink.Send(Stamped(p));
    }

    /** `addRoute`. */
    method AddRoute(destination: NodeAddress, nextHop: NodeAddress, hopCount: u8, now: u32)
      requires Valid()
      modifies this`routingTable
      ensures Valid()
      ensures routingTable == WithRoute(old(routingTable), destination, nextHop, hopCount, now)
    {
      WithRouteWellKeyed(routingTable, destination, nextHop, hopCount, now);
      routingTable := WithRoute(routingTable, destination, nextHop, hopCount, now);
    }

    /** `removeRoute`. */
    method RemoveRoute(destination: NodeAddress)
      requires Valid()
      modifies this`routingTable
      ensures Valid()
      ensures routingTable == WithoutRoute(old(routingTable), destination)
    {
      var key := FullAddress(destination);
      if key in routingTable {
        routingTable := WithoutRoute(routingTable, destination);
      }
    }

    /** `updateRouteQuality`. */
    method UpdateRouteQuality(destination: NodeAddress, rssi: i16, success: bool, now: u32)
      requires Valid()
      modifies this`routingTable
      ensures Valid()
      ensures routingTable == WithQuality(old(routingTable), destination, rssi, success, now)
    {
      var key := FullAddress(destination);
      if key in routingTable {
        var entry := routingTable[key];
        entry := entry.(lastUsed := now, signalStrength := rssi % 0x100,
                        reliability := UpdatedReliability(entry.reliability, success));
        routingTable := routingTable[key := entry];
        if entry.reliability < EvictionThreshold {
          routingTable := WithoutRoute(routingTable, destination);
        }
      }
      WithQualityWellKeyed(old(routingTable), destination, rssi, success, now);
    }

    /** `addStationaryHub`: look the hub up by full address in its subdomain's list and append it if absent. */
    method AddStationaryHub(hub: NodeAddress)
      requires Valid()
      modifies this`subdomains
      ensures Valid()
      ensures subdomains == WithStationaryHub(old(subdomains), hub)
    {
      WithStationaryHubWellFormed(subdomains, hub);
      var info := if hub.subdomain in subdomains then subdomains[hub.subdomain] else NewSubdomainInfo;
      var hubs := info.stationaryHubs;
      var i := 0;
      while i < |hubs|
        invariant 0 <= i <= |hubs|
        invariant forall j :: 0 <= j < i ==> FullAddress(hubs[j]) != FullAddress(hub)
      {
        if FullAddress(hubs[i]) == FullAddress(hub) {
          break;
        }
        i := i + 1;
      }
      if i == |hubs| {
        hubs := hubs + [hub];
      } else {
        assert HasHub(hubs, hub);
      }
      subdomains := subdomains[hub.subdomain := info.(stationaryHubs := hubs)];
    }

    /** `findSubdomainHelpers`: the target subdomain's hubs that currently have a route. */
    method FindSubdomainHelpers(target: Str, now: u32) returns (helpers: seq<NodeAddress>)
      ensures helpers == RoutedHubs(HubsOf(subdomains, target), routingTable, ownStatus, now)
      ensures forall h :: h in helpers <==> h in HubsOf(subdomains, target) && FindRoute(h, now).Some?
    {
      var hubs := HubsOf(subdomains, target);
      helpers := [];
      var i := 0;
      while i < |hubs|
        invariant 0 <= i <= |hubs|
        invariant helpers == RoutedHubs(hubs[..i], routingTable, ownStatus, now)
      {
        assert hubs[..i + 1][..i] == hubs[..i];
        if FindRoute(hubs[i], now).Some? {
          helpers := helpers + [hubs[i]];
        }
        i := i + 1;
      }
      assert hubs[..i] == hubs;
      RoutedHubsMembers(hubs, routingTable, ownStatus, now);
    }

    /** `recordBridge`: find the pair in either order and refresh it, or append a new entry. */
    method RecordBridge(a: NodeAddress, b: NodeAddress, now: u32)
      requires Valid()
      modifies this`intermediaryMemory
      ensures Valid()
      ensures intermediaryMemory == WithBridge(old(intermediaryMemory), a, b, now)
    {
      WithBridgeDistinct(intermediaryMemory, a, b, now);
      var i := 0;
      while i < |intermediaryMemory|
        invariant 0 <= i <= |intermediaryMemory| && intermediaryMemory == old(intermediaryMemory)
        invariant forall j :: 0 <= j < i ==> !SameBridge(intermediaryMemory[j], a, b)
      {
        var e := intermediaryMemory[i];
        if (FullAddress(e.nodeA) == FullAddress(a) && FullAddress(e.nodeB) == FullAddress(b))
           || (FullAddress(e.nodeA) == FullAddress(b) && FullAddress(e.nodeB) == FullAddress(a)) {
          BridgeIndexFirst(intermediaryMemory, a, b, i);
          intermediaryMemory := intermediaryMemory[i := e.(lastBridged := now, bridgeCount := Inc16(e.bridgeCount), isActive := true)];
          return;
        }
        i := i + 1;
      }
      intermediaryMemory := intermediaryMemory + [IntermediaryEntry(a, b, now, 1, true)];
    }

    /** `addToPathHistory`: shift the three slots one place towards the end and put our id first. */
    method AddToPathHistory(p: MessagePacket) returns (q: MessagePacket)
      ensures q == WithOwnHop(p, ownAddress)
    {
      var path: seq<byte> := p.header.pathHistory;
      var i := PathHistorySize - 1;
      while i > 0
        invariant 0 <= i <= PathHistorySize - 1 && |path| == PathHistorySize
        invariant forall j :: 0 <= j <= i ==> path[j] == p.header.pathHistory[j]
        invariant forall j :: i < j < PathHistorySize ==> path[j] == p.header.pathHistory[j - 1]
      {
        path := path[i := path[i - 1]];
        i := i - 1;
      }
      path := path[0 := ownAddress.uuid.bytes[0]];
      q := p.(header := p.header.(pathHistory := path));
    }

    /** `isInPathHistory`: scan the three slots for the first UUID byte of `address`. */
    method IsInPathHistory(p: MessagePacket, address: NodeAddress) returns (found: bool)
      ensures found <==> InPathHistory(p.header, address.uuid.bytes[0])
    {
      var id := address.uuid.bytes[0];
      var i := 0;
      while i < PathHistorySize
        invariant 0 <= i <= PathHistorySize
        invariant forall j :: 0 <= j < i ==> p.header.pathHistory[j] != id
      {
        if p.header.pathHistory[i] == id {
          return true;
        }
        i := i + 1;
      }
      return false;
    }

    /** `routePacketDirect`: with a usable route, send as DIRECT with our hop recorded and,
        on success, count it and refresh the route's last use. */
    method RoutePacketDirect(p: MessagePacket, now: u32) returns (ok: bool, q: MessagePacket, ghost attempts: seq<Transmission>)
      requires Valid()
      modifies sink, this`routingTable, this`stats
      ensures Valid() && routingTable.Keys == old(routingTable.Keys)
      ensures SameMessage(p, q)
      ensures sink.sent == old(sink.sent) + attempts
      ensures StopsAtFirstSuccess(attempts, ok) && |attempts| <= 1 && Addressed(attempts, p, RouteDirect)
      ensures LookupRoute(old(routingTable), p.destination, ownStatus, now).None? ==> attempts == [] && q == p
      ensures LookupRoute(old(routingTable), p.destination, ownStatus, now).Some? ==>
                q == WithOwnHop(p.(header := p.header.(routingFlags := RouteDirect)), ownAddress)
      ensures LookupRoute(old(routingTable), p.destination, ownStatus, now).Some? && hasSendCallback ==> |attempts| == 1
      ensures ok ==> stats == old(stats).(messagesSent := Inc32(old(stats).messagesSent))
                     && routingTable == Refreshed(old(routingTable), p.destination, now)
      ensures !ok ==> stats == old(stats) && routingTable == old(routingTable)
    {
      q := p;
      ok := false;
      attempts := [];
      var route := FindRoute(p.destination, now);
      if route.None? {
        return;
      }
      q := q.(header := q.header.(routingFlags := RouteDirect));
      q := AddToPathHistory(q);
      ok := Transmit(q);
      attempts := if hasSendCallback then [Transmission(Stamped(q), ok)] else [];
      if ok {
        stats := stats.(messagesSent := Inc32(stats.messagesSent));
        RefreshedWellKeyed(routingTable, p.destination, now);
        var key := FullAddress(p.destination);
        routingTable := routingTable[key := route.value.(lastUsed := now)];
      }
    }

    /** `routePacketSubdomain`: for a destination in another subdomain, try each of its routed hubs
        in turn as SUBDOMAIN_RETRY with our hop recorded, addressed to the hub, and put the
        destination back after every attempt. */
    method RoutePacketSubdomain(p: MessagePacket, now: u32) returns (ok: bool, q: MessagePacket, ghost attempts: seq<Transmission>)
      modifies sink, this`stats
      ensures SameMessage(p, q)
      ensures sink.sent == old(sink.sent) + attempts
      ensures StopsAtFirstSuccess(attempts, ok)
      ensures HubAttempts(attempts, p, HubsOf(subdomains, p.destination.subdomain), routingTable, ownStatus, now)
      ensures p.destination.subdomain == ownAddress.subdomain ==> attempts == [] && q == p
      ensures hasSendCallback && p.destination.subdomain != ownAddress.subdomain ==>
                HubsTried(attempts, ok, RoutedHubs(HubsOf(subdomains, p.destination.subdomain), routingTable, ownStatus, now))
      ensures stats == if ok then old(stats).(messagesSent := Inc32(old(stats).messagesSent)) else old(stats)
    {
      q := p;
      attempts := [];
      if p.destination.subdomain == ownAddress.subdomain {
        return false, q, attempts;
      }
      ghost var hubs := HubsOf(subdomains, p.destination.subdomain);
      var helpers := FindSubdomainHelpers(p.destination.subdomain, now);
      var i := 0;
      while i < |helpers|
        invariant 0 <= i <= |helpers|
        invariant SameMessage(p, q) && stats == old(stats)
        invariant sink.sent == old(sink.sent) + attempts
        invariant NoneAccepted(attempts) && HubAttempts(attempts, p, hubs, routingTable, ownStatus, now)
        invariant |attempts| <= i && (hasSendCallback ==> |attempts| == i)
        invariant forall j :: 0 <= j < |attempts| ==> attempts[j].packet.destination == helpers[j]
      {
        var helper := helpers[i];
        assert helper in helpers;
        var route := FindRoute(helper, now);
        if route.Some? {
          var sentOk;
          ghost var prev := attempts;
          sentOk, q, attempts := TryHub(p, q, helper, now, hubs, old(sink.sent), attempts);
          if hasSendCallback {
            HubsTriedExtend(prev, attempts, helpers);
          } else {
            assert attempts == prev;
          }
          if sentOk {
            stats := stats.(messagesSent := Inc32(stats.messagesSent));
            assert HubsTried(attempts, true, helpers);
            return true, q, attempts;
          }
        }
        i := i + 1;
      }
      return false, q, attempts;
    }

    /** One pass of the `routePacketSubdomain` loop for a routed `helper`: send the message as
        SUBDOMAIN_RETRY with our hop recorded, addressed to the helper, then put the destination back.
        The attempts so far, `attempts`, gain this one when there is a send callback. */
    method TryHub(p: MessagePacket, q: MessagePacket, helper: NodeAddress, now: u32, ghost hubs: seq<NodeAddress>,
                  ghost before: seq<Transmission>, ghost attempts: seq<Transmission>)
      returns (sentOk: bool, r: MessagePacket, ghost extended: seq<Transmission>)
      requires SameMessage(p, q) && sink.sent == before + attempts
      requires NoneAccepted(attempts) && HubAttempts(attempts, p, hubs, routingTable, ownStatus, now)
      requires helper in hubs && LookupRoute(routingTable, helper, ownStatus, now).Some?
      modifies sink
      ensures SameMessage(p, r) && sink.sent == before + extended
      ensures HubAttempts(extended, p, hubs, routingTable, ownStatus, now)
      ensures |extended| == |attempts| + (if hasSendCallback then 1 else 0) && extended[..|attempts|] == attempts
      ensures hasSendCallback ==> extended[|attempts|].packet.destination == helper
      ensures !sentOk ==> NoneAccepted(extended)
      ensures sentOk ==> StopsAtFirstSuccess(extended, true)
    {
      r := q.(header := q.header.(routingFlags := RouteSubdomainRetry));
      r := AddToPathHistory(r);
      var originalDest := r.destination;
      r := r.(destination := helper);
      sentOk := Transmit(r);
      extended := attempts;
      if hasSendCallback {
        HubAttemptAppended(attempts, p, q, r, sentOk, hubs, routingTable, ownStatus, now);
        extended := attempts + [Transmission(Stamped(r), sentOk)];
      }
      r := r.(destination := originalDest);
    }

    /** `routePacketFlood`: send as FLOOD with the hop count reset and our hop recorded. */
    method RoutePacketFlood(p: MessagePacket) returns (ok: bool, q: MessagePacket)
      modifies sink, this`stats
      ensures SameMessage(p, q) && q.header.hopCount == 0 && q.header.routingFlags == RouteFlood
      ensures q == WithOwnHop(p.(header := p.header.(routingFlags := RouteFlood, hopCount := 0)), ownAddress)
      ensures sink.sent == old(sink.sent) + if hasSendCallback then [Transmission(Stamped(q), ok)] else []
      ensures !hasSendCallback ==> !ok
      ensures stats == if ok then old(stats).(messagesSent := Inc32(old(stats).messagesSent)) else old(stats)
    {
      q := p.(header := p.header.(routingFlags := RouteFlood, hopCount := 0));
      q := AddToPathHistory(q);
      ok := Transmit(q);
      if ok {
        stats := stats.(messagesSent := Inc32(stats.messagesSent));
      }
    }

    /** `routeMessage`: build the data packet and route it. */
    method RouteMessage(destination: NodeAddress, message: Str, priority: u8, now: u32, sequence: u16)
      returns (ok: bool)
      requires Valid()
      modifies sink, this`routingTable, this`stats
      ensures Valid()
      ensures old(sink.sent) <= sink.sent
      ensures !hasSendCallback ==> !ok && sink.sent == old(sink.sent)
      ensures RoutedInOrder(sink.sent[|old(sink.sent)|..], ok,
                            CreateDataPacket(ownAddress, destination, message, priority, false, now, sequence),
                            HubsOf(subdomains, destination.subdomain),
                            destination.subdomain == ownAddress.subdomain, hasSendCallback)
      ensures hasSendCallback ==>
                TriedInTurn(sink.sent[|old(sink.sent)|..], ok, LookupRoute(old(routingTable), destination, ownStatus, now).Some?,
                            HelpersFor(subdomains, old(routingTable), destination, ownAddress, ownStatus, now))
      ensures stats == if ok then old(stats).(messagesSent := Inc32(old(stats).messagesSent)) else old(stats)
    {
      if !hasSendCallback {
        return false;
      }
      var p := CreateDataPacket(ownAddress, destination, message, priority, false, now, sequence);
      ghost var attempts;
      ok, attempts := RouteInTurn(p, now);
      assert sink.sent[|old(sink.sent)|..] == attempts;
    }

    /** The strategies of `routeMessage` in turn: direct, then subdomain, then flood, stopping at
        the first accepted send. */
    method RouteInTurn(p: MessagePacket, now: u32) returns (ok: bool, ghost attempts: seq<Transmission>)
      requires Valid() && hasSendCallback
      modifies sink, this`routingTable, this`stats
      ensures Valid()
      ensures sink.sent == old(sink.sent) + attempts
      ensures RoutedInOrder(attempts, ok, p, HubsOf(subdomains, p.destination.subdomain),
                            p.destination.subdomain == ownAddress.subdomain, true)
      ensures TriedInTurn(attempts, ok, LookupRoute(old(routingTable), p.destination, ownStatus, now).Some?,
                          HelpersFor(subdomains, old(routingTable), p.destination, ownAddress, ownStatus, now))
      ensures stats == if ok then old(stats).(messagesSent := Inc32(old(stats).messagesSent)) else old(stats)
    {
      ghost var hubs := HubsOf(subdomains, p.destination.subdomain);
      ghost var same := p.destination.subdomain == ownAddress.subdomain;
      var q;
      ghost var d;
      ok, q, d := RoutePacketDirect(p, now);
      if ok {
        DirectRouted(d, p, hubs, same, HelpersFor(subdomains, old(routingTable), p.destination, ownAddress, ownStatus, now));
        attempts := d;
      } else {
        ghost var rest;
        ok, rest := RouteAfterDirect(p, q, now, d);
        attempts := d + rest;
      }
    }

    /** The fallback after a failed direct attempt `d`: together they are routed in order. */
    method RouteAfterDirect(p: MessagePacket, q: MessagePacket, now: u32, ghost d: seq<Transmission>)
      returns (ok: bool, ghost rest: seq<Transmission>)
      requires Valid() && hasSendCallback && SameMessage(p, q)
      requires |d| <= 1 && Addressed(d, p, RouteDirect) && StopsAtFirstSuccess(d, false)
      requires |d| == if LookupRoute(routingTable, p.destination, ownStatus, now).Some? then 1 else 0
      modifies sink, this`stats
      ensures Valid()
      ensures sink.sent == old(sink.sent) + rest
      ensures RoutedInOrder(d + rest, ok, p, HubsOf(subdomains, p.destination.subdomain),
                            p.destination.subdomain == ownAddress.subdomain, true)
      ensures TriedInTurn(d + rest, ok, LookupRoute(routingTable, p.destination, ownStatus, now).Some?,
                          HelpersFor(subdomains, routingTable, p.destination, ownAddress, ownStatus, now))
      ensures stats == if ok then old(stats).(messagesSent := Inc32(old(stats).messagesSent)) else old(stats)
    {
      ok, rest := RouteFallback(p, q, now);
      ComposeRoute(d, rest, ok, p, HubsOf(subdomains, p.destination.subdomain),
                   p.destination.subdomain == ownAddress.subdomain);
      DirectThenTried(d, rest, ok, LookupRoute(routingTable, p.destination, ownStatus, now).Some?,
                      HelpersFor(subdomains, routingTable, p.destination, ownAddress, ownStatus, now));
    }

    /** What `routeMessage` does once the direct send has failed: subdomain, then flood. */
    method RouteFallback(p: MessagePacket, q: MessagePacket, now: u32) returns (ok: bool, ghost attempts: seq<Transmission>)
      requires hasSendCallback && SameMessage(p, q)
      modifies sink, this`stats
      ensures sink.sent == old(sink.sent) + attempts
      ensures FallbackInOrder(attempts, ok, p, HubsOf(subdomains, p.destination.subdomain),
                              p.destination.subdomain == ownAddress.subdomain)
      ensures TriedInTurn(attempts, ok, false, HelpersFor(subdomains, routingTable, p.destination, ownAddress, ownStatus, now))
      ensures stats == if ok then old(stats).(messagesSent := Inc32(old(stats).messagesSent)) else old(stats)
    {
      ghost var hubs := HubsOf(subdomains, p.destination.subdomain);
      ghost var same := p.destination.subdomain == ownAddress.subdomain;
      var q2;
      ghost var s;
      ok, q2, s := RoutePacketSubdomain(q, now);
      SubdomainAttemptsOf(s, p, q, hubs, routingTable, ownStatus, now);
      ghost var helpers := HelpersFor(subdomains, routingTable, p.destination, ownAddress, ownStatus, now);
      assert HubsTried(s, ok, helpers);
      if ok {
        SubdomainRouted(s, p, hubs, same);
        FallbackTried(s, true, [], true, helpers);
        assert s + [] == s;
        attempts := s;
      } else {
        var q3;
        ok, q3 := RoutePacketFlood(q2);
        SameMessageTransitive(p, q, q2);
        SameMessageTransitive(p, q2, q3);
        FloodAttempt(p, q3, ok);
        ComposeFallback(s, [Transmission(Stamped(q3), ok)], ok, p, hubs, same);
        FallbackTried(s, false, [Transmission(Stamped(q3), ok)], ok, helpers);
        attempts := s + [Transmission(Stamped(q3), ok)];
      }
    }

    /** `sendDirectMessage`: a direct-priority data message. */
    method SendDirectMessage(destination: NodeAddress, message: Str, now: u32, sequence: u16) returns (ok: bool)
      requires Valid()
      modifies sink, this`routingTable, this`stats
      ensures Valid()
      ensures old(sink.sent) <= sink.sent
      ensures forall t :: t in sink.sent[|old(sink.sent)|..] ==>
        t.packet.header.priority == PriorityDirect && t.packet.header.messageType == MsgData
        && (t.packet.header.routingFlags != RouteSubdomainRetry ==> t.packet.destination == destination)
    {
      ok := RouteMessage(destination, message, PriorityDirect, now, sequence);
    }

    /** `sendPublicMessage`: a public-priority data message to the broadcast address. */
    method SendPublicMessage(message: Str, now: u32, sequence: u16) returns (ok: bool)
      requires Valid()
      modifies sink, this`routingTable, this`stats
      ensures Valid()
      ensures old(sink.sent) <= sink.sent
      ensures forall t :: t in sink.sent[|old(sink.sent)|..] ==>
        t.packet.header.priority == PriorityPublic && t.packet.header.messageType == MsgData
        && (t.packet.header.routingFlags != RouteSubdomainRetry ==> t.packet.destination == EmptyAddress)
    {
      ok := RouteMessage(EmptyAddress, message, PriorityPublic, now, sequence);
    }

    /** `sendEmergencyMessage`: an emergency-priority data message to the broadcast address. */
    method SendEmergencyMessage(message: Str, now: u32, sequence: u16) returns (ok: bool)
      requires Valid()
      modifies sink, this`routingTable, this`stats
      ensures Valid()
      ensures old(sink.sent) <= sink.sent
      ensures forall t :: t in sink.sent[|old(sink.sent)|..] ==>
        t.packet.header.priority == PriorityEmergency && t.packet.header.messageType == MsgData
        && (t.packet.header.routingFlags != RouteSubdomainRetry ==> t.packet.destination == EmptyAddress)
    {
      ok := RouteMessage(EmptyAddress, message, PriorityEmergency, now, sequence);
    }
    /** `updatePathFromPacket`: a packet heard directly (hop count 0) gives a route to its sender;
        the multi-hop case learns nothing. */
    method UpdatePathFromPacket(p: MessagePacket, rssi: i16, now: u32)
      requires Valid()
      modifies this`routingTable
      ensures Valid()
      ensures routingTable == LearnedRoutes(old(routingTable), p, rssi, now)
    {
      if p.header.hopCount == 0 {
        AddRoute(p.source, p.source, 1, now);
        UpdateRouteQuality(p.source, rssi, true, now);
      }
    }

    /** One relayed copy: `ForwardCopy` of the packet handed to the send callback. */
    method Relay(p: MessagePacket) returns (ok: bool, ghost attempts: seq<Transmission>)
      requires p.header.hopCount < p.header.maxHops
      modifies sink
      ensures sink.sent == old(sink.sent) + attempts
      ensures attempts == if hasSendCallback then [Transmission(Stamped(ForwardCopy(p, ownAddress)), ok)] else []
      ensures !hasSendCallback ==> !ok
    {
      var fwd := p.(header := p.header.(hopCount := p.header.hopCount + 1));
      fwd := AddToPathHistory(fwd);
      ok := Transmit(fwd);
      attempts := if hasSendCallback then [Transmission(Stamped(fwd), ok)] else [];
    }

    /** The hub case of `shouldForwardPacket`, for a packet that is not dropped. */
    method HubRelay(p: MessagePacket, now: u32) returns (ok: bool, ghost viaHub: seq<Transmission>)
      requires Valid() && p.header.hopCount < p.header.maxHops
      modifies sink, this`stats, this`intermediaryMemory
      ensures Valid()
      ensures sink.sent == old(sink.sent) + viaHub
      ensures viaHub == if hasSendCallback && HubRelays(p, ownAddress, ownStatus, routingTable, now)
                        then [Transmission(Stamped(ForwardCopy(p, ownAddress)), ok)] else []
      ensures !ok ==> stats == old(stats) && intermediaryMemory == old(intermediaryMemory)
      ensures ok ==> hasSendCallback && HubRelays(p, ownAddress, ownStatus, routingTable, now)
                     && viaHub[0].accepted && stats == old(stats).(messagesForwarded := Inc32(old(stats).messagesForwarded))
                     && intermediaryMemory == WithBridge(old(intermediaryMemory), p.source, p.destination, now)
    {
      ok := false;
      viaHub := [];
      if ownStatus == Stationary && p.destination.subdomain == ownAddress.subdomain
         && HasFlag(p.header.routingFlags, RouteSubdomainRetry) {
        var route := FindRoute(p.destination, now);
        if route.Some? {
          ok, viaHub := Relay(p);
          if ok {
            stats := stats.(messagesForwarded := Inc32(stats.messagesForwarded));
            RecordBridge(p.source, p.destination, now);
          }
        }
      }
    }

    /** `shouldForwardPacket`: drop what already passed us or is out of hops; as a stationary hub,
        relay SUBDOMAIN_RETRY packets for our subdomain and record the bridge; relay flood packets
        unless the hub relay succeeded. Every relayed copy is `ForwardCopy` of the packet. */
    method ShouldForwardPacket(p: MessagePacket, now: u32)
      returns (forwarded: bool, ghost viaHub: seq<Transmission>, ghost viaFlood: seq<Transmission>)
      requires Valid()
      modifies sink, this`stats, this`intermediaryMemory
      ensures Valid()
      ensures sink.sent == old(sink.sent) + viaHub + viaFlood
      ensures forall i :: 0 <= i < |viaHub| ==> viaHub[i].packet == Stamped(ForwardCopy(p, ownAddress))
      ensures forall i :: 0 <= i < |viaFlood| ==> viaFlood[i].packet == Stamped(ForwardCopy(p, ownAddress))
      ensures |viaHub| == if hasSendCallback && !MustDrop(p, ownAddress)
                             && HubRelays(p, ownAddress, ownStatus, routingTable, now) then 1 else 0
      ensures |viaFlood| == if hasSendCallback && !MustDrop(p, ownAddress) && HasFlag(p.header.routingFlags, RouteFlood)
                               && !(|viaHub| == 1 && viaHub[0].accepted) then 1 else 0
      ensures forwarded <==> (|viaHub| == 1 && viaHub[0].accepted) || (|viaFlood| == 1 && viaFlood[0].accepted)
      ensures intermediaryMemory == if |viaHub| == 1 && viaHub[0].accepted
                                    then WithBridge(old(intermediaryMemory), p.source, p.destination, now)
                                    else old(intermediaryMemory)
      ensures stats == if forwarded then old(stats).(messagesForwarded := Inc32(old(stats).messagesForwarded)) else old(stats)
    {
      forwarded := false;
      viaHub := [];
      viaFlood := [];
      var seen := IsInPathHistory(p, ownAddress);
      if seen || p.header.hopCount >= p.header.maxHops {
        return;
      }
      forwarded, viaHub := HubRelay(p, now);
      if !forwarded && HasFlag(p.header.routingFlags, RouteFlood) {
        forwarded, viaFlood := Relay(p);
        if forwarded {
          stats := stats.(messagesForwarded := Inc32(stats.messagesForwarded));
        }
      }
    }

    /** The handlers of `processIncomingPacket` for a packet addressed to us: a data message is
        acknowledged to its sender and delivered, and is not relayed; a heartbeat gives a
        one-hop route to its sender; control, route request and reply, ack, nack and name
        conflict messages are accepted as they are; an unknown type is refused. */
    method HandleForUs(p: MessagePacket, now: u32, sequence: u16) returns (r: bool)
      requires Valid()
      modifies sink, this`routingTable, this`delivered
      ensures Valid()
      ensures r <==> p.header.messageType in {MsgControl, MsgRouteRequest, MsgRouteReply, MsgHeartbeat,
                                              MsgAck, MsgNack, MsgNameConflict}
      ensures p.header.messageType == MsgData && hasSendCallback ==>
        |sink.sent| == |old(sink.sent)| + 1 && sink.sent[..|old(sink.sent)|] == old(sink.sent)
        && sink.sent[|old(sink.sent)|].packet == CreateAckPacket(ownAddress, p.source, p.header.messageId, now, sequence)
      ensures p.header.messageType != MsgData || !hasSendCallback ==> sink.sent == old(sink.sent)
      ensures delivered == if p.header.messageType == MsgData && hasMessageCallback then old(delivered) + [p]
                           else old(delivered)
      ensures routingTable == if p.header.messageType == MsgHeartbeat
                              then WithRoute(old(routingTable), p.source, p.source, 1, now) else old(routingTable)
    {
      var t := p.header.messageType;
      if t == MsgData {
        var ack := CreateAckPacket(ownAddress, p.source, p.header.messageId, now, sequence);
        StampValidHeader(ack.header);
        var _ := Transmit(ack);
        if hasMessageCallback {
          delivered := delivered + [p];
        }
        r := false;
      } else if t == MsgHeartbeat {
        AddRoute(p.source, p.source, 1, now);
        r := true;
      } else {
        r := t in {MsgControl, MsgRouteRequest, MsgRouteReply, MsgAck, MsgNack, MsgNameConflict};
      }
    }

    /** The second half of `processIncomingPacket`, for a valid packet: handle it if it is for us,
        and otherwise hand it to the forwarding decision. */
    method DispatchPacket(p: MessagePacket, now: u32, sequence: u16) returns (r: bool)
      requires Valid()
      modifies sink, this`routingTable, this`stats, this`intermediaryMemory, this`delivered
      ensures Valid()
      ensures IsPacketForUs(p, ownAddress) ==>
                (r <==> p.header.messageType in {MsgControl, MsgRouteRequest, MsgRouteReply, MsgHeartbeat,
                                                 MsgAck, MsgNack, MsgNameConflict})
                && Acknowledged(old(sink.sent), sink.sent, p, ownAddress, now, sequence, hasSendCallback)
                && stats == old(stats) && intermediaryMemory == old(intermediaryMemory)
      ensures !IsPacketForUs(p, ownAddress) && MustDrop(p, ownAddress) ==> !r && sink.sent == old(sink.sent)
      ensures !IsPacketForUs(p, ownAddress) ==>
                old(sink.sent) <= sink.sent
                && Forwarded(sink.sent[|old(sink.sent)|..], p, ownAddress, ownStatus, routingTable, now, hasSendCallback, r)
                && stats == (if r then old(stats).(messagesForwarded := Inc32(old(stats).messagesForwarded)) else old(stats))
                && intermediaryMemory == if Bridged(sink.sent[|old(sink.sent)|..], p, ownAddress, ownStatus, routingTable, now, hasSendCallback)
                                         then WithBridge(old(intermediaryMemory), p.source, p.destination, now)
                                         else old(intermediaryMemory)
      ensures delivered == if IsPacketForUs(p, ownAddress) && p.header.messageType == MsgData && hasMessageCallback
                           then old(delivered) + [p] else old(delivered)
      ensures routingTable == if IsPacketForUs(p, ownAddress) && p.header.messageType == MsgHeartbeat
                              then WithRoute(old(routingTable), p.source, p.source, 1, now) else old(routingTable)
    {
      if IsPacketForUs(p, ownAddress) {
        r := HandleForUs(p, now, sequence);
      } else {
        r := RelayPacket(p, now);
      }
    }

    /** A valid packet that is not for us: the forwarding decision, seen from `processIncomingPacket`.
        It sends nothing but relayed copies, and nothing at all when the packet must be dropped. */
    method RelayPacket(p: MessagePacket, now: u32) returns (r: bool)
      requires Valid()
      modifies sink, this`stats, this`intermediaryMemory
      ensures Valid()
      ensures MustDrop(p, ownAddress) ==> !r && sink.sent == old(sink.sent)
      ensures old(sink.sent) <= sink.sent
      ensures Forwarded(sink.sent[|old(sink.sent)|..], p, ownAddress, ownStatus, routingTable, now, hasSendCallback, r)
      ensures stats == if r then old(stats).(messagesForwarded := Inc32(old(stats).messagesForwarded)) else old(stats)
      ensures intermediaryMemory == if Bridged(sink.sent[|old(sink.sent)|..], p, ownAddress, ownStatus, routingTable, now, hasSendCallback)
                                    then WithBridge(old(intermediaryMemory), p.source, p.destination, now)
                                    else old(intermediaryMemory)
    {
      ghost var viaHub, viaFlood;
      r, viaHub, viaFlood := ShouldForwardPacket(p, now);
      ForwardOutcome(viaHub, viaFlood, p, ownAddress, ownStatus, routingTable, now, r, hasSendCallback);
      assert sink.sent[|old(sink.sent)|..] == viaHub + viaFlood;
    }

    /** `processIncomingPacket`: refuse an invalid packet; otherwise count it, learn a route from
        its sender unless it is our own, then handle it if it is for us and else decide whether
        to relay it. */
    method ProcessIncomingPacket(p: MessagePacket, rssi: i16, now: u32, sequence: u16) returns (r: bool)
      requires Valid()
      modifies sink, this`routingTable, this`stats, this`intermediaryMemory, this`delivered
      ensures Valid()
      ensures !IsValidPacket(p) ==>
                !r && sink.sent == old(sink.sent) && stats == old(stats)
                && routingTable == old(routingTable) && delivered == old(delivered)
                && intermediaryMemory == old(intermediaryMemory)
      ensures IsValidPacket(p) ==>
                stats == old(stats).(messagesReceived := Inc32(old(stats).messagesReceived),
                                     messagesForwarded := if !IsPacketForUs(p, ownAddress) && r
                                                          then Inc32(old(stats).messagesForwarded)
                                                          else old(stats).messagesForwarded)
      ensures IsValidPacket(p) && IsPacketForUs(p, ownAddress) ==>
                (r <==> p.header.messageType in {MsgControl, MsgRouteRequest, MsgRouteReply, MsgHeartbeat,
                                                 MsgAck, MsgNack, MsgNameConflict})
                && Acknowledged(old(sink.sent), sink.sent, p, ownAddress, now, sequence, hasSendCallback)
                && intermediaryMemory == old(intermediaryMemory)
      ensures IsValidPacket(p) && !IsPacketForUs(p, ownAddress) && MustDrop(p, ownAddress) ==>
                !r && sink.sent == old(sink.sent)
      ensures IsValidPacket(p) && !IsPacketForUs(p, ownAddress) ==>
                old(sink.sent) <= sink.sent
                && Forwarded(sink.sent[|old(sink.sent)|..], p, ownAddress, ownStatus, routingTable, now, hasSendCallback, r)
                && intermediaryMemory == if Bridged(sink.sent[|old(sink.sent)|..], p, ownAddress, ownStatus, routingTable, now, hasSendCallback)
                                         then WithBridge(old(intermediaryMemory), p.source, p.destination, now)
                                         else old(intermediaryMemory)
      ensures delivered == if IsValidPacket(p) && IsPacketForUs(p, ownAddress) && p.header.messageType == MsgData
                              && hasMessageCallback
                           then old(delivered) + [p] else old(delivered)
      ensures IsValidPacket(p) ==>
                routingTable == var learned := if FullAddress(p.source) != FullAddress(ownAddress)
                                               then LearnedRoutes(old(routingTable), p, rssi, now) else old(routingTable);
                                if IsPacketForUs(p, ownAddress) && p.header.messageType == MsgHeartbeat
                                then WithRoute(learned, p.source, p.source, 1, now) else learned
      ensures IsValidPacket(p) && FullAddress(p.source) != FullAddress(ownAddress) && p.header.hopCount == 0 ==>
                var route := FindRoute(p.source, now); route.Some? && route.value.nextHop == p.source
    {
      if !IsValidPacket(p) {
        return false;
      }
      stats := stats.(messagesReceived := Inc32(stats.messagesReceived));
      if FullAddress(p.source) != FullAddress(ownAddress) {
        UpdatePathFromPacket(p, rssi, now);
        if p.header.hopCount == 0 {
          LearnedRouteFound(old(routingTable), p, rssi, ownStatus, now);
        }
      }
      ghost var afterLearning := routingTable;
      r := DispatchPacket(p, now, sequence);
      if IsPacketForUs(p, ownAddress) && p.header.hopCount == 0 && FullAddress(p.source) != FullAddress(ownAddress)
         && p.header.messageType == MsgHeartbeat {
        AddThenFind(afterLearning, p.source, p.source, 1, ownStatus, now);
      }
    }

    /** `sendHeartbeat`: too soon after the last one counts as done; otherwise flood a heartbeat
        (its JSON text given) and, when the send is accepted, record the time and count it. */
    method SendHeartbeat(now: u32, json: Str, sequence: u16) returns (r: bool)
      modifies sink, this`lastHeartbeat, this`stats
      ensures Elapsed(now, old(lastHeartbeat)) < HeartbeatInterval(now, ownStatus) ==>
                r && sink.sent == old(sink.sent) && lastHeartbeat == old(lastHeartbeat) && stats == old(stats)
      ensures Elapsed(now, old(lastHeartbeat)) >= HeartbeatInterval(now, ownStatus) ==>
                sink.sent == old(sink.sent) + (if hasSendCallback then [Transmission(CreateHeartbeatPacket(ownAddress, json, now, sequence), r)] else [])
                && (r ==> lastHeartbeat == now && stats == old(stats).(lastHeartbeat := now, messagesSent := Inc32(old(stats).messagesSent)))
                && (!r ==> lastHeartbeat == old(lastHeartbeat) && stats == old(stats))
                && (!hasSendCallback ==> !r)
      ensures HeartbeatAttempt(old(sink.sent), sink.sent, old(lastHeartbeat), lastHeartbeat, now, ownStatus,
                               hasSendCallback, ownAddress, json, sequence)
    {
      if Elapsed(now, lastHeartbeat) < HeartbeatInterval(now, ownStatus) {
        return true;
      }
      var packet := CreateHeartbeatPacket(ownAddress, json, now, sequence);
      StampValidHeader(packet.header);
      r := Transmit(packet);
      if r {
        lastHeartbeat := now;
        stats := stats.(lastHeartbeat := now, messagesSent := Inc32(stats.messagesSent));
      }
    }

    /** `setOwnStatus`: on a change, take the new status, register as a hub when it is stationary,
        and announce it with a heartbeat; the same status changes nothing. */
    method SetOwnStatus(status: NodeStatus, now: u32, json: Str, sequence: u16)
      requires Valid()
      modifies sink, this`ownStatus, this`subdomains, this`lastHeartbeat, this`stats
      ensures Valid() && ownStatus == status
      ensures old(ownStatus) == status ==>
                sink.sent == old(sink.sent) && subdomains == old(subdomains)
                && lastHeartbeat == old(lastHeartbeat) && stats == old(stats)
      ensures old(ownStatus) != status ==>
                subdomains == (if status == Stationary then WithStationaryHub(old(subdomains), ownAddress) else old(subdomains))
                && HeartbeatAttempt(old(sink.sent), sink.sent, old(lastHeartbeat), lastHeartbeat, now, status,
                                    hasSendCallback, ownAddress, json, sequence)
      ensures status == Stationary ==> HasHub(HubsOf(subdomains, ownAddress.subdomain), ownAddress) || old(ownStatus) == status
    {
      if ownStatus != status {
        ownStatus := status;
        if status == Stationary {
          AddStationaryHub(ownAddress);
          WithStationaryHubWellFormed(old(subdomains), ownAddress);
        }
        var _ := SendHeartbeat(now, json, sequence);
      }
    }

    /** `begin`: record our own subdomain as local with us in it, and register as its hub when stationary. */
    method Begin(now: u32) returns (r: bool)
      requires Valid()
      modifies this`subdomains
      ensures Valid() && r
      ensures subdomains == if ownStatus == Stationary
                            then WithStationaryHub(WithLocalSubdomain(old(subdomains), ownAddress, now), ownAddress)
                            else WithLocalSubdomain(old(subdomains), ownAddress, now)
      ensures ownAddress.subdomain in subdomains && subdomains[ownAddress.subdomain].isLocal
    {
      WithLocalSubdomainWellFormed(subdomains, ownAddress, now);
      subdomains := WithLocalSubdomain(subdomains, ownAddress, now);
      if ownStatus == Stationary {
        AddStationaryHub(ownAddress);
      }
      r := true;
    }
  }
}
