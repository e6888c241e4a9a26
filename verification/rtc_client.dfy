/** The connector registry of `RTCClient` (src/utils/WebRTC/rtc-client.ts).

    The client keeps a JavaScript `Map` from connector id to connector
    record; a `Map` iterates in insertion order, which the roster and the
    exit message expose, so the model keeps the keys' insertion order beside
    the map. Each signalling handler runs as one atomic step. The awaited
    WebRTC calls are opaque: whether attaching local media and the SDP
    exchange succeed for a given new connector is supplied by `Env`. Sent
    signalling messages and calls into the peer connection are returned as
    `Effect`s. `crypto.randomUUID()` is modelled by a counter, so new ids are
    fresh. */
module RtcClient {
  import opened Wrappers

  datatype StreamType = User | Display | RemoteDisplay

  type ConnectorId = nat
  type MemberId = string
  type Candidate = string
  type StreamId = nat

  datatype Connector = Connector(
    kind: StreamType,
    memberId: Option<MemberId>,
    remoteConnectorId: Option<ConnectorId>,
    remoteStream: Option<StreamId>,
    /** The connection's `icecandidate` / `track` handlers are attached. */
    bound: bool)

  datatype Client = Client(
    conns: map<ConnectorId, Connector>,
    order: seq<ConnectorId>,
    nextId: ConnectorId,
    displayState: bool)

  datatype ExitEntry = ExitEntry(remoteConnectorId: Option<ConnectorId>, memberId: Option<MemberId>)

  datatype Effect =
    | SendOffer(connectorId: ConnectorId, offerTo: Option<MemberId>, kind: StreamType)
    | SendAnswer(remoteConnectorId: ConnectorId, connectorId: ConnectorId, to: MemberId)
    | SendIceCandidate(remoteConnectorId: ConnectorId, to: MemberId, candidate: Candidate)
    | SendExit(peers: seq<ExitEntry>)
    | AddIceCandidate(connectorId: ConnectorId, candidate: Candidate)
    | CloseConnection(connectorId: ConnectorId)
    | RosterChanged

  datatype Step = Step(client: Client, effects: seq<Effect>)

  /** Whether the awaited steps succeed for the connector with a given id:
      attaching local media (`addLocalStream` / `shareDisplayMedia` of the
      wrapper), and the SDP exchange (`createOffer`/`createAnswer` and the
      description setters). A failure is caught and only logged. */
  datatype Env = Env(mediaOk: ConnectorId -> bool, sdpOk: ConnectorId -> bool)

  datatype OfferMessage = OfferMessage(remoteConnectorId: ConnectorId, memberId: MemberId, kind: Option<StreamType>)

  datatype AnswerMessage = AnswerMessage(connectorId: ConnectorId, remoteConnectorId: ConnectorId, memberId: MemberId)

  /** The registry invariant: the order lists every key once, and every key
      is below the id counter. */
  ghost predicate Valid(c: Client) {
    && (forall i, j :: 0 <= i < j < |c.order| ==> c.order[i] != c.order[j])
    && (forall k :: k in c.conns <==> k in c.order)
    && (forall k :: k in c.conns ==> k < c.nextId)
  }

  function Initial(): (c: Client)
    ensures Valid(c)
  {
    Client(map[], [], 0, false)
  }

  /** The ids `start, start + 1, …, start + n - 1`. */
  function Range(start: nat, n: nat): (r: seq<nat>)
    ensures |r| == n
    ensures forall i :: 0 <= i < n ==> r[i] == start + i
  {
    if n == 0 then [] else Range(start, n - 1) + [start + n - 1]
  }

  /** Whether the connector's awaited media step succeeds: only user and
      display connectors attach local media. */
  predicate MediaAttached(env: Env, kind: StreamType, id: ConnectorId) {
    kind == RemoteDisplay || env.mediaOk(id)
  }

  datatype Created = Created(client: Client, id: ConnectorId, ok: bool)

  /** `createConnector(type)`: the record is inserted before the media step
      is awaited, so it stays in the map when that step fails; the
      connection's handlers are attached only after it succeeds. */
  function CreateConnector(c: Client, kind: StreamType, env: Env): (r: Created)
    ensures r.id == c.nextId && r.client.nextId == c.nextId + 1
    ensures r.ok == MediaAttached(env, kind, r.id)
    ensures r.client.order == c.order + [r.id]
    ensures r.client.conns == c.conns[r.id := Connector(kind, None, None, None, r.ok)]
    ensures r.client.displayState == c.displayState
    ensures Valid(c) ==> Valid(r.client) && r.id !in c.conns
  {
    var id := c.nextId;
    var ok := MediaAttached(env, kind, id);
    assert Valid(c) ==> forall i :: 0 <= i < |c.order| ==> c.order[i] in c.conns && c.order[i] < id;
    Created(Client(c.conns[id := Connector(kind, None, None, None, ok)], c.order + [id], id + 1, c.displayState), id, ok)
  }

  /** `createDisplayWebRTC({memberId})`: a display connector, and an offer
      to `to` once media and the SDP exchange succeeded. */
  function CreateDisplayWebRtc(c: Client, env: Env, to: Option<MemberId>): (r: Step)
    ensures r.client == CreateConnector(c, Display, env).client
    ensures r.effects == (if env.mediaOk(c.nextId) && env.sdpOk(c.nextId) then [SendOffer(c.nextId, to, Display)] else [])
  {
    var created := CreateConnector(c, Display, env);
    Step(created.client, if created.ok && env.sdpOk(created.id) then [SendOffer(created.id, to, Display)] else [])
  }

  predicate IsDisplayKind(k: StreamType) {
    k == Display || k == RemoteDisplay
  }

  /** Some connector is a local or a remote screen share. */
  predicate HasDisplay(c: Client) {
    exists k :: k in c.conns && IsDisplayKind(c.conns[k].kind)
  }

  /** The member ids of the connectors listed in `ks` that are neither
      display nor remote-display connectors, in order. */
  function ShareTargets(conns: map<ConnectorId, Connector>, ks: seq<ConnectorId>): (r: seq<Option<MemberId>>)
    ensures |r| <= |ks|
    ensures (forall i :: 0 <= i < |ks| ==> ks[i] in conns && !IsDisplayKind(conns[ks[i]].kind)) ==>
      |r| == |ks| && forall i :: 0 <= i < |ks| ==> r[i] == conns[ks[i]].memberId
  {
    if |ks| == 0 then []
    else
      var rest := ShareTargets(conns, ks[..|ks| - 1]);
      var k := ks[|ks| - 1];
      if k !in conns || IsDisplayKind(conns[k].kind) then rest else rest + [conns[k].memberId]
  }

  /** Offers sent by `DisplayConnectors(c, env, targets)`. */
  function DisplayOffers(env: Env, start: nat, targets: seq<Option<MemberId>>): seq<Effect> {
    if |targets| == 0 then []
    else
      var n := |targets| - 1;
      DisplayOffers(env, start, targets[..n])
        + (if env.mediaOk(start + n) && env.sdpOk(start + n) then [SendOffer(start + n, targets[n], Display)] else [])
  }

  /** One display connector per target, created in order. */
  function DisplayConnectors(c: Client, env: Env, targets: seq<Option<MemberId>>): (r: Step)
    ensures r.client.nextId == c.nextId + |targets|
    ensures r.client.order == c.order + Range(c.nextId, |targets|)
    ensures r.client.displayState == c.displayState
    ensures r.effects == DisplayOffers(env, c.nextId, targets)
    decreases |targets|
  {
    if |targets| == 0 then Step(c, [])
    else
      var n := |targets| - 1;
      var prev := DisplayConnectors(c, env, targets[..n]);
      var last := CreateDisplayWebRtc(prev.client, env, targets[n]);
      assert Range(c.nextId, n + 1) == Range(c.nextId, n) + [c.nextId + n];
      Step(last.client, prev.effects + last.effects)
  }

  /** The connectors `DisplayConnectors` adds: fresh display connectors
      under the new ids, every earlier entry untouched, and the registry
      invariant kept. */
  lemma {:induction false} DisplayConnectorsEntries(c: Client, env: Env, targets: seq<Option<MemberId>>)
    ensures var r := DisplayConnectors(c, env, targets);
      && (forall k :: k in r.client.conns <==> k in c.conns || c.nextId <= k < c.nextId + |targets|)
      && (forall k :: c.nextId <= k < c.nextId + |targets| && k !in c.conns ==>
            r.client.conns[k] == Connector(Display, None, None, None, env.mediaOk(k)))
      && (forall k :: k in c.conns && k < c.nextId ==> r.client.conns[k] == c.conns[k])
      && (Valid(c) ==> Valid(r.client))
    decreases |targets|
  {
    if |targets| > 0 {
      var n := |targets| - 1;
      DisplayConnectorsEntries(c, env, targets[..n]);
      var prev := DisplayConnectors(c, env, targets[..n]);
      assert prev.client.nextId == c.nextId + n;
      var last := CreateDisplayWebRtc(prev.client, env, targets[n]);
      assert DisplayConnectors(c, env, targets).client == last.client;
    }
  }

  datatype Shared = Declined | Shared | BindFailed

  datatype ShareOutcome = ShareOutcome(step: Step, result: Shared)

  /** `shareDisplayMedia()`. Declined (nothing changes) when a local or
      remote screen share exists; otherwise one display connector per
      existing connector, then the display stream is acquired
      (`displayAcquired`) and its `ended` listener bound. Without a display
      stream that binding throws, so `displayState` is left as it was. */
  function ShareDisplayMedia(c: Client, env: Env, displayAcquired: bool): (r: ShareOutcome)
    ensures HasDisplay(c) ==> r == ShareOutcome(Step(c, []), Declined)
    ensures !HasDisplay(c) ==>
      && r.result == (if displayAcquired then Shared else BindFailed)
      && r.step.client.displayState == (displayAcquired || c.displayState)
    ensures !HasDisplay(c) && Valid(c) ==>
      && r.step.client.nextId == c.nextId + |c.order|
      && r.step.client.order == c.order + Range(c.nextId, |c.order|)
  {
    if HasDisplay(c) then ShareOutcome(Step(c, []), Declined)
    else
      TargetsCount(c);
      var added := DisplayConnectors(c, env, ShareTargets(c.conns, c.order));
      if displayAcquired then
        ShareOutcome(Step(added.client.(displayState := true), added.effects), Shared)
      else
        ShareOutcome(added, BindFailed)
  }

  /** Without a screen share, `shareDisplayMedia` adds one display connector
      per existing connector, offers to each existing connector's member in
      insertion order, leaves the existing entries alone and keeps the
      registry invariant. */
  lemma ShareDisplayMediaAdds(c: Client, env: Env, displayAcquired: bool)
    requires Valid(c) && !HasDisplay(c)
    ensures var r := ShareDisplayMedia(c, env, displayAcquired).step;
      && AddsDisplays(c, |c.order|, r.client.conns)
      && r.effects == DisplayOffers(env, c.nextId, seq(|c.order|, i requires 0 <= i < |c.order| => c.conns[c.order[i]].memberId))
      && Valid(r.client)
  {
    var targets := ShareTargets(c.conns, c.order);
    TargetsOfValid(c);
    ShareStep(c, env, displayAcquired);
    DisplayConnectorsAdds(c, env, targets);
    var a := DisplayConnectors(c, env, targets).client;
    ValidIgnoresDisplayState(a, a.displayState || displayAcquired);
  }

  /** The registry `conns` holds the entries of `c` unchanged and a display
      connector under each of the `n` ids after them, and nothing else. */
  ghost predicate AddsDisplays(c: Client, n: nat, conns: map<ConnectorId, Connector>) {
    && (forall k :: k in conns <==> k in c.conns || c.nextId <= k < c.nextId + n)
    && (forall k :: k in c.conns ==> k in conns && conns[k] == c.conns[k])
    && (forall k :: c.nextId <= k < c.nextId + n ==> k in conns && conns[k].kind == Display)
  }

  lemma ValidIgnoresDisplayState(c: Client, b: bool)
    requires Valid(c)
    ensures Valid(c.(displayState := b))
  {
  }

  /** `DisplayConnectors` from a valid registry: the entries it adds and
      keeps, and the invariant. */
  lemma DisplayConnectorsAdds(c: Client, env: Env, targets: seq<Option<MemberId>>)
    requires Valid(c)
    ensures AddsDisplays(c, |targets|, DisplayConnectors(c, env, targets).client.conns)
    ensures Valid(DisplayConnectors(c, env, targets).client)
  {
    DisplayConnectorsEntries(c, env, targets);
  }

  lemma TargetsCount(c: Client)
    requires !HasDisplay(c)
    ensures Valid(c) ==> |ShareTargets(c.conns, c.order)| == |c.order|
  {
    if Valid(c) {
      TargetsOfValid(c);
    }
  }

  /** Without a screen share every connector is a target, in order. */
  lemma TargetsOfValid(c: Client)
    requires Valid(c) && !HasDisplay(c)
    ensures |ShareTargets(c.conns, c.order)| == |c.order|
    ensures ShareTargets(c.conns, c.order) == seq(|c.order|, i requires 0 <= i < |c.order| => c.conns[c.order[i]].memberId)
  {
    assert forall i :: 0 <= i < |c.order| ==> c.order[i] in c.conns && !IsDisplayKind(c.conns[c.order[i]].kind);
  }

  /** The registry after `shareDisplayMedia` is the one the display
      connectors leave, whether or not the stream was acquired. */
  lemma ShareStep(c: Client, env: Env, displayAcquired: bool)
    requires !HasDisplay(c)
    ensures var r := ShareDisplayMedia(c, env, displayAcquired).step;
      var a := DisplayConnectors(c, env, ShareTargets(c.conns, c.order));
      && r.client == a.client.(displayState := a.client.displayState || displayAcquired)
      && r.effects == a.effects
  {
  }

  /** `getOfferMessage({memberId})`: a display connector first when this
      client is sharing its screen, then a user connector; each sends an
      offer to the new member once its media and SDP steps succeed. */
  function GetOffer(c: Client, env: Env, from: MemberId): (r: Step)
    ensures var d := if c.displayState then 1 else 0;
      && r.client.nextId == c.nextId + d + 1
      && r.client.order == c.order + Range(c.nextId, d + 1)
      && c.nextId + d in r.client.conns && r.client.conns[c.nextId + d].kind == User
      && (c.displayState ==> c.nextId in r.client.conns && r.client.conns[c.nextId].kind == Display)
      && (forall k :: k in c.conns && k < c.nextId ==> k in r.client.conns && r.client.conns[k] == c.conns[k])
      && r.client.displayState == c.displayState
      && r.effects ==
           (if c.displayState && env.mediaOk(c.nextId) && env.sdpOk(c.nextId) then [SendOffer(c.nextId, Some(from), Display)] else [])
         + (if env.mediaOk(c.nextId + d) && env.sdpOk(c.nextId + d) then [SendOffer(c.nextId + d, Some(from), User)] else [])
    ensures Valid(c) ==> Valid(r.client)
  {
    var display := if c.displayState then CreateDisplayWebRtc(c, env, Some(from)) else Step(c, []);
    var created := CreateConnector(display.client, User, env);
    var offer := if created.ok && env.sdpOk(created.id) then [SendOffer(created.id, Some(from), User)] else [];
    assert c.displayState ==> c.order + Range(c.nextId, 2) == c.order + [c.nextId] + [c.nextId + 1];
    Step(created.client, display.effects + offer)
  }

  /** The kind of connector an incoming offer creates: a user connector for
      a `user` offer, a remote-display connector for any other or no type. */
  function AnswerKind(kind: Option<StreamType>): (k: StreamType)
    ensures k == User <==> kind == Some(User)
    ensures k != Display
  {
    if kind == Some(User) then User else RemoteDisplay
  }

  /** `offerMessage(data)`. The sender's member id and connector id are
      recorded only once `createConnector` has returned, so not when the
      media step failed; the answer is sent once the SDP steps succeed. */
  function Offer(c: Client, env: Env, msg: OfferMessage): (r: Step)
    ensures var id := c.nextId;
      && r.client.order == c.order + [id]
      && r.client.nextId == id + 1
      && id in r.client.conns
      && r.client.conns[id].kind == AnswerKind(msg.kind)
      && r.client.conns[id].remoteStream.None?
      && (MediaAttached(env, AnswerKind(msg.kind), id) ==>
            r.client.conns[id].memberId == Some(msg.memberId)
            && r.client.conns[id].remoteConnectorId == Some(msg.remoteConnectorId)
            && r.client.conns[id].bound)
      && (!MediaAttached(env, AnswerKind(msg.kind), id) ==>
            r.client.conns[id] == Connector(AnswerKind(msg.kind), None, None, None, false))
      && (forall k :: k in c.conns && k != id ==> k in r.client.conns && r.client.conns[k] == c.conns[k])
      && r.client.displayState == c.displayState
      && r.effects == (if MediaAttached(env, AnswerKind(msg.kind), id) && env.sdpOk(id)
                       then [SendAnswer(msg.remoteConnectorId, id, msg.memberId)] else [])
    ensures Valid(c) ==> Valid(r.client)
  {
    var created := CreateConnector(c, AnswerKind(msg.kind), env);
    if !created.ok then Step(created.client, [])
    else
      var id := created.id;
      var conn := created.client.conns[id].(memberId := Some(msg.memberId), remoteConnectorId := Some(msg.remoteConnectorId));
      var client := created.client.(conns := created.client.conns[id := conn]);
      Step(client, if env.sdpOk(id) then [SendAnswer(msg.remoteConnectorId, id, msg.memberId)] else [])
  }

  /** `answerMessage(data)`: an unknown connector id is ignored; otherwise
      the answering member and its connector id are recorded. */
  function Answer(c: Client, msg: AnswerMessage): (r: Step)
    ensures msg.connectorId !in c.conns ==> r == Step(c, [])
    ensures msg.connectorId in c.conns ==>
      && r.effects == []
      && r.client.order == c.order && r.client.nextId == c.nextId && r.client.displayState == c.displayState
      && r.client.conns.Keys == c.conns.Keys
      && r.client.conns[msg.connectorId]
         == c.conns[msg.connectorId].(memberId := Some(msg.memberId), remoteConnectorId := Some(msg.remoteConnectorId))
      && (forall k :: k in c.conns && k != msg.connectorId ==> r.client.conns[k] == c.conns[k])
    ensures Valid(c) ==> Valid(r.client)
  {
    if msg.connectorId !in c.conns then Step(c, [])
    else
      var conn := c.conns[msg.connectorId].(memberId := Some(msg.memberId), remoteConnectorId := Some(msg.remoteConnectorId));
      Step(c.(conns := c.conns[msg.connectorId := conn]), [])
  }

  /** `icecandidateMessage(data)`: hands the candidate to a known
      connector's peer connection; an unknown id is ignored. */
  function IceCandidateMessage(c: Client, connectorId: ConnectorId, candidate: Candidate): (r: Step)
    ensures r.client == c
    ensures connectorId !in c.conns ==> r.effects == []
    ensures connectorId in c.conns ==> r.effects == [AddIceCandidate(connectorId, candidate)]
  {
    if connectorId !in c.conns then Step(c, []) else Step(c, [AddIceCandidate(connectorId, candidate)])
  }

  /** A JavaScript string is truthy when it is not empty. */
  predicate Truthy(s: Option<MemberId>) {
    s.Some? && s.value != ""
  }

  /** `onicecandidate(connectorInfo, event)`: a candidate found by a bound,
      live connector's connection is forwarded only when the connector knows
      its peer's connector id and member id and the event carries a
      candidate (`null` marks the end of gathering). */
  function LocalIceCandidate(c: Client, connectorId: ConnectorId, candidate: Option<Candidate>): (r: Step)
    ensures r.client == c
    ensures |r.effects| <= 1
    ensures r.effects != [] <==>
      && connectorId in c.conns && c.conns[connectorId].bound
      && c.conns[connectorId].remoteConnectorId.Some?
      && Truthy(c.conns[connectorId].memberId)
      && candidate.Some?
    ensures r.effects != [] ==> r.effects == [SendIceCandidate(c.conns[connectorId].remoteConnectorId.value,
                                                                 c.conns[connectorId].memberId.value, candidate.value)]
  {
    if connectorId !in c.conns || !c.conns[connectorId].bound then Step(c, [])
    else
      var conn := c.conns[connectorId];
      if conn.remoteConnectorId.Some? && Truthy(conn.memberId) && candidate.Some? then
        Step(c, [SendIceCandidate(conn.remoteConnectorId.value, conn.memberId.value, candidate.value)])
      else Step(c, [])
  }

  /** `ontrack(connectorInfo, event)`: records `event.streams[0]` on a bound,
      live connector and asks for a roster notification. */
  function Track(c: Client, connectorId: ConnectorId, stream: Option<StreamId>): (r: Step)
    ensures connectorId !in c.conns || !c.conns[connectorId].bound ==> r == Step(c, [])
    ensures connectorId in c.conns && c.conns[connectorId].bound ==>
      && r.effects == [RosterChanged]
      && r.client == c.(conns := c.conns[connectorId := c.conns[connectorId].(remoteStream := stream)])
  {
    if connectorId !in c.conns || !c.conns[connectorId].bound then Step(c, [])
    else Step(c.(conns := c.conns[connectorId := c.conns[connectorId].(remoteStream := stream)]), [RosterChanged])
  }

  /** `displayStreamEnded()`: only the flag is cleared; display connectors
      stay open. */
  function DisplayStreamEnded(c: Client): (r: Client)
    ensures !r.displayState
    ensures r.conns == c.conns && r.order == c.order && r.nextId == c.nextId
  {
    c.(displayState := false)
  }

  /** `ks` with every occurrence of `k` removed. */
  function Without(ks: seq<ConnectorId>, k: ConnectorId): (r: seq<ConnectorId>)
    ensures forall x :: x in r <==> x in ks && x != k
    ensures |r| <= |ks|
    ensures k in ks ==> |r| < |ks|
    ensures (forall i, j :: 0 <= i < j < |ks| ==> ks[i] != ks[j]) ==> forall i, j :: 0 <= i < j < |r| ==> r[i] != r[j]
  {
    if |ks| == 0 then []
    else if ks[0] == k then Without(ks[1..], k)
    else
      var rest := Without(ks[1..], k);
      assert (forall i, j :: 0 <= i < j < |ks| ==> ks[i] != ks[j]) ==> ks[0] !in ks[1..];
      assert forall i :: 0 < i < |[ks[0]] + rest| ==> ([ks[0]] + rest)[i] == rest[i - 1];
      [ks[0]] + rest
  }

  /** `closeWebRTCbyId(connectorId)`: closes and removes that connector
      only; an unknown id leaves the registry as it is. A roster
      notification is requested either way. */
  function CloseById(c: Client, connectorId: ConnectorId): (r: Step)
    ensures r.client.conns == c.conns - {connectorId}
    ensures r.client.nextId == c.nextId && r.client.displayState == c.displayState
    ensures connectorId !in c.conns ==> r.client == c && r.effects == [RosterChanged]
    ensures connectorId in c.conns ==> r.effects == [CloseConnection(connectorId), RosterChanged]
    ensures Valid(c) ==> Valid(r.client)
  {
    if connectorId !in c.conns then Step(c, [RosterChanged])
    else
      Step(c.(conns := c.conns - {connectorId}, order := Without(c.order, connectorId)),
           [CloseConnection(connectorId), RosterChanged])
  }

  /** The effects of closing the listed connectors one after another. */
  function CloseEffects(ks: seq<ConnectorId>): seq<Effect> {
    if |ks| == 0 then [] else [CloseConnection(ks[0]), RosterChanged] + CloseEffects(ks[1..])
  }

  /** `exitMessage(data)`: the peer left; its connector is closed. */
  function Exit(c: Client, connectorId: ConnectorId): (r: Step)
    ensures r.client.conns == c.conns - {connectorId}
    ensures Valid(c) ==> Valid(r.client)
  {
    CloseById(c, connectorId)
  }

  /** `closeAllWebRTC()`: closes every connector, in insertion order. */
  method CloseAll(c: Client) returns (r: Step)
    requires Valid(c)
    ensures r.client.conns == map[] && r.client.order == []
    ensures r.client.nextId == c.nextId && r.client.displayState == c.displayState
    ensures r.effects == CloseEffects(c.order)
  {
    var cur := c;
    var effects: seq<Effect> := [];
    while |cur.order| > 0
      invariant Valid(cur)
      invariant cur.nextId == c.nextId && cur.displayState == c.displayState
      invariant effects + CloseEffects(cur.order) == CloseEffects(c.order)
      decreases |cur.order|
    {
      var k := cur.order[0];
      CloseHead(cur);
      var next := CloseById(cur, k).client;
      assert CloseEffects(cur.order) == [CloseConnection(k), RosterChanged] + CloseEffects(next.order);
      effects := effects + [CloseConnection(k), RosterChanged];
      cur := next;
    }
    assert cur.conns.Keys == {};
    r := Step(cur, effects);
  }

  /** Closing the oldest connector drops the head of the order. */
  lemma CloseHead(c: Client)
    requires Valid(c) && |c.order| > 0
    ensures CloseById(c, c.order[0]).client.order == c.order[1..]
    ensures CloseById(c, c.order[0]).effects == [CloseConnection(c.order[0]), RosterChanged]
    ensures Valid(CloseById(c, c.order[0]).client)
  {
    assert c.order[0] in c.conns;
    WithoutHead(c.order);
  }

  /** Removing the head of a duplicate-free sequence leaves its tail. */
  lemma WithoutHead(ks: seq<ConnectorId>)
    requires |ks| > 0
    requires forall i, j :: 0 <= i < j < |ks| ==> ks[i] != ks[j]
    ensures Without(ks, ks[0]) == ks[1..]
  {
    WithoutAbsent(ks[1..], ks[0]);
  }

  lemma {:induction false} WithoutAbsent(ks: seq<ConnectorId>, k: ConnectorId)
    requires k !in ks
    ensures Without(ks, k) == ks
  {
    if |ks| > 0 {
      WithoutAbsent(ks[1..], k);
    }
  }

  /** `sendExit()`: nothing when the registry is empty, otherwise one `exit`
      message listing every connector's peer, in insertion order. */
  function ExitNotice(c: Client): (r: seq<Effect>)
    requires Valid(c)
    ensures |c.conns| == 0 <==> r == []
    ensures r != [] ==>
      && |r| == 1 && r[0].SendExit? && |r[0].peers| == |c.order|
      && forall i :: 0 <= i < |c.order| ==>
           r[0].peers[i] == ExitEntry(c.conns[c.order[i]].remoteConnectorId, c.conns[c.order[i]].memberId)
  {
    if |c.order| == 0 then
      assert c.conns.Keys == {};
      []
    else
      assert c.order[0] in c.conns;
      [SendExit(seq(|c.order|, i requires 0 <= i < |c.order| =>
         ExitEntry(c.conns[c.order[i]].remoteConnectorId, c.conns[c.order[i]].memberId)))]
  }

  /** `close()`, as far as the registry goes: the exit notice, then every
      connector closed. The device release and the socket close that follow
      are outside the registry. */
  method Close(c: Client) returns (r: Step)
    requires Valid(c)
    ensures r.client.conns == map[] && r.client.order == []
    ensures r.client.displayState == c.displayState
    ensures r.effects == ExitNotice(c) + CloseEffects(c.order)
  {
    var closed := CloseAll(c);
    r := Step(closed.client, ExitNotice(c) + closed.effects);
  }

  /** One entry of the roster notification: a `ConnectorInfo` carries its
      own `connectorId`. */
  datatype Listed = Listed(connectorId: ConnectorId, connector: Connector)

  /** The connectors listed in the roster notification, in insertion order:
      every connector except the local display ones. */
  function Roster(conns: map<ConnectorId, Connector>, ks: seq<ConnectorId>): (r: seq<Listed>)
    requires forall i :: 0 <= i < |ks| ==> ks[i] in conns
    ensures |r| <= |ks|
    ensures forall j :: 0 <= j < |r| ==>
      && r[j].connectorId in ks && r[j].connectorId in conns
      && r[j].connector == conns[r[j].connectorId] && r[j].connector.kind != Display
  {
    if |ks| == 0 then []
    else
      var rest := Roster(conns, ks[1..]);
      if conns[ks[0]].kind == Display then rest else [Listed(ks[0], conns[ks[0]])] + rest
  }

  /** The roster of one more key is the roster of the others followed by
      that key's entry, unless it is a local display connector: the roster
      is the key order filtered, nothing reordered. */
  lemma {:induction false} RosterSnoc(conns: map<ConnectorId, Connector>, ks: seq<ConnectorId>, k: ConnectorId)
    requires forall i :: 0 <= i < |ks| ==> ks[i] in conns
    requires k in conns
    ensures Roster(conns, ks + [k])
      == Roster(conns, ks) + (if conns[k].kind == Display then [] else [Listed(k, conns[k])])
    decreases |ks|
  {
    if |ks| == 0 {
      assert ks + [k] == [k];
    } else {
      assert (ks + [k])[0] == ks[0];
      assert (ks + [k])[1..] == ks[1..] + [k];
      RosterSnoc(conns, ks[1..], k);
    }
  }

  /** An entry is in the roster exactly when its id is listed, it carries
      that id's connector, and that connector is not a local display one. */
  lemma {:induction false} RosterMembers(conns: map<ConnectorId, Connector>, ks: seq<ConnectorId>, x: Listed)
    requires forall i :: 0 <= i < |ks| ==> ks[i] in conns
    ensures x in Roster(conns, ks) <==>
      x.connectorId in ks && x.connector == conns[x.connectorId] && x.connector.kind != Display
  {
    if |ks| > 0 {
      RosterMembers(conns, ks[1..], x);
      assert x.connectorId in ks ==> x.connectorId == ks[0] || x.connectorId in ks[1..];
    }
  }

  predicate DistinctIds(r: seq<Listed>) {
    forall i, j :: 0 <= i < j < |r| ==> r[i].connectorId != r[j].connectorId
  }

  /** Listed keys that are all different give entries with different ids. */
  lemma {:induction false} RosterIdsDistinct(conns: map<ConnectorId, Connector>, ks: seq<ConnectorId>)
    requires forall i :: 0 <= i < |ks| ==> ks[i] in conns
    requires Distinct(ks)
    ensures DistinctIds(Roster(conns, ks))
  {
    if |ks| > 0 {
      RosterIdsDistinct(conns, ks[1..]);
      var rest := Roster(conns, ks[1..]);
      if conns[ks[0]].kind != Display {
        var r := Roster(conns, ks);
        assert r == [Listed(ks[0], conns[ks[0]])] + rest;
        forall j | 0 <= j < |rest|
          ensures rest[j].connectorId != ks[0]
        {
          var i :| 0 <= i < |ks[1..]| && ks[1..][i] == rest[j].connectorId;
          assert ks[i + 1] == rest[j].connectorId;
        }
        forall i, j | 0 <= i < j < |r|
          ensures r[i].connectorId != r[j].connectorId
        {
          assert r[j] == rest[j - 1];
          if i > 0 {
            assert r[i] == rest[i - 1];
          }
        }
      }
    }
  }

  function Ids(r: seq<Listed>): (ids: seq<ConnectorId>)
    ensures |ids| == |r| && forall j :: 0 <= j < |r| ==> ids[j] == r[j].connectorId
  {
    seq(|r|, j requires 0 <= j < |r| => r[j].connectorId)
  }

  function Members(s: seq<ConnectorId>): set<ConnectorId> {
    set x | x in s
  }

  predicate Distinct(s: seq<ConnectorId>) {
    forall i, j :: 0 <= i < j < |s| ==> s[i] != s[j]
  }

  /** A sequence without repeats has as many elements as its set. */
  lemma {:induction false} DistinctCard(s: seq<ConnectorId>)
    requires Distinct(s)
    ensures |Members(s)| == |s|
  {
    if |s| > 0 {
      assert Distinct(s[1..]) by {
        forall i, j | 0 <= i < j < |s[1..]|
          ensures s[1..][i] != s[1..][j]
        {
          assert s[1..][i] == s[i + 1] && s[1..][j] == s[j + 1];
        }
      }
      DistinctCard(s[1..]);
      var tail := Members(s[1..]);
      assert s[0] !in tail by {
        forall i | 0 <= i < |s[1..]|
          ensures s[1..][i] != s[0]
        {
          assert s[1..][i] == s[i + 1];
        }
      }
      assert Members(s) == tail + {s[0]};
    }
  }

  /** Over keys without repeats, the roster's ids have no repeats and are
      exactly the keys of connectors that are not local display ones. */
  lemma RosterIdsExact(conns: map<ConnectorId, Connector>, ks: seq<ConnectorId>)
    requires forall i :: 0 <= i < |ks| ==> ks[i] in conns
    requires Distinct(ks)
    ensures Distinct(Ids(Roster(conns, ks)))
    ensures forall k :: k in Ids(Roster(conns, ks)) <==> k in ks && conns[k].kind != Display
  {
    var r := Roster(conns, ks);
    var ids := Ids(r);
    RosterIdsDistinct(conns, ks);
    forall i, j | 0 <= i < j < |ids|
      ensures ids[i] != ids[j]
    {
      assert ids[i] == r[i].connectorId && ids[j] == r[j].connectorId;
    }
    forall k ensures k in ids <==> k in ks && conns[k].kind != Display {
      if k in ids {
        var j :| 0 <= j < |ids| && ids[j] == k;
        assert r[j].connectorId == k;
      }
      if k in ks && conns[k].kind != Display {
        RosterMembers(conns, ks, Listed(k, conns[k]));
        var j :| 0 <= j < |r| && r[j] == Listed(k, conns[k]);
        assert ids[j] == k;
      }
    }
  }

  /** Over keys without repeats, the roster has one entry per key of a
      connector that is not a local display one. */
  lemma RosterCount(conns: map<ConnectorId, Connector>, ks: seq<ConnectorId>, listed: set<ConnectorId>)
    requires forall i :: 0 <= i < |ks| ==> ks[i] in conns
    requires Distinct(ks)
    requires forall k :: k in listed <==> k in ks && conns[k].kind != Display
    ensures |Roster(conns, ks)| == |listed|
  {
    var ids := Ids(Roster(conns, ks));
    RosterIdsExact(conns, ks);
    DistinctCard(ids);
    assert Members(ids) == listed;
  }

  /** The ids of the connectors a roster may list: all but the local
      display ones. */
  function Listable(conns: map<ConnectorId, Connector>): set<ConnectorId> {
    set k | k in conns && conns[k].kind != Display
  }

  /** The roster of a registry lists each user and remote-display
      connector once, with its id, and nothing else: as many entries as
      there are such connectors. */
  lemma RosterOfClient(c: Client)
    requires Valid(c)
    ensures forall x :: x in Roster(c.conns, c.order) ==> x.connector.kind != Display
    ensures forall k :: k in c.conns && c.conns[k].kind != Display ==> Listed(k, c.conns[k]) in Roster(c.conns, c.order)
    ensures |Roster(c.conns, c.order)| == |Listable(c.conns)|
  {
    forall x | x in Roster(c.conns, c.order)
      ensures x.connector.kind != Display
    {
      RosterMembers(c.conns, c.order, x);
    }
    forall k | k in c.conns && c.conns[k].kind != Display
      ensures Listed(k, c.conns[k]) in Roster(c.conns, c.order)
    {
      RosterMembers(c.conns, c.order, Listed(k, c.conns[k]));
    }
    RosterCount(c.conns, c.order, Listable(c.conns));
  }

  /** Closing a connector twice is the same as closing it once: the second
      close finds no entry and only asks for a roster notification. */
  lemma CloseByIdTwice(c: Client, connectorId: ConnectorId)
    ensures CloseById(CloseById(c, connectorId).client, connectorId) == Step(CloseById(c, connectorId).client, [RosterChanged])
  {
  }

  /** A two-party handshake: A receives `getOffer` for B, B answers A's
      offer, A records B's answer; both connectors end up naming each
      other. */
  lemma Handshake(env: Env)
    requires env.mediaOk(0) && env.sdpOk(0)
    ensures var a1 := GetOffer(Initial(), env, "B");
      && a1.effects == [SendOffer(0, Some("B"), User)]
      && var b1 := Offer(Initial(), env, OfferMessage(0, "A", Some(User)));
      && b1.effects == [SendAnswer(0, 0, "A")]
      && var a2 := Answer(a1.client, AnswerMessage(0, 0, "B"));
      && a2.client.conns[0] == Connector(User, Some("B"), Some(0), None, true)
      && b1.client.conns[0] == Connector(User, Some("A"), Some(0), None, true)
  {
    var a1 := GetOffer(Initial(), env, "B");
    var b1 := Offer(Initial(), env, OfferMessage(0, "A", Some(User)));
    assert a1.client.conns[0] == Connector(User, None, None, None, true);
    var a2 := Answer(a1.client, AnswerMessage(0, 0, "B"));
    assert a2.client.conns[0] == Connector(User, Some("B"), Some(0), None, true);
  }
}
