/**
 The guest socket table (crates/mcr-net/src/table.rs): socket states, host entries with generation-stamped
 readiness tokens, and the readiness cache. What the host answers is a parameter of each call.
 */
module SocketTables {
  import opened Ranges

  datatype Domain = Unix | Inet | Inet6

  datatype SocketType = Stream | Datagram

  datatype Protocol = Default | Tcp | Udp

  datatype Address = Address(domain: Domain, bytes: seq<Byte>)

  datatype SocketState =
    | Created
    | Bound(address: Address)
    | Connecting(address: Address)
    | Listening(address: Address)
    | Connected(local: Address, peer: Address)
    | Closed

  datatype Spec = Spec(domain: Domain, socketType: SocketType, protocol: Protocol)

  datatype Socket = Socket(spec: Spec, state: SocketState, readShut: bool, writeShut: bool)

  datatype Token = Token(socket: nat, generation: nat)

  datatype Events = Events(readable: bool, writable: bool, priority: bool, error: bool, hangUp: bool, invalid: bool)

  datatype Completion = Completion(token: Token, readiness: Events)

  datatype SocketError =
    | BadSocket | InvalidState | InvalidInput | Unsupported | WouldBlock | InProgress | HostError | Exhausted

  type Outcome<+T> = Result<T, SocketError>

  // What the host answers

  datatype HostReply = Done | Again | Failed

  datatype ConnectReply = Established(local: Address, peer: Address) | Pending | Refused

  datatype AcceptReply = Accepted(peer: Address) | NoneWaiting | AcceptFailed

  datatype FinishReply = StillPending | FinishFailed | ConnectFailed | Finished(local: Address, peer: Address)

  // Values

  predicate ProtocolFits(spec: Spec) {
    spec.protocol == Default || (spec.socketType == Stream && spec.protocol == Tcp)
        || (spec.socketType == Datagram && spec.protocol == Udp)
  }

  function EffectiveProtocol(spec: Spec): Protocol {
    if spec.domain == Unix && spec.protocol == Default then Default
    else if spec.protocol == Default then (if spec.socketType == Stream then Tcp else Udp)
    else spec.protocol
  }

  function LocalAddress(state: SocketState): Option<Address> {
    match state
    case Bound(a) => Some(a)
    case Listening(a) => Some(a)
    case Connected(local, _) => Some(local)
    case _ => None
  }

  function PeerAddress(state: SocketState): Option<Address> {
    if state.Connected? then Some(state.peer) else None
  }

  function Unspecified(domain: Domain): Address {
    Address(domain, [])
  }

  function LocalOr(state: SocketState, otherwise: Address): Address {
    var local := LocalAddress(state);
    if local.Some? then local.value else otherwise
  }

  /** A datagram socket's peer is the address it asked for; a stream socket's is what the host reports. */
  function PeerOf(spec: Spec, reported: Address, asked: Address): Address {
    if spec.socketType == Datagram && EffectiveProtocol(spec) == Udp then asked else reported
  }

  function Merge(target: Events, update: Events): Events {
    Events(target.readable || update.readable, target.writable || update.writable, target.priority || update.priority,
           target.error || update.error, target.hangUp || update.hangUp, target.invalid || update.invalid)
  }

  function ForInterest(readiness: Events, interest: Events): Events {
    readiness.(readable := readiness.readable && interest.readable,
    writable := readiness.writable && interest.writable,
    priority := readiness.priority && interest.priority)
  }

  const NoEvents: Events := Events(false, false, false, false, false, false)

  function ConnectedIo(socket: Socket): Option<SocketError> {
    var tcp := socket.spec.socketType == Stream && EffectiveProtocol(socket.spec) == Tcp;
    var udp := socket.spec.socketType == Datagram && EffectiveProtocol(socket.spec) == Udp;
    if !tcp && !udp then Some(Unsupported)
    else if socket.state.Connected? then None
    else if socket.state.Closed? then Some(BadSocket)
    else Some(InvalidState)
  }

  function DatagramIo(socket: Socket): Option<SocketError> {
    if socket.spec.socketType != Datagram || EffectiveProtocol(socket.spec) != Udp then Some(Unsupported)
    else if socket.state.Listening? then Some(InvalidState)
    else if socket.state.Closed? then Some(BadSocket)
    else None
  }

  // The table

  datatype Table = Table(
    nextId: nat,
    nextGeneration: nat,
    sockets: map<nat, Socket>,
    entries: map<nat, Token>,
    cache: map<Token, Events>
  )

  /** Ids below the next one, entries of sockets under their own tokens, and only live tokens of open sockets cached. */
  ghost predicate Inv(t: Table) {
    && t.nextId < U64_LIMIT && t.nextGeneration < U64_LIMIT
    && (forall id :: id in t.sockets ==> 0 < id && (t.nextId == 0 || id < t.nextId) && ProtocolFits(t.sockets[id].spec))
    && (forall id :: id in t.sockets && t.sockets[id].state.Listening? ==> t.sockets[id].spec.socketType == Stream)
    && (forall id :: id in t.entries ==>
          id in t.sockets && t.entries[id].socket == id && t.entries[id].generation < t.nextGeneration)
    && (forall token :: token in t.cache ==>
          token.socket in t.entries && t.entries[token.socket] == token && !t.sockets[token.socket].state.Closed?)
  }

  /** No closed socket has a host entry. */
  ghost predicate Tidy(t: Table) {
    forall id :: id in t.entries && id in t.sockets ==> !t.sockets[id].state.Closed?
  }

  /** How the state of one socket may change in one operation. */
  predicate Allowed(socketType: SocketType, before: SocketState, after: SocketState) {
    || after == before
    || after.Closed?
    || (before.Created? && (after.Bound? || after.Connecting? || after.Connected?))
    || (before.Bound? && (after.Connecting? || after.Connected?))
    || (before.Bound? && socketType == Stream && after == Listening(before.address))
    || (before.Connecting? && (after.Connected? || after.Created?))
  }

  ghost predicate Keeps(before: Socket, after: Socket) {
    after.spec == before.spec
        && (after == before || (!before.state.Closed? && Allowed(before.spec.socketType, before.state, after.state)))
  }

  /** What every operation does at most. */
  ghost predicate Moves(s: Table, t: Table) {
    && Inv(t) && s.nextGeneration <= t.nextGeneration
    && (forall id :: id in s.sockets ==> id in t.sockets && Keeps(s.sockets[id], t.sockets[id]))
    && (forall id :: id in t.sockets && id !in s.sockets ==>
        s.nextId != 0 && s.nextId <= id && Opened(t.sockets[id].state))
    && (forall id :: id in t.entries ==>
          (id in s.entries && t.entries[id] == s.entries[id]) || s.nextGeneration <= t.entries[id].generation)
    && (t.nextId == 0 || 0 < s.nextId <= t.nextId)
  }

  /** What every operation but asking a closed socket for a capability does at most. */
  ghost predicate Advances(s: Table, t: Table) {
    Moves(s, t) && (Tidy(s) ==> Tidy(t))
  }

  /** How a socket begins: created by the guest, or already connected by accept. */
  predicate Opened(state: SocketState) {
    state.Created? || state.Connected?
  }

  class SocketTable {
    var nextId: U64
    var nextGeneration: U64
    var sockets: map<nat, Socket>
    var entries: map<nat, Token>
    var cache: map<Token, Events>
    const hasTransport: bool

    ghost function Value(): Table
      reads this
    {
      Table(nextId, nextGeneration, sockets, entries, cache)
    }

    ghost predicate Valid()
      reads this
    {
      Inv(Value())
    }

    constructor (hasTransport: bool)
      ensures Valid() && Value() == Table(1, 1, map[], map[], map[]) && this.hasTransport == hasTransport
    {
      nextId, nextGeneration, sockets, entries, cache := 1, 1, map[], map[], map[];
      this.hasTransport := hasTransport;
    }

    // Allocation

    method AllocateId() returns (r: Outcome<nat>)
      requires Valid()
      modifies this`nextId
      ensures Valid() && Advances(old(Value()), Value())
      ensures r.Ok? <==> old(nextId) != 0
      ensures r.Ok? ==> r.value == old(nextId) && r.value !in sockets && (nextId == 0 || r.value < nextId)
    {
      if nextId == 0 {
        return Err(Exhausted);
      }
      r := Ok(nextId);
      nextId := if nextId + 1 < U64_LIMIT then nextId + 1 else 0;
    }

    method AllocateToken(id: nat) returns (r: Outcome<Token>)
      requires Valid()
      modifies this`nextGeneration
      ensures Valid() && Advances(old(Value()), Value())
      ensures r.Ok? <==> old(nextGeneration) + 1 < U64_LIMIT
      ensures r.Ok? ==> r.value == Token(id, old(nextGeneration)) && nextGeneration == old(nextGeneration) + 1
      ensures r.Err? ==> Value() == old(Value())
    {
      if nextGeneration + 1 >= U64_LIMIT {
        return Err(Exhausted);
      }
      r := Ok(Token(id, nextGeneration));
      nextGeneration := nextGeneration + 1;
    }

    method CreateSocket(spec: Spec) returns (r: Outcome<nat>)
      requires Valid()
      modifies this
      ensures Valid() && Advances(old(Value()), Value())
      ensures r.Ok? <==> ProtocolFits(spec) && old(nextId) != 0
      ensures r.Ok? ==> r.value !in old(sockets)
                        && sockets == old(sockets)[r.value := Socket(spec, Created, false, false)]
      ensures entries == old(entries) && cache == old(cache) && nextGeneration == old(nextGeneration)
    {
      hide Inv, Advances;
      AdvancesReflexive(Value());
      ghost var before := Value();
      if !ProtocolFits(spec) {
        return Err(Unsupported);
      }
      r := AllocateId();
      if r.Ok? {
        SocketAdded(before, Value(), Socket(spec, Created, false, false), None);
        sockets := sockets[r.value := Socket(spec, Created, false, false)];
      }
    }

    /** A socket that comes with a host handle, in the given first state. */
    method CreateSocketWithHandle(spec: Spec, state: SocketState) returns (r: Outcome<nat>)
      requires Valid() && Opened(state)
      modifies this
      ensures Valid() && Advances(old(Value()), Value())
      ensures r.Ok? <==> ProtocolFits(spec) && old(nextId) != 0 && old(nextGeneration) + 1 < U64_LIMIT
      ensures r.Ok? ==> r.value !in old(sockets)
                        && sockets == old(sockets)[r.value := Socket(spec, state, false, false)]
                                  && entries == old(entries)[r.value := Token(r.value, old(nextGeneration))]
      ensures r.Err? ==> sockets == old(sockets) && entries == old(entries)
      ensures cache == old(cache)
    {
      hide Inv, Advances;
      AdvancesReflexive(Value());
      ghost var before := Value();
      if !ProtocolFits(spec) {
        return Err(Unsupported);
      }
      r := AllocateId();
      if r.Err? {
        return;
      }
      ghost var numbered := Value();
      var token := AllocateToken(r.value);
      AdvancesTransitive(before, numbered, Value());
      if token.Err? {
        return Err(token.error);
      }
      SocketAdded(before, Value(), Socket(spec, state, false, false), Some(token.value));
      sockets := sockets[r.value := Socket(spec, state, false, false)];
      entries := entries[r.value := token.value];
    }

    /** Never for Unix sockets; a socket that has a host entry keeps using it, any other needs a transport. */
    predicate UsesHost(id: nat): (r: bool)
      requires id in sockets
      reads this
      ensures id in entries ==> (r <==> sockets[id].spec.domain != Unix)
      ensures id !in entries ==> (r <==> sockets[id].spec.domain != Unix && hasTransport)
    {
      sockets[id].spec.domain != Unix && (hasTransport || id in entries)
    }

    /** Gives a socket a host entry if it has none; true means the host would block. */
    method EnsureHostEntry(id: nat, open: HostReply) returns (r: Result<(), bool>)
      requires Valid() && id in sockets
      modifies this`nextGeneration, this`entries
      ensures Valid() && Moves(old(Value()), Value())
      ensures !sockets[id].state.Closed? ==> Advances(old(Value()), Value())
      ensures r.Ok? <==> GetsEntry(old(Value()), id, open)
      ensures r.Ok? ==> id in entries && entries[id] == LiveToken(old(Value()), id) && entries[id].socket == id
                        && entries.Keys == old(entries.Keys) + {id}
      ensures r.Ok? ==> nextGeneration == old(nextGeneration) + (if id in old(entries) then 0 else 1)
      ensures r.Err? ==> Value() == old(Value())
      ensures r.Err? ==> r.error == (sockets[id].spec.domain != Unix && hasTransport && open.Again?)
      ensures forall k :: k in old(entries) ==> k in entries && entries[k] == old(entries)[k]
    {
      hide Inv, Moves;
      EntryAdded(Value(), id);
      if id in entries {
        return Ok(());
      }
      if sockets[id].spec.domain == Unix || !hasTransport || !open.Done? {
        return Err(sockets[id].spec.domain != Unix && hasTransport && open.Again?);
      }
      var token := AllocateToken(id);
      if token.Err? {
        return Err(false);
      }
      entries := entries[id := token.value];
      r := Ok(());
    }

    /** It has a host entry, or gets one now. */
    ghost predicate GetsEntry(t: Table, id: nat, open: HostReply)
      requires id in t.sockets
    {
      id in t.entries || Openable(t, id, open)
    }

    /** The host opens a socket for it, and there is a token to give it. */
    ghost predicate Openable(t: Table, id: nat, open: HostReply)
      requires id in t.sockets
    {
      t.sockets[id].spec.domain != Unix && hasTransport && open.Done? && t.nextGeneration + 1 < U64_LIMIT
    }

    method SetState(id: nat, state: SocketState)
      requires Valid() && id in sockets && !sockets[id].state.Closed? && !state.Closed?
      requires Allowed(sockets[id].spec.socketType, sockets[id].state, state)
      modifies this`sockets
      ensures Valid() && Advances(old(Value()), Value())
      ensures sockets == old(sockets)[id := old(sockets)[id].(state := state)]
    {
      hide Inv, Advances;
      SocketChanged(Value(), id, sockets[id].(state := state));
      sockets := sockets[id := sockets[id].(state := state)];
    }

    // Operations

    method Bind(id: nat, address: Address, open: HostReply, bound: Option<Address>) returns (r: Outcome<()>)
      requires Valid()
      modifies this`sockets, this`nextGeneration, this`entries
      ensures Valid() && Advances(old(Value()), Value())
      ensures r.Ok? <==>
                && id in old(sockets) && old(sockets)[id].state.Created?
                && address.domain == old(sockets)[id].spec.domain
                && (old(UsesHost(id)) ==> GetsEntry(old(Value()), id, open) && bound.Some?)
      ensures r.Ok? ==> sockets == old(sockets)[id := old(sockets)[id].(
                                     state := Bound(if old(UsesHost(id)) then bound.value else address))]
      ensures r.Err? ==> sockets == old(sockets)
      ensures id !in old(sockets) ==> r == Err(BadSocket)
    {
      hide Inv, Advances;
      AdvancesReflexive(Value());
      if id !in sockets {
        return Err(BadSocket);
      }
      if address.domain != sockets[id].spec.domain {
        return Err(InvalidInput);
      }
      ghost var before := Value();
      var state := sockets[id].state;
      if state.Created? && UsesHost(id) {
        var entry := EnsureHostEntry(id, open);
        if entry.Err? || bound.None? {
          return Err(HostError);
        }
        ghost var ensured := Value();
        SetState(id, Bound(bound.value));
        AdvancesTransitive(before, ensured, Value());
        return Ok(());
      }
      if state.Closed? {
        return Err(BadSocket);
      }
      if !state.Created? {
        return Err(InvalidState);
      }
      SetState(id, Bound(address));
      r := Ok(());
    }

    method Listen(id: nat, open: HostReply, reply: HostReply) returns (r: Outcome<()>)
      requires Valid()
      modifies this`sockets, this`nextGeneration, this`entries
      ensures Valid() && Advances(old(Value()), Value())
      ensures r.Ok? <==>
                && id in old(sockets) && old(sockets)[id].spec.socketType == Stream
                && (old(sockets)[id].state.Bound? || old(sockets)[id].state.Listening?)
                && (old(UsesHost(id)) ==> GetsEntry(old(Value()), id, open) && reply.Done?)
      ensures r.Ok? ==> sockets ==
                        old(sockets)[id := old(sockets)[id].(state := Listening(old(sockets)[id].state.address))]
      ensures r.Err? ==> sockets == old(sockets)
    {
      hide Inv, Advances;
      AdvancesReflexive(Value());
      if id !in sockets {
        return Err(BadSocket);
      }
      if sockets[id].spec.socketType != Stream {
        return Err(InvalidState);
      }
      ghost var before := Value();
      var state := sockets[id].state;
      if state.Closed? {
        return Err(BadSocket);
      }
      if !state.Bound? && !state.Listening? {
        return Err(InvalidState);
      }
      if UsesHost(id) {
        var entry := EnsureHostEntry(id, open);
        if entry.Err? || !reply.Done? {
          return Err(HostError);
        }
      }
      ghost var ensured := Value();
      SetState(id, Listening(state.address));
      AdvancesTransitive(before, ensured, Value());
      r := Ok(());
    }

    method Connect(id: nat, address: Address, open: HostReply, reply: ConnectReply) returns (r: Outcome<()>)
      requires Valid()
      modifies this`sockets, this`nextGeneration, this`entries
      ensures Valid() && Advances(old(Value()), Value())
      ensures r.Ok? <==>
                && MayConnect(old(Value()), id, address)
                && (old(UsesHost(id)) ==> GetsEntry(old(Value()), id, open) && reply.Established?)
      ensures r == Err(InProgress) <==>
                && MayConnect(old(Value()), id, address) && old(UsesHost(id))
                && (if GetsEntry(old(Value()), id, open) then reply.Pending? else hasTransport && open.Again?)
      ensures r.Ok? || r == Err(InProgress) ==>
                id in sockets && sockets == old(sockets)[id := old(sockets)[id].(state := sockets[id].state)]
      ensures r.Ok? && old(UsesHost(id)) ==>
                && sockets[id].state.Connected? && sockets[id].state.local == reply.local
                && sockets[id].state.peer == if sockets[id].spec.socketType == Datagram then address else reply.peer
      ensures r.Ok? && !old(UsesHost(id)) ==>
                && sockets[id].state.Connected? && sockets[id].state.peer == address
                && sockets[id].state.local == if old(sockets)[id].state.Bound? then old(sockets)[id].state.address
                                              else Address(address.domain, [])
      ensures r == Err(InProgress) ==> sockets[id].state == Connecting(address)
      ensures r.Err? && r.error != InProgress ==> sockets == old(sockets)
    {
      hide Inv, Advances;
      AdvancesReflexive(Value());
      SpecsFit(Value());
      if id !in sockets {
        return Err(BadSocket);
      }
      if address.domain != sockets[id].spec.domain {
        return Err(InvalidInput);
      }
      ghost var before := Value();
      var state := sockets[id].state;
      if state.Closed? {
        return Err(BadSocket);
      }
      if !state.Created? && !state.Bound? {
        return Err(InvalidState);
      }
      if !UsesHost(id) {
        SetState(id, Connected(LocalOr(state, Unspecified(address.domain)), address));
        return Ok(());
      }
      var entry := EnsureHostEntry(id, open);
      ghost var ensured := Value();
      if (entry.Err? && entry.error) || (entry.Ok? && reply.Pending?) {
        SetState(id, Connecting(address));
        AdvancesTransitive(before, ensured, Value());
        return Err(InProgress);
      }
      if entry.Err? || reply.Refused? {
        return Err(HostError);
      }
      SetState(id, Connected(reply.local, PeerOf(sockets[id].spec, reply.peer, address)));
      AdvancesTransitive(before, ensured, Value());
      r := Ok(());
    }

    /** Only a created or bound socket connects, and only within its domain. */
    ghost predicate MayConnect(t: Table, id: nat, address: Address) {
      && id in t.sockets && (t.sockets[id].state.Created? || t.sockets[id].state.Bound?)
      && address.domain == t.sockets[id].spec.domain
    }

    /** Takes a waiting connection: the new socket has an id, a host entry and a token never used before. */
    method Accept(id: nat, open: HostReply, reply: AcceptReply, fast: AcceptReply) returns (r: Outcome<(nat, Address)>)
      requires Valid()
      modifies this
      ensures Valid() && Advances(old(Value()), Value())
      ensures r.Ok? <==>
                && id in old(sockets) && old(sockets)[id].state.Listening? && GetsEntry(old(Value()), id, open)
                && (reply.Accepted? || (reply.NoneWaiting? && fast.Accepted?))
                && old(nextId) != 0 && old(nextGeneration) + (if id in old(entries) then 1 else 2) < U64_LIMIT
      ensures r.Ok? ==> r.value.1 == (if reply.Accepted? then reply.peer else fast.peer)
                        && r.value.0 !in old(sockets) && r.value.0 in entries
                        && sockets == old(sockets)[r.value.0 := Socket(old(sockets)[id].spec,
                                                                       Connected(old(sockets)[id].state.address,
                                                                                 r.value.1), false, false)]
                        && cache == ClearedFor(old(cache), id)
      ensures r.Err? ==> sockets == old(sockets)
    {
      hide Inv, Advances, ClearedFor;
      AdvancesReflexive(Value());
      SpecsFit(Value());
      if id !in sockets {
        return Err(BadSocket);
      }
      var socket := sockets[id];
      if socket.state.Closed? {
        return Err(BadSocket);
      }
      if !socket.state.Listening? {
        return Err(InvalidState);
      }
      if !hasTransport && id !in entries {
        return Err(WouldBlock);
      }
      ghost var before := Value();
      var entry := EnsureHostEntry(id, open);
      if entry.Err? || reply.AcceptFailed? || (reply.NoneWaiting? && fast.AcceptFailed?) {
        return Err(HostError);
      }
      if !reply.Accepted? && !fast.Accepted? {
        return Err(WouldBlock);
      }
      ghost var ensured := Value();
      var peer := if reply.Accepted? then reply.peer else fast.peer;
      ClearSocket(id);
      ghost var cleared := Value();
      AdvancesTransitive(before, ensured, cleared);
      var accepted := CreateSocketWithHandle(socket.spec, Connected(socket.state.address, peer));
      AdvancesTransitive(before, cleared, Value());
      if accepted.Err? {
        return Err(accepted.error);
      }
      r := Ok((accepted.value, peer));
    }

    method Shutdown(id: nat, read: bool, write: bool, reply: HostReply) returns (r: Outcome<()>)
      requires Valid()
      modifies this`sockets
      ensures Valid() && Advances(old(Value()), Value())
      ensures r.Ok? <==> id in old(sockets) && old(sockets)[id].state.Connected? && (id in entries ==> reply.Done?)
      ensures r.Ok? ==>
                var was := old(sockets)[id];
                sockets == old(sockets)[id := was.(readShut := was.readShut || read,
                                                   writeShut := was.writeShut || write)]
      ensures r.Err? ==> sockets == old(sockets)
    {
      hide Inv, Advances;
      AdvancesReflexive(Value());
      if id !in sockets || sockets[id].state.Closed? {
        return Err(BadSocket);
      }
      var socket := sockets[id];
      if !socket.state.Connected? {
        return Err(InvalidState);
      }
      if id in entries && !reply.Done? {
        return Err(HostError);
      }
      SocketChanged(Value(), id, socket.(readShut := socket.readShut || read, writeShut := socket.writeShut || write));
      sockets := sockets[id := socket.(readShut := socket.readShut || read, writeShut := socket.writeShut || write)];
      r := Ok(());
    }

    /** Receiving on a connected socket: success forgets what was cached about it. */
    method RecvConnected(id: nat, reply: HostReply) returns (r: Outcome<()>)
      requires Valid()
      modifies this`cache
      ensures Valid() && Advances(old(Value()), Value())
      ensures r.Ok? <==> id in sockets && ConnectedIo(sockets[id]).None? && !sockets[id].readShut && id in entries
                         && reply.Done?
      ensures r.Ok? ==> cache == ClearedFor(old(cache), id)
      ensures r.Err? ==> cache == old(cache)
    {
      hide Inv, Advances, ClearedFor;
      AdvancesReflexive(Value());
      if id !in sockets {
        return Err(BadSocket);
      }
      var invalid := ConnectedIo(sockets[id]);
      if invalid.Some? {
        return Err(invalid.value);
      }
      if sockets[id].readShut {
        return Err(InvalidState);
      }
      if id !in entries {
        return Err(Unsupported);
      }
      if !reply.Done? {
        return Err(HostError);
      }
      ClearSocket(id);
      r := Ok(());
    }

    method RecvFrom(id: nat, open: HostReply, reply: HostReply) returns (r: Outcome<()>)
      requires Valid()
      modifies this`cache, this`nextGeneration, this`entries
      ensures Valid() && Advances(old(Value()), Value())
      ensures r.Ok? <==> id in sockets && DatagramIo(sockets[id]).None? && !sockets[id].readShut
                         && (id in old(entries) || Openable(old(Value()), id, open)) && reply.Done?
      ensures r.Ok? ==> cache == ClearedFor(old(cache), id)
      ensures r.Err? ==> cache == old(cache)
    {
      hide Inv, Advances, ClearedFor;
      AdvancesReflexive(Value());
      if id !in sockets {
        return Err(BadSocket);
      }
      var invalid := DatagramIo(sockets[id]);
      if invalid.Some? {
        return Err(invalid.value);
      }
      if sockets[id].readShut {
        return Err(InvalidState);
      }
      ghost var before := Value();
      var entry := EnsureHostEntry(id, open);
      if entry.Err? || !reply.Done? {
        return Err(HostError);
      }
      ghost var ensured := Value();
      ClearSocket(id);
      AdvancesTransitive(before, ensured, Value());
      r := Ok(());
    }

    method SendTo(id: nat, address: Address, open: HostReply, reply: HostReply) returns (r: Outcome<()>)
      requires Valid()
      modifies this`nextGeneration, this`entries
      ensures Valid() && Advances(old(Value()), Value())
      ensures r.Ok? <==> id in sockets && DatagramIo(sockets[id]).None? && !sockets[id].writeShut
                         && address.domain == sockets[id].spec.domain
                         && (id in old(entries) || Openable(old(Value()), id, open)) && reply.Done?
    {
      hide Inv, Advances;
      AdvancesReflexive(Value());
      if id !in sockets {
        return Err(BadSocket);
      }
      if address.domain != sockets[id].spec.domain {
        return Err(InvalidInput);
      }
      var invalid := DatagramIo(sockets[id]);
      if invalid.Some? {
        return Err(invalid.value);
      }
      if sockets[id].writeShut {
        return Err(InvalidState);
      }
      var entry := EnsureHostEntry(id, open);
      if entry.Err? || !reply.Done? {
        return Err(HostError);
      }
      r := Ok(());
    }

    /** Completes a pending connect; anything but a pending one is left alone. */
    method FinishConnect(id: nat, reply: FinishReply) returns (r: Outcome<()>)
      requires Valid() && id in sockets
      modifies this`sockets
      ensures Valid() && Advances(old(Value()), Value())
      ensures !old(sockets)[id].state.Connecting? ==> r == Ok(()) && sockets == old(sockets)
      ensures sockets == old(sockets)[id := old(sockets)[id].(state := sockets[id].state)]
      ensures old(sockets)[id].state.Connecting? ==>
              sockets[id].state == Settle(old(sockets)[id].state, id in entries, reply)
      ensures r.Err? <==> old(sockets)[id].state.Connecting? && id in entries
                          && (reply.FinishFailed? || reply.ConnectFailed?)
      ensures old(sockets)[id].state.Connecting? && sockets[id].state.Connected? ==>
                var asked, state := old(sockets)[id].state.address, sockets[id].state;
                if id in entries then reply == Finished(state.local, state.peer)
                else state.peer == asked && state.local == Address(asked.domain, [])
    {
      hide Inv, Advances;
      AdvancesReflexive(Value());
      if !sockets[id].state.Connecting? {
        return Ok(());
      }
      var address := sockets[id].state.address;
      if id !in entries {
        SetState(id, Connected(Unspecified(address.domain), address));
        return Ok(());
      }
      match reply
      case StillPending => return Ok(());
      case FinishFailed => return Err(HostError);
      case ConnectFailed =>
        SetState(id, Created);
        return Err(HostError);
      case Finished(local, peer) =>
        SetState(id, Connected(local, peer));
        return Ok(());
    }

    // Readiness

    /** Only a completion of the live token counts; any other leaves the cache as it is. */
    method ApplyCompletion(active: Token, completion: Completion)
      requires Valid() && active.socket in entries && entries[active.socket] == active
      requires active.socket in sockets && !sockets[active.socket].state.Closed?
      modifies this`cache
      ensures Valid() && Advances(old(Value()), Value())
      ensures completion.token != active ==> cache == old(cache)
      ensures completion.token == active ==>
                cache == old(cache)[active := Merge(if active in old(cache) then old(cache)[active]
                                                    else NoEvents, completion.readiness)]
    {
      if completion.token != active {
        return;
      }
      var readiness := if active in cache then cache[active] else NoEvents;
      cache := cache[active := Merge(readiness, completion.readiness)];
    }

    method ClearSocket(id: nat)
      requires Valid()
      modifies this`cache
      ensures Valid() && Advances(old(Value()), Value()) && cache == ClearedFor(old(cache), id)
    {
      cache := ClearedFor(cache, id);
    }

    /** Readiness to write completes a pending connect. */
    method FinishPolled(id: nat, readiness: Events, finish: FinishReply) returns (r: Outcome<()>)
      requires Valid() && id in sockets
      modifies this`sockets
      ensures Valid() && Advances(old(Value()), Value())
      ensures sockets == old(sockets)[id := old(sockets)[id].(state := sockets[id].state)]
      ensures readiness.writable && old(sockets)[id].state.Connecting? ==>
                sockets[id].state == Settle(old(sockets)[id].state, id in entries, finish)
      ensures !(readiness.writable && old(sockets)[id].state.Connecting?) ==> r.Ok? && sockets == old(sockets)
      ensures id in entries ==> (r.Ok? <==> Settles(readiness, old(sockets)[id].state, finish))
    {
      hide Inv, Advances;
      AdvancesReflexive(Value());
      if readiness.writable && sockets[id].state.Connecting? {
        r := FinishConnect(id, finish);
      } else {
        r := Ok(());
      }
    }

    /** What the cache knows, after draining the host's completions, that the caller is interested in. */
    method CachedReadiness(id: nat, interest: Events, open: HostReply, drained: HostReply, completions: seq<Completion>,
                           finish: FinishReply) returns (r: Outcome<Option<Events>>)
      requires Valid() && id in sockets && !sockets[id].state.Closed?
      modifies this`sockets, this`cache, this`nextGeneration, this`entries
      ensures Valid() && Advances(old(Value()), Value())
      ensures r.Ok? <==>
                && GetsEntry(old(Value()), id, open) && drained.Done?
                && var known := Known(Drained(old(cache), LiveToken(old(Value()), id), completions),
                                      LiveToken(old(Value()), id), interest);
                   known.Some? ==> Settles(known.value, old(sockets)[id].state, finish)
      ensures r.Ok? ==> id in entries && entries[id] == LiveToken(old(Value()), id)
                        && cache == Drained(old(cache), entries[id], completions)
                        && r.value == Known(cache, entries[id], interest)
      ensures sockets == old(sockets)[id := old(sockets)[id].(state := sockets[id].state)]
      ensures r.Ok? ==> sockets[id].state ==
                        (if r.value.Some? && r.value.value.writable && old(sockets)[id].state.Connecting?
                         then Settle(old(sockets)[id].state, true, finish) else old(sockets)[id].state)
    {
      hide Inv, Moves, Advances, Merge, Settle, Known, Settles, Drained, LiveToken;
      AdvancesReflexive(Value());
      ghost var before := Value();
      var token, r' := DrainCompletions(id, open, drained, completions);
      if r'.Err? {
        return Err(r'.error);
      }
      var readiness := Known(cache, token, interest);
      if readiness.None? {
        return Ok(None);
      }
      ghost var known := Value();
      var done := FinishPolled(id, readiness.value, finish);
      AdvancesTransitive(before, known, Value());
      r := if done.Ok? then Ok(readiness) else Err(done.error);
    }

    method DrainCompletions(id: nat, open: HostReply, drained: HostReply, completions: seq<Completion>)
      returns (token: Token, r: Outcome<()>)
      requires Valid() && id in sockets && !sockets[id].state.Closed?
      modifies this`cache, this`nextGeneration, this`entries
      ensures Valid() && Advances(old(Value()), Value())
      ensures r.Ok? <==> GetsEntry(old(Value()), id, open) && drained.Done?
      ensures r.Ok? ==> token == LiveToken(old(Value()), id)
      ensures r.Ok? ==> id in entries && entries[id] == token && cache == Drained(old(cache), token, completions)
      ensures r.Err? ==> cache == old(cache)
    {
      hide Inv, Moves, Advances, Merge;
      AdvancesReflexive(Value());
      token := Token(id, 0);
      ghost var before := Value();
      var entry := EnsureHostEntry(id, open);
      if entry.Err? || !drained.Done? {
        return token, Err(HostError);
      }
      token := entries[id];
      for i := 0 to |completions|
        invariant Valid() && Advances(before, Value()) && id in entries && entries[id] == token
        invariant cache == Drained(old(cache), token, completions[..i])
      {
        ghost var step := Value();
        ApplyCompletion(token, completions[i]);
        AdvancesTransitive(before, step, Value());
        assert completions[..i + 1] == completions[..i] + [completions[i]];
      }
      assert completions[..|completions|] == completions;
      r := Ok(());
    }

    /** The events of interest the cache knows of, and otherwise what the host reports when asked. */
    method Poll(id: nat, interest: Events, open: HostReply, drained: HostReply, completions: seq<Completion>,
                polled: Option<Events>, finish: FinishReply) returns (r: Outcome<Events>)
      requires Valid()
      modifies this
      ensures Valid() && Advances(old(Value()), Value())
      ensures forall k :: k in old(sockets) && k != id ==> k in sockets && sockets[k] == old(sockets)[k]
      ensures r.Ok? <==>
                && id in old(sockets) && !old(sockets)[id].state.Closed?
                && (old(UsesHost(id)) ==>
                      && GetsEntry(old(Value()), id, open) && drained.Done?
                      && Answers(old(Value()), id, interest, completions, polled, finish))
      ensures r.Ok? && !old(UsesHost(id)) ==> r.value == NoEvents && Value() == old(Value())
      ensures r.Ok? && old(UsesHost(id)) ==>
                && id in entries && cache == Drained(old(cache), entries[id], completions)
                && var known := Known(cache, entries[id], interest);
                && (known.None? ==> polled.Some?) && r.value == (if known.Some? then known.value else polled.value)
                && (r.value.writable && old(sockets)[id].state.Connecting? ==>
                      sockets[id].state == Settle(old(sockets)[id].state, true, finish))
    {
      hide Inv, Moves, Advances, Known, Drained, Settle, Settles, LiveToken;
      AdvancesReflexive(Value());
      if id !in sockets || sockets[id].state.Closed? {
        return Err(BadSocket);
      }
      if !UsesHost(id) {
        return Ok(NoEvents);
      }
      ghost var before := Value();
      var cached := CachedReadiness(id, interest, open, drained, completions, finish);
      if cached.Err? {
        return Err(cached.error);
      }
      if cached.value.Some? {
        return Ok(cached.value.value);
      }
      if polled.None? {
        return Err(HostError);
      }
      ghost var known := Value();
      var done := FinishPolled(id, polled.value, finish);
      AdvancesTransitive(before, known, Value());
      r := if done.Ok? then Ok(polled.value) else Err(done.error);
    }

    /** The cache or the host reports events, and a pending connect they would complete does not fail. */
    ghost predicate Answers(t: Table, id: nat, interest: Events, completions: seq<Completion>, polled: Option<Events>,
                            finish: FinishReply)
      requires id in t.sockets
    {
      var known := Known(Drained(t.cache, LiveToken(t, id), completions), LiveToken(t, id), interest);
      if known.Some? then Settles(known.value, t.sockets[id].state, finish)
      else polled.Some? && Settles(polled.value, t.sockets[id].state, finish)
    }

    /** The socket's addresses; asking completes a pending connect, and a failure to do so goes unreported. */
    method Addresses(id: nat, finish: FinishReply) returns (r: Outcome<(Option<Address>, Option<Address>)>)
      requires Valid()
      modifies this`sockets
      ensures Valid() && Advances(old(Value()), Value())
      ensures r.Ok? <==> id in old(sockets)
      ensures r.Ok? ==> ReportsAddresses(sockets[id].state, r.value.0, r.value.1)
                        && sockets == old(sockets)[id := old(sockets)[id].(state := sockets[id].state)]
                        && (!old(sockets)[id].state.Connecting? ==> sockets == old(sockets))
    {
      hide Inv, Moves, Advances;
      AdvancesReflexive(Value());
      if id !in sockets {
        return Err(BadSocket);
      }
      var _ := FinishConnect(id, finish);
      r := Ok((LocalAddress(sockets[id].state), PeerAddress(sockets[id].state)));
    }

    /**
     Asks the host what the socket is capable of. This opens a host socket if there is none, even for a closed
     socket: only then does a closed socket get a host entry.
     */
    method RioCapability(id: nat, open: HostReply, reply: HostReply) returns (r: Outcome<()>)
      requires Valid()
      modifies this`nextGeneration, this`entries
      ensures Valid() && Moves(old(Value()), Value())
      ensures id !in sockets ==> r == Err(BadSocket)
      ensures r.Ok? <==> id in sockets && id in entries && reply.Done?
      ensures Tidy(old(Value())) ==> (Tidy(Value()) <==> !Revives(old(Value()), id, open))
      ensures !Revives(old(Value()), id, open) ==> Advances(old(Value()), Value())
    {
      hide Inv, Moves;
      AdvancesReflexive(Value());
      if id !in sockets {
        return Err(BadSocket);
      }
      var entry := EnsureHostEntry(id, open);
      if entry.Err? || !reply.Done? {
        return Err(HostError);
      }
      r := Ok(());
    }

    ghost predicate Revives(t: Table, id: nat, open: HostReply) {
      id in t.sockets && t.sockets[id].state.Closed? && id !in t.entries && Openable(t, id, open)
    }

    /** Closing forgets the host entry and everything cached about the socket, for good. */
    method Close(id: nat) returns (r: Outcome<()>)
      requires Valid()
      modifies this`sockets, this`entries, this`cache
      ensures Valid() && Advances(old(Value()), Value())
      ensures r.Ok? <==> id in old(sockets) && !old(sockets)[id].state.Closed?
      ensures r.Ok? ==> sockets == old(sockets)[id := Socket(old(sockets)[id].spec, Closed, true, true)]
                        && entries == old(entries) - {id} && cache == ClearedFor(old(cache), id)
      ensures r.Err? ==> r.error == BadSocket && Value() == old(Value())
    {
      hide Inv, Advances, ClearedFor;
      AdvancesReflexive(Value());
      if id !in sockets || sockets[id].state.Closed? {
        return Err(BadSocket);
      }
      SocketClosed(Value(), id);
      sockets := sockets[id := Socket(sockets[id].spec, Closed, true, true)];
      entries := entries - {id};
      cache := ClearedFor(cache, id);
      r := Ok(());
    }
  }

  /** A connected socket has both addresses, a bound or listening one its own only, any other none. */
  ghost predicate ReportsAddresses(state: SocketState, local: Option<Address>, peer: Option<Address>) {
    match state
    case Connected(l, p) => local == Some(l) && peer == Some(p)
    case Bound(a) => local == Some(a) && peer == None
    case Listening(a) => local == Some(a) && peer == None
    case _ => local == None && peer == None
  }

  /** The token completions count for: that of the host entry, or of the one it gets next. */
  ghost function LiveToken(t: Table, id: nat): Token {
    if id in t.entries then t.entries[id] else Token(id, t.nextGeneration)
  }

  /** Readiness to write completes a pending connect, unless the host says that this failed. */
  ghost predicate Settles(readiness: Events, state: SocketState, finish: FinishReply) {
    readiness.writable && state.Connecting? ==> finish.StillPending? || finish.Finished?
  }

  lemma SpecsFit(t: Table)
    requires Inv(t)
    ensures forall id :: id in t.sockets ==> ProtocolFits(t.sockets[id].spec)
  {
  }

  /** Which protocols a type may have, and which sockets send and receive. */
  lemma KindsExactly(socket: Socket)
    ensures var spec := socket.spec;
            && (ProtocolFits(spec) <==> spec.protocol != (if spec.socketType == Stream then Udp else Tcp))
            && (ProtocolFits(spec) ==>
                  && (ConnectedIo(socket).None? <==>
                        socket.state.Connected? && (spec.domain != Unix || spec.protocol != Default))
                  && (DatagramIo(socket).None? <==>
                        && spec.socketType == Datagram && !socket.state.Listening? && !socket.state.Closed?
                        && (spec.domain != Unix || spec.protocol != Default)))
  {
  }

  /** Of readable, writable and priority only what is asked for survives; errors and hang-ups always do. */
  lemma InterestKeeps(readiness: Events, interest: Events, flag: Flag)
    ensures Set(ForInterest(readiness, interest), flag) <==>
              Set(readiness, flag) && (flag in {Readable, Writable, Priority} ==> Set(interest, flag))
  {
  }

  /** What the cache knows of the token, as far as the caller is interested. */
  function Known(cache: map<Token, Events>, token: Token, interest: Events): Option<Events> {
    if token in cache && ForInterest(cache[token], interest) != NoEvents then Some(ForInterest(cache[token], interest))
       else None
  }

  /** The cache answers exactly when some flag that survives the interest is set, and then with these flags. */
  lemma KnownExactly(cache: map<Token, Events>, token: Token, interest: Events)
    ensures Known(cache, token, interest).Some? <==>
              token in cache && exists flag :: Set(cache[token], flag)
                                               && (flag in {Readable, Writable, Priority} ==> Set(interest, flag))
    ensures forall flag :: Known(cache, token, interest).Some? ==>
              (Set(Known(cache, token, interest).value, flag) <==>
               Set(cache[token], flag) && (flag in {Readable, Writable, Priority} ==> Set(interest, flag)))
  {
    if token in cache {
      forall flag
        ensures Set(ForInterest(cache[token], interest), flag) <==>
                  Set(cache[token], flag) && (flag in {Readable, Writable, Priority} ==> Set(interest, flag))
      {
        InterestKeeps(cache[token], interest, flag);
      }
      NoFlagsSet(ForInterest(cache[token], interest));
    }
  }

  lemma NoFlagsSet(events: Events)
    ensures events == NoEvents <==> forall flag :: !Set(events, flag)
  {
    if forall flag :: !Set(events, flag) {
      assert !Set(events, Readable) && !Set(events, Writable) && !Set(events, Priority) && !Set(events, Error)
             && !Set(events, HangUp) && !Set(events, Invalid);
    }
  }

  function ClearedFor(cache: map<Token, Events>, id: nat): (r: map<Token, Events>)
    ensures forall token :: token in r <==> token in cache && token.socket != id
    ensures forall token :: token in r ==> r[token] == cache[token]
  {
    map token | token in cache && token.socket != id :: cache[token]
  }

  /** Where a pending connect ends up. Without a host entry there is nobody to wait for. */
  function Settle(state: SocketState, hosted: bool, reply: FinishReply): SocketState
    requires state.Connecting?
  {
    if !hosted then Connected(Unspecified(state.address.domain), state.address)
    else match reply
      case StillPending => state
      case FinishFailed => state
      case ConnectFailed => Created
      case Finished(local, peer) => Connected(local, peer)
  }

  /** The cache after a list of completions: only those of the live token count, merged in order. */
  function Drained(cache: map<Token, Events>, active: Token, completions: seq<Completion>): map<Token, Events> {
    if completions == [] then cache
    else
      var before := Drained(cache, active, completions[..|completions| - 1]);
      var last := completions[|completions| - 1];
      if last.token != active then before
      else before[active := Merge(if active in before then before[active] else NoEvents, last.readiness)]
  }

  datatype Flag = Readable | Writable | Priority | Error | HangUp | Invalid

  predicate Set(events: Events, flag: Flag) {
    match flag
    case Readable => events.readable
    case Writable => events.writable
    case Priority => events.priority
    case Error => events.error
    case HangUp => events.hangUp
    case Invalid => events.invalid
  }

  /** Draining touches the live token only, and sets each of its flags exactly when something said so. */
  lemma {:induction false} DrainedIsLive(cache: map<Token, Events>, active: Token, completions: seq<Completion>,
                                         flag: Flag)
    ensures forall token :: token != active ==>
              (token in Drained(cache, active, completions) <==> token in cache)
              && (token in cache ==> Drained(cache, active, completions)[token] == cache[token])
    ensures (active in Drained(cache, active, completions)
             && Set(Drained(cache, active, completions)[active], flag)) <==>
            ((active in cache && Set(cache[active], flag))
             || exists i :: 0 <= i < |completions| && completions[i].token == active
                            && Set(completions[i].readiness, flag))
  {
    if completions != [] {
      var n := |completions| - 1;
      DrainedIsLive(cache, active, completions[..n], flag);
      assert forall i :: 0 <= i < n ==> completions[..n][i] == completions[i];
    }
  }

  /** Adding a socket, with or without a host entry, once its id and token are taken. */
  lemma SocketAdded(s: Table, t: Table, socket: Socket, token: Option<Token>)
    requires Inv(s) && Advances(s, t) && t.sockets == s.sockets && t.entries == s.entries && t.cache == s.cache
    requires s.nextId != 0 && (t.nextId == 0 || s.nextId < t.nextId) && ProtocolFits(socket.spec)
             && Opened(socket.state)
    requires token.Some? ==> token.value == Token(s.nextId, s.nextGeneration) && s.nextGeneration < t.nextGeneration
    ensures s.nextId !in s.sockets
    ensures Advances(s, t.(sockets := t.sockets[s.nextId := socket],
                           entries := if token.Some? then t.entries[s.nextId := token.value] else t.entries))
    ensures Inv(t.(sockets := t.sockets[s.nextId := socket],
                   entries := if token.Some? then t.entries[s.nextId := token.value] else t.entries))
  {
  }

  lemma EntryAdded(t: Table, id: nat)
    requires Inv(t) && id in t.sockets
    ensures Advances(t, t) && (id in t.entries ==> t.entries[id].socket == id)
    ensures id !in t.entries && t.nextGeneration + 1 < U64_LIMIT ==>
              var u := t.(nextGeneration := t.nextGeneration + 1,
                          entries := t.entries[id := Token(id, t.nextGeneration)]);
              Inv(u) && Moves(t, u) && (!t.sockets[id].state.Closed? ==> Advances(t, u))
  {
  }

  /** Changing one open socket, which stays open. */
  lemma SocketChanged(t: Table, id: nat, socket: Socket)
    requires Inv(t) && id in t.sockets && !t.sockets[id].state.Closed? && !socket.state.Closed?
    requires socket.spec == t.sockets[id].spec && Allowed(socket.spec.socketType, t.sockets[id].state, socket.state)
    ensures var u := t.(sockets := t.sockets[id := socket]); Inv(u) && Advances(t, u)
  {
  }

  /** Closing one open socket, with its entry and all that is cached about it. */
  lemma SocketClosed(t: Table, id: nat)
    requires Inv(t) && id in t.sockets && !t.sockets[id].state.Closed?
    ensures var u := t.(sockets := t.sockets[id := Socket(t.sockets[id].spec, Closed, true, true)],
                        entries := t.entries - {id}, cache := ClearedFor(t.cache, id));
            Inv(u) && Advances(t, u)
  {
  }

  lemma AdvancesReflexive(s: Table)
    requires Inv(s)
    ensures Advances(s, s)
  {
  }

  /** Steps that keep each socket's state or change it once add up to a step. */
  lemma AdvancesTransitive(s: Table, t: Table, u: Table)
    requires Inv(s) && Advances(s, t) && Advances(t, u)
    requires forall id :: id in s.sockets ==> t.sockets[id] == s.sockets[id] || u.sockets[id] == t.sockets[id]
    requires forall id :: id in u.sockets && id !in s.sockets && id in t.sockets ==> u.sockets[id] == t.sockets[id]
    ensures Advances(s, u)
  {
  }

  // Whole runs

  ghost predicate IsRun(run: seq<Table>) {
    && (forall i :: 0 <= i < |run| ==> Inv(run[i]))
    && (forall i :: 0 <= i < |run| - 1 ==> StepAt(run, i))
  }

  ghost predicate StepAt(run: seq<Table>, i: nat)
    requires i + 1 < |run|
  {
    Moves(run[i], run[i + 1])
  }

  /** Sockets are never forgotten and keep their spec. */
  lemma {:induction false} SocketsStay(run: seq<Table>, i: nat, j: nat, id: nat)
    requires IsRun(run) && i <= j < |run| && id in run[i].sockets
    ensures id in run[j].sockets && run[j].sockets[id].spec == run[i].sockets[id].spec
    ensures run[i].nextGeneration <= run[j].nextGeneration
  {
    if i < j {
      SocketsStay(run, i, j - 1, id);
      assert StepAt(run, j - 1);
    }
  }

  /** Closed is never left, and nothing is cached about a closed socket. */
  lemma {:induction false} ClosedForGood(run: seq<Table>, i: nat, j: nat, id: nat)
    requires IsRun(run) && i <= j < |run| && id in run[i].sockets && run[i].sockets[id].state.Closed?
    ensures id in run[j].sockets && run[j].sockets[id] == run[i].sockets[id]
    ensures forall token :: token in run[j].cache ==> token.socket != id
  {
    if i < j {
      ClosedForGood(run, i, j - 1, id);
      assert StepAt(run, j - 1);
    }
  }

  lemma {:induction false} GenerationsGrow(run: seq<Table>, i: nat, j: nat)
    requires IsRun(run) && i <= j < |run|
    ensures run[i].nextGeneration <= run[j].nextGeneration
  {
    if i < j {
      GenerationsGrow(run, i, j - 1);
      assert StepAt(run, j - 1);
    }
  }

  ghost predicate Issues(s: Table, t: Table, token: Token) {
    token.socket in t.entries && t.entries[token.socket] == token
    && !(token.socket in s.entries && s.entries[token.socket] == token)
  }

  /** No token is issued in two steps of a run. */
  lemma TokensIssuedOnce(run: seq<Table>, i: nat, j: nat, token: Token)
    requires IsRun(run) && i < j && j + 1 < |run| && Issues(run[i], run[i + 1], token)
    ensures !Issues(run[j], run[j + 1], token)
  {
    assert StepAt(run, i) && StepAt(run, j);
    GenerationsGrow(run, i + 1, j);
  }

  /** A token once gone from the table never comes back, so a completion for it is never applied again. */
  lemma {:induction false} TokensStayGone(run: seq<Table>, i: nat, j: nat, token: Token)
    requires IsRun(run) && i <= j < |run| && token.generation < run[i].nextGeneration
    requires !(token.socket in run[i].entries && run[i].entries[token.socket] == token)
    ensures !(token.socket in run[j].entries && run[j].entries[token.socket] == token) && token !in run[j].cache
  {
    if i < j {
      TokensStayGone(run, i, j - 1, token);
      GenerationsGrow(run, i, j - 1);
      assert StepAt(run, j - 1);
    }
  }

  /** A listening socket is a stream socket that was bound to the same address at some earlier step. */
  lemma {:induction false} ListeningWasBound(run: seq<Table>, j: nat, id: nat) returns (k: nat)
    requires IsRun(run) && j < |run| && id in run[j].sockets && run[j].sockets[id].state.Listening?
    requires run[0].sockets == map[]
    ensures k < j && id in run[k].sockets && run[k].sockets[id].state == Bound(run[j].sockets[id].state.address)
    ensures run[j].sockets[id].spec.socketType == Stream && run[k].sockets[id].spec == run[j].sockets[id].spec
  {
    assert j > 0 && StepAt(run, j - 1);
    if run[j - 1].sockets[id].state.Bound? {
      k := j - 1;
    } else {
      k := ListeningWasBound(run, j - 1, id);
    }
  }

  // Driving a table

  datatype Call =
    | Create(spec: Spec)
    | Adopt(spec: Spec)
    | BindTo(id: nat, address: Address, open: HostReply, bound: Option<Address>)
    | ListenOn(id: nat, open: HostReply, reply: HostReply)
    | ConnectTo(id: nat, address: Address, open: HostReply, connected: ConnectReply)
    | AcceptOn(id: nat, open: HostReply, accepted: AcceptReply, fast: AcceptReply)
    | ShutDown(id: nat, read: bool, write: bool, reply: HostReply)
    | Receive(id: nat, reply: HostReply)
    | ReceiveFrom(id: nat, open: HostReply, reply: HostReply)
    | Send(id: nat, address: Address, open: HostReply, reply: HostReply)
    | PollFor(id: nat, interest: Events, open: HostReply, drained: HostReply, completions: seq<Completion>,
              polled: Option<Events>, finish: FinishReply)
    | AskAddresses(id: nat, finish: FinishReply)
    | AskCapability(id: nat, open: HostReply, reply: HostReply)
    | CloseDown(id: nat)

  /**
   One call of the guest; only asking a closed socket for its capability can leave a closed socket with a host
   entry.
   */
  method Perform(table: SocketTable, call: Call)
    requires table.Valid()
    modifies table
    ensures table.Valid() && Moves(old(table.Value()), table.Value())
    ensures !(call.AskCapability? && old(table.Revives(table.Value(), call.id, call.open))) ==>
              Advances(old(table.Value()), table.Value())
  {
    hide Inv, Moves, Tidy, SocketTable.Revives;
    match call
    case Create(spec) => var _ := table.CreateSocket(spec);
    case Adopt(spec) => var _ := table.CreateSocketWithHandle(spec, Created);
    case BindTo(id, address, open, bound) => var _ := table.Bind(id, address, open, bound);
    case ListenOn(id, open, reply) => var _ := table.Listen(id, open, reply);
    case ConnectTo(id, address, open, connected) => var _ := table.Connect(id, address, open, connected);
    case AcceptOn(id, open, accepted, fast) => var _ := table.Accept(id, open, accepted, fast);
    case ShutDown(id, read, write, reply) => var _ := table.Shutdown(id, read, write, reply);
    case Receive(id, reply) => var _ := table.RecvConnected(id, reply);
    case ReceiveFrom(id, open, reply) => var _ := table.RecvFrom(id, open, reply);
    case Send(id, address, open, reply) => var _ := table.SendTo(id, address, open, reply);
    case PollFor(id, interest, open, drained, completions, polled, finish) =>
      var _ := table.Poll(id, interest, open, drained, completions, polled, finish);
    case AskAddresses(id, finish) => var _ := table.Addresses(id, finish);
    case AskCapability(id, open, reply) => var _ := table.RioCapability(id, open, reply);
    case CloseDown(id) => var _ := table.Close(id);
  }

  /**
   Any sequence of calls is a run; while it asks no closed socket for its capability, no closed socket has a host
   entry.
   */
  method Run(table: SocketTable, calls: seq<Call>) returns (ghost run: seq<Table>)
    requires table.Valid()
    modifies table
    ensures IsRun(run) && |run| == |calls| + 1 && run[0] == old(table.Value()) && run[|calls|] == table.Value()
    ensures Tidy(run[0]) && (forall n :: 0 <= n < |calls| ==> !AsksClosed(run[n], calls[n])) ==>
              forall n :: 0 <= n < |run| ==> Tidy(run[n])
  {
    hide Inv, Moves, Tidy;
    run := [table.Value()];
    for done := 0 to |calls|
      invariant table.Valid() && IsRun(run) && |run| == done + 1 && run[0] == old(table.Value())
                && run[done] == table.Value()
      invariant Tidy(run[0]) && (forall n :: 0 <= n < done ==> !AsksClosed(run[n], calls[n])) ==>
                  forall n :: 0 <= n <= done ==> Tidy(run[n])
    {
      Perform(table, calls[done]);
      ghost var longer := run + [table.Value()];
      forall i | 0 <= i < |longer| - 1
        ensures StepAt(longer, i)
      {
        assert i < |run| - 1 ==> StepAt(run, i);
      }
      assert forall n :: 0 <= n < |run| ==> longer[n] == run[n];
      run := longer;
    }
  }

  /** A closed socket with a host entry: create, close, ask for the capability. */
  method ReviveClosed() returns (table: SocketTable, id: nat)
    ensures fresh(table) && table.Valid() && !Tidy(table.Value())
    ensures id in table.sockets && table.sockets[id].state.Closed? && id in table.entries
  {
    hide Inv, Moves;
    table := new SocketTable(true);
    var created := table.CreateSocket(Spec(Inet, Stream, Tcp));
    id := created.value;
    var _ := table.Close(id);
    var _ := table.RioCapability(id, Done, Done);
  }

  predicate AsksClosed(t: Table, call: Call) {
    call.AskCapability? && call.id in t.sockets && t.sockets[call.id].state.Closed?
  }
}
