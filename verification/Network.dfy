/**
  The network object: its methods update the fields in place, one message at a time,
  exactly as the protocol's state machine says.
 */
module Network {
  import opened Options
  import opened SyncProtocol

  const LAST_BLOCK_HEADER: nat := 1
  const BLOCK_HEADERS_RANGE: nat := 2

  const HTTP_STATUS_OK: int := 200

  /** What the result object of a reply holds: the height of the last header, and the headers of a range if there are any. */
  datatype RpcResult = RpcResult(height: nat, headers: Option<seq<Header>>)

  /** A parsed reply: an error object, or perhaps a result object. */
  datatype Rpc = Rpc(id: nat, isError: bool, result: Option<RpcResult>)

  datatype Body = NotJson | BadJson | Json(rpc: Rpc)

  /** A negative status means that the transport failed. */
  datatype HttpData = HttpData(status: int, userType: nat, rpcId: nat, body: Body)

  function Fatal(s: State): State {
    s.(calls := s.calls + [FatalError])
  }

  /** What a parsed reply does. */
  function RpcResponse(s: State, d: Daemon, rpc: Rpc, userType: nat): Reaction {
    if rpc.isError || rpc.result.None? then Handled(Fatal(s))
    else if userType == LAST_BLOCK_HEADER then
      var (s1, ok) := SyncProtocol.SetLastBlockHeader(s, d, rpc.result.value.height);
      Handled(if ok then s1 else Fatal(s1))
    else if userType == BLOCK_HEADERS_RANGE then
      match SyncProtocol.SetBlockHeadersRange(s, d, rpc.id, rpc.result.value.headers)
      case Refused(s1) => Handled(Fatal(s1))
      case r => r
    else Handled(s)
  }

  /** What any HTTP message does. */
  function Received(s: State, d: Daemon, message: HttpData): Reaction {
    if message.status != HTTP_STATUS_OK && message.userType == BLOCK_HEADERS_RANGE && message.status < 0
       && message.rpcId in s.req then
      Handled(Retry(s, message.rpcId))
    else
      match message.body
      case NotJson => Handled(Fatal(s))
      case BadJson => Handled(Fatal(s))
      case Json(rpc) => RpcResponse(s, d, rpc, message.userType)
  }

  /** The message that stands for an event of the protocol. */
  function MessageOf(e: Event): HttpData {
    match e
    case Reply(id, headers) =>
      HttpData(HTTP_STATUS_OK, BLOCK_HEADERS_RANGE, id, Json(Rpc(id, false, Some(RpcResult(0, Some(headers))))))
    case TransportFailure(id) => HttpData(-1, BLOCK_HEADERS_RANGE, id, NotJson)
  }

  /** Receiving the message of an event of an outstanding request is taking the protocol's step. */
  lemma ReceivedIsStep(s: State, d: Daemon, e: Event)
    requires e.id in s.req
    ensures var r := Step(s, d, e);
            Received(s, d, MessageOf(e)) == if r.Refused? then Handled(Fatal(r.state)) else r
  {
  }

  /** A message that is of no use: no result, or one that does not fit what was asked for. */
  predicate Unusable(s: State, message: HttpData) {
    || !message.body.Json? || message.body.rpc.isError || message.body.rpc.result.None?
    || (message.userType == 1 &&
        (message.body.rpc.result.value.height == 0 || |s.nonces| > message.body.rpc.result.value.height + 1))
    || (message.userType == 2 &&
        (message.body.rpc.result.value.headers in {None, Some([])} || message.body.rpc.id !in s.req))
  }

  /**
    Transport failures of outstanding ranges are asked for again, in full; nothing else is. Of the other messages
    exactly the unusable ones are fatal, and they leave everything but the height as it was.
   */
  lemma EveryMessage(s: State, d: Daemon, message: HttpData)
    requires s.calls == []
    requires message.body.Json? && message.body.rpc.result.Some? ==>
               message.body.rpc.result.value.height + 1 < 0x1_0000_0000
    ensures var r := Received(s, d, message);
            if message.userType == 2 && message.status < 0 && message.rpcId in s.req then
              && r.Handled? && r.state.calls == [] && r.state.nonces == s.nonces && r.state.data == s.data
              && r.state.sent == s.sent + [BlockHeadersRange(s.lastId + 1, s.req[message.rpcId])]
            else if Unusable(s, message) then
              r.Handled? && r.state == s.(height := r.state.height, calls := [FatalError])
            else
              r.Handled? ==> FatalError !in r.state.calls
  {
    hide AddHeaders, Saved;
    if message.body.Json? && !message.body.rpc.isError && message.body.rpc.result.Some? {
      SendManySilent(s.(height := message.body.rpc.result.value.height, pos := Word32(|s.nonces|)), d, d.concurrency);
    }
  }

  lemma {:induction false} SendManySilent(s: State, d: Daemon, n: nat)
    ensures SendMany(s, d, n).calls == s.calls
  {
    if n > 0 {
      SendManySilent(s, d, n - 1);
    }
  }

  class Network {
    const daemon: Daemon
    var nonces: seq<nat>
    var data: map<nat, nat>
    var req: map<nat, Range>
    var height: nat
    var pos: nat
    var lastId: nat         // the request counter of the JSON module
    var sent: seq<Request>  // what was fetched
    var calls: seq<Call>    // what the listener was told

    function State(): State
      reads this
    {
      SyncProtocol.State(nonces, data, req, height, pos, lastId, sent, calls)
    }

    /** The daemon's settings are raised to one where they are less. */
    constructor (concurrency: nat, maxRange: nat, nonces: seq<nat>)
      ensures daemon == Daemon(if concurrency > 1 then concurrency else 1, if maxRange > 1 then maxRange else 1)
      ensures State() == SyncProtocol.State(nonces, map[], map[], 0, 0, 0, [], [])
    {
      daemon := Daemon(if concurrency > 1 then concurrency else 1, if maxRange > 1 then maxRange else 1);
      this.nonces, data, req := nonces, map[], map[];
      height, pos, lastId := 0, 0, 0;
      sent, calls := [], [];
    }

    /** Asks for the last block header. */
    method Connect()
      modifies this
      ensures State() == old(State()).(lastId := old(lastId) + 1, sent := old(sent) + [LastBlockHeader(old(lastId) + 1)])
    {
      lastId := lastId + 1;
      sent := sent + [LastBlockHeader(lastId)];
    }

    /** Returns whether an exception was thrown. */
    method OnHttpData(message: HttpData) returns (threw: bool)
      modifies this
      ensures var r := Received(old(State()), daemon, message);
              threw == r.Thrown? && (r.Handled? ==> State() == r.state)
    {
      threw := false;
      if message.status != HTTP_STATUS_OK {
        if message.userType == BLOCK_HEADERS_RANGE && message.status < 0 {
          if message.rpcId in req {
            var id := GetBlockHeaders(req[message.rpcId]);
            req := req - {message.rpcId};
            return;
          }
        }
      }
      match message.body
      case NotJson => OnFatalError();
      case BadJson => OnFatalError();
      case Json(rpc) => threw := OnRpcResponse(rpc.id, rpc.result, rpc.isError, message.userType);
    }

    method OnFatalError()
      modifies this`calls
      ensures State() == Fatal(old(State()))
    {
      calls := calls + [FatalError];
    }

    method OnRpcResponse(id: nat, result: Option<RpcResult>, isError: bool, userType: nat) returns (threw: bool)
      modifies this
      ensures var r := RpcResponse(old(State()), daemon, Rpc(id, isError, result), userType);
              threw == r.Thrown? && (r.Handled? ==> State() == r.state)
    {
      threw := false;
      if isError {
        OnFatalError();
        return;
      }
      if result.None? {
        OnFatalError();
        return;
      }
      if userType == LAST_BLOCK_HEADER {
        var ok := SetLastBlockHeader(result.value.height);
        if !ok {
          OnFatalError();
          return;
        }
      }
      if userType == BLOCK_HEADERS_RANGE {
        var ok;
        ok, threw := SetBlockHeadersRange(id, result.value.headers);
        if !ok && !threw {
          OnFatalError();
          return;
        }
      }
    }

    method SetBlockHeadersRange(id: nat, headers: Option<seq<Header>>) returns (ok: bool, threw: bool)
      modifies this
      ensures match SyncProtocol.SetBlockHeadersRange(old(State()), daemon, id, headers)
              case Handled(s) => ok && !threw && State() == s
              case Refused(s) => !ok && !threw && State() == s
              case Thrown => threw
    {
      ok, threw := false, false;
      if headers.None? || headers.value == [] {
        return;
      }
      if id !in req {
        return;
      }
      var list := headers.value;
      for i := 0 to |list|
        invariant State() == old(State()).(data := AddHeaders(old(data), list[..i]))
      {
        assert list[..i + 1][..i] == list[..i];
        data := Insert(data, list[i].height, list[i].nonce);
      }
      assert list[..|list|] == list;
      req := req - {id};
      if req == map[] && pos > height {
        threw := Save();
        ok := true;
        return;
      }
      if |req| < daemon.concurrency {
        var next := GetNextBlockHeaders();
      }
      ok := true;
    }

    method SetLastBlockHeader(lastHeight: nat) returns (ok: bool)
      modifies this
      ensures (State(), ok) == SyncProtocol.SetLastBlockHeader(old(State()), daemon, lastHeight)
    {
      height := lastHeight;
      if height == 0 || |nonces| > Word32(height + 1) {
        return false;
      }
      if |nonces| < Word32(height + 1) {
        Sync();
        return true;
      }
      calls := calls + [SyncDone(false)];
      ok := true;
    }

    /** Asks for the range at the position, unless that is past the end. */
    method GetNextBlockHeaders() returns (id: nat)
      modifies this
      ensures State() == SendNext(old(State()), daemon)
    {
      if pos > height {
        return 0;
      }
      id := GetBlockHeaders(NewRange(pos, daemon.maxRange, height));
    }

    method GetBlockHeaders(range: Range) returns (id: nat)
      modifies this
      ensures State() == SendRange(old(State()), range) && id == lastId
    {
      pos := Word32(range.end + 1);
      lastId := lastId + 1;
      id := lastId;
      sent := sent + [BlockHeadersRange(id, range)];
      req := Insert(req, id, range);
    }

    method Sync()
      modifies this
      ensures State() == StartSync(old(State()), daemon)
    {
      pos := Word32(|nonces|);
      ghost var s := State();
      for i := 0 to daemon.concurrency
        invariant State() == SendMany(s, daemon, i)
      {
        var id := GetNextBlockHeaders();
      }
    }

    /** Appends the nonces; returns whether looking one up threw an exception. */
    method Save() returns (threw: bool)
      modifies this
      ensures var r := Saved(old(nonces), old(data), old(height));
              && threw == r.None?
              && (r.Some? ==>
                    State() == old(State()).(nonces := r.value, data := map[], calls := old(calls) + [SyncDone(true)]))
    {
      var i := |nonces|;
      while i <= height
        invariant i == |nonces| && Saved(nonces, data, height) == Saved(old(nonces), data, height)
        invariant State() == old(State()).(nonces := nonces)
        decreases height + 1 - i
      {
        if i !in data {
          return true;
        }
        nonces := nonces + [data[i]];
        i := i + 1;
      }
      data := map[];
      calls := calls + [SyncDone(true)];
      threw := false;
    }
  }

  /** The state when the height of a longer chain has been received. */
  ghost function AtHeight(nonces: seq<nat>, height: nat): State {
    SyncProtocol.State(nonces, map[], map[], height, 0, 1, [LastBlockHeader(1)], [])
  }

  /** Hands the messages of a run to the object, one after the other. */
  method Deliver(network: Network, events: seq<Event>, ghost done: set<nat>, ghost chain: seq<nat>)
    requires InStep(network.State(), network.daemon, done, chain)
    requires HonestRun(network.State(), network.daemon, done, events, chain)
    modifies network
    ensures Handled(network.State()) == Run(old(network.State()), network.daemon, events)
  {
    hide InStep, Honest, Step;
    ghost var r := Run(network.State(), network.daemon, events);
    ghost var ids := done;
    for i := 0 to |events|
      invariant network.State().calls == [] ==> InStep(network.State(), network.daemon, ids, chain)
      invariant HonestRun(network.State(), network.daemon, ids, events[i..], chain)
      invariant Run(network.State(), network.daemon, events[i..]) == r
    {
      StepKeeps(network.State(), network.daemon, ids, chain, events[i]);
      AnsweredNow(network.State(), network.daemon, ids, events[i], chain);
      assert events[i..][1..] == events[i + 1..];
      var threw := network.OnHttpData(MessageOf(events[i]));
      ids := ids + {events[i].id};
    }
  }

  lemma AnsweredNow(s: State, d: Daemon, done: set<nat>, e: Event, chain: seq<nat>)
    requires InStep(s, d, done, chain) && Honest(s, done, e, chain)
    ensures Received(s, d, MessageOf(e)) == Step(s, d, e)
  {
    hide Honest, Step, Received, Syncing;
    HonestIsAnswered(s, done, e, chain);
    ReceivedIsStep(s, d, e);
    StepKeeps(s, d, done, chain, e);
  }

  /**
    The object from its construction on: it asks for the height and then for ranges. Whatever was asked for is answered
    from the chain, in any order, or fails and is asked for again; when nothing is left to be answered, the nonces are
    those there were, followed by those of the chain.
   */
  method Synchronise(concurrency: nat, maxRange: nat, nonces: seq<nat>, height: nat, events: seq<Event>,
                     ghost chain: seq<nat>)
    returns (network: Network)
    requires |nonces| <= height < |chain| && height > 0 && height + 1 + maxRange < 0x1_0000_0000
    requires var d := Daemon(if concurrency > 1 then concurrency else 1, if maxRange > 1 then maxRange else 1);
             HonestRun(StartSync(AtHeight(nonces, height), d), d, {}, events, chain)
    ensures if network.calls == []
            then network.nonces == nonces
                 && exists e :: Honest(network.State(), Done({}, events), e, chain)
            else network.nonces == nonces + chain[|nonces|..height + 1] && network.calls == [SyncDone(true)]
  {
    hide Run, Honest, HonestRun, InStep, Synced;
    network := new Network(concurrency, maxRange, nonces);
    network.Connect();
    var message := HttpData(HTTP_STATUS_OK, LAST_BLOCK_HEADER, 1, Json(Rpc(1, false, Some(RpcResult(height, None)))));
    ghost var s := AtHeight(nonces, height);
    assert network.State() == s.(height := 0);
    var threw := network.OnHttpData(message);
    assert network.State() == StartSync(s, network.daemon);
    StartsInStep(s, network.daemon, chain);
    SyncCompletes(s, network.daemon, chain, events);
    RunKeeps(StartSync(s, network.daemon), network.daemon, {}, chain, events);
    Deliver(network, events, {}, chain);
    SyncedNonces(network.State(), nonces, chain);
  }

  lemma StartsInStep(s: State, d: Daemon, chain: seq<nat>)
    requires Startable(s, d, chain)
    ensures InStep(StartSync(s, d), d, {}, chain) && StartSync(s, d).nonces == s.nonces
  {
    StartKeeps(s, d, chain);
    StartAccounted(s, d);
  }

  lemma SyncedNonces(s: State, before: seq<nat>, chain: seq<nat>)
    ensures Synced(s, before, chain) ==>
              && |before| <= s.height + 1 <= |chain|
              && s.nonces == before + chain[|before|..s.height + 1] && s.calls == [SyncDone(true)]
  {
  }
}
