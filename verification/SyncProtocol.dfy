/**
  The block synchronisation protocol as a state machine: what each reply, each
  transport failure and the first reply with the chain's height make of the state,
  and what every run keeps.
 */
module SyncProtocol {
  import opened Options

  /** Heights from `start` up to `end`, both included. */
  datatype Range = Range(start: nat, end: nat)

  datatype Header = Header(height: nat, nonce: nat)

  /** Settings of the daemon; both numbers are at least one. */
  datatype Daemon = Daemon(concurrency: nat, maxRange: nat)

  datatype Request = LastBlockHeader(id: nat) | BlockHeadersRange(id: nat, range: Range)

  /** A call of the listener. */
  datatype Call = SyncDone(modified: bool) | FatalError

  /** The fields of the network object, with what it has sent and whom it has called. */
  datatype State = State(
    nonces: seq<nat>, data: map<nat, nat>, req: map<nat, Range>, height: nat, pos: nat,
    lastId: nat, sent: seq<Request>, calls: seq<Call>)

  /** A 32-bit unsigned value. */
  function Word32(n: nat): (r: nat)
    ensures r < 0x1_0000_0000
    ensures n < 0x1_0000_0000 ==> r == n
  {
    n % 0x1_0000_0000
  }

  function Min(a: nat, b: nat): nat {
    if a < b then a else b
  }

  function NewRange(start: nat, count: nat, max: nat): Range {
    Range(start, Min(Word32(start + count), max))
  }

  /** Inserting does not replace. */
  function Insert<K, V>(m: map<K, V>, k: K, v: V): map<K, V> {
    if k in m then m else m[k := v]
  }

  function SendRange(s: State, range: Range): State {
    var id := s.lastId + 1;
    s.(pos := Word32(range.end + 1), lastId := id, req := Insert(s.req, id, range),
       sent := s.sent + [BlockHeadersRange(id, range)])
  }

  function SendNext(s: State, d: Daemon): State {
    if s.pos > s.height then s else SendRange(s, NewRange(s.pos, d.maxRange, s.height))
  }

  function SendMany(s: State, d: Daemon, n: nat): State {
    if n == 0 then s else SendNext(SendMany(s, d, n - 1), d)
  }

  function StartSync(s: State, d: Daemon): State {
    SendMany(s.(pos := Word32(|s.nonces|)), d, d.concurrency)
  }

  /** The reply with the height of the chain, and whether it was acceptable. */
  function SetLastBlockHeader(s: State, d: Daemon, height: nat): (State, bool) {
    var s1 := s.(height := height);
    if height == 0 || |s.nonces| > Word32(height + 1) then (s1, false)
    else if |s.nonces| < Word32(height + 1) then (StartSync(s1, d), true)
    else (s1.(calls := s1.calls + [SyncDone(false)]), true)
  }

  function AddHeaders(data: map<nat, nat>, headers: seq<Header>): map<nat, nat> {
    if headers == [] then data
    else
      var n := |headers| - 1;
      Insert(AddHeaders(data, headers[..n]), headers[n].height, headers[n].nonce)
  }

  /** Appends the nonces up to a height; looking up a missing one is an exception. */
  function Saved(nonces: seq<nat>, data: map<nat, nat>, height: nat): Option<seq<nat>>
    decreases height + 1 - |nonces|
  {
    if |nonces| > height then Some(nonces)
    else if |nonces| !in data then None
    else Saved(nonces + [data[|nonces|]], data, height)
  }

  /** What comes of a message: a new state, a refusal, or an exception. */
  datatype Reaction = Handled(state: State) | Refused(state: State) | Thrown

  function SetBlockHeadersRange(s: State, d: Daemon, id: nat, headers: Option<seq<Header>>): Reaction {
    if headers.None? || headers.value == [] || id !in s.req then Refused(s)
    else
      var s1 := s.(data := AddHeaders(s.data, headers.value), req := s.req - {id});
      if s1.req == map[] && s1.pos > s1.height then
        match Saved(s1.nonces, s1.data, s1.height)
        case None => Thrown
        case Some(nonces) => Handled(s1.(nonces := nonces, data := map[], calls := s1.calls + [SyncDone(true)]))
      else if |s1.req| < d.concurrency then Handled(SendNext(s1, d))
      else Handled(s1)
  }

  /** A transport failure of an outstanding request: the same range is asked for again. */
  function Retry(s: State, id: nat): State
    requires id in s.req
  {
    var s1 := SendRange(s, s.req[id]);
    s1.(req := s1.req - {id})
  }

  // ----- what the daemon may answer while a sync is under way

  datatype Event = Reply(id: nat, headers: seq<Header>) | TransportFailure(id: nat)

  function Step(s: State, d: Daemon, e: Event): Reaction {
    match e
    case Reply(id, headers) => SetBlockHeadersRange(s, d, id, Some(headers))
    case TransportFailure(id) => if id in s.req then Handled(Retry(s, id)) else Refused(s)
  }

  /** Every height of the range is there, and every nonce is the chain's. */
  ghost predicate Complete(headers: seq<Header>, range: Range, chain: seq<nat>) {
    && (forall i :: 0 <= i < |headers| && headers[i].height < |chain| ==> headers[i].nonce == chain[headers[i].height])
    && forall h :: range.start <= h <= range.end ==> HasHeader(headers, h)
  }

  ghost predicate HasHeader(headers: seq<Header>, h: nat) {
    exists i :: 0 <= i < |headers| && headers[i].height == h
  }

  /** The daemon was asked for the range under this id. */
  ghost predicate Asked(s: State, id: nat, range: Range) {
    exists i :: 0 <= i < |s.sent| && s.sent[i] == BlockHeadersRange(id, range)
  }

  /**
    What was asked for is answered completely, or fails, and only once: `done` are the ids of the requests that have
    been answered or have failed. What the network object remembers of its requests does not matter here.
   */
  ghost predicate Honest(s: State, done: set<nat>, e: Event, chain: seq<nat>) {
    e.id !in done && exists range :: Asked(s, e.id, range) && (e.Reply? ==> Complete(e.headers, range, chain))
  }

  /** An outstanding request is answered completely, or fails. */
  ghost predicate Answered(s: State, e: Event, chain: seq<nat>) {
    e.id in s.req && (e.Reply? ==> Complete(e.headers, s.req[e.id], chain))
  }

  /**
    The books are right: ids are used once, and outstanding are exactly the requests for ranges that were sent and are
    not done, each with the range that was asked for.
   */
  ghost predicate Accounted(s: State, done: set<nat>) {
    && (forall i :: 0 <= i < |s.sent| ==> s.sent[i].id <= s.lastId)
    && (forall i, j :: 0 <= i < j < |s.sent| ==> s.sent[i].id != s.sent[j].id)
    && (forall id :: id in s.req ==> id !in done && Asked(s, id, s.req[id]))
    && (forall i :: 0 <= i < |s.sent| && s.sent[i].BlockHeadersRange? && s.sent[i].id !in done ==> s.sent[i].id in s.req)
  }

  lemma HonestIsAnswered(s: State, done: set<nat>, e: Event, chain: seq<nat>)
    requires Accounted(s, done) && Honest(s, done, e, chain)
    ensures Answered(s, e, chain)
  {
    hide Complete;
    var range :| Asked(s, e.id, range) && (e.Reply? ==> Complete(e.headers, range, chain));
    var i :| 0 <= i < |s.sent| && s.sent[i] == BlockHeadersRange(e.id, range);
    var j :| 0 <= j < |s.sent| && s.sent[j] == BlockHeadersRange(e.id, s.req[e.id]);
    assert i == j;
  }

  // ----- the invariant

  /** The height has been fetched or is being fetched. */
  ghost predicate Covered(s: State, h: nat) {
    h in s.data || exists id :: id in s.req && s.req[id].start <= h <= s.req[id].end
  }

  ghost predicate CoveredBelow(s: State, h: nat) {
    forall k: nat :: |s.nonces| <= k < h ==> Covered(s, k)
  }

  /** A range that may be asked for lies within the sync and is not too long. */
  ghost predicate Askable(s: State, d: Daemon, range: Range) {
    |s.nonces| <= range.start <= range.end <= s.height && range.end - range.start <= d.maxRange
  }

  /** An outstanding range lies within the sync, and everything below its end is covered. */
  ghost predicate RangeOk(s: State, d: Daemon, range: Range) {
    Askable(s, d, range) && CoveredBelow(s, range.end + 1)
  }

  /** Every height that was ever asked for is fetched or outstanding. */
  ghost predicate IssuedCovered(s: State, d: Daemon) {
    forall i :: 0 <= i < |s.sent| ==> RequestCovered(s, d, s.sent[i])
  }

  ghost predicate RequestCovered(s: State, d: Daemon, r: Request) {
    r.BlockHeadersRange? ==> Askable(s, d, r.range) && forall h :: r.range.start <= h <= r.range.end ==> Covered(s, h)
  }

  ghost predicate DataOk(data: map<nat, nat>, chain: seq<nat>) {
    forall h :: h in data && h < |chain| ==> data[h] == chain[h]
  }

  /** Heights and ranges stay within 32 bits. */
  ghost predicate Fits(s: State, d: Daemon, chain: seq<nat>) {
    && s.height < |chain| && s.height + d.maxRange < 0x1_0000_0000
    && d.concurrency >= 1 && d.maxRange >= 1
  }

  /** What holds at every moment, except how many requests are outstanding. */
  ghost predicate Sound(s: State, d: Daemon, chain: seq<nat>) {
    && Fits(s, d, chain)
    && |s.nonces| <= s.pos <= s.height + 1
    && (forall id :: id in s.req ==> id <= s.lastId && RangeOk(s, d, s.req[id]))
    && CoveredBelow(s, s.pos) && IssuedCovered(s, d) && DataOk(s.data, chain)
    && s.calls == []
  }

  /** The state of a sync under way. */
  ghost predicate Syncing(s: State, d: Daemon, chain: seq<nat>) {
    Sound(s, d, chain) && 1 <= |s.req| <= d.concurrency
  }

  /** The state of a finished sync: the old nonces go on with the chain's, and the listener was told once. */
  ghost predicate Synced(s: State, before: seq<nat>, chain: seq<nat>) {
    && |before| <= s.height + 1 <= |chain| && s.nonces == before + chain[|before|..s.height + 1]
    && s.data == map[] && s.req == map[] && s.calls == [SyncDone(true)]
  }

  // ----- sending

  /** A range is not empty exactly if its end does not overflow. */
  lemma RangeReaches(start: nat, count: nat, max: nat)
    requires start <= max < 0x1_0000_0000 && count < 0x1_0000_0000
    ensures NewRange(start, count, max).end >= start <==> start + count < 0x1_0000_0000
  {
    if start + count >= 0x1_0000_0000 {
      assert Word32(start + count) == start + count - 0x1_0000_0000;
    }
  }

  /** Near the end of the 32-bit heights a request would go backwards. */
  lemma RangeOverflows()
    ensures NewRange(0xFFFF_FFF0, 1000, 0xFFFF_FFFE) == Range(0xFFFF_FFF0, 984)
  {
  }

  lemma CoveredStays(s: State, t: State, h: nat)
    requires Covered(s, h)
    requires forall k :: k in s.data ==> k in t.data
    requires forall id :: id in s.req ==> id in t.req && t.req[id] == s.req[id]
    ensures Covered(t, h)
  {
  }

  /** Sending a range that starts within what is covered keeps everything covered. */
  lemma SendKeeps(s: State, d: Daemon, chain: seq<nat>, range: Range)
    requires Sound(s, d, chain)
    requires Askable(s, d, range) && CoveredBelow(s, range.start)
    ensures Sound(SendRange(s, range), d, chain)
    ensures |SendRange(s, range).req| == |s.req| + 1 && SendRange(s, range).pos == range.end + 1
  {
    var t := SendRange(s, range);
    var id := s.lastId + 1;
    assert id !in s.req;
    assert t.req[id] == range;
    forall h: nat | Covered(s, h)
      ensures Covered(t, h)
    {
      CoveredStays(s, t, h);
    }
    forall h: nat | range.start <= h <= range.end
      ensures Covered(t, h)
    {
      assert t.req[id].start <= h <= t.req[id].end;
    }
    assert CoveredBelow(t, range.end + 1);
  }

  lemma SendNextKeeps(s: State, d: Daemon, chain: seq<nat>)
    requires Sound(s, d, chain)
    ensures Sound(SendNext(s, d), d, chain)
    ensures s.pos > s.height ==> SendNext(s, d) == s
    ensures s.pos <= s.height ==> |SendNext(s, d).req| == |s.req| + 1 && SendNext(s, d).pos > s.pos
  {
    if s.pos <= s.height {
      RangeReaches(s.pos, d.maxRange, s.height);
      SendKeeps(s, d, chain, NewRange(s.pos, d.maxRange, s.height));
    }
  }

  // ----- starting

  /** A sync starts when the chain is longer than the nonces, and fits 32-bit arithmetic. */
  ghost predicate Startable(s: State, d: Daemon, chain: seq<nat>) {
    && Fits(s, d, chain) && |s.nonces| <= s.height
    && s.data == map[] && s.req == map[] && s.calls == []
    && OnlyAskedForHeight(s)
  }

  /** Nothing but the height has been asked for, under ids that are used once. */
  ghost predicate OnlyAskedForHeight(s: State) {
    && (forall i :: 0 <= i < |s.sent| ==> s.sent[i].LastBlockHeader? && s.sent[i].id <= s.lastId)
    && (forall i, j :: 0 <= i < j < |s.sent| ==> s.sent[i].id != s.sent[j].id)
  }

  /** The chain's height decides at once: refused, up to date, or a sync under way. */
  lemma HeightReply(s: State, d: Daemon, chain: seq<nat>, height: nat)
    requires s.data == map[] && s.req == map[] && s.calls == []
    requires OnlyAskedForHeight(s) && Fits(s.(height := height), d, chain)
    ensures var (t, ok) := SetLastBlockHeader(s, d, height);
            && (ok <==> 0 < height && |s.nonces| <= height + 1)
            && (ok ==> if |s.nonces| == height + 1 then t == s.(height := height, calls := [SyncDone(false)])
                       else Syncing(t, d, chain) && Accounted(t, {}) && t.nonces == s.nonces && t.height == height)
  {
    if 0 < height && |s.nonces| <= height {
      StartKeeps(s.(height := height), d, chain);
      StartAccounted(s.(height := height), d);
    }
  }

  lemma {:induction false} SendManyKeeps(s: State, d: Daemon, chain: seq<nat>, n: nat)
    requires Sound(s, d, chain) && s.req == map[] && s.pos <= s.height
    ensures var t := SendMany(s, d, n);
            && Sound(t, d, chain) && |t.req| <= n && (n > 0 ==> |t.req| >= 1)
            && t.nonces == s.nonces && t.height == s.height
  {
    hide Sound;
    if n > 0 {
      SendManyKeeps(s, d, chain, n - 1);
      SendNextKeeps(SendMany(s, d, n - 1), d, chain);
    }
  }

  /** The requests a sync starts with. */
  lemma StartKeeps(s: State, d: Daemon, chain: seq<nat>)
    requires Startable(s, d, chain)
    ensures var t := StartSync(s, d); Syncing(t, d, chain) && t.nonces == s.nonces && t.height == s.height
  {
    var s0 := s.(pos := Word32(|s.nonces|));
    assert Sound(s0, d, chain);
    SendManyKeeps(s0, d, chain, d.concurrency);
  }

  // ----- the books

  lemma SendAccounted(s: State, range: Range, done: set<nat>)
    requires Accounted(s, done) && forall id :: id in done ==> id <= s.lastId
    ensures Accounted(SendRange(s, range), done)
  {
    var t, id := SendRange(s, range), s.lastId + 1;
    assert t.sent[|s.sent|] == BlockHeadersRange(id, range);
    forall other | other in s.req
      ensures other <= s.lastId
    {
      assert Asked(s, other, s.req[other]);
    }
    forall other | other in t.req
      ensures other !in done && Asked(t, other, t.req[other])
    {
      if other != id {
        var i :| 0 <= i < |s.sent| && s.sent[i] == BlockHeadersRange(other, s.req[other]);
        assert t.sent[i] == s.sent[i];
      }
    }
  }

  lemma {:induction false} SendManyAccounted(s: State, d: Daemon, n: nat)
    requires Accounted(s, {})
    ensures Accounted(SendMany(s, d, n), {})
  {
    hide Accounted, SendRange, NewRange;
    if n > 0 {
      SendManyAccounted(s, d, n - 1);
      var t := SendMany(s, d, n - 1);
      if t.pos <= t.height {
        SendAccounted(t, NewRange(t.pos, d.maxRange, t.height), {});
      }
    }
  }

  lemma StartAccounted(s: State, d: Daemon)
    requires OnlyAskedForHeight(s) && s.req == map[]
    ensures Accounted(StartSync(s, d), {})
  {
    SendManyAccounted(s.(pos := Word32(|s.nonces|)), d, d.concurrency);
  }

  /** Striking a request out of the books. */
  lemma StrikeAccounted(s: State, t: State, id: nat, done: set<nat>)
    requires Accounted(s, done) && t.sent == s.sent && t.lastId == s.lastId && t.req == s.req - {id}
    ensures Accounted(t, done + {id})
  {
    forall other | other in t.req
      ensures other !in done + {id} && Asked(t, other, t.req[other])
    {
      assert Asked(s, other, s.req[other]);
    }
  }

  /** An id that has been asked for is no later than the last one. */
  lemma IdsBelow(s: State, done: set<nat>, id: nat)
    requires Accounted(s, done) && id in s.req
    ensures id <= s.lastId
  {
    assert Asked(s, id, s.req[id]);
  }

  /** A step keeps the books right, with one more request done. */
  lemma StepAccounted(s: State, d: Daemon, e: Event, done: set<nat>)
    requires Accounted(s, done) && (forall id :: id in done ==> id <= s.lastId) && e.id in s.req
    ensures var r := Step(s, d, e);
            r.Handled? ==>
              && Accounted(r.state, done + {e.id}) && s.lastId <= r.state.lastId
              && forall id :: id in done + {e.id} ==> id <= r.state.lastId
  {
    hide Accounted, AddHeaders, NewRange, SendRange;
    IdsBelow(s, done, e.id);
    match e
    case Reply(id, headers) =>
      if headers != [] {
        var t := Entered(s, id, headers);
        StrikeAccounted(s, t, id, done);
        SendAccounted(t, NewRange(t.pos, d.maxRange, t.height), done + {id});
        SentFields(t, NewRange(t.pos, d.maxRange, t.height));
        if t.req == map[] && t.pos > t.height && Saved(t.nonces, t.data, t.height).Some? {
          Unchanged(t, Step(s, d, e).state, done + {id});
        }
      }
    case TransportFailure(id) =>
      SendAccounted(s, s.req[id], done);
      SentFields(s, s.req[id]);
      StrikeAccounted(SendRange(s, s.req[id]), Retry(s, id), id, done);
  }

  lemma SentFields(s: State, range: Range)
    ensures SendRange(s, range).lastId == s.lastId + 1
  {
  }

  lemma Unchanged(s: State, t: State, done: set<nat>)
    requires Accounted(s, done) && t.sent == s.sent && t.lastId == s.lastId && t.req == s.req
    ensures Accounted(t, done)
  {
    forall other | other in t.req
      ensures Asked(t, other, t.req[other])
    {
      assert Asked(s, other, s.req[other]);
    }
  }

  // ----- a failure

  /** The height is covered without the given request, or lies in its range. */
  lemma CoveredWithout(s: State, id: nat, h: nat)
    requires id in s.req && Covered(s, h) && !(s.req[id].start <= h <= s.req[id].end)
    ensures Covered(s.(req := s.req - {id}), h)
  {
    if h !in s.data {
      var other :| other in s.req && s.req[other].start <= h <= s.req[other].end;
      assert other in s.req - {id};
    }
  }

  /** Asking again for the same range loses nothing, although the position may go back. */
  lemma RetryKeeps(s: State, d: Daemon, chain: seq<nat>, id: nat)
    requires Syncing(s, d, chain) && id in s.req
    ensures Syncing(Retry(s, id), d, chain)
    ensures Retry(s, id).nonces == s.nonces && Retry(s, id).height == s.height
  {
    var range := s.req[id];
    assert RangeOk(s, d, range);
    SendKeeps(s, d, chain, range);
    var sent := SendRange(s, range);
    var t := Retry(s, id);
    var id' := s.lastId + 1;
    assert id' in t.req && t.req[id'] == range;
    forall h: nat | Covered(sent, h)
      ensures Covered(t, h)
    {
      if range.start <= h <= range.end {
        assert t.req[id'].start <= h <= t.req[id'].end;
      } else {
        CoveredWithout(sent, id, h);
      }
    }
    RemovalKeepsRest(sent, t, d, chain);
  }

  /** Dropping a request keeps a sync sound if everything stays covered. */
  lemma RemovalKeepsRest(s: State, t: State, d: Daemon, chain: seq<nat>)
    requires Sound(s, d, chain) && t == s.(data := t.data, req := t.req) && DataOk(t.data, chain)
    requires forall id :: id in t.req ==> id in s.req && t.req[id] == s.req[id]
    requires forall h: nat :: Covered(s, h) ==> Covered(t, h)
    ensures Sound(t, d, chain)
  {
    forall id | id in t.req
      ensures id <= t.lastId && RangeOk(t, d, t.req[id])
    {
      assert RangeOk(s, d, s.req[id]);
    }
    forall i | 0 <= i < |t.sent|
      ensures RequestCovered(t, d, t.sent[i])
    {
      assert RequestCovered(s, d, s.sent[i]);
    }
  }

  // ----- a reply

  lemma {:induction false} HeadersAreIn(data: map<nat, nat>, headers: seq<Header>)
    ensures forall h :: h in data ==> h in AddHeaders(data, headers)
    ensures forall h :: HasHeader(headers, h) ==> h in AddHeaders(data, headers)
    decreases |headers|
  {
    if headers != [] {
      var n := |headers| - 1;
      HeadersAreIn(data, headers[..n]);
      forall h | HasHeader(headers, h)
        ensures h in AddHeaders(data, headers)
      {
        var i :| 0 <= i < |headers| && headers[i].height == h;
        assert i < n ==> headers[..n][i].height == h;
      }
    }
  }

  lemma {:induction false} HeadersAreChain(data: map<nat, nat>, headers: seq<Header>, chain: seq<nat>)
    requires DataOk(data, chain)
    requires forall i :: 0 <= i < |headers| && headers[i].height < |chain| ==> headers[i].nonce == chain[headers[i].height]
    ensures DataOk(AddHeaders(data, headers), chain)
    decreases |headers|
  {
    if headers != [] {
      HeadersAreChain(data, headers[..|headers| - 1], chain);
    }
  }

  /** The state after a complete reply was entered, before anything else is done. */
  function Entered(s: State, id: nat, headers: seq<Header>): State {
    s.(data := AddHeaders(s.data, headers), req := s.req - {id})
  }

  lemma EnteredKeeps(s: State, d: Daemon, chain: seq<nat>, id: nat, headers: seq<Header>)
    requires Sound(s, d, chain) && id in s.req && Complete(headers, s.req[id], chain)
    ensures Sound(Entered(s, id, headers), d, chain) && |Entered(s, id, headers).req| == |s.req| - 1
  {
    var range, t := s.req[id], Entered(s, id, headers);
    HeadersAreIn(s.data, headers);
    HeadersAreChain(s.data, headers, chain);
    forall h: nat | Covered(s, h)
      ensures Covered(t, h)
    {
      if range.start <= h <= range.end {
        assert HasHeader(headers, h);
      } else {
        CoveredWithout(s, id, h);
        CoveredStays(s.(req := s.req - {id}), t, h);
      }
    }
    RemovalKeepsRest(s, t, d, chain);
  }

  lemma {:induction false} SavedIs(nonces: seq<nat>, data: map<nat, nat>, height: nat, chain: seq<nat>)
    requires height < |chain| && |nonces| <= height + 1 && DataOk(data, chain)
    requires forall h: nat :: |nonces| <= h <= height ==> h in data
    ensures Saved(nonces, data, height) == Some(nonces + chain[|nonces|..height + 1])
    decreases height + 1 - |nonces|
  {
    if |nonces| <= height {
      var more := nonces + [data[|nonces|]];
      SavedIs(more, data, height, chain);
      assert more + chain[|more|..height + 1] == nonces + chain[|nonces|..height + 1];
    } else {
      assert nonces + chain[|nonces|..height + 1] == nonces;
    }
  }

  /** When nothing is outstanding and the position is past the end, every nonce is there to be saved. */
  lemma FinishKeeps(s: State, d: Daemon, chain: seq<nat>)
    requires Sound(s, d, chain) && s.req == map[] && s.pos > s.height
    ensures Saved(s.nonces, s.data, s.height) == Some(s.nonces + chain[|s.nonces|..s.height + 1])
  {
    forall h: nat | |s.nonces| <= h <= s.height
      ensures h in s.data
    {
      assert Covered(s, h);
    }
    SavedIs(s.nonces, s.data, s.height, chain);
  }

  /** A range that a sound sync waits for is not empty, so a complete reply is not empty either. */
  lemma CompleteIsNotEmpty(s: State, d: Daemon, chain: seq<nat>, id: nat, headers: seq<Header>)
    requires Sound(s, d, chain) && id in s.req && Complete(headers, s.req[id], chain)
    ensures headers != []
  {
    assert RangeOk(s, d, s.req[id]);
    assert HasHeader(headers, s.req[id].start);
  }

  // ----- any step

  /** Heights still to be asked for, plus requests outstanding. */
  ghost function Remaining(s: State): nat {
    (if s.pos <= s.height then s.height + 1 - s.pos else 0) + |s.req|
  }

  /** The sync goes on in a state as good as before, or it is finished. */
  ghost predicate GoesOn(s: State, t: State, d: Daemon, chain: seq<nat>) {
    && t.height == s.height
    && if t.calls == [] then Syncing(t, d, chain) && t.nonces == s.nonces else Synced(t, s.nonces, chain)
  }

  lemma ReplyKeeps(s: State, d: Daemon, chain: seq<nat>, id: nat, headers: seq<Header>)
    requires Syncing(s, d, chain) && id in s.req && Complete(headers, s.req[id], chain)
    ensures var r := SetBlockHeadersRange(s, d, id, Some(headers));
            && r.Handled? && GoesOn(s, r.state, d, chain)
            && (r.state.calls == [] ==> Remaining(r.state) < Remaining(s))
  {
    hide Sound, Complete;
    CompleteIsNotEmpty(s, d, chain, id, headers);
    EnteredKeeps(s, d, chain, id, headers);
    var t := Entered(s, id, headers);
    SoundBounds(t, d, chain);
    if t.req == map[] && t.pos > t.height {
      FinishKeeps(t, d, chain);
    } else {
      SendNextKeeps(t, d, chain);
    }
  }

  lemma SoundBounds(s: State, d: Daemon, chain: seq<nat>)
    requires Sound(s, d, chain)
    ensures |s.nonces| <= s.pos <= s.height + 1 <= |chain| && s.calls == [] && d.concurrency >= 1
  {
  }

  /** What an honest daemon is known to have been asked for, and what it is known to have answered. */
  ghost predicate InStep(s: State, d: Daemon, done: set<nat>, chain: seq<nat>) {
    Syncing(s, d, chain) && Accounted(s, done) && forall id :: id in done ==> id <= s.lastId
  }

  lemma AnsweredKeeps(s: State, d: Daemon, chain: seq<nat>, e: Event)
    requires Syncing(s, d, chain) && Answered(s, e, chain)
    ensures var r := Step(s, d, e);
            && r.Handled? && GoesOn(s, r.state, d, chain)
            && (e.Reply? && r.state.calls == [] ==> Remaining(r.state) < Remaining(s))
  {
    hide Sound, Complete;
    match e
    case Reply(id, headers) => ReplyKeeps(s, d, chain, id, headers);
    case TransportFailure(id) =>
      RetryKeeps(s, d, chain, id);
      SoundBounds(Retry(s, id), d, chain);
  }

  /**
    Whatever an honest daemon answers to what it was asked, and whichever requests fail, no step is refused or throws,
    the invariant holds again or the sync is finished, the books stay right, and a reply brings the end closer.
   */
  lemma StepKeeps(s: State, d: Daemon, done: set<nat>, chain: seq<nat>, e: Event)
    requires InStep(s, d, done, chain) && Honest(s, done, e, chain)
    ensures var r := Step(s, d, e);
            && r.Handled? && GoesOn(s, r.state, d, chain)
            && (r.state.calls == [] ==> InStep(r.state, d, done + {e.id}, chain))
            && (e.Reply? && r.state.calls == [] ==> Remaining(r.state) < Remaining(s))
  {
    hide Syncing, Accounted, Honest, Complete, Step;
    HonestIsAnswered(s, done, e, chain);
    AnsweredKeeps(s, d, chain, e);
    StepAccounted(s, d, e, done);
  }

  // ----- whole runs

  /** The events of a run happen while the sync is under way, each one honest. */
  ghost predicate HonestRun(s: State, d: Daemon, done: set<nat>, events: seq<Event>, chain: seq<nat>)
    decreases |events|
  {
    events == [] ||
    (s.calls == [] && Honest(s, done, events[0], chain)
     && (Step(s, d, events[0]).Handled? ==>
           HonestRun(Step(s, d, events[0]).state, d, done + {events[0].id}, events[1..], chain)))
  }

  function Run(s: State, d: Daemon, events: seq<Event>): Reaction
    decreases |events|
  {
    if events == [] then Handled(s)
    else
      var r := Step(s, d, events[0]);
      if r.Handled? then Run(r.state, d, events[1..]) else r
  }

  function Failures(events: seq<Event>): nat {
    if events == [] then 0 else (if events[0].TransportFailure? then 1 else 0) + Failures(events[1..])
  }

  /** The requests that are done after some events. */
  function Done(done: set<nat>, events: seq<Event>): set<nat>
    decreases |events|
  {
    if events == [] then done else Done(done + {events[0].id}, events[1..])
  }

  /** Safety of every run: it is never refused and never throws, and ends with a sound or a finished sync. */
  lemma {:induction false} RunKeeps(s: State, d: Daemon, done: set<nat>, chain: seq<nat>, events: seq<Event>)
    requires InStep(s, d, done, chain) && HonestRun(s, d, done, events, chain)
    ensures var r := Run(s, d, events);
            && r.Handled? && GoesOn(s, r.state, d, chain)
            && (r.state.calls == [] ==> InStep(r.state, d, Done(done, events), chain))
    decreases |events|
  {
    hide Syncing, Accounted, Honest, Step;
    if events == [] {
      StillSyncing(s, d, chain);
    } else {
      StepKeeps(s, d, done, chain, events[0]);
      var t := Step(s, d, events[0]).state;
      if t.calls == [] {
        RunKeeps(t, d, done + {events[0].id}, chain, events[1..]);
      } else {
        assert events[1..] == [];
      }
    }
  }

  lemma StillSyncing(s: State, d: Daemon, chain: seq<nat>)
    requires Syncing(s, d, chain)
    ensures GoesOn(s, s, d, chain) && s.calls == []
  {
  }

  /** A bound on the events of a run with `f` failures, each of which may undo at most `k` of the progress. */
  function Allowance(f: nat, k: nat): nat {
    if f == 0 then 0 else 1 + k + Allowance(f - 1, k)
  }

  lemma RemainingBound(s: State, d: Daemon, chain: seq<nat>)
    requires Syncing(s, d, chain)
    ensures 1 <= Remaining(s) <= s.height + 1 + d.concurrency
  {
  }

  /**
    Progress: while the sync is under way a run has at most as many events as there is
    work left, plus what its failures allow.  So a run with finitely many failures ends.
   */
  lemma {:induction false} RunEnds(s: State, d: Daemon, done: set<nat>, chain: seq<nat>, events: seq<Event>)
    requires InStep(s, d, done, chain) && HonestRun(s, d, done, events, chain)
    ensures |events| <= Remaining(s) + Allowance(Failures(events), s.height + 1 + d.concurrency)
    decreases |events|
  {
    hide Syncing, Accounted, Honest, Step, Remaining;
    RemainingBound(s, d, chain);
    if events != [] {
      StepKeeps(s, d, done, chain, events[0]);
      var t := Step(s, d, events[0]).state;
      if t.calls == [] {
        RunEnds(t, d, done + {events[0].id}, chain, events[1..]);
        RemainingBound(t, d, chain);
      } else {
        assert events[1..] == [];
      }
    }
  }

  /** The reply an honest daemon gives. */
  function Answer(range: Range, chain: seq<nat>): (headers: seq<Header>)
    requires range.start <= range.end < |chain|
  {
    seq(range.end + 1 - range.start,
        i requires 0 <= i < range.end + 1 - range.start => Header(range.start + i, chain[range.start + i]))
  }

  /** A sync under way never gets stuck: some request is outstanding, and its reply would be accepted. */
  lemma NeverStuck(s: State, d: Daemon, done: set<nat>, chain: seq<nat>) returns (e: Event)
    requires InStep(s, d, done, chain)
    ensures e.Reply? && Honest(s, done, e, chain)
  {
    var id :| id in s.req;
    assert RangeOk(s, d, s.req[id]) && Asked(s, id, s.req[id]);
    var headers := Answer(s.req[id], chain);
    e := Reply(id, headers);
    forall h | s.req[id].start <= h <= s.req[id].end
      ensures HasHeader(headers, h)
    {
      assert headers[h - s.req[id].start].height == h;
    }
  }

  /**
    From the reply with the chain's height to the end: every run of replies and failures
    is safe, and a run that cannot go on has completed the sync exactly once, with the
    old nonces followed by the chain's.
   */
  lemma SyncCompletes(s: State, d: Daemon, chain: seq<nat>, events: seq<Event>)
    requires Startable(s, d, chain) && HonestRun(StartSync(s, d), d, {}, events, chain)
    ensures var r := Run(StartSync(s, d), d, events);
            && r.Handled?
            && if r.state.calls == []
               then InStep(r.state, d, Done({}, events), chain) && exists e :: Honest(r.state, Done({}, events), e, chain)
               else Synced(r.state, s.nonces, chain) && r.state.height == s.height
    ensures |events| <= s.height + 1 + d.concurrency
                        + Allowance(Failures(events), s.height + 1 + d.concurrency)
  {
    hide Syncing, Accounted, Honest, Step, Remaining;
    StartKeeps(s, d, chain);
    StartAccounted(s, d);
    var s0 := StartSync(s, d);
    RunKeeps(s0, d, {}, chain, events);
    RunEnds(s0, d, {}, chain, events);
    RemainingBound(s0, d, chain);
    var t := Run(s0, d, events).state;
    if t.calls == [] {
      var e := NeverStuck(t, d, Done({}, events), chain);
    }
  }

  // ----- without failures

  /** The ranges that were asked for, in order, are consecutive from one height up to another. */
  ghost predicate Consecutive(sent: seq<Request>, from: nat, to: nat)
    decreases |sent|
  {
    if sent == [] then from == to
    else
      var n := |sent| - 1;
      match sent[n]
      case LastBlockHeader(_) => Consecutive(sent[..n], from, to)
      case BlockHeadersRange(_, range) =>
        range.start <= range.end && range.end + 1 == to && Consecutive(sent[..n], from, range.start)
  }

  /** As many requests as allowed are outstanding, or everything has been asked for; and no height was asked for twice. */
  ghost predicate Busy(s: State, d: Daemon) {
    Consecutive(s.sent, |s.nonces|, s.pos) && (|s.req| == d.concurrency || s.pos > s.height)
  }

  lemma SentNextInOrder(s: State, d: Daemon, chain: seq<nat>)
    requires Sound(s, d, chain) && Consecutive(s.sent, |s.nonces|, s.pos)
    ensures Consecutive(SendNext(s, d).sent, |s.nonces|, SendNext(s, d).pos)
  {
    hide Covered, Complete;
    if s.pos <= s.height {
      RangeReaches(s.pos, d.maxRange, s.height);
      var t := SendNext(s, d);
      assert t.sent[..|s.sent|] == s.sent;
    }
  }

  lemma {:induction false} SentManyInOrder(s: State, d: Daemon, chain: seq<nat>, n: nat)
    requires Sound(s, d, chain) && s.req == map[] && s.pos <= s.height && Consecutive(s.sent, |s.nonces|, s.pos)
    ensures var t := SendMany(s, d, n);
            Consecutive(t.sent, |s.nonces|, t.pos) && t.nonces == s.nonces && (|t.req| == n || t.pos > t.height)
  {
    hide Sound, Consecutive;
    if n > 0 {
      SentManyInOrder(s, d, chain, n - 1);
      SendManyKeeps(s, d, chain, n - 1);
      SentNextInOrder(SendMany(s, d, n - 1), d, chain);
      SendNextKeeps(SendMany(s, d, n - 1), d, chain);
    }
  }

  lemma {:induction false} NothingAsked(sent: seq<Request>, from: nat)
    requires forall i :: 0 <= i < |sent| ==> sent[i].LastBlockHeader?
    ensures Consecutive(sent, from, from)
    decreases |sent|
  {
    if sent != [] {
      NothingAsked(sent[..|sent| - 1], from);
    }
  }

  lemma StartBusy(s: State, d: Daemon, chain: seq<nat>)
    requires Startable(s, d, chain)
    ensures Busy(StartSync(s, d), d)
  {
    hide Consecutive;
    var s0 := s.(pos := Word32(|s.nonces|));
    NothingAsked(s0.sent, |s.nonces|);
    assert Sound(s0, d, chain);
    SentManyInOrder(s0, d, chain, d.concurrency);
  }

  lemma ReplyBusy(s: State, d: Daemon, chain: seq<nat>, id: nat, headers: seq<Header>)
    requires Syncing(s, d, chain) && id in s.req && Complete(headers, s.req[id], chain) && Busy(s, d)
    ensures var r := SetBlockHeadersRange(s, d, id, Some(headers));
            r.Handled? && (r.state.calls == [] ==> Busy(r.state, d))
  {
    hide Sound, Complete, Consecutive;
    CompleteIsNotEmpty(s, d, chain, id, headers);
    EnteredKeeps(s, d, chain, id, headers);
    var t := Entered(s, id, headers);
    SoundBounds(t, d, chain);
    if t.req == map[] && t.pos > t.height {
      FinishKeeps(t, d, chain);
    } else {
      SendNextKeeps(t, d, chain);
      SentNextInOrder(t, d, chain);
    }
  }

  /**
    Without failures every height is asked for exactly once, in order, and as many requests are outstanding as are
    allowed until everything has been asked for.
   */
  lemma {:induction false} WithoutFailures(s: State, d: Daemon, done: set<nat>, chain: seq<nat>, events: seq<Event>)
    requires InStep(s, d, done, chain) && HonestRun(s, d, done, events, chain) && Busy(s, d) && Failures(events) == 0
    ensures var r := Run(s, d, events); r.Handled? && (r.state.calls == [] ==> Busy(r.state, d))
    decreases |events|
  {
    hide Syncing, Accounted, Honest, Step, Busy, Complete;
    if events == [] {
    } else {
      var e := events[0];
      StepKeeps(s, d, done, chain, e);
      HonestIsAnswered(s, done, e, chain);
      StepOfReply(s, d, e);
      ReplyBusy(s, d, chain, e.id, e.headers);
      var t := Step(s, d, e).state;
      if t.calls == [] {
        WithoutFailures(t, d, done + {e.id}, chain, events[1..]);
      } else {
        assert events[1..] == [];
      }
    }
  }

  lemma StepOfReply(s: State, d: Daemon, e: Event)
    requires e.Reply?
    ensures Step(s, d, e) == SetBlockHeadersRange(s, d, e.id, Some(e.headers))
  {
  }

  /** The same from the start of a sync on. */
  lemma SyncInOrder(s: State, d: Daemon, chain: seq<nat>, events: seq<Event>)
    requires Startable(s, d, chain) && HonestRun(StartSync(s, d), d, {}, events, chain) && Failures(events) == 0
    ensures var r := Run(StartSync(s, d), d, events); r.Handled? && (r.state.calls == [] ==> Busy(r.state, d))
  {
    hide Syncing, Accounted, Honest, Step, Busy;
    StartKeeps(s, d, chain);
    StartAccounted(s, d);
    StartBusy(s, d, chain);
    WithoutFailures(StartSync(s, d), d, {}, chain, events);
  }
}
