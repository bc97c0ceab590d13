/** Blocks served through the cache against an observer that grows, finalises blocks and rolls back its
    non-final tail (server/provider/networkProvider.go, server/provider/nodeStatus.go).
    Every client request is cut into its atomic steps, so that they interleave freely. */
module CacheProtocol {
  import opened Encoding
  import opened Chain

  const NONCE_DELTA: nat := 2

  /** The latest nonce served, given the highest final nonce; None stands for the error. */
  function LatestNonceGivenHighestFinalNonce(highestFinal: nat): Option<nat> {
    if highestFinal <= NONCE_DELTA then None else Some(highestFinal - NONCE_DELTA)
  }

  const LAST_NONCE: nat := TWO_TO_THE_64 - 1

  /** A block and its neighbours, in the order in which they are fetched; nonces are 64 bits wide. */
  function Around(nonce: nat): seq<nat> {
    [nonce, if nonce == 0 then LAST_NONCE else nonce - 1, (nonce + 1) % TWO_TO_THE_64]
  }

  datatype Observer = Observer(chain: seq<Block>, highestFinal: nat)

  /** What a client still wants, and what it has got so far. */
  datatype Client =
    | Idle
    | Collecting(wanted: seq<nat>, got: seq<Block>)
    | Missed(wanted: seq<nat>, got: seq<Block>)
    | Fetched(wanted: seq<nat>, got: seq<Block>, response: Block)

  datatype State = State(observer: Observer, cache: map<nat, Block>, clients: map<nat, Client>)

  datatype Event =
    | Grow(block: Block)
    | Finalize(nonce: nat)
    | Rollback(length: nat)
    | Evict(nonce: nat)
    | StartByNonce(client: nat, nonce: nat, statusRead: nat)
    | StartByHash(client: nat, nonce: nat)
    | Hit(client: nat)
    | Miss(client: nat)
    | Respond(client: nat)
    | Store(client: nat)
    | Serve(client: nat)
    | GiveUp(client: nat)

  ghost predicate Phase(s: State, c: nat, collecting: bool) {
    c in s.clients && (if collecting then s.clients[c].Collecting? else s.clients[c].Missed?)
    && |s.clients[c].got| < |s.clients[c].wanted|
  }

  ghost predicate Enabled(s: State, e: Event) {
    match e
    case Grow(block) => block.nonce == |s.observer.chain| < LAST_NONCE
    case Finalize(nonce) => s.observer.highestFinal <= nonce < |s.observer.chain|
    case Rollback(length) => s.observer.highestFinal < length <= |s.observer.chain|
    case Evict(_) => true
    case StartByNonce(c, nonce, statusRead) =>
      // The status may have been read long ago.
      && c in s.clients && s.clients[c].Idle?
      && statusRead <= s.observer.highestFinal
      && LatestNonceGivenHighestFinalNonce(statusRead).Some?
      && nonce <= LatestNonceGivenHighestFinalNonce(statusRead).value
    case StartByHash(c, nonce) => c in s.clients && s.clients[c].Idle? && nonce < |s.observer.chain|
    case Hit(c) => Phase(s, c, true) && Next(s.clients[c]) in s.cache
    case Miss(c) => Phase(s, c, true) && Next(s.clients[c]) !in s.cache
    case Respond(c) => Phase(s, c, false) && Next(s.clients[c]) < |s.observer.chain|
    case Store(c) => c in s.clients && s.clients[c].Fetched? && |s.clients[c].got| < |s.clients[c].wanted|
    case Serve(c) => c in s.clients && s.clients[c].Collecting? && |s.clients[c].got| == |s.clients[c].wanted|
    case GiveUp(c) => c in s.clients
  }

  function Next(client: Client): nat
    requires !client.Idle? && |client.got| < |client.wanted|
  {
    client.wanted[|client.got|]
  }

  ghost function Apply(s: State, e: Event): State
    requires Enabled(s, e)
  {
    match e
    case Grow(block) => s.(observer := s.observer.(chain := s.observer.chain + [block]))
    case Finalize(nonce) => s.(observer := s.observer.(highestFinal := nonce))
    case Rollback(length) => s.(observer := s.observer.(chain := s.observer.chain[..length]))
    case Evict(nonce) => s.(cache := s.cache - {nonce})
    case StartByNonce(c, nonce, _) => s.(clients := s.clients[c := Collecting(Around(nonce), [])])
    case StartByHash(c, nonce) =>
      // The block itself bypasses the cache; only its neighbours go through it.
      s.(clients := s.clients[c := Collecting(Around(nonce), [s.observer.chain[nonce]])])
    case Hit(c) =>
      var client := s.clients[c];
      s.(clients := s.clients[c := Collecting(client.wanted, client.got + [s.cache[Next(client)]])])
    case Miss(c) =>
      var client := s.clients[c];
      s.(clients := s.clients[c := Missed(client.wanted, client.got)])
    case Respond(c) =>
      var client := s.clients[c];
      s.(clients := s.clients[c := Fetched(client.wanted, client.got, s.observer.chain[Next(client)])])
    case Store(c) =>
      var client := s.clients[c];
      s.(cache := s.cache[Next(client) := client.response],
         clients := s.clients[c := Collecting(client.wanted, client.got + [client.response])])
    case Serve(c) => s.(clients := s.clients[c := Idle])
    case GiveUp(c) => s.(clients := s.clients[c := Idle])
  }

  // ---------------------------------------------------------------- runs

  /** Requests by hash are only made for blocks below the highest final one. */
  ghost predicate Guarded(s: State, e: Event) {
    e.StartByHash? ==> e.nonce < s.observer.highestFinal
  }

  ghost predicate IsRun(states: seq<State>, events: seq<Event>) {
    && |states| == |events| + 1
    && forall i :: 0 <= i < |events| ==> Enabled(states[i], events[i]) && states[i + 1] == Apply(states[i], events[i])
  }

  ghost predicate GuardedRun(states: seq<State>, events: seq<Event>) {
    IsRun(states, events) && forall i :: 0 <= i < |events| ==> Guarded(states[i], events[i])
  }

  ghost predicate Initial(s: State) {
    && ValidObserver(s.observer)
    && s.cache == map[]
    && forall c :: c in s.clients ==> s.clients[c] == Idle
  }

  ghost predicate ValidObserver(o: Observer) {
    o.highestFinal < |o.chain| <= LAST_NONCE && forall n :: 0 <= n < |o.chain| ==> o.chain[n].nonce == n
  }

  // ---------------------------------------------------------------- safety

  /** "block" is final, and is what the observer holds at "nonce". */
  ghost predicate HeldAndFinal(o: Observer, nonce: nat, block: Block) {
    nonce <= o.highestFinal && nonce < |o.chain| && o.chain[nonce] == block
  }

  ghost predicate SafeCache(s: State) {
    forall n :: n in s.cache ==> HeldAndFinal(s.observer, n, s.cache[n])
  }

  ghost predicate SafeClient(o: Observer, client: Client) {
    client.Idle? || (
      && |client.got| <= |client.wanted|
      && (forall i :: 0 <= i < |client.wanted| ==> client.wanted[i] <= o.highestFinal || client.wanted[i] == LAST_NONCE)
      && (forall i :: 0 <= i < |client.got| ==> HeldAndFinal(o, client.wanted[i], client.got[i]))
      && (client.Fetched? ==>
            |client.got| < |client.wanted| && HeldAndFinal(o, Next(client), client.response)))
  }

  ghost predicate Safe(s: State) {
    && ValidObserver(s.observer)
    && SafeCache(s)
    && forall c :: c in s.clients ==> SafeClient(s.observer, s.clients[c])
  }

  lemma {:induction false} InitialIsSafe(s: State)
    requires Initial(s)
    ensures Safe(s)
  {
  }

  lemma {:induction false} StepKeepsObserver(s: State, e: Event)
    requires ValidObserver(s.observer) && Enabled(s, e)
    ensures ValidObserver(Apply(s, e).observer)
    ensures FinalPrefixKept(s.observer, Apply(s, e).observer)
  {
  }

  /** Final blocks stay, and stay final. */
  ghost predicate FinalPrefixKept(o: Observer, o': Observer) {
    forall n, b :: HeldAndFinal(o, n, b) ==> HeldAndFinal(o', n, b)
  }

  lemma {:induction false} ClientStaysSafe(o: Observer, o': Observer, client: Client)
    requires o.highestFinal <= o'.highestFinal && FinalPrefixKept(o, o')
    requires SafeClient(o, client)
    ensures SafeClient(o', client)
  {
  }

  lemma {:induction false} StepKeepsSafe(s: State, e: Event)
    requires Safe(s) && Enabled(s, e) && Guarded(s, e)
    ensures Safe(Apply(s, e))
  {
    var s' := Apply(s, e);
    StepKeepsObserver(s, e);
    forall c | c in s'.clients ensures SafeClient(s'.observer, s'.clients[c]) {
      if c in s.clients {
        ClientStaysSafe(s.observer, s'.observer, s.clients[c]);
      }
      if s'.clients[c] != s.clients[c] {
        SteppingClient(s, e, c);
      }
    }
    forall n | n in s'.cache ensures HeldAndFinal(s'.observer, n, s'.cache[n]) {
      if e.Store? && n == Next(s.clients[e.client]) {
        assert SafeClient(s.observer, s.clients[e.client]);
      } else {
        assert HeldAndFinal(s.observer, n, s.cache[n]);
      }
    }
  }

  lemma {:induction false} StartsSafe(o: Observer, nonce: nat, got: seq<Block>)
    requires ValidObserver(o) && nonce < o.highestFinal
    requires got == [] || got == [o.chain[nonce]]
    ensures SafeClient(o, Collecting(Around(nonce), got))
  {
  }

  lemma {:induction false} GotOneMore(o: Observer, client: Client, block: Block)
    requires SafeClient(o, client) && !client.Idle? && |client.got| < |client.wanted|
    requires HeldAndFinal(o, Next(client), block)
    ensures SafeClient(o, Collecting(client.wanted, client.got + [block]))
  {
  }

  /** The observer has no block at the last nonce, so what it responds is final. */
  lemma {:induction false} FetchesSafely(o: Observer, client: Client)
    requires ValidObserver(o) && SafeClient(o, client) && !client.Idle?
    ensures SafeClient(o, Missed(client.wanted, client.got))
    ensures |client.got| < |client.wanted| && Next(client) < |o.chain| ==>
              SafeClient(o, Fetched(client.wanted, client.got, o.chain[Next(client)]))
    ensures client.Fetched? ==> HeldAndFinal(o, Next(client), client.response)
  {
  }

  lemma {:induction false} SteppingClient(s: State, e: Event, c: nat)
    requires Safe(s) && Enabled(s, e) && Guarded(s, e)
    requires c in s.clients && Apply(s, e).clients[c] != s.clients[c]
    ensures SafeClient(s.observer, Apply(s, e).clients[c])
  {
    hide SafeClient, HeldAndFinal;
    var o, client := s.observer, s.clients[c];
    match e
    case StartByNonce(_, nonce, _) => StartsSafe(o, nonce, []);
    case StartByHash(_, nonce) => StartsSafe(o, nonce, [o.chain[nonce]]);
    case Hit(_) => GotOneMore(o, client, s.cache[Next(client)]);
    case Miss(_) => FetchesSafely(o, client);
    case Respond(_) => FetchesSafely(o, client);
    case Store(_) =>
      FetchesSafely(o, client);
      GotOneMore(o, client, client.response);
    case _ => IdleIsSafe(o);
  }

  lemma {:induction false} IdleIsSafe(o: Observer)
    ensures SafeClient(o, Idle)
  {
  }

  /** Along every run, however the steps interleave and however stale the status reads: all cached blocks
      are final and equal what the observer holds at that moment, and so does everything a client has got. */
  lemma {:induction false} EveryRunIsSafe(states: seq<State>, events: seq<Event>, i: nat)
    requires GuardedRun(states, events) && Initial(states[0])
    requires i < |states|
    ensures Safe(states[i])
  {
    if i == 0 {
      InitialIsSafe(states[0]);
    } else {
      EveryRunIsSafe(states, events, i - 1);
      StepKeepsSafe(states[i - 1], events[i - 1]);
    }
  }

  /** What is served is what the observer holds now, and all of it is final. */
  lemma {:induction false} ServedIsHeldNow(states: seq<State>, events: seq<Event>, i: nat)
    requires GuardedRun(states, events) && Initial(states[0])
    requires i < |events| && events[i].Serve?
    ensures var served := states[i].clients[events[i].client];
      forall k :: 0 <= k < |served.wanted| ==>
        |served.got| == |served.wanted| && HeldAndFinal(states[i].observer, served.wanted[k], served.got[k])
  {
    EveryRunIsSafe(states, events, i);
  }

  lemma {:induction false} FinalPrefixKeptAlong(states: seq<State>, events: seq<Event>, i: nat, j: nat)
    requires GuardedRun(states, events) && Initial(states[0])
    requires i <= j < |states|
    ensures FinalPrefixKept(states[i].observer, states[j].observer)
  {
    if i < j {
      FinalPrefixKeptAlong(states, events, i, j - 1);
      EveryRunIsSafe(states, events, j - 1);
      StepKeepsObserver(states[j - 1], events[j - 1]);
    }
  }

  /** The same request is answered with the same blocks for the rest of the run. */
  lemma {:induction false} AnswersNeverChange(states: seq<State>, events: seq<Event>, i: nat, j: nat)
    requires GuardedRun(states, events) && Initial(states[0])
    requires i <= j < |events| && events[i].Serve? && events[j].Serve?
    requires states[i].clients[events[i].client].wanted == states[j].clients[events[j].client].wanted
    ensures states[i].clients[events[i].client].got == states[j].clients[events[j].client].got
  {
    ServedIsHeldNow(states, events, i);
    ServedIsHeldNow(states, events, j);
    FinalPrefixKeptAlong(states, events, i, j);
    var first, second := states[i].clients[events[i].client], states[j].clients[events[j].client];
    forall k | 0 <= k < |first.wanted| ensures first.got[k] == second.got[k] {
      assert HeldAndFinal(states[i].observer, first.wanted[k], first.got[k]);
      assert HeldAndFinal(states[j].observer, first.wanted[k], first.got[k]);
    }
  }

  lemma {:induction false} StepKeepsCached(s: State, e: Event, n: nat)
    requires Enabled(s, e) && n in s.cache && e != Evict(n)
    ensures n in Apply(s, e).cache
  {
  }

  /** What has been cached is not asked of the observer again, as long as it is not evicted. */
  lemma {:induction false} CachedIsNotFetchedAgain(
      states: seq<State>, events: seq<Event>, i: nat, j: nat, n: nat)
    requires IsRun(states, events) && i <= j < |events|
    requires n in states[i].cache && forall k :: i <= k < j ==> events[k] != Evict(n)
    ensures n in states[j].cache
    ensures Enabled(states[j], events[j])
    ensures events[j].Miss? ==> Next(states[j].clients[events[j].client]) != n
    decreases j - i
  {
    if i < j {
      StepKeepsCached(states[i], events[i], n);
      CachedIsNotFetchedAgain(states, events, i + 1, j, n);
    }
  }

  // ---------------------------------------------------------------- requests by hash

  /** Getting the next block on a cache miss, without interference. */
  ghost function FetchNext(s: State, c: nat): State
    requires Phase(s, c, true)
    requires Next(s.clients[c]) !in s.cache && Next(s.clients[c]) < |s.observer.chain|
  {
    Apply(Apply(Apply(s, Miss(c)), Respond(c)), Store(c))
  }

  /** Getting the next block, from the cache or from the observer, without interference. */
  ghost function GetNext(s: State, c: nat): State
    requires Phase(s, c, true) && Next(s.clients[c]) < |s.observer.chain|
  {
    if Next(s.clients[c]) in s.cache then Apply(s, Hit(c)) else FetchNext(s, c)
  }

  lemma {:induction false} GetNextAdds(s: State, c: nat)
    requires Phase(s, c, true) && Next(s.clients[c]) < |s.observer.chain|
    ensures var client, n := s.clients[c], Next(s.clients[c]);
      var block := if n in s.cache then s.cache[n] else s.observer.chain[n];
      GetNext(s, c) == State(
        s.observer, s.cache[n := block], s.clients[c := Collecting(client.wanted, client.got + [block])])
  {
    hide FetchNext;
    if Next(s.clients[c]) in s.cache {
      assert s.cache[Next(s.clients[c]) := s.cache[Next(s.clients[c])]] == s.cache;
    } else {
      FetchNextAdds(s, c);
    }
  }

  /** A request by hash for block "nonce", without interference, as far as it gets: without a block before the first
      one nothing is fetched, and without a block after the last one only the block before is. */
  ghost function AfterRequestByHash(s: State, c: nat, nonce: nat): State
    requires ValidObserver(s.observer) && Enabled(s, StartByHash(c, nonce))
  {
    var started := Apply(s, StartByHash(c, nonce));
    if nonce == 0 then started
    else
      GetNextAdds(started, c);
      if nonce + 1 == |s.observer.chain| then GetNext(started, c) else GetNext(GetNext(started, c), c)
  }

  /** When a request by hash leaves the cache safe: where it caches the next block, that block must be final, and where
      it only gets to the block before, that one must be. */
  predicate LeavesCacheSafe(o: Observer, nonce: nat) {
    if nonce == 0 then true
    else if nonce + 1 < |o.chain| then nonce + 1 <= o.highestFinal
    else nonce - 1 <= o.highestFinal
  }

  /** The request ends there: the client has all blocks, or the next one is neither cached nor held by the observer. */
  ghost predicate GetsNoFurther(s: State, c: nat) {
    c in s.clients && s.clients[c].Collecting? && |s.clients[c].got| <= |s.clients[c].wanted|
    && (|s.clients[c].got| < |s.clients[c].wanted| ==>
          Next(s.clients[c]) !in s.cache && Next(s.clients[c]) >= |s.observer.chain|)
  }

  /** From any safe state, whatever is cached, and for every block that the observer holds. In particular a request
      that is answered with an error, for the last block, may have cached a block that is not final. */
  lemma {:induction false} ByHashIsSafeExactly(s: State, c: nat, nonce: nat)
    requires Safe(s) && Enabled(s, StartByHash(c, nonce))
    ensures SafeCache(AfterRequestByHash(s, c, nonce)) <==> LeavesCacheSafe(s.observer, nonce)
    ensures AfterRequestByHash(s, c, nonce).observer == s.observer
    ensures GetsNoFurther(AfterRequestByHash(s, c, nonce), c)
  {
    var started := Apply(s, StartByHash(c, nonce));
    SafeKeysAreHeld(s);
    if nonce > 0 {
      if nonce + 1 < |s.observer.chain| {
        ByHashWithNeighbours(s, c, nonce);
      } else {
        ByHashOfLast(s, c, nonce);
      }
    }
  }

  lemma {:induction false} SafeKeysAreHeld(s: State)
    requires Safe(s)
    ensures forall n :: n in s.cache ==> n < |s.observer.chain| <= LAST_NONCE && s.cache[n] == s.observer.chain[n]
  {
    forall n | n in s.cache ensures n < |s.observer.chain| && s.cache[n] == s.observer.chain[n] {
      assert HeldAndFinal(s.observer, n, s.cache[n]);
    }
  }

  lemma {:induction false} ByHashOfLast(s: State, c: nat, nonce: nat)
    requires Safe(s) && Enabled(s, StartByHash(c, nonce))
    requires 1 <= nonce && nonce + 1 == |s.observer.chain|
    ensures SafeCache(AfterRequestByHash(s, c, nonce)) <==> nonce - 1 <= s.observer.highestFinal
    ensures AfterRequestByHash(s, c, nonce).observer == s.observer
    ensures GetsNoFurther(AfterRequestByHash(s, c, nonce), c)
  {
    hide GetNext;
    var started := Apply(s, StartByHash(c, nonce));
    SafeKeysAreHeld(s);
    GetNextAdds(started, c);
    var after := AfterRequestByHash(s, c, nonce);
    assert nonce - 1 in after.cache;
    if nonce - 1 <= s.observer.highestFinal {
      forall n | n in after.cache ensures HeldAndFinal(s.observer, n, after.cache[n]) {
        assert n in s.cache ==> HeldAndFinal(s.observer, n, s.cache[n]);
      }
    }
  }

  lemma {:induction false} ByHashWithNeighbours(s: State, c: nat, nonce: nat)
    requires Safe(s) && Enabled(s, StartByHash(c, nonce))
    requires 1 <= nonce && nonce + 1 < |s.observer.chain|
    ensures SafeCache(AfterRequestByHash(s, c, nonce)) <==> nonce + 1 <= s.observer.highestFinal
    ensures AfterRequestByHash(s, c, nonce).observer == s.observer
    ensures AfterRequestByHash(s, c, nonce).cache
         == s.cache[nonce - 1 := s.observer.chain[nonce - 1]][nonce + 1 := s.observer.chain[nonce + 1]]
    ensures GetsNoFurther(AfterRequestByHash(s, c, nonce), c)
  {
    hide GetNext;
    var started := Apply(s, StartByHash(c, nonce));
    SafeKeysAreHeld(s);
    GetNextAdds(started, c);
    GetNextAdds(GetNext(started, c), c);
    var after := AfterRequestByHash(s, c, nonce);
    assert nonce + 1 in after.cache;
    if nonce < s.observer.highestFinal {
      forall n | n in after.cache ensures HeldAndFinal(s.observer, n, after.cache[n]) {
        assert n in s.cache ==> HeldAndFinal(s.observer, n, s.cache[n]);
      }
    }
  }

  /** Without that guard a stale block can be served: the observer rolls the cached, non-final block back,
      finalises another one in its place, and a later request for its nonce still finds the first in the cache. */
  lemma {:induction false} UnguardedByHashServesStale(
      s: State, c: nat, nonce: nat, other: Block, above: Block, top: Block)
    returns (states: seq<State>, events: seq<Event>)
    requires Initial(s) && c in s.clients
    requires 1 <= nonce && s.observer.highestFinal <= nonce && nonce + 2 == |s.observer.chain| < LAST_NONCE - 2
    requires other.nonce == nonce + 1 && above.nonce == nonce + 2 && top.nonce == nonce + 3
    requires other != s.observer.chain[nonce + 1]
    ensures IsRun(states, events) && states[0] == s && events != []
    ensures forall i :: 0 < i < |events| ==> Guarded(states[i], events[i])
    ensures var last := states[|events|];
      && Enabled(last, Serve(c)) && last.clients[c].wanted == Around(nonce + 1)
      && HeldAndFinal(last.observer, nonce + 1, other)
      && last.clients[c].got[0] == s.observer.chain[nonce + 1] != other
  {
    states, events := RequestByHash(s, c, nonce);
    states, events := ReplaceTail(states, events, c, nonce, other, above, top);
    states, events := RequestByNonce(states, events, c, nonce);
  }

  lemma {:induction false} StartOfRun(s: State)
    ensures IsRun([s], [])
  {
  }

  lemma {:induction false} RequestByHash(s: State, c: nat, nonce: nat)
    returns (states: seq<State>, events: seq<Event>)
    requires Initial(s) && c in s.clients
    requires 1 <= nonce && nonce + 1 < |s.observer.chain|
    ensures IsRun(states, events) && states[0] == s && events != []
    ensures forall i :: 0 < i < |events| ==> Guarded(states[i], events[i])
    ensures Enabled(states[|events|], Serve(c)) && states[|events|].observer == s.observer
    ensures states[|events|].cache
         == map[nonce - 1 := s.observer.chain[nonce - 1], nonce + 1 := s.observer.chain[nonce + 1]]
  {
    hide FetchNext, Guarded, IsRun;
    states, events := [s], [];
    StartOfRun(s);
    states, events := Extend(states, events, StartByHash(c, nonce));
    FetchNextAdds(states[|events|], c);
    states, events := ExtendFetch(states, events, c);
    FetchNextAdds(states[|events|], c);
    states, events := ExtendFetch(states, events, c);
  }

  lemma {:induction false} FetchNextAdds(s: State, c: nat)
    requires Phase(s, c, true)
    requires Next(s.clients[c]) !in s.cache && Next(s.clients[c]) < |s.observer.chain|
    ensures var client, n := s.clients[c], Next(s.clients[c]);
      FetchNext(s, c) == State(
        s.observer,
        s.cache[n := s.observer.chain[n]],
        s.clients[c := Collecting(client.wanted, client.got + [s.observer.chain[n]])])
  {
  }

  lemma {:induction false} ReplaceTail(
      states: seq<State>, events: seq<Event>, c: nat, nonce: nat, other: Block, above: Block, top: Block)
    returns (states': seq<State>, events': seq<Event>)
    requires IsRun(states, events) && events != []
    requires forall i :: 0 < i < |events| ==> Guarded(states[i], events[i])
    requires var s := states[|events|];
      && Enabled(s, Serve(c))
      && s.observer.highestFinal <= nonce && nonce + 2 == |s.observer.chain| < LAST_NONCE - 2
    requires other.nonce == nonce + 1 && above.nonce == nonce + 2 && top.nonce == nonce + 3
    ensures IsRun(states', events') && states'[0] == states[0] && events' != []
    ensures forall i :: 0 < i < |events'| ==> Guarded(states'[i], events'[i])
    ensures var s, s' := states[|events|], states'[|events'|];
      && s'.observer == Observer(s.observer.chain[..nonce + 1] + [other] + [above] + [top], nonce + 3)
      && s'.cache == s.cache && s'.clients == s.clients[c := Idle]
  {
    states', events' := Extend(states, events, Serve(c));
    states', events' := Extend(states', events', Rollback(nonce + 1));
    states', events' := Extend(states', events', Grow(other));
    states', events' := Extend(states', events', Grow(above));
    states', events' := Extend(states', events', Grow(top));
    states', events' := Extend(states', events', Finalize(nonce + 3));
  }

  lemma {:induction false} RequestByNonce(states: seq<State>, events: seq<Event>, c: nat, nonce: nat)
    returns (states': seq<State>, events': seq<Event>)
    requires IsRun(states, events) && events != []
    requires forall i :: 0 < i < |events| ==> Guarded(states[i], events[i])
    requires var s := states[|events|];
      && c in s.clients && s.clients[c].Idle?
      && 1 <= nonce && s.observer.highestFinal == nonce + 3 && nonce + 4 == |s.observer.chain| < LAST_NONCE
      && s.cache.Keys == {nonce - 1, nonce + 1}
    ensures IsRun(states', events') && states'[0] == states[0] && events' != []
    ensures forall i :: 0 < i < |events'| ==> Guarded(states'[i], events'[i])
    ensures var s, s' := states[|events|], states'[|events'|];
      && s'.observer == s.observer && Enabled(s', Serve(c))
      && s'.clients[c].wanted == Around(nonce + 1) && s'.clients[c].got[0] == s.cache[nonce + 1]
  {
    hide FetchNext, Guarded, IsRun;
    states', events' := Extend(states, events, StartByNonce(c, nonce + 1, nonce + 3));
    states', events' := Extend(states', events', Hit(c));
    FetchNextAdds(states'[|events'|], c);
    states', events' := ExtendFetch(states', events', c);
    FetchNextAdds(states'[|events'|], c);
    states', events' := ExtendFetch(states', events', c);
  }

  lemma {:induction false} Extend(states: seq<State>, events: seq<Event>, e: Event)
    returns (states': seq<State>, events': seq<Event>)
    requires IsRun(states, events) && Enabled(states[|events|], e)
    requires |events| > 0 ==> !e.StartByHash?
    requires forall i :: 0 < i < |events| ==> Guarded(states[i], events[i])
    ensures IsRun(states', events') && states'[0] == states[0]
    ensures |events'| == |events| + 1 && states'[|events'|] == Apply(states[|events|], e)
    ensures forall i :: 0 < i < |events'| ==> Guarded(states'[i], events'[i])
  {
    states', events' := states + [Apply(states[|events|], e)], events + [e];
  }

  lemma {:induction false} ExtendFetch(states: seq<State>, events: seq<Event>, c: nat)
    returns (states': seq<State>, events': seq<Event>)
    requires IsRun(states, events) && events != []
    requires Phase(states[|events|], c, true)
    requires Next(states[|events|].clients[c]) !in states[|events|].cache
    requires Next(states[|events|].clients[c]) < |states[|events|].observer.chain|
    requires forall i :: 0 < i < |events| ==> Guarded(states[i], events[i])
    ensures IsRun(states', events') && states'[0] == states[0]
    ensures events' != [] && states'[|events'|] == FetchNext(states[|events|], c)
    ensures forall i :: 0 < i < |events'| ==> Guarded(states'[i], events'[i])
  {
    states', events' := Extend(states, events, Miss(c));
    states', events' := Extend(states', events', Respond(c));
    states', events' := Extend(states', events', Store(c));
  }
}
