/** The lazily fetched genesis block under any interleaving of callers: double-checked locking over a
    readers-writer mutex (server/services/blockService.go), one atomic action per step.
    "B" is what a fetch produces; two fetches may well produce different values. */
module GenesisProtocol {
  import opened Encoding

  datatype Outcome<B> = Got(block: B) | Failed

  /** Where a caller is in getGenesisBlock. */
  datatype Caller<B> =
    | Outside
    | Reading
    | HasRead(seen: Option<B>)
    | WantsLock
    | Locked
    | Fetching
    | HasFetched(block: B)
    | Unlocking(outcome: Outcome<B>)
    | Returned(outcome: Outcome<B>)

  datatype State<B> = State(
    genesisBlock: Option<B>,
    readers: set<nat>,
    writer: Option<nat>,
    callers: map<nat, Caller<B>>)

  datatype Event<B> =
    | ReadLock(caller: nat)
    | ReadField(caller: nat)
    | ReadUnlock(caller: nat)
    | Lock(caller: nat)
    | CheckAgain(caller: nat)
    | FetchSucceeds(caller: nat, block: B)
    | FetchFails(caller: nat)
    | Assign(caller: nat)
    | Unlock(caller: nat)
    | CallAgain(caller: nat)

  predicate Enabled<B>(s: State<B>, e: Event<B>) {
    e.caller in s.callers &&
    match e
    case ReadLock(c) => s.callers[c].Outside? && s.writer.None?
    case ReadField(c) => s.callers[c].Reading?
    case ReadUnlock(c) => s.callers[c].HasRead?
    case Lock(c) => s.callers[c].WantsLock? && s.writer.None? && s.readers == {}
    case CheckAgain(c) => s.callers[c].Locked?
    case FetchSucceeds(c, _) => s.callers[c].Fetching?
    case FetchFails(c) => s.callers[c].Fetching?
    case Assign(c) => s.callers[c].HasFetched?
    case Unlock(c) => s.callers[c].Unlocking?
    case CallAgain(c) => s.callers[c].Returned?
  }

  function Apply<B>(s: State<B>, e: Event<B>): State<B>
    requires Enabled(s, e)
  {
    var c := e.caller;
    match e
    case ReadLock(_) => s.(readers := s.readers + {c}, callers := s.callers[c := Reading])
    case ReadField(_) => s.(callers := s.callers[c := HasRead(s.genesisBlock)])
    case ReadUnlock(_) =>
      var seen := s.callers[c].seen;
      s.(readers := s.readers - {c},
         callers := s.callers[c := if seen.Some? then Returned(Got(seen.value)) else WantsLock])
    case Lock(_) => s.(writer := Some(c), callers := s.callers[c := Locked])
    case CheckAgain(_) =>
      s.(callers := s.callers[c := if s.genesisBlock.Some? then Unlocking(Got(s.genesisBlock.value)) else Fetching])
    case FetchSucceeds(_, block) => s.(callers := s.callers[c := HasFetched(block)])
    case FetchFails(_) => s.(callers := s.callers[c := Unlocking(Failed)])
    case Assign(_) =>
      var block := s.callers[c].block;
      s.(genesisBlock := Some(block), callers := s.callers[c := Unlocking(Got(block))])
    case Unlock(_) => s.(writer := None, callers := s.callers[c := Returned(s.callers[c].outcome)])
    case CallAgain(_) => s.(callers := s.callers[c := Outside])
  }

  ghost predicate IsRun<B(!new)>(states: seq<State<B>>, events: seq<Event<B>>) {
    && |states| == |events| + 1
    && Initial(states[0])
    && forall i :: 0 <= i < |events| ==> Enabled(states[i], events[i]) && states[i + 1] == Apply(states[i], events[i])
  }

  predicate Initial<B>(s: State<B>) {
    && s.genesisBlock.None? && s.readers == {} && s.writer.None?
    && forall c :: c in s.callers ==> s.callers[c].Outside?
  }

  // ---------------------------------------------------------------- invariant

  predicate InReadSection<B>(caller: Caller<B>) {
    caller.Reading? || caller.HasRead?
  }

  predicate InWriteSection<B>(caller: Caller<B>) {
    caller.Locked? || caller.Fetching? || caller.HasFetched? || caller.Unlocking?
  }

  /** What a caller knows agrees with the field; while a fetch is under way the field is empty. */
  ghost predicate Agrees<B>(genesisBlock: Option<B>, caller: Caller<B>) {
    match caller
    case HasRead(seen) => seen.None? || Holds(genesisBlock, seen.value)
    case Fetching => genesisBlock.None?
    case HasFetched(_) => genesisBlock.None?
    case Unlocking(outcome) => outcome.Failed? || Holds(genesisBlock, outcome.block)
    case Returned(outcome) => outcome.Failed? || Holds(genesisBlock, outcome.block)
    case _ => true
  }

  ghost predicate Holds<B>(genesisBlock: Option<B>, block: B) {
    genesisBlock == Some(block)
  }

  ghost predicate Safe<B>(s: State<B>) {
    && (forall c :: c in s.callers ==> (c in s.readers <==> InReadSection(s.callers[c])))
    && (forall c :: c in s.callers ==> (s.writer == Some(c) <==> InWriteSection(s.callers[c])))
    && (forall c :: c in s.callers ==> Agrees(s.genesisBlock, s.callers[c]))
    && (s.writer.Some? ==> forall c :: c in s.callers ==> c !in s.readers)
    && s.readers <= s.callers.Keys
  }

  lemma {:induction false} StepKeepsSafe<B>(s: State<B>, e: Event<B>)
    requires Safe(s) && Enabled(s, e)
    ensures Safe(Apply(s, e))
    ensures s.genesisBlock.Some? ==> Apply(s, e).genesisBlock == s.genesisBlock
    ensures Apply(s, e).genesisBlock != s.genesisBlock ==> e.Assign?
  {
    var s' := Apply(s, e);
    forall c | c in s'.callers ensures Agrees(s'.genesisBlock, s'.callers[c]) {
      if c != e.caller && e.Assign? {
        // The field is written inside the write section, which "c" is not in.
        assert s.writer == Some(e.caller) && s.writer != Some(c);
        assert c !in s.readers;
      }
    }
  }

  lemma {:induction false} EveryRunIsSafe<B(!new)>(states: seq<State<B>>, events: seq<Event<B>>, i: nat)
    requires IsRun(states, events) && i < |states|
    ensures Safe(states[i])
  {
    if i > 0 {
      EveryRunIsSafe(states, events, i - 1);
      StepKeepsSafe(states[i - 1], events[i - 1]);
    }
  }

  /** Two callers are never both between the lock and the end of a fetch. */
  lemma {:induction false} FetchesNeverOverlap<B(!new)>(
      states: seq<State<B>>, events: seq<Event<B>>, i: nat, c: nat, d: nat)
    requires IsRun(states, events) && i < |states|
    requires c in states[i].callers && d in states[i].callers
    requires states[i].callers[c].Fetching? || states[i].callers[c].HasFetched?
    requires states[i].callers[d].Fetching? || states[i].callers[d].HasFetched?
    ensures c == d
  {
    EveryRunIsSafe(states, events, i);
    assert states[i].writer == Some(c) && states[i].writer == Some(d);
  }

  /** Once set, the block stays. */
  lemma {:induction false} NeverChangesOnceSet<B(!new)>(
      states: seq<State<B>>, events: seq<Event<B>>, i: nat, j: nat)
    requires IsRun(states, events) && i <= j < |states|
    requires states[i].genesisBlock.Some?
    ensures states[j].genesisBlock == states[i].genesisBlock
  {
    if i < j {
      NeverChangesOnceSet(states, events, i, j - 1);
      EveryRunIsSafe(states, events, j - 1);
      StepKeepsSafe(states[j - 1], events[j - 1]);
    }
  }

  /** The field is assigned at most once in a run. */
  lemma {:induction false} AssignedAtMostOnce<B(!new)>(
      states: seq<State<B>>, events: seq<Event<B>>, i: nat, j: nat)
    requires IsRun(states, events) && i < |events| && j < |events|
    requires events[i].Assign? && events[j].Assign?
    ensures i == j
  {
    if i != j {
      var first, second := if i < j then i else j, if i < j then j else i;
      EveryRunIsSafe(states, events, first);
      EveryRunIsSafe(states, events, second);
      NeverChangesOnceSet(states, events, first + 1, second);
    }
  }

  /** All successful calls of a run, whenever they return, give the same block: the one in the field. */
  lemma {:induction false} AllCallersGetTheSameBlock<B(!new)>(
      states: seq<State<B>>, events: seq<Event<B>>, i: nat, j: nat, c: nat, d: nat)
    requires IsRun(states, events) && i <= j < |states|
    requires c in states[i].callers && states[i].callers[c].Returned? && states[i].callers[c].outcome.Got?
    requires d in states[j].callers && states[j].callers[d].Returned? && states[j].callers[d].outcome.Got?
    ensures states[i].callers[c].outcome == states[j].callers[d].outcome
    ensures states[j].genesisBlock == Some(states[j].callers[d].outcome.block)
  {
    EveryRunIsSafe(states, events, i);
    EveryRunIsSafe(states, events, j);
    assert Agrees(states[i].genesisBlock, states[i].callers[c]);
    assert Agrees(states[j].genesisBlock, states[j].callers[d]);
    NeverChangesOnceSet(states, events, i, j);
  }

  /** A failed fetch leaves the field empty, and once its caller has unlocked, a waiting caller that finds
      no reader inside gets the lock and fetches again. */
  lemma {:induction false} FailedFetchCanBeRetried<B(!new)>(
      states: seq<State<B>>, events: seq<Event<B>>, i: nat, d: nat)
    requires IsRun(states, events) && i < |events| && events[i].FetchFails?
    requires d in states[i].callers && states[i].callers[d].WantsLock?
    ensures states[i + 1].genesisBlock.None?
    ensures var c := events[i].caller;
      && Enabled(states[i + 1], Unlock(c))
      && Enabled(Apply(states[i + 1], Unlock(c)), Lock(d))
      && Apply(Apply(Apply(states[i + 1], Unlock(c)), Lock(d)), CheckAgain(d)).callers[d].Fetching?
  {
    EveryRunIsSafe(states, events, i);
    var s, c := states[i], events[i].caller;
    assert Agrees(s.genesisBlock, s.callers[c]);
    assert s.writer == Some(c);
    assert s.readers == {};
  }

  // ---------------------------------------------------------------- who succeeds

  /** Among the first "n" events, caller "c" has failed to fetch since it last called: event "j" is its latest fetch. */
  ghost predicate FailedAt<B(!new)>(events: seq<Event<B>>, n: nat, c: nat, j: nat) {
    && j < n <= |events|
    && events[j] == FetchFails(c)
    && forall k :: j < k < n && events[k].caller == c ==>
         !events[k].FetchSucceeds? && !events[k].FetchFails? && !events[k].CallAgain?
  }

  /** The last fetch of the current call of "c" failed. */
  ghost predicate LastFetchFailed<B(!new)>(events: seq<Event<B>>, n: nat, c: nat) {
    exists j :: FailedAt(events, n, c, j)
  }

  ghost predicate FetchedAt<B(!new)>(events: seq<Event<B>>, n: nat, c: nat, j: nat) {
    && j < n <= |events|
    && events[j].FetchSucceeds? && events[j].caller == c
    && forall k :: j < k < n && events[k].caller == c ==>
         !events[k].FetchSucceeds? && !events[k].FetchFails? && !events[k].CallAgain?
  }

  predicate HasFailed<B>(caller: Caller<B>) {
    (caller.Unlocking? || caller.Returned?) && caller.outcome.Failed?
  }

  /** What an event of another caller, or one that is no fetch and no new call, changes about failures: nothing. */
  lemma {:induction false} FailureStays<B(!new)>(events: seq<Event<B>>, n: nat, c: nat)
    requires n < |events|
    requires events[n].caller == c ==>
               !events[n].FetchSucceeds? && !events[n].FetchFails? && !events[n].CallAgain?
    ensures LastFetchFailed(events, n + 1, c) <==> LastFetchFailed(events, n, c)
  {
    if j :| FailedAt(events, n, c, j) {
      assert FailedAt(events, n + 1, c, j);
    }
    var m := n + 1;
    if j :| FailedAt(events, m, c, j) {
      assert j != n;
      assert FailedAt(events, n, c, j);
    }
  }

  /** A fetch or a new call decides by itself. */
  lemma {:induction false} FailureIsDecided<B(!new)>(events: seq<Event<B>>, n: nat, c: nat)
    requires n < |events| && events[n].caller == c
    requires events[n].FetchSucceeds? || events[n].FetchFails? || events[n].CallAgain?
    ensures LastFetchFailed(events, n + 1, c) <==> events[n] == FetchFails(c)
  {
    if events[n] == FetchFails(c) {
      assert FailedAt(events, n + 1, c, n);
    }
  }

  lemma {:induction false} StepDecidesFailure<B>(s: State<B>, e: Event<B>, c: nat)
    requires Enabled(s, e) && c in s.callers
    ensures c in Apply(s, e).callers
    ensures e.caller != c ==> Apply(s, e).callers[c] == s.callers[c]
    ensures e == FetchFails(c) ==> HasFailed(Apply(s, e).callers[c])
    ensures e.caller == c && (e.FetchSucceeds? || e.CallAgain?) ==> !HasFailed(Apply(s, e).callers[c])
    ensures e.caller == c && !e.FetchSucceeds? && !e.FetchFails? && !e.CallAgain? ==>
              (HasFailed(Apply(s, e).callers[c]) <==> HasFailed(s.callers[c]))
  {
  }

  lemma {:induction false} SameCallers<B(!new)>(states: seq<State<B>>, events: seq<Event<B>>, i: nat)
    requires IsRun(states, events) && i < |states|
    ensures states[i].callers.Keys == states[0].callers.Keys
  {
    if i > 0 {
      SameCallers(states, events, i - 1);
      StepKeepsCallers(states[i - 1], events[i - 1]);
    }
  }

  lemma {:induction false} StepKeepsCallers<B>(s: State<B>, e: Event<B>)
    requires Enabled(s, e)
    ensures Apply(s, e).callers.Keys == s.callers.Keys
  {
  }

  lemma {:induction false} FailsExactlyAlong<B(!new)>(
      states: seq<State<B>>, events: seq<Event<B>>, i: nat, c: nat)
    requires IsRun(states, events) && i < |states| && c in states[0].callers
    ensures c in states[i].callers
    ensures HasFailed(states[i].callers[c]) <==> LastFetchFailed(events, i, c)
  {
    hide LastFetchFailed, HasFailed;
    if i == 0 {
      NoneFailedYet(states[0], events, c);
    } else {
      var e := events[i - 1];
      FailsExactlyAlong(states, events, i - 1, c);
      StepDecidesFailure(states[i - 1], e, c);
      if e.caller == c && (e.FetchSucceeds? || e.FetchFails? || e.CallAgain?) {
        FailureIsDecided(events, i - 1, c);
      } else {
        FailureStays(events, i - 1, c);
      }
    }
  }

  lemma {:induction false} NoneFailedYet<B(!new)>(s: State<B>, events: seq<Event<B>>, c: nat)
    requires Initial(s) && c in s.callers
    ensures !HasFailed(s.callers[c]) && !LastFetchFailed(events, 0, c)
  {
  }

  /** Whoever has returned has failed if and only if the last fetch of its call failed; everybody else, whether it
      fetched the block, found it, or waited for it, has the block that is in the field. */
  lemma {:induction false} ReturnsBlockUnlessItsFetchFailed<B(!new)>(
      states: seq<State<B>>, events: seq<Event<B>>, i: nat, c: nat)
    requires IsRun(states, events) && i < |states|
    requires c in states[i].callers && states[i].callers[c].Returned?
    ensures var outcome := states[i].callers[c].outcome;
      && (outcome.Failed? <==> LastFetchFailed(events, i, c))
      && (outcome.Got? ==> states[i].genesisBlock == Some(outcome.block))
  {
    SameCallers(states, events, i);
    FailsExactlyAlong(states, events, i, c);
    EveryRunIsSafe(states, events, i);
    assert Agrees(states[i].genesisBlock, states[i].callers[c]);
  }

  ghost predicate CarriesBlock<B>(caller: Caller<B>, block: B) {
    || caller == HasFetched(block)
    || ((caller.Unlocking? || caller.Returned?) && caller.outcome == Got(block))
  }

  lemma {:induction false} StepCarriesBlock<B>(s: State<B>, e: Event<B>, c: nat, block: B)
    requires Enabled(s, e) && c in s.callers
    ensures e == FetchSucceeds(c, block) ==> CarriesBlock(Apply(s, e).callers[c], block)
    ensures CarriesBlock(s.callers[c], block) && (e.caller == c ==> !e.CallAgain?) ==>
              CarriesBlock(Apply(s, e).callers[c], block)
  {
  }

  /** A caller whose own fetch succeeded returns the very block that it fetched. */
  lemma {:induction false} ReturnsWhatItFetched<B(!new)>(
      states: seq<State<B>>, events: seq<Event<B>>, i: nat, c: nat, j: nat)
    requires IsRun(states, events) && i < |states| && c in states[0].callers
    requires FetchedAt(events, i, c, j)
    ensures c in states[i].callers && CarriesBlock(states[i].callers[c], events[j].block)
    ensures states[i].callers[c].Returned? ==> states[i].callers[c].outcome == Got(events[j].block)
    decreases i
  {
    hide CarriesBlock;
    SameCallers(states, events, i - 1);
    SameCallers(states, events, i);
    StepCarriesBlock(states[i - 1], events[i - 1], c, events[j].block);
    if j < i - 1 {
      assert FetchedAt(events, i - 1, c, j);
      ReturnsWhatItFetched(states, events, i - 1, c, j);
    }
    CarriedIsReturned(states[i].callers[c], events[j].block);
  }

  lemma {:induction false} CarriedIsReturned<B>(caller: Caller<B>, block: B)
    requires CarriesBlock(caller, block)
    ensures caller.Returned? ==> caller.outcome == Got(block)
  {
  }

  // ---------------------------------------------------------------- who locks

  /** Event "i" is the latest of "c", apart from unlocking, among the first "n": it read the field, which was empty. */
  ghost predicate EmptyReadAt<B(!new)>(states: seq<State<B>>, events: seq<Event<B>>, n: nat, c: nat, i: nat) {
    && i < n <= |events| && |states| == |events| + 1
    && events[i] == ReadField(c) && states[i].genesisBlock.None?
    && forall k :: i < k < n && events[k].caller == c ==> events[k].ReadUnlock?
  }

  predicate HasReadNothing<B(==)>(caller: Caller<B>) {
    caller == HasRead(None) || caller.WantsLock?
  }

  lemma {:induction false} StepReadsNothing<B>(s: State<B>, e: Event<B>, c: nat)
    requires Enabled(s, e) && c in s.callers && HasReadNothing(Apply(s, e).callers[c])
    ensures if e == ReadField(c) then s.genesisBlock.None?
            else HasReadNothing(s.callers[c]) && (e.caller == c ==> e.ReadUnlock?)
  {
  }

  /** Whoever waits for the lock has found the field empty in its current call. */
  lemma {:induction false} WaitsAfterEmptyRead<B(!new)>(
      states: seq<State<B>>, events: seq<Event<B>>, n: nat, c: nat)
    requires IsRun(states, events) && n < |states|
    requires c in states[n].callers && HasReadNothing(states[n].callers[c])
    ensures exists i :: EmptyReadAt(states, events, n, c, i)
    decreases n
  {
    assert n > 0;
    var s, e := states[n - 1], events[n - 1];
    StepKeepsCallers(s, e);
    StepReadsNothing(s, e, c);
    if e == ReadField(c) {
      assert EmptyReadAt(states, events, n, c, n - 1);
    } else {
      WaitsAfterEmptyRead(states, events, n - 1, c);
      var i :| EmptyReadAt(states, events, n - 1, c, i);
      assert EmptyReadAt(states, events, n, c, i);
    }
  }

  /** Only a caller that has just found the field empty locks it; everybody else is served by the read alone. */
  lemma {:induction false} LocksAfterEmptyRead<B(!new)>(states: seq<State<B>>, events: seq<Event<B>>, n: nat)
    requires IsRun(states, events) && n < |events| && events[n].Lock?
    ensures exists i :: EmptyReadAt(states, events, n, events[n].caller, i)
  {
    WaitsAfterEmptyRead(states, events, n, events[n].caller);
  }

  /** While nobody holds the lock, a new caller reads a set field in three steps of its own, whoever else reads. */
  lemma {:induction false} SetFieldIsReadAtOnce<B>(s: State<B>, c: nat)
    requires s.genesisBlock.Some? && s.writer.None? && c in s.callers && s.callers[c].Outside?
    ensures Enabled(s, ReadLock(c))
    ensures var inside := Apply(s, ReadLock(c));
      && Enabled(inside, ReadField(c))
      && var read := Apply(inside, ReadField(c));
         && Enabled(read, ReadUnlock(c))
         && Apply(read, ReadUnlock(c)).callers[c] == Returned(Got(s.genesisBlock.value))
         && Apply(read, ReadUnlock(c)).genesisBlock == s.genesisBlock
  {
    var inside := Apply(s, ReadLock(c));
    assert inside.callers[c] == Reading;
    assert Apply(inside, ReadField(c)).callers[c] == HasRead(s.genesisBlock);
  }

  // ---------------------------------------------------------------- a run

  /** A service with two callers. */
  function Two<B>(
      genesisBlock: Option<B>, readers: set<nat>, writer: Option<nat>, c: nat, ofC: Caller<B>, d: nat, ofD: Caller<B>):
    State<B> {
    State(genesisBlock, readers, writer, map[c := ofC, d := ofD])
  }

  /** The first caller of a fresh service reads, locks, fetches, and returns the block; the second one reads it. */
  function StatesOfTwo<B>(c: nat, d: nat, block: B): seq<State<B>> {
    [Two(None, {}, None, c, Outside, d, Outside),
     Two(None, {c}, None, c, Reading, d, Outside),
     Two(None, {c}, None, c, HasRead(None), d, Outside),
     Two(None, {}, None, c, WantsLock, d, Outside),
     Two(None, {}, Some(c), c, Locked, d, Outside),
     Two(None, {}, Some(c), c, Fetching, d, Outside),
     Two(None, {}, Some(c), c, HasFetched(block), d, Outside),
     Two(Some(block), {}, Some(c), c, Unlocking(Got(block)), d, Outside),
     Two(Some(block), {}, None, c, Returned(Got(block)), d, Outside),
     Two(Some(block), {d}, None, c, Returned(Got(block)), d, Reading),
     Two(Some(block), {d}, None, c, Returned(Got(block)), d, HasRead(Some(block))),
     Two(Some(block), {}, None, c, Returned(Got(block)), d, Returned(Got(block)))]
  }

  function EventsOfTwo<B>(c: nat, d: nat, block: B): seq<Event<B>> {
    [ReadLock(c), ReadField(c), ReadUnlock(c), Lock(c), CheckAgain(c), FetchSucceeds(c, block), Assign(c), Unlock(c),
     ReadLock(d), ReadField(d), ReadUnlock(d)]
  }

  /** This is what happens: both return the block, and only the first fetches. */
  lemma {:induction false} FirstFetchesSecondReads<B(!new)>(c: nat, d: nat, block: B)
    requires c != d
    ensures IsRun(StatesOfTwo(c, d, block), EventsOfTwo(c, d, block))
  {
    hide Apply, Enabled;
    var states, events := StatesOfTwo(c, d, block), EventsOfTwo(c, d, block);
    forall i | 0 <= i < |events|
      ensures Enabled(states[i], events[i]) && states[i + 1] == Apply(states[i], events[i])
    {
      StepOfTwo(c, d, block, i);
    }
  }

  lemma {:induction false} StepOfTwo<B>(c: nat, d: nat, block: B, i: nat)
    requires c != d && i < 11
    ensures Enabled(StatesOfTwo(c, d, block)[i], EventsOfTwo(c, d, block)[i])
    ensures StatesOfTwo(c, d, block)[i + 1] == Apply(StatesOfTwo(c, d, block)[i], EventsOfTwo(c, d, block)[i])
  {
    hide Apply, Enabled, StatesOfTwo, EventsOfTwo;
    if i < 4 {
      StepBeforeLock(c, d, block, i);
    } else if i < 8 {
      StepUnderLock(c, d, block, i);
    } else {
      StepOfSecond(c, d, block, i);
    }
  }

  lemma {:induction false} StepBeforeLock<B>(c: nat, d: nat, block: B, i: nat)
    requires c != d && i < 4
    ensures Enabled(StatesOfTwo(c, d, block)[i], EventsOfTwo(c, d, block)[i])
    ensures StatesOfTwo(c, d, block)[i + 1] == Apply(StatesOfTwo(c, d, block)[i], EventsOfTwo(c, d, block)[i])
  {
    assert i == 0 || i == 1 || i == 2 || i == 3;
  }

  lemma {:induction false} StepUnderLock<B>(c: nat, d: nat, block: B, i: nat)
    requires c != d && 4 <= i < 8
    ensures Enabled(StatesOfTwo(c, d, block)[i], EventsOfTwo(c, d, block)[i])
    ensures StatesOfTwo(c, d, block)[i + 1] == Apply(StatesOfTwo(c, d, block)[i], EventsOfTwo(c, d, block)[i])
  {
    assert i == 4 || i == 5 || i == 6 || i == 7;
  }

  lemma {:induction false} StepOfSecond<B>(c: nat, d: nat, block: B, i: nat)
    requires c != d && 8 <= i < 11
    ensures Enabled(StatesOfTwo(c, d, block)[i], EventsOfTwo(c, d, block)[i])
    ensures StatesOfTwo(c, d, block)[i + 1] == Apply(StatesOfTwo(c, d, block)[i], EventsOfTwo(c, d, block)[i])
  {
    assert i == 8 || i == 9 || i == 10;
  }
}
