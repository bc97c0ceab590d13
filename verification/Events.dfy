/** Reading log events: which are recognised, and what they say
    (server/services/transactionEventsController.go, server/services/transactionEvents.go). */
module Events {
  import opened Encoding
  import opened Chain
  import opened Network
  import opened Sequences

  datatype EventTransferValueOnly = EventTransferValueOnly(sender: string, receiver: string, value: nat)

  datatype EventESDT = EventESDT(
    sender: string,
    receiver: string,
    other: string,
    identifier: Bytes,
    nonce: Bytes,
    value: nat)
  {
    /** The identifier of the token with its nonce, for tokens that have one. */
    function ExtendedIdentifier(): Bytes {
      if |nonce| > 0 then identifier + "-" + HexEncode(nonce) else identifier
    }
  }

  datatype EventSCDeploy = EventSCDeploy(contract: string, deployer: string)

  datatype EventClaimDeveloperRewards = EventClaimDeveloperRewards(value: nat, receiver: string)

  // ---------------------------------------------------------------- finding and detecting

  function IsKind(kind: EventKind): Event -> bool {
    (e: Event) => e.kind == kind
  }

  function OfKind(kind: EventKind, f: Event -> int): Event -> int {
    (e: Event) => if e.kind == kind then f(e) else 0
  }

  function FindMany(tx: Tx, kind: EventKind): seq<Event> {
    Filter(IsKind(kind), tx.events)
  }

  predicate HasAnySignalError(tx: Tx) {
    exists e :: e in tx.events && e.kind == SignalError
  }

  const SENDING_VALUE_TO_NON_PAYABLE: Bytes := "sending value to non payable contract"
  const INVALID_META_TRANSACTION: Bytes := "meta transaction is invalid"
  const INVALID_META_TRANSACTION_NOT_ENOUGH_GAS: Bytes := INVALID_META_TRANSACTION + ": not enough gas"

  predicate HasSignalErrorOfSendingValueToNonPayableContract(tx: Tx) {
    exists e :: e in tx.events && e.kind == SignalError && "@" + HexEncode(SENDING_VALUE_TO_NON_PAYABLE) <= e.data
  }

  predicate HasSignalErrorOfMetaTransactionIsInvalid(tx: Tx) {
    exists e :: e in tx.events && e.kind == SignalError
                && (INVALID_META_TRANSACTION in e.topics || INVALID_META_TRANSACTION_NOT_ENOUGH_GAS in e.topics)
  }

  // ---------------------------------------------------------------- typed events

  /** Topics: token identifier, token nonce, value, and possibly more. */
  function FromBasicTopics(topics: seq<Bytes>): Option<EventESDT> {
    if |topics| < 3 then None
    else Some(EventESDT("", "", "", topics[0], topics[1], BytesToNat(topics[2])))
  }

  function SingleTransfer(net: Network, e: Event): Option<EventESDT> {
    if |e.topics| != 4 then None
    else Some(FromBasicTopics(e.topics).value.(sender := e.address, receiver := net.toAddress(e.topics[3])))
  }

  /** The remainder of Go's integer division, which takes the sign of the dividend. */
  function GoRemainder(a: int, b: int): int
    requires b > 0
  {
    if a >= 0 then a % b else 0 - ((0 - a) % b)
  }

  /** Three topics per transfer, then one for the receiver of all. */
  function MultiTransfer(net: Network, e: Event): Option<seq<EventESDT>> {
    var n := |e.topics|;
    if GoRemainder(n - 1, 3) != 0 then None
    else Some(seq((n - 1) / 3, i requires 0 <= i < (n - 1) / 3 => MultiTransferItem(net, e, i)))
  }

  function MultiTransferItem(net: Network, e: Event, i: nat): EventESDT
    requires 3 * i + 3 < |e.topics|
  {
    FromBasicTopics(e.topics[3 * i..3 * i + 3]).value
    .(sender := e.address, receiver := net.toAddress(e.topics[|e.topics| - 1]))
  }

  /** Events that only concern one account, with a fixed number of topics. */
  function OneSided(numTopics: nat): Event -> Option<EventESDT>
    requires numTopics >= 3
  {
    (e: Event) =>
      if |e.topics| != numTopics then None else Some(FromBasicTopics(e.topics).value.(other := e.address))
  }

  /** The account that loses its tokens is told by the last topic. */
  function Wipe(net: Network, e: Event): Option<EventESDT> {
    if |e.topics| != 4 then None
    else Some(FromBasicTopics(e.topics).value.(other := net.toAddress(e.topics[3])))
  }

  /** Two topics before Sirius, three after; the contract is the address of the event. */
  function Deploy(net: Network, e: Event): Option<EventSCDeploy> {
    if |e.topics| < 2 then None else Some(EventSCDeploy(e.address, net.toAddress(e.topics[1])))
  }

  function DeveloperRewards(net: Network, e: Event): Option<EventClaimDeveloperRewards> {
    if |e.topics| != 2 then None
    else Some(EventClaimDeveloperRewards(BytesToNat(e.topics[0]), net.toAddress(e.topics[1])))
  }

  const EXECUTE_ON_DEST_CONTEXT: Bytes := "ExecuteOnDestContext"
  const ASYNC_CALL: Bytes := "AsyncCall"

  /** After Sirius: None is an error, Some(None) an ineffective event. */
  function EffectiveTransferValueOnly(net: Network, e: Event): Option<Option<EventTransferValueOnly>> {
    if |e.topics| != 2 then None
    else if e.topics[0] == [] then Some(None)
    else if e.data != EXECUTE_ON_DEST_CONTEXT && e.data != ASYNC_CALL then Some(None)
    else
      match net.toPubKey(e.address)
      case None => None
      case Some(sender) =>
        if net.shardOf(sender) != net.shardOf(e.topics[1]) then Some(None)
        else Some(Some(EventTransferValueOnly(e.address, net.toAddress(e.topics[1]), BytesToNat(e.topics[0]))))
  }

  // ---------------------------------------------------------------- all events of a transaction

  datatype TypedEvents = TypedEvents(
    deploys: seq<EventSCDeploy>,
    transfersValueOnly: seq<EventTransferValueOnly>,
    transfers: seq<EventESDT>,
    burns: seq<EventESDT>,
    mints: seq<EventESDT>,
    wipes: seq<EventESDT>,
    creates: seq<EventESDT>,
    nftBurns: seq<EventESDT>,
    additions: seq<EventESDT>,
    rewards: seq<EventClaimDeveloperRewards>)

  function Somes<T>(options: seq<Option<T>>): seq<T> {
    FlatMap((o: Option<T>) => if o.Some? then [o.value] else [], options)
  }

  function Flatten<T>(lists: seq<seq<T>>): seq<T> {
    FlatMap((l: seq<T>) => l, lists)
  }

  function TransfersValueOnly(net: Network, tx: Tx): Option<seq<EventTransferValueOnly>> {
    if !net.IsReleaseSiriusActive(tx.epoch) then Some([])
    else
      match MapAll((e: Event) => EffectiveTransferValueOnly(net, e), FindMany(tx, TransferValueOnly))
      case None => None
      case Some(decided) => Some(Somes(decided))
  }

  /** Single transfers first, then the multi-transfers. */
  function Transfers(net: Network, tx: Tx): Option<seq<EventESDT>> {
    var singles :=
      MapAll((e: Event) => SingleTransfer(net, e), FindMany(tx, ESDTTransfer) + FindMany(tx, ESDTNFTTransfer));
    var multis := MapAll((e: Event) => MultiTransfer(net, e), FindMany(tx, MultiESDTNFTTransfer));
    if singles.None? || multis.None? then None else Some(singles.value + Flatten(multis.value))
  }

  /** None as soon as any event is not recognised. */
  function AllEvents(net: Network, tx: Tx): Option<TypedEvents> {
    match (MapAll((e: Event) => Deploy(net, e), FindMany(tx, SCDeploy)), TransfersValueOnly(net, tx),
           Transfers(net, tx))
    case (Some(deploys), Some(transfersValueOnly), Some(transfers)) => (
      match (MapAll(OneSided(3), FindMany(tx, ESDTLocalBurn)), MapAll(OneSided(3), FindMany(tx, ESDTLocalMint)),
             MapAll((e: Event) => Wipe(net, e), FindMany(tx, ESDTWipe)))
      case (Some(burns), Some(mints), Some(wipes)) => (
        match (MapAll(OneSided(4), FindMany(tx, ESDTNFTCreate)), MapAll(OneSided(3), FindMany(tx, ESDTNFTBurn)),
               MapAll(OneSided(3), FindMany(tx, ESDTNFTAddQuantity)),
               MapAll((e: Event) => DeveloperRewards(net, e), FindMany(tx, ClaimDeveloperRewards)))
        case (Some(creates), Some(nftBurns), Some(additions), Some(rewards)) =>
          Some(TypedEvents(deploys, transfersValueOnly, transfers, burns, mints, wipes,
                           creates, nftBurns, additions, rewards))
        case _ => None)
      case _ => None)
    case _ => None
  }

  // ---------------------------------------------------------------- multi-transfers invert flattening

  datatype Transfer = Transfer(identifier: Bytes, nonce: Bytes, value: Bytes)

  function FlatTopics(transfers: seq<Transfer>, receiver: Bytes): (topics: seq<Bytes>)
    ensures |topics| == 3 * |transfers| + 1
  {
    if transfers == [] then [receiver]
    else
      [transfers[0].identifier, transfers[0].nonce, transfers[0].value] + FlatTopics(transfers[1..], receiver)
  }

  lemma {:induction false} FlatTopicsAt(transfers: seq<Transfer>, receiver: Bytes, i: nat)
    requires i < |transfers|
    ensures FlatTopics(transfers, receiver)[3 * i..3 * i + 3]
         == [transfers[i].identifier, transfers[i].nonce, transfers[i].value]
    ensures FlatTopics(transfers, receiver)[3 * |transfers|] == receiver
  {
    var topics, rest := FlatTopics(transfers, receiver), FlatTopics(transfers[1..], receiver);
    assert topics[3..] == rest;
    if |transfers| > 1 {
      FlatTopicsAt(transfers[1..], receiver, if i > 0 then i - 1 else 0);
      assert topics[3 * |transfers|] == rest[3 * |transfers[1..]|];
    }
    if i > 0 {
      assert topics[3 * i..3 * i + 3] == rest[3 * (i - 1)..3 * (i - 1) + 3];
    }
  }

  /** Reading flattened topics gives back all transfers in order, each to the one receiver. */
  lemma {:induction false} MultiTransferInvertsFlattening(
      net: Network, e: Event, transfers: seq<Transfer>, receiver: Bytes)
    requires e.topics == FlatTopics(transfers, receiver)
    ensures MultiTransfer(net, e).Some? && |MultiTransfer(net, e).value| == |transfers|
    ensures forall i :: 0 <= i < |transfers| ==>
              MultiTransfer(net, e).value[i]
              == EventESDT(e.address, net.toAddress(receiver), "", transfers[i].identifier, transfers[i].nonce,
                           BytesToNat(transfers[i].value))
  {
    forall i | 0 <= i < |transfers|
      ensures MultiTransferItem(net, e, i)
           == EventESDT(e.address, net.toAddress(receiver), "", transfers[i].identifier, transfers[i].nonce,
                        BytesToNat(transfers[i].value))
    {
      hide FlatTopics, BytesToNat;
      FlatTopicsAt(transfers, receiver, i);
      var topics := e.topics[3 * i..3 * i + 3];
      assert FromBasicTopics(topics)
          == Some(EventESDT("", "", "", topics[0], topics[1], BytesToNat(topics[2])));
    }
  }

  /** Accepted topics are exactly the flattened ones; every other number of topics, zero included, is rejected. */
  lemma {:induction false} MultiTransferAcceptsExactlyFlattened(net: Network, e: Event)
    ensures MultiTransfer(net, e).Some? <==> exists transfers, receiver :: e.topics == FlatTopics(transfers, receiver)
    ensures MultiTransfer(net, e).Some? <==> |e.topics| % 3 == 1
  {
    if |e.topics| % 3 == 1 {
      var transfers, receiver := Unflatten(e.topics);
    }
  }

  lemma {:induction false} Unflatten(topics: seq<Bytes>) returns (transfers: seq<Transfer>, receiver: Bytes)
    requires |topics| % 3 == 1
    ensures topics == FlatTopics(transfers, receiver)
  {
    if |topics| == 1 {
      transfers, receiver := [], topics[0];
    } else {
      var rest;
      rest, receiver := Unflatten(topics[3..]);
      transfers := [Transfer(topics[0], topics[1], topics[2])] + rest;
      assert transfers[1..] == rest;
      assert topics == topics[..3] + topics[3..];
    }
  }

  // ---------------------------------------------------------------- the loops of the controller

  method FindManyEventsByIdentifier(tx: Tx, kind: EventKind) returns (events: seq<Event>)
    ensures events == FindMany(tx, kind)
  {
    events := [];
    for i := 0 to |tx.events|
      invariant events == Filter(IsKind(kind), tx.events[..i])
    {
      assert tx.events[..i + 1][..i] == tx.events[..i];
      if tx.events[i].kind == kind {
        events := events + [tx.events[i]];
      }
    }
    assert tx.events[..|tx.events|] == tx.events;
  }

  /** The loop that all extractions share: every event is read, and the first that cannot be fails the whole. */
  method ExtractAll<T>(rawEvents: seq<Event>, read: Event -> Option<T>) returns (typedEvents: Option<seq<T>>)
    ensures typedEvents == MapAll(read, rawEvents)
  {
    MapAllElements(read, rawEvents);
    var found: seq<T> := [];
    for i := 0 to |rawEvents|
      invariant MapAll(read, rawEvents[..i]) == Some(found)
    {
      assert rawEvents[..i + 1][..i] == rawEvents[..i];
      var typedEvent := read(rawEvents[i]);
      if typedEvent.None? {
        return None;
      }
      found := found + [typedEvent.value];
    }
    assert rawEvents[..|rawEvents|] == rawEvents;
    return Some(found);
  }

  method ExtractOneSided(tx: Tx, kind: EventKind, numTopics: nat) returns (typedEvents: Option<seq<EventESDT>>)
    requires numTopics >= 3
    ensures typedEvents == MapAll(OneSided(numTopics), FindMany(tx, kind))
  {
    var rawEvents := FindManyEventsByIdentifier(tx, kind);
    typedEvents := ExtractAll(rawEvents, OneSided(numTopics));
  }

  method ExtractDeploys(net: Network, tx: Tx) returns (typedEvents: Option<seq<EventSCDeploy>>)
    ensures typedEvents == MapAll((e: Event) => Deploy(net, e), FindMany(tx, SCDeploy))
  {
    var rawEvents := FindManyEventsByIdentifier(tx, SCDeploy);
    typedEvents := ExtractAll(rawEvents, (e: Event) => Deploy(net, e));
  }

  method ExtractWipes(net: Network, tx: Tx) returns (typedEvents: Option<seq<EventESDT>>)
    ensures typedEvents == MapAll((e: Event) => Wipe(net, e), FindMany(tx, ESDTWipe))
  {
    var rawEvents := FindManyEventsByIdentifier(tx, ESDTWipe);
    typedEvents := ExtractAll(rawEvents, (e: Event) => Wipe(net, e));
  }

  method ExtractClaims(net: Network, tx: Tx) returns (typedEvents: Option<seq<EventClaimDeveloperRewards>>)
    ensures typedEvents == MapAll((e: Event) => DeveloperRewards(net, e), FindMany(tx, ClaimDeveloperRewards))
  {
    var rawEvents := FindManyEventsByIdentifier(tx, ClaimDeveloperRewards);
    typedEvents := ExtractAll(rawEvents, (e: Event) => DeveloperRewards(net, e));
  }

  method ExtractSingleTransfers(net: Network, rawEvents: seq<Event>) returns (typedEvents: Option<seq<EventESDT>>)
    ensures typedEvents == MapAll((e: Event) => SingleTransfer(net, e), rawEvents)
  {
    typedEvents := ExtractAll(rawEvents, (e: Event) => SingleTransfer(net, e));
  }

  /** The slices of three topics never go out of range, whatever the topics are. */
  method ExtractMultiTransfers(net: Network, rawEvents: seq<Event>) returns (typedEvents: Option<seq<EventESDT>>)
    ensures typedEvents ==
              match MapAll((e: Event) => MultiTransfer(net, e), rawEvents)
              case None => None
              case Some(lists) => Some(Flatten(lists))
  {
    ghost var multi := (e: Event) => MultiTransfer(net, e);
    MapAllElements(multi, rawEvents);
    var found: seq<EventESDT> := [];
    ghost var lists: seq<seq<EventESDT>> := [];
    for i := 0 to |rawEvents|
      invariant MapAll(multi, rawEvents[..i]) == Some(lists)
      invariant found == Flatten(lists)
    {
      assert rawEvents[..i + 1][..i] == rawEvents[..i];
      var event := rawEvents[i];
      var numTopics := |event.topics|;
      if GoRemainder(numTopics - 1, 3) != 0 {
        assert multi(rawEvents[i]).None?;
        return None;
      }
      var part := SliceMultiTransfer(net, event);
      FlattenLast(lists, part);
      found := found + part;
      lists := lists + [part];
    }
    assert rawEvents[..|rawEvents|] == rawEvents;
    return Some(found);
  }

  method SliceMultiTransfer(net: Network, event: Event) returns (typedEvents: seq<EventESDT>)
    requires GoRemainder(|event.topics| - 1, 3) == 0
    ensures MultiTransfer(net, event) == Some(typedEvents)
  {
    var numTopics := |event.topics|;
    var numTransfers := (numTopics - 1) / 3;
    var receiver := net.toAddress(event.topics[numTopics - 1]);
    typedEvents := [];
    for i := 0 to numTransfers
      invariant |typedEvents| == i
      invariant forall j :: 0 <= j < i ==> typedEvents[j] == MultiTransferItem(net, event, j)
    {
      var typedEvent := FromBasicTopics(event.topics[3 * i..3 * i + 3]).value;
      typedEvent := typedEvent.(receiver := receiver);
      typedEvent := typedEvent.(sender := event.address);
      typedEvents := typedEvents + [typedEvent];
    }
    assert typedEvents == MultiTransfer(net, event).value;
  }

  method ExtractEventsESDTOrESDTNFTTransfers(net: Network, tx: Tx) returns (typedEvents: Option<seq<EventESDT>>)
    ensures typedEvents == Transfers(net, tx)
  {
    var rawTransfers := FindManyEventsByIdentifier(tx, ESDTTransfer);
    var rawNftTransfers := FindManyEventsByIdentifier(tx, ESDTNFTTransfer);
    var rawMultiTransfers := FindManyEventsByIdentifier(tx, MultiESDTNFTTransfer);
    var singles := ExtractSingleTransfers(net, rawTransfers + rawNftTransfers);
    if singles.None? {
      return None;
    }
    var multis := ExtractMultiTransfers(net, rawMultiTransfers);
    if multis.None? {
      return None;
    }
    return Some(singles.value + multis.value);
  }

  lemma {:induction false} FlattenLast<T>(lists: seq<seq<T>>, last: seq<T>)
    ensures Flatten(lists + [last]) == Flatten(lists) + last
  {
    assert (lists + [last])[..|lists|] == lists;
  }
}
