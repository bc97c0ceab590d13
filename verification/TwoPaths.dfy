/** The early return and the general path of the gathering (server/provider/scheduledMiniblocks.go) may hand out
    different transactions of one block; when they do not after the filters of the service
    (server/services/transactionFilters.go). */
module TwoPaths {
  import opened Chain
  import opened Network
  import opened Sequences
  import opened Transformer
  import opened ScheduledSpec
  import opened ScheduledMiniblocks

  /** Neither filter drops the transaction from a block with these transactions. */
  predicate Survives(txs: seq<Tx>, x: Tx) {
    KeepUnlessResultOfInvalid(InvalidHashes(txs))(x) && KeepUnlessRelayedAndInvalid(InvalidHashes(txs))(x)
  }

  /** Nothing that survives the filters is followed by another transaction of its hash. */
  ghost predicate SurvivorsAreLast(txs: seq<Tx>) {
    forall i, j :: 0 <= i < j < |txs| && txs[i].hash == txs[j].hash ==> !Survives(txs, txs[i])
  }

  lemma {:induction false} FilterCounts<S>(keep: S -> bool, s: seq<S>, x: S)
    ensures multiset(Filter(keep, s))[x] == if keep(x) then multiset(s)[x] else 0
  {
    if s != [] {
      var init, last := s[..|s| - 1], s[|s| - 1];
      assert s == init + [last];
      FilterCounts(keep, init, x);
    }
  }

  /** Invalid transactions pass the first filter. */
  lemma {:induction false} SameInvalidHashes(txs: seq<Tx>)
    ensures InvalidHashes(WithoutResultsOfInvalid(txs)) == InvalidHashes(txs)
  {
    forall x | x in txs && x.kind == Invalid ensures x in WithoutResultsOfInvalid(txs) {
      FilterCounts(KeepUnlessResultOfInvalid(InvalidHashes(txs)), txs, x);
      assert x in multiset(WithoutResultsOfInvalid(txs));
    }
  }

  lemma {:induction false} FilteredCounts(txs: seq<Tx>, x: Tx)
    ensures multiset(FilterTransactions(txs))[x] == if Survives(txs, x) then multiset(txs)[x] else 0
  {
    SameInvalidHashes(txs);
    FilterCounts(KeepUnlessResultOfInvalid(InvalidHashes(txs)), txs, x);
    FilterCounts(KeepUnlessRelayedAndInvalid(InvalidHashes(txs)), WithoutResultsOfInvalid(txs), x);
  }

  lemma {:induction false} TwoPositions(txs: seq<Tx>, i: nat, j: nat)
    requires i < j < |txs| && txs[i] == txs[j]
    ensures multiset(txs)[txs[i]] >= 2
  {
    assert txs == txs[..j] + [txs[j]] + txs[j + 1..];
    assert txs[..j][i] in multiset(txs[..j]);
  }

  lemma {:induction false} OnePosition(txs: seq<Tx>, i: nat)
    requires i < |txs| && forall j :: 0 <= j < |txs| && j != i ==> txs[j] != txs[i]
    ensures multiset(txs)[txs[i]] == 1
  {
    var before, after := txs[..i], txs[i + 1..];
    assert txs == before + [txs[i]] + after;
    assert txs[i] !in before && txs[i] !in after;
  }

  lemma {:induction false} CountsInListing(txs: seq<Tx>, listing: seq<Tx>, x: Tx)
    requires Lists(listing, LastByHash(txs))
    ensures multiset(listing)[x] == if x.hash in LastByHash(txs) && LastByHash(txs)[x.hash] == x then 1 else 0
  {
    AtMostOnce(listing, x);
  }

  /** A survivor followed by another of its hash is missing from the listing, or listed once where it was there
      twice. */
  lemma {:induction false} FollowedSurvivorDiffers(txs: seq<Tx>, listing: seq<Tx>, i: nat, j: nat)
    requires Lists(listing, LastByHash(txs))
    requires i < j < |txs| && txs[i].hash == txs[j].hash && Survives(txs, txs[i])
    ensures multiset(FilterTransactions(listing)) != multiset(FilterTransactions(txs))
  {
    hide Survives, LastByHash, FilterTransactions, Lists;
    var x := txs[i];
    FilteredCounts(txs, x);
    FilteredCounts(listing, x);
    CountsInListing(txs, listing, x);
    assert x in multiset(txs);
    if x.hash in LastByHash(txs) && LastByHash(txs)[x.hash] == x {
      LastByHashExactly(txs, x.hash);
      var k :| 0 <= k < |txs| && txs[k] == x && forall m :: k < m < |txs| ==> txs[m].hash != x.hash;
      assert k != i;
      TwoPositions(txs, if i < k then i else k, if i < k then k else i);
    }
  }

  /** Where survivors are last, the listing holds the same invalid transactions. */
  lemma {:induction false} ListingKeepsInvalid(txs: seq<Tx>, listing: seq<Tx>)
    requires Lists(listing, LastByHash(txs)) && SurvivorsAreLast(txs)
    ensures InvalidHashes(listing) == InvalidHashes(txs)
  {
    hide LastByHash;
    forall x | x in listing ensures x in txs {
      assert LastByHash(txs)[x.hash] == x;
    }
    forall x | x in txs && x.kind == Invalid ensures x in listing {
      var i :| 0 <= i < |txs| && txs[i] == x;
      assert Survives(txs, x);
      LastByHashKeepsLast(txs, i);
    }
  }

  lemma {:induction false} SurvivorIsAlone(txs: seq<Tx>, i: nat, j: nat)
    requires SurvivorsAreLast(txs) && i < |txs| && j < |txs| && i != j && Survives(txs, txs[i])
    ensures txs[j] != txs[i]
  {
    hide Survives;
    var first, second := if i < j then i else j, if i < j then j else i;
    assert txs[first].hash == txs[second].hash ==> !Survives(txs, txs[first]);
  }

  lemma {:induction false} SurvivorsAreListed(txs: seq<Tx>, listing: seq<Tx>, x: Tx)
    requires Lists(listing, LastByHash(txs)) && SurvivorsAreLast(txs) && Survives(txs, x)
    ensures multiset(listing)[x] == multiset(txs)[x]
  {
    hide LastByHash, Survives, Lists;
    CountsInListing(txs, listing, x);
    if x in txs {
      var i :| 0 <= i < |txs| && txs[i] == x;
      LastByHashKeepsLast(txs, i);
      forall j | 0 <= j < |txs| && j != i ensures txs[j] != txs[i] {
        SurvivorIsAlone(txs, i, j);
      }
      OnePosition(txs, i);
    } else {
      assert multiset(txs)[x] == 0;
      assert x.hash in LastByHash(txs) ==> LastByHash(txs)[x.hash] in txs;
    }
  }

  /** Of a block in which nothing is scheduled, the early return hands out all transactions and the general path the
      last one of each hash, in some order. After the service's filters these are the same, up to order, if and only
      if nothing that survives the filters is followed by another transaction of its hash. */
  lemma {:induction false} PathsAgreeExactly(txs: seq<Tx>, listing: seq<Tx>)
    requires Lists(listing, LastByHash(txs))
    ensures multiset(FilterTransactions(listing)) == multiset(FilterTransactions(txs)) <==> SurvivorsAreLast(txs)
  {
    hide LastByHash, Survives, FilterTransactions, Lists;
    if SurvivorsAreLast(txs) {
      ListingKeepsInvalid(txs, listing);
      forall x ensures multiset(FilterTransactions(listing))[x] == multiset(FilterTransactions(txs))[x] {
        FilteredCounts(txs, x);
        FilteredCounts(listing, x);
        SameSurvivors(txs, listing, x);
        if Survives(txs, x) {
          SurvivorsAreListed(txs, listing, x);
        }
      }
    } else {
      var i, j :| 0 <= i < j < |txs| && txs[i].hash == txs[j].hash && Survives(txs, txs[i]);
      FollowedSurvivorDiffers(txs, listing, i, j);
    }
  }

  lemma {:induction false} SameSurvivors(txs: seq<Tx>, listing: seq<Tx>, x: Tx)
    requires InvalidHashes(listing) == InvalidHashes(txs)
    ensures Survives(listing, x) <==> Survives(txs, x)
  {
  }

  /** Both paths are then served as the same Rosetta transactions up to order. */
  lemma {:induction false} PathsServeTheSame(net: Network, txs: seq<Tx>, listing: seq<Tx>, receipts: seq<Receipt>)
    requires Lists(listing, LastByHash(txs)) && SurvivorsAreLast(txs)
    ensures var early, general := TransformBlock(net, txs, receipts), TransformBlock(net, listing, receipts);
      && (early.Some? <==> general.Some?)
      && (early.Some? ==> multiset(early.value) == multiset(general.value))
  {
    PathsAgreeExactly(txs, listing);
    FilteredDecides(net, txs, listing, receipts);
  }

  /** What is served depends on the filtered transactions only. */
  lemma {:induction false} FilteredDecides(net: Network, a: seq<Tx>, b: seq<Tx>, receipts: seq<Receipt>)
    requires multiset(FilterTransactions(a)) == multiset(FilterTransactions(b))
    ensures var servedA, servedB := TransformBlock(net, a, receipts), TransformBlock(net, b, receipts);
      && (servedA.Some? <==> servedB.Some?)
      && (servedA.Some? ==> multiset(servedA.value) == multiset(servedB.value))
  {
    var a', b' := FilterTransactions(a), FilterTransactions(b);
    FilteredTwice(a);
    FilteredTwice(b);
    TransformPermutation(net, a', b', receipts);
  }

  lemma {:induction false} FilteredMembers(txs: seq<Tx>)
    ensures forall x :: x in FilterTransactions(txs) <==> x in txs && Survives(txs, x)
    ensures InvalidHashes(FilterTransactions(txs)) == InvalidHashes(txs)
  {
    hide FilterTransactions, Survives;
    forall x ensures x in FilterTransactions(txs) <==> x in txs && Survives(txs, x) {
      FilteredCounts(txs, x);
      assert x in FilterTransactions(txs) <==> x in multiset(FilterTransactions(txs));
    }
    forall x | x in txs && x.kind == Invalid ensures Survives(txs, x) {
      InvalidSurvives(txs, x);
    }
  }

  lemma {:induction false} InvalidSurvives(txs: seq<Tx>, x: Tx)
    requires x.kind == Invalid
    ensures Survives(txs, x)
  {
  }

  /** Filtering again changes nothing. */
  lemma {:induction false} FilteredTwice(txs: seq<Tx>)
    ensures FilterTransactions(FilterTransactions(txs)) == FilterTransactions(txs)
  {
    hide Filter, InvalidHashes;
    var once, invalid := FilterTransactions(txs), InvalidHashes(txs);
    FilteredMembers(txs);
    forall i | 0 <= i < |once|
      ensures KeepUnlessResultOfInvalid(invalid)(once[i]) && KeepUnlessRelayedAndInvalid(invalid)(once[i])
    {
      assert once[i] in once;
    }
    FilterAll(KeepUnlessResultOfInvalid(invalid), once);
    FilterAll(KeepUnlessRelayedAndInvalid(invalid), once);
  }

  lemma {:induction false} FilterAll<S>(keep: S -> bool, s: seq<S>)
    requires forall i :: 0 <= i < |s| ==> keep(s[i])
    ensures Filter(keep, s) == s
  {
    hide Filter;
    if s == [] {
      FilterNone(keep, s);
      assert s[..0] == s;
    } else {
      var n := |s| - 1;
      FilterAll(keep, s[..n]);
      FilterLast(keep, s, n);
      assert s[..n + 1] == s;
    }
  }

  /** A relayed transaction and its invalid form: with the invalid one listed last both paths agree, with the relayed
      one last the general path loses the invalid one, and the relayed one is served as if it had been valid. */
  lemma {:induction false} InvalidListedFirstIsLost(relayed: Tx, invalid: Tx)
    requires IsRelayedV1Transaction(relayed) && invalid.kind == Invalid && relayed.hash == invalid.hash
    ensures SurvivorsAreLast([relayed, invalid]) && !SurvivorsAreLast([invalid, relayed])
    ensures FilterTransactions([invalid, relayed]) == [invalid]
    ensures LastByHash([invalid, relayed]).Values == {relayed} && FilterTransactions([relayed]) == [relayed]
  {
    hide LastByHash, FilterTransactions, SurvivorsAreLast, IsRelayedV1Transaction;
    PairFiltered(relayed, invalid);
    PairKept(relayed, invalid);
    PairOrders(relayed, invalid);
  }

  lemma {:induction false} PairOrders(relayed: Tx, invalid: Tx)
    requires IsRelayedV1Transaction(relayed) && invalid.kind == Invalid && relayed.hash == invalid.hash
    ensures SurvivorsAreLast([relayed, invalid]) && !SurvivorsAreLast([invalid, relayed])
  {
    PairInvalidHashes(relayed, invalid);
    var good, bad := [relayed, invalid], [invalid, relayed];
    assert !Survives(good, relayed) && Survives(bad, invalid);
    hide Survives, InvalidHashes;
    assert bad[0].hash == bad[1].hash && Survives(bad, bad[0]);
  }

  lemma {:induction false} PairKept(relayed: Tx, invalid: Tx)
    requires relayed.hash == invalid.hash
    ensures LastByHash([invalid, relayed]).Values == {relayed}
  {
    var txs := [invalid, relayed];
    var byHash := LastByHash(txs);
    LastByHashKeepsLast(txs, 1);
    hide LastByHash;
    assert txs[0] == invalid && txs[1] == relayed;
    assert byHash.Keys == {relayed.hash} && byHash[relayed.hash] == relayed;
  }

  lemma {:induction false} PairInvalidHashes(relayed: Tx, invalid: Tx)
    requires relayed.kind == Normal && invalid.kind == Invalid
    ensures InvalidHashes([invalid, relayed]) == InvalidHashes([relayed, invalid]) == {invalid.hash}
    ensures InvalidHashes([relayed]) == {}
  {
    assert [invalid, relayed][0] == invalid && [relayed, invalid][1] == invalid;
  }

  lemma {:induction false} KindsOfPair(relayed: Tx, invalid: Tx)
    requires invalid.kind == Invalid
    ensures IsRelayedV1Transaction(relayed) ==> relayed.kind == Normal
    ensures !IsRelayedV1Transaction(invalid)
  {
  }

  lemma {:induction false} PairFiltered(relayed: Tx, invalid: Tx)
    requires IsRelayedV1Transaction(relayed) && invalid.kind == Invalid && relayed.hash == invalid.hash
    ensures FilterTransactions([invalid, relayed]) == [invalid]
    ensures FilterTransactions([relayed]) == [relayed]
  {
    hide Filter, InvalidHashes, IsRelayedV1Transaction;
    var txs := [invalid, relayed];
    KindsOfPair(relayed, invalid);
    PairInvalidHashes(relayed, invalid);
    FilterAll(KeepUnlessResultOfInvalid({invalid.hash}), txs);
    FilterAll(KeepUnlessRelayedAndInvalid({invalid.hash}), [invalid]);
    assert txs[..1] == [invalid];
    FilterLast(KeepUnlessRelayedAndInvalid({invalid.hash}), txs, 1);
    assert txs[..2] == txs;
    FilterAll(KeepUnlessResultOfInvalid({}), [relayed]);
    FilterAll(KeepUnlessRelayedAndInvalid({}), [relayed]);
  }

  /** A transaction is dropped if and only if it is a contract result of a transaction that is invalid in this block,
      or a relayed one of which there is an invalid form of the same hash; the others are kept as often as listed. */
  lemma {:induction false} FilteredExactly(txs: seq<Tx>, x: Tx)
    ensures multiset(FilterTransactions(txs))[x]
         == if exists y :: y in txs && y.kind == Invalid
                 && (|| (x.kind == Unsigned && x.originalHash == y.hash)
                     || (x.kind == Normal && x.typeOnSource == RelayedV1 && x.typeOnDestination == RelayedV1
                         && x.hash == y.hash))
            then 0 else multiset(txs)[x]
  {
    FilteredCounts(txs, x);
    SurvivesExactly(txs, x);
  }

  lemma {:induction false} SurvivesExactly(txs: seq<Tx>, x: Tx)
    ensures Survives(txs, x) <==>
              !exists y :: y in txs && y.kind == Invalid
                 && (|| (x.kind == Unsigned && x.originalHash == y.hash)
                     || (x.kind == Normal && x.typeOnSource == RelayedV1 && x.typeOnDestination == RelayedV1
                         && x.hash == y.hash))
  {
  }
}
