/** What the reconciliation of scheduled miniblocks computes (server/provider/scheduledMiniblocks.go),
    stated on values: reachability over parent-hash links, and the effective transactions of a block. */
module ScheduledSpec {
  import opened Encoding
  import opened Chain

  // ---------------------------------------------------------------- reachability

  /** "x" hangs below the hash "root" by a chain of n + 1 links, every node of which is
      one of "items" and was produced in the own shard. */
  ghost predicate ReachIn(self: nat, items: seq<Tx>, n: nat, root: string, x: Tx) {
    && x in items
    && x.sourceShard == self
    && if n == 0 then x.previousHash == root
       else exists y ::
         && y in items
         && y.sourceShard == self
         && y.previousHash == root
         && ReachIn(self, items, n - 1, y.hash, x)
  }

  ghost predicate Reachable(self: nat, items: seq<Tx>, root: string, x: Tx) {
    exists n: nat :: ReachIn(self, items, n, root, x)
  }

  /** No item that hangs below "root" hangs below itself. */
  ghost predicate AcyclicBelow(self: nat, items: seq<Tx>, root: string) {
    forall x :: x in items && Reachable(self, items, root, x) ==> !Reachable(self, items, x.hash, x)
  }

  ghost predicate AcyclicBelowAll(self: nat, roots: seq<Tx>, items: seq<Tx>) {
    forall root :: root in roots ==> AcyclicBelow(self, items, root.hash)
  }

  ghost function ReachSet(self: nat, items: seq<Tx>, root: string): set<Tx> {
    set x | x in items && Reachable(self, items, root, x)
  }

  predicate IsChild(self: nat, items: seq<Tx>, root: string, c: Tx) {
    c in items && c.sourceShard == self && c.previousHash == root
  }

  lemma {:induction false} ReachChild(self: nat, items: seq<Tx>, root: string, c: Tx)
    requires IsChild(self, items, root, c)
    ensures Reachable(self, items, root, c)
  {
    assert ReachIn(self, items, 0, root, c);
  }

  lemma {:induction false} ReachBelowChild(self: nat, items: seq<Tx>, root: string, c: Tx, x: Tx)
    requires IsChild(self, items, root, c)
    requires Reachable(self, items, c.hash, x)
    ensures Reachable(self, items, root, x)
  {
    var n: nat :| ReachIn(self, items, n, c.hash, x);
    assert ReachIn(self, items, n + 1, root, x);
  }

  /** Items of the own shard, the first right below "root" and each other one right below the one before it. */
  ghost predicate IsPath(self: nat, items: seq<Tx>, root: string, path: seq<Tx>) {
    forall i :: 0 <= i < |path| ==>
      && path[i] in items && path[i].sourceShard == self && path[i].previousHash == HashBefore(root, path, i)
  }

  function HashBefore(root: string, path: seq<Tx>, i: nat): string
    requires i < |path|
  {
    if i == 0 then root else path[i - 1].hash
  }

  lemma {:induction false} PathTo(self: nat, items: seq<Tx>, n: nat, root: string, x: Tx) returns (path: seq<Tx>)
    requires ReachIn(self, items, n, root, x)
    ensures |path| == n + 1 && path[n] == x && IsPath(self, items, root, path)
  {
    if n == 0 {
      path := [x];
    } else {
      var y :| y in items && y.sourceShard == self && y.previousHash == root
               && ReachIn(self, items, n - 1, y.hash, x);
      var rest := PathTo(self, items, n - 1, y.hash, x);
      path := [y] + rest;
      forall i | 0 <= i < |path|
        ensures path[i] in items && path[i].sourceShard == self
        ensures path[i].previousHash == HashBefore(root, path, i)
      {
        if i > 0 {
          assert path[i] == rest[i - 1];
        }
      }
    }
  }

  lemma {:induction false} PathReaches(self: nat, items: seq<Tx>, root: string, path: seq<Tx>)
    requires path != [] && IsPath(self, items, root, path)
    ensures ReachIn(self, items, |path| - 1, root, path[|path| - 1])
    decreases |path|
  {
    assert path[0] in items && path[0].sourceShard == self && path[0].previousHash == root;
    if |path| > 1 {
      var rest := path[1..];
      assert IsPath(self, items, path[0].hash, rest) by {
        forall i | 0 <= i < |rest|
          ensures rest[i] in items && rest[i].sourceShard == self
          ensures rest[i].previousHash == HashBefore(path[0].hash, rest, i)
        {
          assert rest[i] == path[i + 1];
        }
      }
      PathReaches(self, items, path[0].hash, rest);
      assert rest[|rest| - 1] == path[|path| - 1];
    }
  }

  /** To be reachable is to be at the end of a path. */
  lemma {:induction false} ReachableByPath(self: nat, items: seq<Tx>, root: string, x: Tx)
    ensures Reachable(self, items, root, x) <==>
              exists path :: path != [] && IsPath(self, items, root, path) && path[|path| - 1] == x
  {
    hide IsPath, ReachIn;
    if n: nat :| ReachIn(self, items, n, root, x) {
      var path := PathTo(self, items, n, root, x);
    }
    if path :| path != [] && IsPath(self, items, root, path) && path[|path| - 1] == x {
      PathReaches(self, items, root, path);
    }
  }

  lemma {:induction false} ReachInBelow(self: nat, items: seq<Tx>, n: nat, m: nat, root: string, x: Tx, y: Tx)
    requires ReachIn(self, items, n, root, x) && ReachIn(self, items, m, x.hash, y)
    ensures ReachIn(self, items, n + 1 + m, root, y)
  {
    if n > 0 {
      var z :| z in items && z.sourceShard == self && z.previousHash == root
               && ReachIn(self, items, n - 1, z.hash, x);
      ReachInBelow(self, items, n - 1, m, z.hash, x, y);
    }
  }

  lemma {:induction false} ReachBelow(self: nat, items: seq<Tx>, root: string, x: Tx, y: Tx)
    requires Reachable(self, items, root, x) && Reachable(self, items, x.hash, y)
    ensures Reachable(self, items, root, y)
  {
    var n: nat :| ReachIn(self, items, n, root, x);
    var m: nat :| ReachIn(self, items, m, x.hash, y);
    ReachInBelow(self, items, n, m, root, x, y);
  }

  lemma {:induction false} AcyclicBelowReached(self: nat, items: seq<Tx>, root: string, x: Tx)
    requires AcyclicBelow(self, items, root)
    requires Reachable(self, items, root, x)
    ensures AcyclicBelow(self, items, x.hash)
  {
    forall y | y in items && Reachable(self, items, x.hash, y) ensures !Reachable(self, items, y.hash, y) {
      ReachBelow(self, items, root, x, y);
    }
  }

  /** The last link of a chain: its end hangs directly below the root or below another reached item. */
  lemma {:induction false} ReachParent(self: nat, items: seq<Tx>, n: nat, root: string, x: Tx)
    returns (parent: Tx)
    requires n > 0
    requires ReachIn(self, items, n, root, x)
    ensures parent.hash == x.previousHash
    ensures ReachIn(self, items, n - 1, root, parent)
  {
    var y :| y in items && y.sourceShard == self && y.previousHash == root
             && ReachIn(self, items, n - 1, y.hash, x);
    if n == 1 {
      parent := y;
    } else {
      parent := ReachParent(self, items, n - 1, y.hash, x);
    }
  }

  // ---------------------------------------------------------------- termination

  /** Going down one link strictly shrinks the set of items below. */
  lemma {:induction false} StrictDescent(self: nat, items: seq<Tx>, root: string, c: Tx)
    requires AcyclicBelow(self, items, root)
    requires IsChild(self, items, root, c)
    ensures AcyclicBelow(self, items, c.hash)
    ensures ReachSet(self, items, c.hash) < ReachSet(self, items, root)
    ensures |ReachSet(self, items, c.hash)| < |ReachSet(self, items, root)|
  {
    var below, above := ReachSet(self, items, c.hash), ReachSet(self, items, root);
    ReachChild(self, items, root, c);
    AcyclicBelowReached(self, items, root, c);
    forall x | x in below ensures x in above {
      ReachBelowChild(self, items, root, c, x);
    }
    assert c in above && c !in below;
    ProperSubsetIsSmaller(below, above);
  }

  lemma {:induction false} ProperSubsetIsSmaller<T>(a: set<T>, b: set<T>)
    requires a < b
    ensures |a| < |b|
  {
    assert b == a + (b - a);
    assert b - a != {};
  }

  /** "rank" falls along every own-shard link below "root". */
  ghost predicate RankedBelow(self: nat, items: seq<Tx>, root: string, rank: map<string, nat>) {
    && root in rank
    && forall x :: x in items && Reachable(self, items, root, x) ==>
         x.hash in rank && x.previousHash in rank && rank[x.hash] < rank[x.previousHash]
  }

  lemma {:induction false} RankFalls(
      self: nat, items: seq<Tx>, root: string, rank: map<string, nat>, x: Tx, n: nat, y: Tx)
    requires RankedBelow(self, items, root, rank)
    requires x in items && Reachable(self, items, root, x)
    requires ReachIn(self, items, n, x.hash, y)
    ensures y.hash in rank && x.hash in rank && rank[y.hash] < rank[x.hash]
  {
    assert Reachable(self, items, x.hash, y);
    ReachBelow(self, items, root, x, y);
    if n > 0 {
      var parent := ReachParent(self, items, n, x.hash, y);
      RankFalls(self, items, root, rank, x, n - 1, parent);
    }
  }

  /** Some measure falls along every own-shard link below a root exactly when no item there hangs below itself. */
  lemma {:induction false} AcyclicExactlyWhenRanked(self: nat, items: seq<Tx>, root: string)
    ensures AcyclicBelow(self, items, root) <==> exists rank :: RankedBelow(self, items, root, rank)
  {
    if AcyclicBelow(self, items, root) {
      var nodes := Hashes(items) + (set x | x in items :: x.previousHash) + {root};
      var rank := map h | h in nodes :: |ReachSet(self, items, h)|;
      forall x | x in items && Reachable(self, items, root, x) ensures rank[x.hash] < rank[x.previousHash] {
        var n: nat :| ReachIn(self, items, n, root, x);
        if n == 0 {
          StrictDescent(self, items, root, x);
        } else {
          var parent := ReachParent(self, items, n, root, x);
          AcyclicBelowReached(self, items, root, parent);
          StrictDescent(self, items, parent.hash, x);
        }
      }
      assert RankedBelow(self, items, root, rank);
    }
    if rank :| RankedBelow(self, items, root, rank) {
      forall x | x in items && Reachable(self, items, root, x) ensures !Reachable(self, items, x.hash, x) {
        if n: nat :| ReachIn(self, items, n, x.hash, x) {
          RankFalls(self, items, root, rank, x, n, x);
        }
      }
    }
  }

  // ---------------------------------------------------------------- the search

  function Children(items: seq<Tx>, root: string): (children: seq<Tx>)
    ensures forall c :: c in children <==> c in items && c.previousHash == root
  {
    if items == [] then []
    else
      var last := items[|items| - 1];
      Children(items[..|items| - 1], root) + (if last.previousHash == root then [last] else [])
  }

  /** All own-shard descendants of "root", depth first, each right before its own descendants. */
  ghost function Descendants(self: nat, items: seq<Tx>, root: string): seq<Tx>
    requires AcyclicBelow(self, items, root)
    decreases |ReachSet(self, items, root)|, 1, 0
  {
    DescendantsVia(self, items, root, Children(items, root))
  }

  ghost function DescendantsVia(self: nat, items: seq<Tx>, root: string, children: seq<Tx>): seq<Tx>
    requires AcyclicBelow(self, items, root)
    requires forall c :: c in children ==> c in items && c.previousHash == root
    decreases |ReachSet(self, items, root)|, 0, |children|
  {
    if children == [] then []
    else
      var init, c := children[..|children| - 1], children[|children| - 1];
      DescendantsVia(self, items, root, init)
      + (if c.sourceShard == self then
           StrictDescent(self, items, root, c);
           [c] + Descendants(self, items, c.hash)
         else [])
  }

  lemma {:induction false} DescendantsViaOneMore(self: nat, items: seq<Tx>, root: string, children: seq<Tx>, i: nat)
    requires AcyclicBelow(self, items, root)
    requires forall c :: c in children ==> c in items && c.previousHash == root
    requires i < |children|
    ensures DescendantsVia(self, items, root, children[..i + 1])
         == if children[i].sourceShard == self then
              StrictDescent(self, items, root, children[i]);
              DescendantsVia(self, items, root, children[..i])
              + ([children[i]] + Descendants(self, items, children[i].hash))
            else DescendantsVia(self, items, root, children[..i])
  {
    assert children[..i + 1][..i] == children[..i];
  }

  lemma {:induction false} DescendantsFromNone(self: nat, items: seq<Tx>, root: string)
    requires AcyclicBelow(self, items, root)
    ensures DescendantsVia(self, items, root, []) == []
    ensures Descendants(self, items, root) == DescendantsVia(self, items, root, Children(items, root))
  {
  }

  /** The search returns exactly what is reachable. */
  lemma {:induction false} DescendantsExactlyReachable(self: nat, items: seq<Tx>, root: string)
    requires AcyclicBelow(self, items, root)
    ensures forall x :: x in Descendants(self, items, root) <==> Reachable(self, items, root, x)
    decreases |ReachSet(self, items, root)|, 1, 0
  {
    var children := Children(items, root);
    DescendantsViaMembers(self, items, root, children);
    forall x
      ensures x in Descendants(self, items, root) <==> Reachable(self, items, root, x)
    {
      if x in Descendants(self, items, root) {
        assert x in DescendantsVia(self, items, root, children);
        var c :| c in children && c.sourceShard == self && (x == c || Reachable(self, items, c.hash, x));
        ReachChild(self, items, root, c);
        if x != c {
          ReachBelowChild(self, items, root, c, x);
        }
      }
      if n: nat :| ReachIn(self, items, n, root, x) {
        if n > 0 {
          var y :| y in items && y.sourceShard == self && y.previousHash == root
                   && ReachIn(self, items, n - 1, y.hash, x);
          assert y in children && Reachable(self, items, y.hash, x);
        }
      }
    }
  }

  lemma {:induction false} DescendantsViaMembers(self: nat, items: seq<Tx>, root: string, children: seq<Tx>)
    requires AcyclicBelow(self, items, root)
    requires forall c :: c in children ==> c in items && c.previousHash == root
    ensures forall x :: x in DescendantsVia(self, items, root, children) <==>
              exists c :: c in children && c.sourceShard == self
                          && (x == c || Reachable(self, items, c.hash, x))
    decreases |ReachSet(self, items, root)|, 0, |children|
  {
    if children != [] {
      var init, last := children[..|children| - 1], children[|children| - 1];
      assert children == init + [last];
      DescendantsViaMembers(self, items, root, init);
      if last.sourceShard == self {
        StrictDescent(self, items, root, last);
        DescendantsExactlyReachable(self, items, last.hash);
      }
    }
  }

  // ---------------------------------------------------------------- when the search ends

  /** The recursion cut off below "depth" calls; None where it would have gone deeper. */
  ghost function Search(self: nat, items: seq<Tx>, root: string, depth: nat): Option<seq<Tx>>
    decreases depth, 1, 0
  {
    if depth == 0 then None else SearchVia(self, items, Children(items, root), depth)
  }

  ghost function SearchVia(self: nat, items: seq<Tx>, children: seq<Tx>, depth: nat): Option<seq<Tx>>
    requires depth > 0
    decreases depth, 0, |children|
  {
    if children == [] then Some([])
    else
      var init, c := children[..|children| - 1], children[|children| - 1];
      match SearchVia(self, items, init, depth)
      case None => None
      case Some(before) =>
        if c.sourceShard != self then Some(before)
        else
          match Search(self, items, c.hash, depth - 1)
          case None => None
          case Some(below) => Some(before + ([c] + below))
  }

  lemma {:induction false} SearchViaReachesAll(self: nat, items: seq<Tx>, children: seq<Tx>, depth: nat)
    requires depth > 0 && SearchVia(self, items, children, depth).Some?
    ensures forall c :: c in children && c.sourceShard == self ==> Search(self, items, c.hash, depth - 1).Some?
  {
    if children != [] {
      SearchViaReachesAll(self, items, children[..|children| - 1], depth);
    }
  }

  lemma {:induction false} SearchReachesChild(self: nat, items: seq<Tx>, root: string, depth: nat, c: Tx)
    requires Search(self, items, root, depth).Some?
    requires IsChild(self, items, root, c)
    ensures depth > 1 && Search(self, items, c.hash, depth - 1).Some?
  {
    SearchViaReachesAll(self, items, Children(items, root), depth);
  }

  lemma {:induction false} DepthBoundsChains(self: nat, items: seq<Tx>, root: string, depth: nat, n: nat, x: Tx)
    requires Search(self, items, root, depth).Some?
    requires ReachIn(self, items, n, root, x)
    ensures n + 1 < depth
    decreases depth
  {
    hide Search;
    if n == 0 {
      SearchReachesChild(self, items, root, depth, x);
    } else {
      var y :| y in items && y.sourceShard == self && y.previousHash == root
               && ReachIn(self, items, n - 1, y.hash, x);
      SearchReachesChild(self, items, root, depth, y);
      DepthBoundsChains(self, items, y.hash, depth - 1, n - 1, x);
    }
  }

  lemma {:induction false} CycleGivesLongChains(self: nat, items: seq<Tx>, root: string, x: Tx, length: nat)
    returns (n: nat)
    requires Reachable(self, items, root, x) && Reachable(self, items, x.hash, x)
    ensures n >= length && ReachIn(self, items, n, root, x)
  {
    if length == 0 {
      n :| ReachIn(self, items, n, root, x);
    } else {
      var shorter := CycleGivesLongChains(self, items, root, x, length - 1);
      var around: nat :| ReachIn(self, items, around, x.hash, x);
      ReachInBelow(self, items, shorter, around, root, x, x);
      n := shorter + 1 + around;
    }
  }

  lemma {:induction false} SearchFindsDescendants(self: nat, items: seq<Tx>, root: string, depth: nat)
    requires AcyclicBelow(self, items, root)
    requires depth > |ReachSet(self, items, root)|
    ensures Search(self, items, root, depth) == Some(Descendants(self, items, root))
    decreases depth, 1, 0
  {
    SearchViaFindsDescendants(self, items, root, Children(items, root), depth);
  }

  lemma {:induction false} SearchViaFindsDescendants(
      self: nat, items: seq<Tx>, root: string, children: seq<Tx>, depth: nat)
    requires AcyclicBelow(self, items, root)
    requires forall c :: c in children ==> c in items && c.previousHash == root
    requires depth > |ReachSet(self, items, root)|
    ensures SearchVia(self, items, children, depth) == Some(DescendantsVia(self, items, root, children))
    decreases depth, 0, |children|
  {
    if children != [] {
      var init, c := children[..|children| - 1], children[|children| - 1];
      SearchViaFindsDescendants(self, items, root, init, depth);
      if c.sourceShard == self {
        StrictDescent(self, items, root, c);
        SearchFindsDescendants(self, items, c.hash, depth - 1);
      } else {
        assert DescendantsVia(self, items, root, init) + [] == DescendantsVia(self, items, root, init);
      }
    }
  }

  /** The recursion from "root" ends if and only if no item below it hangs below itself: then every depth beyond
      the number of items below is enough and gives all descendants, otherwise no depth is enough. */
  lemma {:induction false} SearchEndsExactlyWhenAcyclic(self: nat, items: seq<Tx>, root: string)
    ensures (exists depth: nat :: Search(self, items, root, depth).Some?) <==> AcyclicBelow(self, items, root)
    ensures AcyclicBelow(self, items, root) ==>
              forall depth: nat :: depth > |ReachSet(self, items, root)| ==>
                Search(self, items, root, depth) == Some(Descendants(self, items, root))
  {
    if AcyclicBelow(self, items, root) {
      forall depth: nat | depth > |ReachSet(self, items, root)|
        ensures Search(self, items, root, depth) == Some(Descendants(self, items, root))
      {
        SearchFindsDescendants(self, items, root, depth);
      }
      assert Search(self, items, root, |ReachSet(self, items, root)| + 1).Some?;
    } else if depth: nat :| Search(self, items, root, depth).Some? {
      var x :| x in items && Reachable(self, items, root, x) && Reachable(self, items, x.hash, x);
      var n := CycleGivesLongChains(self, items, root, x, depth);
      DepthBoundsChains(self, items, root, depth, n, x);
      assert false;
    }
  }

  // ---------------------------------------------------------------- no duplicates

  predicate NoDuplicates<T(==)>(s: seq<T>) {
    forall i, j :: 0 <= i < j < |s| ==> s[i] != s[j]
  }

  /** With distinct hashes an item hangs below at most one child of a root. */
  lemma {:induction false} SubtreesAreDisjoint(self: nat, items: seq<Tx>, root: string, c: Tx, d: Tx, x: Tx)
    requires AcyclicBelow(self, items, root) && DistinctHashes(items)
    requires IsChild(self, items, root, c) && IsChild(self, items, root, d)
    requires x == c || Reachable(self, items, c.hash, x)
    requires x == d || Reachable(self, items, d.hash, x)
    ensures c == d
    decreases |ReachSet(self, items, root)| - |ReachSet(self, items, x.hash)|
  {
    if c != d {
      if x == c {
        NotBelowSibling(self, items, root, c, d);
      } else if x == d {
        NotBelowSibling(self, items, root, d, c);
      } else {
        var p := ParentInSubtree(self, items, c, x);
        var q := ParentInSubtree(self, items, d, x);
        assert p == q;
        if p == c {
          StrictDescent(self, items, root, c);
        } else {
          ReachBelowChild(self, items, root, c, p);
          SmallerBelow(self, items, root, p);
        }
        StrictDescent(self, items, p.hash, x);
        SubtreesAreDisjoint(self, items, root, c, d, p);
      }
    }
  }

  lemma {:induction false} ParentInSubtree(self: nat, items: seq<Tx>, c: Tx, x: Tx) returns (parent: Tx)
    requires c in items
    requires Reachable(self, items, c.hash, x)
    ensures parent in items && parent.hash == x.previousHash
    ensures parent.hash == c.hash || Reachable(self, items, c.hash, parent)
    ensures parent == c || Reachable(self, items, c.hash, parent)
  {
    var n: nat :| ReachIn(self, items, n, c.hash, x);
    if n == 0 {
      parent := c;
    } else {
      parent := ReachParent(self, items, n, c.hash, x);
    }
  }

  lemma {:induction false} SmallerBelow(self: nat, items: seq<Tx>, root: string, x: Tx)
    requires AcyclicBelow(self, items, root)
    requires Reachable(self, items, root, x)
    ensures AcyclicBelow(self, items, x.hash)
    ensures |ReachSet(self, items, x.hash)| < |ReachSet(self, items, root)|
  {
    AcyclicBelowReached(self, items, root, x);
    var n: nat :| ReachIn(self, items, n, root, x);
    SmallerBelowIn(self, items, n, root, x);
  }

  lemma {:induction false} SmallerBelowIn(self: nat, items: seq<Tx>, n: nat, root: string, x: Tx)
    requires AcyclicBelow(self, items, root)
    requires ReachIn(self, items, n, root, x)
    ensures |ReachSet(self, items, x.hash)| < |ReachSet(self, items, root)|
  {
    if n == 0 {
      StrictDescent(self, items, root, x);
    } else {
      var y :| y in items && y.sourceShard == self && y.previousHash == root
               && ReachIn(self, items, n - 1, y.hash, x);
      StrictDescent(self, items, root, y);
      SmallerBelowIn(self, items, n - 1, y.hash, x);
    }
  }

  lemma {:induction false} NotBelowSibling(self: nat, items: seq<Tx>, root: string, c: Tx, d: Tx)
    requires AcyclicBelow(self, items, root) && DistinctHashes(items)
    requires IsChild(self, items, root, c) && IsChild(self, items, root, d)
    requires c != d
    ensures !Reachable(self, items, d.hash, c)
  {
    if Reachable(self, items, d.hash, c) {
      // The parent of "c" has the hash "root" and hangs below "root": an item below itself.
      var p := ParentInSubtree(self, items, d, c);
      StrictDescent(self, items, root, d);
      if p != d {
        ReachBelowChild(self, items, root, d, p);
        SmallerBelow(self, items, root, p);
      }
    }
  }

  /** With distinct hashes, the result for one root has no duplicate and is no longer than the list searched. */
  lemma {:induction false} DescendantsHaveNoDuplicates(self: nat, items: seq<Tx>, root: string)
    requires AcyclicBelow(self, items, root) && DistinctHashes(items)
    ensures NoDuplicates(Descendants(self, items, root))
    ensures |Descendants(self, items, root)| <= |items|
    decreases |ReachSet(self, items, root)|, 1, 0
  {
    ChildrenKeepDistinct(items, root);
    DescendantsViaNoDuplicates(self, items, root, Children(items, root));
    var found := Descendants(self, items, root);
    DescendantsExactlyReachable(self, items, root);
    forall x | x in found ensures x in items {
      assert Reachable(self, items, root, x);
    }
    NoDuplicatesFit(found, items);
  }

  lemma {:induction false} ChildrenKeepDistinct(items: seq<Tx>, root: string)
    requires DistinctHashes(items)
    ensures DistinctHashes(Children(items, root))
  {
    if items != [] {
      var init, last := items[..|items| - 1], items[|items| - 1];
      ChildrenKeepDistinct(init, root);
      forall c | c in Children(init, root) ensures c.hash != last.hash {
        assert c in init;
      }
    }
  }

  lemma {:induction false} DescendantsViaNoDuplicates(self: nat, items: seq<Tx>, root: string, children: seq<Tx>)
    requires AcyclicBelow(self, items, root) && DistinctHashes(items) && DistinctHashes(children)
    requires forall c :: c in children ==> c in items && c.previousHash == root
    ensures NoDuplicates(DescendantsVia(self, items, root, children))
    decreases |ReachSet(self, items, root)|, 0, |children|
  {
    if children != [] {
      var init, last := children[..|children| - 1], children[|children| - 1];
      DescendantsViaNoDuplicates(self, items, root, init);
      if last.sourceShard == self {
        StrictDescent(self, items, root, last);
        DescendantsHaveNoDuplicates(self, items, last.hash);
        DescendantsExactlyReachable(self, items, last.hash);
        DescendantsViaMembers(self, items, root, init);
        var left, right := DescendantsVia(self, items, root, init), Descendants(self, items, last.hash);
        forall x | x in left ensures x != last && x !in right {
          var c :| c in init && c.sourceShard == self && (x == c || Reachable(self, items, c.hash, x));
          if x == last || x in right {
            SubtreesAreDisjoint(self, items, root, c, last, x);
          }
        }
        assert last !in right;
        NoDuplicatesConcat(left, [last] + right);
      }
    }
  }

  lemma {:induction false} NoDuplicatesConcat<T>(a: seq<T>, b: seq<T>)
    requires NoDuplicates(a) && NoDuplicates(b)
    requires forall x :: x in a ==> x !in b
    ensures NoDuplicates(a + b)
  {
    forall i, j | 0 <= i < j < |a + b| ensures (a + b)[i] != (a + b)[j] {
      if i < |a| <= j {
        assert (a + b)[i] in a && (a + b)[j] == b[j - |a|];
      }
    }
  }

  lemma {:induction false} NoDuplicatesFit<T>(s: seq<T>, within: seq<T>)
    requires NoDuplicates(s)
    requires forall x :: x in s ==> x in within
    ensures |s| <= |within|
  {
    var xs, ys := set x | x in s, set y | y in within;
    NoDuplicatesCard(s);
    SeqCard(within);
    assert xs <= ys;
    SubsetIsNoLarger(xs, ys);
  }

  lemma {:induction false} SubsetIsNoLarger<T>(a: set<T>, b: set<T>)
    requires a <= b
    ensures |a| <= |b|
  {
    assert b == a + (b - a);
  }

  lemma {:induction false} NoDuplicatesCard<T>(s: seq<T>)
    requires NoDuplicates(s)
    ensures |set x | x in s| == |s|
  {
    if s != [] {
      var init, last := s[..|s| - 1], s[|s| - 1];
      NoDuplicatesCard(init);
      assert last !in init;
      assert (set x | x in s) == (set x | x in init) + {last};
    }
  }

  lemma {:induction false} SeqCard<T>(s: seq<T>)
    ensures |set x | x in s| <= |s|
  {
    if s != [] {
      var init, last := s[..|s| - 1], s[|s| - 1];
      SeqCard(init);
      assert (set x | x in s) == (set x | x in init) + {last};
    }
  }

  // ---------------------------------------------------------------- effective transactions

  /** Results for all of "roots", one root after the other. */
  ghost function ImmediateResults(self: nat, roots: seq<Tx>, items: seq<Tx>): seq<Tx>
    requires AcyclicBelowAll(self, roots, items)
  {
    if roots == [] then []
    else
      ImmediateResults(self, roots[..|roots| - 1], items) + Descendants(self, items, roots[|roots| - 1].hash)
  }

  lemma {:induction false} ImmediateResultsOneMore(self: nat, roots: seq<Tx>, items: seq<Tx>, i: nat)
    requires AcyclicBelowAll(self, roots, items)
    requires i < |roots|
    ensures ImmediateResults(self, roots[..i + 1], items)
         == ImmediateResults(self, roots[..i], items) + Descendants(self, items, roots[i].hash)
  {
    assert roots[..i + 1][..i] == roots[..i];
  }

  ghost predicate IsImmediateResult(self: nat, roots: seq<Tx>, items: seq<Tx>, x: Tx) {
    exists root :: root in roots && Reachable(self, items, root.hash, x)
  }

  ghost function ImmediateHashes(self: nat, roots: seq<Tx>, items: seq<Tx>): set<string> {
    set x | x in items && IsImmediateResult(self, roots, items, x) :: x.hash
  }

  lemma {:induction false} ImmediateResultsExactly(self: nat, roots: seq<Tx>, items: seq<Tx>)
    requires AcyclicBelowAll(self, roots, items)
    ensures forall x :: x in ImmediateResults(self, roots, items) <==> IsImmediateResult(self, roots, items, x)
    ensures Hashes(ImmediateResults(self, roots, items)) == ImmediateHashes(self, roots, items)
  {
    if roots != [] {
      var init, last := roots[..|roots| - 1], roots[|roots| - 1];
      assert roots == init + [last];
      ImmediateResultsExactly(self, init, items);
      DescendantsExactlyReachable(self, items, last.hash);
    }
    forall x | IsImmediateResult(self, roots, items, x) ensures x in items {
      var root :| root in roots && Reachable(self, items, root.hash, x);
    }
  }

  /** Contract results listed in "next" whose effects belong to "block", where their origin is scheduled. */
  ghost function ExecutedAhead(self: nat, block: Block, next: Block): set<string> {
    ImmediateHashes(self, ScheduledTransactions(block), AllTransactions(next))
  }

  predicate HasScheduled(block: Block) {
    ScheduledTransactions(block) != []
  }

  /** (current, minus previous and previously executed results when the previous block has scheduled
      transactions) plus currently executed results. */
  ghost function EffectiveHashes(self: nat, previous: Block, current: Block, next: Block): set<string> {
    (if HasScheduled(previous) then
       Hashes(AllTransactions(current)) - Hashes(AllTransactions(previous)) - ExecutedAhead(self, previous, current)
     else Hashes(AllTransactions(current)))
    + ExecutedAhead(self, current, next)
  }

  /** What the searches, which are only started from scheduled transactions, need to come to an end. */
  ghost predicate Searchable(self: nat, previous: Block, current: Block, next: Block) {
    && AcyclicBelowAll(self, ScheduledTransactions(previous), AllTransactions(current))
    && AcyclicBelowAll(self, ScheduledTransactions(current), AllTransactions(next))
  }

  /** The last transaction written under each hash. */
  function LastByHash(txs: seq<Tx>): (m: map<string, Tx>)
    ensures m.Keys == Hashes(txs)
    ensures forall h :: h in m ==> m[h] in txs && m[h].hash == h
  {
    if txs == [] then map[]
    else LastByHash(txs[..|txs| - 1])[txs[|txs| - 1].hash := txs[|txs| - 1]]
  }

  /** A transaction that no later one of the same hash follows is the one that is kept. */
  lemma {:induction false} LastByHashKeepsLast(txs: seq<Tx>, i: nat)
    requires i < |txs| && forall j :: i < j < |txs| ==> txs[j].hash != txs[i].hash
    ensures txs[i].hash in LastByHash(txs) && LastByHash(txs)[txs[i].hash] == txs[i]
  {
    if i < |txs| - 1 {
      LastByHashKeepsLast(txs[..|txs| - 1], i);
    }
  }

  /** "x" is listed, and nothing of the same hash is listed after it. */
  ghost predicate IsLast(txs: seq<Tx>, x: Tx) {
    exists i :: 0 <= i < |txs| && txs[i] == x && forall j :: i < j < |txs| ==> txs[j].hash != x.hash
  }

  lemma {:induction false} IsLastOneMore(init: seq<Tx>, last: Tx, x: Tx)
    ensures IsLast(init + [last], last)
    ensures IsLast(init, x) && last.hash != x.hash ==> IsLast(init + [last], x)
  {
    var txs := init + [last];
    assert txs[|init|] == last;
    if IsLast(init, x) && last.hash != x.hash {
      var i :| 0 <= i < |init| && init[i] == x && forall j :: i < j < |init| ==> init[j].hash != x.hash;
      assert txs[i] == x;
    }
  }

  /** The transaction kept under a hash is the last one listed of that hash. */
  lemma {:induction false} LastByHashExactly(txs: seq<Tx>, h: string)
    requires h in LastByHash(txs)
    ensures IsLast(txs, LastByHash(txs)[h])
  {
    hide IsLast;
    var init, last := txs[..|txs| - 1], txs[|txs| - 1];
    assert txs == init + [last];
    assert LastByHash(txs) == LastByHash(init)[last.hash := last];
    if h == last.hash {
      IsLastOneMore(init, last, last);
    } else {
      LastByHashExactly(init, h);
      IsLastOneMore(init, last, LastByHash(init)[h]);
    }
  }

  /** Terms (a), (b) and (c): the block's own transactions, without what took effect in the previous block. */
  ghost function KeptByHash(self: nat, previous: Block, current: Block): map<string, Tx>
    requires AcyclicBelowAll(self, ScheduledTransactions(previous), AllTransactions(current))
  {
    var own := LastByHash(AllTransactions(current));
    if HasScheduled(previous) then
      own - Hashes(AllTransactions(previous))
          - Hashes(ImmediateResults(self, ScheduledTransactions(previous), AllTransactions(current)))
    else own
  }

  /** With term (d): what the next block lists, but takes effect here. */
  ghost function EffectiveByHash(self: nat, previous: Block, current: Block, next: Block): map<string, Tx>
    requires Searchable(self, previous, current, next)
  {
    var kept := KeptByHash(self, previous, current);
    if HasScheduled(current) then
      kept + LastByHash(ImmediateResults(self, ScheduledTransactions(current), AllTransactions(next)))
    else kept
  }

  lemma {:induction false} NoneAheadWithoutScheduled(self: nat, block: Block, next: Block)
    requires !HasScheduled(block)
    ensures ExecutedAhead(self, block, next) == {}
  {
  }

  /** The map computed term by term holds exactly the effective hashes, under each of them the last transaction
      that was written: of the results taken ahead where the hash is among them, else of the block's own. */
  lemma {:induction false} EffectiveByHashRefines(self: nat, previous: Block, current: Block, next: Block)
    requires Searchable(self, previous, current, next)
    ensures EffectiveByHash(self, previous, current, next).Keys == EffectiveHashes(self, previous, current, next)
    ensures var byHash := EffectiveByHash(self, previous, current, next);
      forall h :: h in byHash ==>
        && byHash[h].hash == h
        && IsLast(if h in ExecutedAhead(self, current, next) then
                    ImmediateResults(self, ScheduledTransactions(current), AllTransactions(next))
                  else AllTransactions(current), byHash[h])
  {
    hide AcyclicBelow, ImmediateResults, ImmediateHashes, AllTransactions, ScheduledTransactions, LastByHash, Hashes,
         IsLast;
    ImmediateResultsExactly(self, ScheduledTransactions(previous), AllTransactions(current));
    ImmediateResultsExactly(self, ScheduledTransactions(current), AllTransactions(next));
    if !HasScheduled(current) {
      NoneAheadWithoutScheduled(self, current, next);
    }
    var own := AllTransactions(current);
    var ahead := ImmediateResults(self, ScheduledTransactions(current), AllTransactions(next));
    forall h | h in LastByHash(own) ensures IsLast(own, LastByHash(own)[h]) {
      LastByHashExactly(own, h);
    }
    forall h | h in LastByHash(ahead) ensures IsLast(ahead, LastByHash(ahead)[h]) {
      LastByHashExactly(ahead, h);
    }
  }

  /** Transactions listed under one hash are one and the same. */
  ghost predicate SameHashSameTx(txs: seq<Tx>) {
    forall x, y :: x in txs && y in txs && x.hash == y.hash ==> x == y
  }

  /** Where nothing is scheduled the early return lists the effective hashes, and the same transactions as the
      general path if and only if no hash is listed with different contents. */
  lemma {:induction false} EarlyReturnAgrees(self: nat, previous: Block, current: Block, next: Block)
    requires !HasScheduled(previous) && !HasScheduled(current)
    ensures Hashes(AllTransactions(current)) == EffectiveHashes(self, previous, current, next)
    ensures (set tx | tx in AllTransactions(current)) == EffectiveByHash(self, previous, current, next).Values
            <==> SameHashSameTx(AllTransactions(current))
  {
    NoneAheadWithoutScheduled(self, current, next);
    var txs := AllTransactions(current);
    var byHash, all := LastByHash(txs), set tx | tx in txs;
    assert EffectiveByHash(self, previous, current, next) == byHash;
    if SameHashSameTx(txs) {
      forall tx | tx in txs ensures tx in byHash.Values {
        assert tx.hash in byHash && byHash[tx.hash] in txs;
      }
    }
    if all == byHash.Values {
      forall x | x in txs ensures byHash[x.hash] == x {
        assert x in all;
        var h :| h in byHash && byHash[h] == x;
      }
    }
  }

  /** A relayed transaction and its invalid form share a hash. Both are returned early; the general path keeps one. */
  lemma {:induction false} EarlyReturnKeepsInvalidPair(
      self: nat, previous: Block, current: Block, next: Block, relayed: Tx, invalid: Tx)
    requires !HasScheduled(previous) && !HasScheduled(current)
    requires AllTransactions(current) == [relayed, invalid]
    requires relayed.kind == Normal && invalid.kind == Invalid && relayed.hash == invalid.hash
    ensures EffectiveByHash(self, previous, current, next).Values == {invalid}
    ensures (set tx | tx in AllTransactions(current)) == {relayed, invalid} != {invalid}
  {
    var txs := AllTransactions(current);
    var byHash := LastByHash(txs);
    LastByHashKeepsLast(txs, 1);
    assert EffectiveByHash(self, previous, current, next) == byHash;
    assert txs[0] == relayed && txs[1] == invalid;
    assert byHash.Keys == {invalid.hash} && byHash[invalid.hash] == invalid;
    assert relayed in (set tx | tx in txs) && invalid in (set tx | tx in txs);
    assert relayed !in {invalid};
  }
}
