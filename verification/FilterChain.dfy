/**
  A filter bufferevent and the chain of bufferevents underneath it: how giving
  up references cascades down the chain (bufferevent.c, with the filter's own
  `destruct`), and how a lock is shared along it.
 */
module FilterChain {
  import opened Wrappers

  /**
    One bufferevent of a chain. `destroyed` counts destructions and
    `closeOnFree` is BEV_OPT_CLOSE_ON_FREE.
   */
  datatype Node = Node(refcnt: int, destroyed: nat, closeOnFree: bool, lock: Option<nat>, ownLock: bool)

  // ----- the operations; a chain is listed from the top bufferevent down

  /**
    `be_filter_destruct` on the chain underneath: with BEV_OPT_CLOSE_ON_FREE it frees
    the underlying, given two references.
   */
  function Destruct(closeOnFree: bool, under: seq<Node>): (r: seq<Node>)
    ensures |r| == |under|
  {
    if closeOnFree && under != [] && under[0].refcnt >= 2 then
      [under[0].(refcnt := under[0].refcnt - 1)] + under[1..]
    else under
  }

  /** `_bufferevent_decref_and_unlock` on the top of a chain. */
  function Decref(nodes: seq<Node>): (r: seq<Node>)
    requires nodes != []
    ensures |r| == |nodes|
    decreases |nodes|
  {
    var top := nodes[0];
    if top.refcnt - 1 != 0 then [top.(refcnt := top.refcnt - 1)] + nodes[1..]
    else
      var under := Destruct(top.closeOnFree, nodes[1..]);
      [top.(refcnt := 0, destroyed := top.destroyed + 1)] + if under == [] then [] else Decref(under)
  }

  /** `bufferevent_enable_locking` on the top of a chain; `alloc` is what the lock allocator returns. */
  function EnableLocking(nodes: seq<Node>, lock: Option<nat>, alloc: Option<nat>): (r: (int, seq<Node>))
    requires nodes != []
    ensures |r.1| == |nodes|
    decreases |nodes|
  {
    if nodes[0].lock.Some? then (-1, nodes)
    else
      var adopts := lock.None? && |nodes| > 1 && nodes[1].lock.Some?;
      var chosen := if adopts then nodes[1].lock else if lock.None? then alloc else lock;
      if chosen.None? then (-1, nodes)
      else
        var under :=
          if |nodes| > 1 && nodes[1].lock.None? then EnableLocking(nodes[1..], chosen, alloc).1 else nodes[1..];
        (0, [nodes[0].(lock := chosen, ownLock := lock.None? && !adopts)] + under)
  }

  // ----- destruction cascades exactly as far as references run out

  /**
    The references node i loses if everything above it is destroyed: `first` for
    the top; below, one, or two when the node above closes it on free and it has two.
   */
  function Taken(nodes: seq<Node>, first: int, i: nat): int
    requires i < |nodes|
  {
    if i == 0 then first else if nodes[i - 1].closeOnFree && nodes[i].refcnt >= 2 then 2 else 1
  }

  ghost predicate Referenced(nodes: seq<Node>) {
    forall i :: 0 <= i < |nodes| ==> nodes[i].refcnt > 0
  }

  lemma DestructKeepsReferenced(closeOnFree: bool, nodes: seq<Node>)
    requires nodes != [] && Referenced(nodes)
    ensures Referenced(Destruct(closeOnFree, nodes[1..]))
  {
  }

  /** The first m nodes lose their last reference. */
  ghost predicate RunsOut(nodes: seq<Node>, first: int, m: nat)
    requires m <= |nodes|
  {
    forall i :: 0 <= i < m ==> nodes[i].refcnt == Taken(nodes, first, i)
  }

  /**
    Exactly the first m nodes are destroyed, each once; node m loses references and
    survives; the rest is untouched.
   */
  ghost predicate DestroyedUpTo(nodes: seq<Node>, r: seq<Node>, first: int, m: nat)
    requires |r| == |nodes| && m <= |nodes|
  {
    && (forall i :: 0 <= i < m ==> r[i] == nodes[i].(refcnt := 0, destroyed := nodes[i].destroyed + 1))
    && (m < |nodes| ==>
          && r[m] == nodes[m].(refcnt := nodes[m].refcnt - Taken(nodes, first, m))
          && r[m].refcnt > 0)
    && (forall i :: m < i < |nodes| ==> r[i] == nodes[i])
  }

  /** The chain when the top has already lost all but one of the references it is to lose. */
  function Start(nodes: seq<Node>, first: int): (r: seq<Node>)
    requires nodes != []
    ensures |r| == |nodes|
  {
    [nodes[0].(refcnt := nodes[0].refcnt - first + 1)] + nodes[1..]
  }

  lemma DestructIsStart(closeOnFree: bool, under: seq<Node>)
    requires under != []
    ensures Destruct(closeOnFree, under) == Start(under, if closeOnFree && under[0].refcnt >= 2 then 2 else 1)
  {
  }

  lemma TopSurvives(nodes: seq<Node>, first: int)
    requires nodes != [] && nodes[0].refcnt > first
    ensures RunsOut(nodes, first, 0) && !RunsOut(nodes, first, 1)
    ensures DestroyedUpTo(nodes, Decref(Start(nodes, first)), first, 0)
  {
    assert nodes[0].refcnt != Taken(nodes, first, 0);
  }

  lemma TopDestroyed(nodes: seq<Node>, first: int)
    requires nodes != [] && nodes[0].refcnt == first
    ensures var rest, top := nodes[1..], nodes[0];
            Decref(Start(nodes, first)) ==
              [Gone(top)] + if rest == [] then [] else Decref(Start(rest, Taken(nodes, first, 1)))
  {
    hide Decref, Destruct;
    assert Start(nodes, first)[1..] == nodes[1..];
    DecrefUnfolds(Start(nodes, first));
    if |nodes| > 1 {
      DestructIsStart(nodes[0].closeOnFree, nodes[1..]);
    }
  }

  lemma TakenBelow(nodes: seq<Node>, first: int, i: nat)
    requires i + 1 < |nodes|
    ensures Taken(nodes[1..], Taken(nodes, first, 1), i) == Taken(nodes, first, i + 1)
  {
  }

  lemma NextIsHeld(nodes: seq<Node>, first: int)
    requires |nodes| > 1 && Referenced(nodes)
    ensures Referenced(nodes[1..]) && 1 <= Taken(nodes, first, 1) <= nodes[1].refcnt
  {
  }

  lemma {:induction false} Cascades(nodes: seq<Node>, first: int) returns (m: nat)
    requires nodes != [] && Referenced(nodes)
    requires 1 <= first <= nodes[0].refcnt
    ensures m <= |nodes| && RunsOut(nodes, first, m) && (m < |nodes| ==> !RunsOut(nodes, first, m + 1))
    ensures DestroyedUpTo(nodes, Decref(Start(nodes, first)), first, m)
    decreases |nodes|
  {
    hide *;
    if nodes[0].refcnt != first {
      m := 0;
      TopSurvives(nodes, first);
    } else {
      TopDestroyed(nodes, first);
      var rest := nodes[1..];
      if rest == [] {
        m := 1;
        OnlyNodeDestroyed(nodes, first);
      } else {
        NextIsHeld(nodes, first);
        var next := Taken(nodes, first, 1);
        var k := Cascades(rest, next);
        m := k + 1;
        RunsOutBelow(nodes, first, k);
        if k < |rest| {
          RunsOutBelow(nodes, first, k + 1);
        }
        DestroyedBelow(nodes, Decref(Start(rest, next)), first, k);
      }
    }
  }

  function Gone(node: Node): Node {
    node.(refcnt := 0, destroyed := node.destroyed + 1)
  }

  lemma OnlyNodeDestroyed(nodes: seq<Node>, first: int)
    requires |nodes| == 1 && nodes[0].refcnt == first
    ensures RunsOut(nodes, first, 1) && DestroyedUpTo(nodes, [Gone(nodes[0])] + [], first, 1)
  {
  }

  /** What holds of the rest of the chain, seen from the whole chain. */
  lemma RunsOutBelow(nodes: seq<Node>, first: int, k: nat)
    requires |nodes| > 1 && k < |nodes| && nodes[0].refcnt == first
    ensures RunsOut(nodes, first, k + 1) <==> RunsOut(nodes[1..], Taken(nodes, first, 1), k)
  {
    hide Taken;
    var rest, next := nodes[1..], Taken(nodes, first, 1);
    TopTaken(nodes, first);
    forall i | 0 <= i < |rest| ensures Taken(rest, next, i) == Taken(nodes, first, i + 1) && rest[i] == nodes[i + 1] {
      TakenBelow(nodes, first, i);
    }
    if RunsOut(nodes, first, k + 1) {
      forall i | 0 <= i < k ensures rest[i].refcnt == Taken(rest, next, i) {
        assert nodes[i + 1].refcnt == Taken(nodes, first, i + 1);
      }
    }
    if RunsOut(rest, next, k) {
      forall i | 0 <= i < k + 1 ensures nodes[i].refcnt == Taken(nodes, first, i) {
        if i > 0 {
          assert rest[i - 1].refcnt == Taken(rest, next, i - 1);
        }
      }
    }
  }

  lemma TopTaken(nodes: seq<Node>, first: int)
    requires nodes != []
    ensures Taken(nodes, first, 0) == first
  {
  }

  lemma DestroyedBelow(nodes: seq<Node>, below: seq<Node>, first: int, k: nat)
    requires |nodes| == |below| + 1 > 1 && k <= |below|
    requires DestroyedUpTo(nodes[1..], below, Taken(nodes, first, 1), k)
    ensures DestroyedUpTo(nodes, [Gone(nodes[0])] + below, first, k + 1)
  {
    hide Taken;
    var rest, r := nodes[1..], [Gone(nodes[0])] + below;
    if k < |rest| {
      TakenBelow(nodes, first, k);
    }
    forall i | 1 <= i < |nodes| ensures nodes[i] == rest[i - 1] && r[i] == below[i - 1] {
    }
  }

  /**
    Whatever the counts in the chain: the call destroys the longest run of
    nodes from the top whose references run out, each exactly once, and the
    node below keeps the references it has left.
   */
  lemma DecrefCascades(nodes: seq<Node>) returns (m: nat)
    requires nodes != [] && Referenced(nodes)
    ensures m <= |nodes| && RunsOut(nodes, 1, m) && (m < |nodes| ==> !RunsOut(nodes, 1, m + 1))
    ensures DestroyedUpTo(nodes, Decref(nodes), 1, m)
  {
    m := Cascades(nodes, 1);
    assert Start(nodes, 1) == nodes;
  }

  lemma DecrefUnfolds(nodes: seq<Node>)
    requires nodes != []
    ensures var top, rest := nodes[0], nodes[1..];
            if top.refcnt != 1 then Decref(nodes) == [top.(refcnt := top.refcnt - 1)] + rest
            else Decref(nodes) == [top.(refcnt := 0, destroyed := top.destroyed + 1)]
                   + if rest == [] then [] else Decref(Destruct(top.closeOnFree, rest))
  {
  }

  // ----- one lock along the chain

  ghost predicate Unlocked(nodes: seq<Node>) {
    forall i :: 0 <= i < |nodes| ==> nodes[i].lock.None?
  }

  ghost predicate ShareLock(nodes: seq<Node>, lock: nat) {
    forall i :: 0 <= i < |nodes| ==> nodes[i].lock == Some(lock)
  }

  /** No bufferevent but the top one owns its lock. */
  ghost predicate OnlyTopOwns(nodes: seq<Node>)
    requires nodes != []
  {
    nodes[0].ownLock && forall i :: 1 <= i < |nodes| ==> !nodes[i].ownLock
  }

  lemma {:induction false} GivenLockSpreads(nodes: seq<Node>, lock: nat, alloc: Option<nat>)
    requires nodes != [] && Unlocked(nodes)
    ensures var r := EnableLocking(nodes, Some(lock), alloc);
            && r.0 == 0 && ShareLock(r.1, lock)
            && (forall i :: 0 <= i < |nodes| ==> r.1[i] == nodes[i].(lock := Some(lock), ownLock := false))
    decreases |nodes|
  {
    if |nodes| > 1 {
      GivenLockSpreads(nodes[1..], lock, alloc);
    }
  }

  /**
    A wholly unlocked chain of any length ends up sharing one lock, owned by the top
    alone, unless there is no lock to be had.
   */
  lemma UnlockedChainShares(nodes: seq<Node>, alloc: Option<nat>)
    requires nodes != [] && Unlocked(nodes)
    ensures var r := EnableLocking(nodes, None, alloc);
            if alloc.Some? then
              && r.0 == 0 && ShareLock(r.1, alloc.value) && OnlyTopOwns(r.1)
              && (forall i :: 0 <= i < |nodes| ==> r.1[i] == nodes[i].(lock := alloc, ownLock := i == 0))
            else r == (-1, nodes)
  {
    if |nodes| > 1 && alloc.Some? {
      GivenLockSpreads(nodes[1..], alloc.value, alloc);
    }
  }

  /** A bufferevent that has a lock is left alone, and so is all below it. */
  lemma LockedIsRefused(nodes: seq<Node>, lock: Option<nat>, alloc: Option<nat>)
    requires nodes != [] && nodes[0].lock.Some?
    ensures EnableLocking(nodes, lock, alloc) == (-1, nodes)
  {
  }

  /** Over a locked underlying, the top adopts its lock without owning it, and nothing else changes. */
  lemma LockedUnderlyingIsAdopted(nodes: seq<Node>, alloc: Option<nat>)
    requires |nodes| > 1 && nodes[0].lock.None? && nodes[1].lock.Some?
    ensures EnableLocking(nodes, None, alloc)
            == (0, [nodes[0].(lock := nodes[1].lock, ownLock := false)] + nodes[1..])
  {
  }

  /** The lock handed down stops at the first bufferevent that has one. */
  lemma {:induction false} GivenLockStops(nodes: seq<Node>, lock: nat, alloc: Option<nat>, k: nat)
    requires 0 < k < |nodes| && Unlocked(nodes[..k]) && nodes[k].lock.Some?
    ensures var r := EnableLocking(nodes, Some(lock), alloc);
            && r.0 == 0
            && (forall i :: 0 <= i < k ==> r.1[i] == nodes[i].(lock := Some(lock), ownLock := false))
            && r.1[k..] == nodes[k..]
    decreases |nodes|
  {
    assert nodes[0] == nodes[..k][0];
    if k > 1 {
      assert nodes[1] == nodes[..k][1] && nodes[1..][..k - 1] == nodes[..k][1..];
      GivenLockStops(nodes[1..], lock, alloc, k - 1);
    }
  }

  lemma ConsSharesLock(top: Node, rest: seq<Node>, lock: nat)
    ensures ShareLock([top] + rest, lock) <==> top.lock == Some(lock) && ShareLock(rest, lock)
  {
    if ShareLock([top] + rest, lock) {
      assert ([top] + rest)[0] == top;
      forall i | 0 <= i < |rest| ensures rest[i].lock == Some(lock) {
        assert ([top] + rest)[i + 1] == rest[i];
      }
    }
  }

  ghost predicate OneLock(nodes: seq<Node>) {
    exists lock: nat :: ShareLock(nodes, lock)
  }

  /**
    When it succeeds on a chain whose top is unlocked, the whole chain shares
    one lock exactly when everything below the top is unlocked, or everything
    below the top already shares one lock.
   */
  lemma SharesOneLockExactlyWhen(nodes: seq<Node>, alloc: nat)
    requires nodes != [] && nodes[0].lock.None?
    requires forall i :: 0 <= i < |nodes| ==> nodes[i].lock != Some(alloc)
    ensures OneLock(EnableLocking(nodes, None, Some(alloc)).1) <==> Unlocked(nodes[1..]) || OneLock(nodes[1..])
  {
    var r, rest := EnableLocking(nodes, None, Some(alloc)), nodes[1..];
    if Unlocked(rest) {
      assert forall i :: 0 < i < |nodes| ==> nodes[i] == rest[i - 1];
      UnlockedChainShares(nodes, Some(alloc));
    } else if nodes[1].lock.Some? {
      var top := nodes[0].(lock := nodes[1].lock, ownLock := false);
      assert r.1 == [top] + rest && rest[0] == nodes[1];
      forall lock: nat ensures ShareLock(r.1, lock) <==> ShareLock(rest, lock) {
        ConsSharesLock(top, rest, lock);
      }
    } else {
      var k := FirstLocked(rest);
      GivenLockStops(rest, alloc, Some(alloc), k);
      assert r.1[1].lock == Some(alloc) && r.1[k + 1] == nodes[k + 1];
      assert rest[0].lock.None?;
    }
  }

  lemma FirstLocked(nodes: seq<Node>) returns (k: nat)
    requires !Unlocked(nodes)
    ensures k < |nodes| && nodes[k].lock.Some? && Unlocked(nodes[..k])
  {
    k := 0;
    while nodes[k].lock.None?
      invariant k < |nodes| && Unlocked(nodes[..k])
      decreases |nodes| - k
    {
      k := k + 1;
    }
  }

  /** Two unlocked bufferevents over a locked one: the chain is left with two locks. */
  lemma TwoLocksWitness(locked: Node)
    requires locked.lock == Some(5)
    ensures var plain := Node(1, 0, false, None, false);
            EnableLocking([plain, plain, locked], None, Some(7)).1
            == [plain.(lock := Some(7), ownLock := true), plain.(lock := Some(7)), locked]
  {
    var plain := Node(1, 0, false, None, false);
    var nodes := [plain, plain, locked];
    assert nodes[1..] == [plain, locked] && nodes[1..][1..] == [locked];
    assert EnableLocking([plain, locked], Some(7), Some(7)).1 == [plain.(lock := Some(7))] + [locked];
  }

  // ----- the code

  class FilterBev {
    var refcnt: int
    var destroyed: nat
    const closeOnFree: bool
    const underlying: FilterBev?
    var lock: Option<nat>
    var ownLock: bool

    constructor (underlying: FilterBev?, closeOnFree: bool)
      ensures View() == Node(1, 0, closeOnFree, None, false) && this.underlying == underlying
    {
      refcnt, destroyed, lock, ownLock := 1, 0, None, false;
      this.underlying := underlying;
      this.closeOnFree := closeOnFree;
    }

    ghost function View(): Node
      reads this
    {
      Node(refcnt, destroyed, closeOnFree, lock, ownLock)
    }

    /** `be_filter_destruct`, as far as references go. */
    method DestructUnderlying(ghost chain: seq<FilterBev>)
      requires IsChain(chain) && chain[0] == this
      modifies chain[1..]
      ensures Views(chain[1..]) == Destruct(closeOnFree, old(Views(chain[1..])))
    {
      if underlying != null && closeOnFree && underlying.refcnt >= 2 {
        underlying.refcnt := underlying.refcnt - 1;
      }
    }

    /** `bufferevent_decref` on this bufferevent, the top of a chain. */
    method DecrefAndUnlock(ghost chain: seq<FilterBev>) returns (gone: bool)
      requires IsChain(chain) && chain[0] == this
      requires Referenced(Views(chain))
      modifies chain
      ensures Views(chain) == Decref(old(Views(chain)))
      ensures gone <==> refcnt == 0
      decreases |chain|
    {
      hide *;
      ChainStep(chain);
      ghost var was, rest := Views(chain), chain[1..];
      ViewsStep(chain);
      DecrefUnfolds(was);
      DestructKeepsReferenced(closeOnFree, was);
      refcnt := refcnt - 1;
      ViewsStep(chain);
      if refcnt != 0 {
        return false;
      }
      DestructUnderlying(chain);
      destroyed := destroyed + 1;
      if underlying != null {
        var underGone := underlying.DecrefAndUnlock(rest);
      }
      ViewsStep(chain);
      return true;
    }

    /** `bufferevent_enable_locking` */
    method EnableChainLocking(given: Option<nat>, alloc: Option<nat>, ghost chain: seq<FilterBev>) returns (rc: int)
      requires IsChain(chain) && chain[0] == this
      modifies chain
      ensures (rc, Views(chain)) == EnableLocking(old(Views(chain)), given, alloc)
      decreases |chain|
    {
      ghost var was, rest := Views(chain), chain[1..];
      if lock.Some? {
        return -1;
      }
      var l := given;
      if given.None? && underlying != null && underlying.lock.Some? {
        l := underlying.lock;
        lock := l;
        ownLock := false;
      } else if given.None? {
        l := alloc;
        if l.None? {
          return -1;
        }
        lock := l;
        ownLock := true;
      } else {
        lock := l;
        ownLock := false;
      }
      assert Views(rest) == was[1..];
      if underlying != null && underlying.lock.None? {
        var underRc := underlying.EnableChainLocking(l, alloc, rest);
      }
      return 0;
    }
  }

  /** The bufferevents from a top one down, each the underlying of the one before. */
  ghost predicate IsChain(chain: seq<FilterBev>) {
    && chain != []
    && chain[0] !in chain[1..]
    && if |chain| == 1 then chain[0].underlying == null
       else chain[0].underlying == chain[1] && IsChain(chain[1..])
  }

  lemma ChainStep(chain: seq<FilterBev>)
    requires IsChain(chain)
    ensures chain != [] && chain[0] !in chain[1..]
    ensures chain[0].underlying == null <==> chain[1..] == []
    ensures chain[1..] != [] ==> chain[0].underlying == chain[1..][0] && IsChain(chain[1..])
  {
  }

  lemma ViewsStep(chain: seq<FilterBev>)
    requires chain != []
    ensures Views(chain) == [chain[0].View()] + Views(chain[1..])
    ensures var c := chain[0]; c.View() == Node(c.refcnt, c.destroyed, c.closeOnFree, c.lock, c.ownLock)
  {
  }

  ghost function Views(chain: seq<FilterBev>): (nodes: seq<Node>)
    reads chain
    ensures |nodes| == |chain|
  {
    if chain == [] then [] else [chain[0].View()] + Views(chain[1..])
  }
}
