/** The arithmetic of buffer_iocp.c: how a byte count is spread over chains and descriptors. */
module ScatterGather {
  import opened Rc4

  const MAX_WSABUFS: nat := 16

  lemma Sixteen()
    ensures MAX_WSABUFS == 16
  {
  }

  function Min(a: int, b: int): int {
    if a <= b then a else b
  }

  function Sum(ns: seq<nat>): nat {
    if ns == [] then 0 else ns[0] + Sum(ns[1..])
  }

  lemma {:induction false} SumConcat(a: seq<nat>, b: seq<nat>)
    ensures Sum(a + b) == Sum(a) + Sum(b)
  {
    if a == [] {
      assert a + b == b;
    } else {
      assert (a + b)[1..] == a[1..] + b;
      SumConcat(a[1..], b);
    }
  }

  lemma SumPrefix(ns: seq<nat>, k: nat)
    requires k <= |ns|
    ensures Sum(ns[..k]) <= Sum(ns)
  {
    assert ns == ns[..k] + ns[k..];
    SumConcat(ns[..k], ns[k..]);
  }

  function Lengths(datas: seq<seq<byte>>): (lens: seq<nat>)
    ensures |lens| == |datas|
  {
    if datas == [] then [] else [|datas[0]|] + Lengths(datas[1..])
  }

  function Flatten(datas: seq<seq<byte>>): seq<byte> {
    if datas == [] then [] else datas[0] + Flatten(datas[1..])
  }

  // ----- gathering for a write

  /** The descriptor lengths `evbuffer_launch_write` sets up for chains holding `offs` bytes. */
  function Slices(offs: seq<nat>, atMost: nat, room: nat): (lens: seq<nat>)
    ensures |lens| <= room && |lens| <= |offs|
    decreases room
  {
    if room == 0 || offs == [] then []
    else if atMost > offs[0] then [offs[0]] + Slices(offs[1..], atMost - offs[0], room - 1)
    else [atMost]
  }

  lemma SlicesStep(all: seq<nat>, done: seq<nat>, offs: seq<nat>, left: nat, room: nat)
    requires room != 0 && offs != [] && all == done + Slices(offs, left, room)
    ensures if left > offs[0] then all == done + [offs[0]] + Slices(offs[1..], left - offs[0], room - 1)
            else all == done + [left]
  {
  }

  lemma SlicesSome(offs: seq<nat>, left: nat, room: nat)
    requires room != 0 && offs != []
    ensures Slices(offs, left, room) != []
  {
  }

  lemma SlicesEnd(offs: seq<nat>, left: nat, room: nat)
    requires room == 0 || offs == []
    ensures Slices(offs, left, room) == []
  {
  }

  /** The bytes that descriptors of these lengths at the beginnings of the chains describe. */
  function Gather(datas: seq<seq<byte>>, lens: seq<nat>): seq<byte>
    requires |lens| <= |datas|
    requires forall i :: 0 <= i < |lens| ==> lens[i] <= |datas[i]|
  {
    if lens == [] then [] else datas[0][..lens[0]] + Gather(datas[1..], lens[1..])
  }

  lemma {:induction false} FlattenLength(datas: seq<seq<byte>>)
    ensures |Flatten(datas)| == Sum(Lengths(datas))
  {
    if datas != [] {
      FlattenLength(datas[1..]);
    }
  }

  lemma {:induction false} SlicesFit(datas: seq<seq<byte>>, atMost: nat, room: nat)
    ensures var lens := Slices(Lengths(datas), atMost, room);
            forall i :: 0 <= i < |lens| ==> lens[i] <= |datas[i]|
    decreases room
  {
    if room != 0 && datas != [] && atMost > |datas[0]| {
      SlicesFit(datas[1..], atMost - |datas[0]|, room - 1);
    }
  }

  /** How many bytes a write may send: what was asked for, but no more than the first `room` chains hold. */
  function Reach(offs: seq<nat>, atMost: nat, room: nat): nat {
    Min(atMost, Sum(offs[..Min(room, |offs|)]))
  }

  lemma ReachStep(offs: seq<nat>, atMost: nat, room: nat)
    ensures Reach(offs, atMost, room) <= Sum(offs)
    ensures room == 0 || offs == [] ==> Reach(offs, atMost, room) == 0
    ensures room != 0 && offs != [] ==>
              Reach(offs, atMost, room) ==
                if atMost > offs[0] then offs[0] + Reach(offs[1..], atMost - offs[0], room - 1) else atMost
  {
    hide Sum;
    var k := Min(room, |offs|);
    SumPrefix(offs, k);
    if k == 0 {
      SumOfNone(offs);
    } else {
      SumOfSome(offs, k);
    }
  }

  lemma SumOfNone(ns: seq<nat>)
    ensures Sum(ns[..0]) == 0
  {
  }

  lemma SumOfSome(ns: seq<nat>, k: nat)
    requires 0 < k <= |ns|
    ensures Sum(ns[..k]) == ns[0] + Sum(ns[1..][..k - 1])
  {
    assert ns[..k][1..] == ns[1..][..k - 1];
  }

  /** The descriptors, concatenated, are exactly a prefix of the contents, of the length that can be reached. */
  lemma {:induction false} SlicesDescribePrefix(datas: seq<seq<byte>>, atMost: nat, room: nat)
    ensures var lens := Slices(Lengths(datas), atMost, room);
            var reach := Reach(Lengths(datas), atMost, room);
            && (forall i :: 0 <= i < |lens| ==> lens[i] <= |datas[i]|)
            && reach <= |Flatten(datas)|
            && Gather(datas, lens) == Flatten(datas)[..reach]
    decreases room
  {
    hide Reach;
    SlicesFit(datas, atMost, room);
    FlattenLength(datas);
    ReachStep(Lengths(datas), atMost, room);
    if room != 0 && datas != [] {
      var rest, n := datas[1..], |datas[0]|;
      if atMost > n {
        SlicesDescribePrefix(rest, atMost - n, room - 1);
        var reach := Reach(Lengths(rest), atMost - n, room - 1);
        assert (datas[0] + Flatten(rest))[..n + reach] == datas[0] + Flatten(rest)[..reach];
      } else {
        assert Gather(rest, []) == [];
      }
    }
  }

  // ----- filling after a read

  /** The bytes each buffer receives when n bytes arrive. */
  function Received(lens: seq<nat>, n: nat): (r: seq<nat>)
    ensures |r| == |lens|
  {
    if lens == [] then [] else [Min(n, lens[0])] + Received(lens[1..], n - Min(n, lens[0]))
  }

  /** Nothing is lost: as much is received as arrived, up to the room there is. */
  lemma {:induction false} ReceivedConserves(lens: seq<nat>, n: nat)
    ensures Sum(Received(lens, n)) == Min(n, Sum(lens))
  {
    if lens != [] {
      ReceivedConserves(lens[1..], n - Min(n, lens[0]));
    }
  }

  /** Buffers are filled strictly in order: a buffer receives something only when all before it are full. */
  lemma {:induction false} ReceivedInOrder(lens: seq<nat>, n: nat, i: nat, j: nat)
    requires i < j < |lens| && Received(lens, n)[j] > 0
    ensures Received(lens, n)[i] == lens[i]
  {
    var left := n - Min(n, lens[0]);
    if i == 0 {
      if left == 0 { NothingLeft(lens[1..], j - 1); }
    } else {
      ReceivedInOrder(lens[1..], left, i - 1, j - 1);
    }
  }

  lemma {:induction false} NothingLeft(lens: seq<nat>, j: nat)
    requires j < |lens|
    ensures Received(lens, 0)[j] == 0
  {
    if j != 0 {
      NothingLeft(lens[1..], j - 1);
    }
  }

  lemma {:induction false} ReceivedAtMost(lens: seq<nat>, n: nat, i: nat)
    requires i < |lens|
    ensures Received(lens, n)[i] <= lens[i]
  {
    if i != 0 {
      ReceivedAtMost(lens[1..], n - Min(n, lens[0]), i - 1);
    }
  }

  /** The number of buffers the filling loop visits: up to the one that takes the last byte. */
  function Visited(lens: seq<nat>, n: nat): (k: nat)
    ensures k <= |lens|
  {
    if lens == [] || n == 0 then 0 else 1 + Visited(lens[1..], n - Min(n, lens[0]))
  }

  /** When everything fits, the last buffer visited is the last one that receives data. */
  lemma {:induction false} LastVisitedReceives(lens: seq<nat>, n: nat)
    requires 0 < n <= Sum(lens)
    ensures var k := Visited(lens, n);
            && 0 < k && Received(lens, n)[k - 1] > 0
            && forall j :: k <= j < |lens| ==> Received(lens, n)[j] == 0
  {
    var left := n - Min(n, lens[0]);
    if left == 0 {
      forall j | 1 <= j < |lens| ensures Received(lens, n)[j] == 0 {
        NothingLeft(lens[1..], j - 1);
      }
    } else {
      LastVisitedReceives(lens[1..], left);
      assert forall j :: 1 <= j < |lens| ==> Received(lens, n)[j] == Received(lens[1..], left)[j - 1];
    }
  }

  // ----- describing room for a read

  /**
    The descriptor lengths `_evbuffer_read_setup_vecs` sets up over chains with this
    much space, not exceeding `howMuch`.
   */
  function Vecs(spaces: seq<nat>, howMuch: nat, room: nat): (lens: seq<nat>)
    ensures |lens| <= room && |lens| <= |spaces|
    decreases room
  {
    if room == 0 || howMuch == 0 || spaces == [] then []
    else [Min(spaces[0], howMuch)] + Vecs(spaces[1..], howMuch - Min(spaces[0], howMuch), room - 1)
  }

  /** The descriptors reach the last chain exactly when the chains before it cannot hold what was asked for. */
  lemma {:induction false} VecsReachLast(spaces: seq<nat>, howMuch: nat, room: nat)
    requires spaces != []
    ensures |Vecs(spaces, howMuch, room)| == |spaces| <==>
              |spaces| <= room && Sum(spaces[..|spaces| - 1]) < howMuch
    decreases room
  {
    if room != 0 && howMuch != 0 {
      var rest, left := spaces[1..], howMuch - Min(spaces[0], howMuch);
      if rest == [] {
        assert spaces[..0] == [];
      } else {
        assert spaces[..|spaces| - 1] == [spaces[0]] + rest[..|rest| - 1];
        VecsReachLast(rest, left, room - 1);
      }
    }
  }

  /** When there is room, the descriptors offer exactly what was asked for. */
  lemma {:induction false} VecsOfferAll(spaces: seq<nat>, howMuch: nat, room: nat)
    requires howMuch <= Sum(spaces[..Min(room, |spaces|)])
    ensures Sum(Vecs(spaces, howMuch, room)) == howMuch
    decreases room
  {
    if room == 0 || spaces == [] {
      assert spaces[..Min(room, |spaces|)] == [];
    } else if howMuch != 0 {
      assert spaces[..Min(room, |spaces|)] == [spaces[0]] + spaces[1..][..Min(room - 1, |spaces| - 1)];
      VecsOfferAll(spaces[1..], howMuch - Min(spaces[0], howMuch), room - 1);
    }
  }

  /** The set-up loop has described the chains with these spaces so far. */
  ghost predicate Describing(spaces: seq<nat>, howMuch: nat, done: seq<nat>, soFar: nat) {
    var n := |done|;
    && n <= MAX_WSABUFS && n <= |spaces|
    && soFar == Min(Sum(spaces[..n]), howMuch)
    && Vecs(spaces, howMuch, MAX_WSABUFS) == done + Vecs(spaces[n..], howMuch - soFar, MAX_WSABUFS - n)
  }

  lemma DescribingStarts(spaces: seq<nat>, howMuch: nat)
    ensures Describing(spaces, howMuch, [], 0)
  {
    assert spaces[0..] == spaces && spaces[..0] == [];
  }

  lemma DescribingGoesOn(spaces: seq<nat>, howMuch: nat, done: seq<nat>, soFar: nat)
    requires Describing(spaces, howMuch, done, soFar) && |done| < MAX_WSABUFS && soFar < howMuch
    requires Enough(spaces, howMuch)
    ensures |done| < |spaces| && Sum(spaces[..|done|]) == soFar
  {
    hide Vecs, Sum;
    assert spaces[..|spaces|] == spaces;
  }

  lemma VecsStep(spaces: seq<nat>, howMuch: nat, room: nat)
    requires room > 0 && howMuch > 0 && spaces != []
    ensures var len := if spaces[0] > howMuch then howMuch else spaces[0];
            Vecs(spaces, howMuch, room) == [len] + Vecs(spaces[1..], howMuch - len, room - 1)
  {
  }

  lemma DescribingStep(spaces: seq<nat>, howMuch: nat, done: seq<nat>, soFar: nat)
    requires Describing(spaces, howMuch, done, soFar) && |done| < MAX_WSABUFS && soFar < howMuch
    requires |done| < |spaces| && Sum(spaces[..|done|]) == soFar
    ensures var avail := spaces[|done|];
            var len := if avail > howMuch - soFar then howMuch - soFar else avail;
            Describing(spaces, howMuch, done + [len], soFar + len)
  {
    hide Vecs;
    var n := |done|;
    assert spaces[..n + 1] == spaces[..n] + [spaces[n]];
    SumConcat(spaces[..n], [spaces[n]]);
    VecsStep(spaces[n..], howMuch - soFar, MAX_WSABUFS - n);
    assert spaces[n..][1..] == spaces[n + 1..];
  }

  lemma DescribingEnds(spaces: seq<nat>, howMuch: nat, done: seq<nat>, soFar: nat)
    requires Describing(spaces, howMuch, done, soFar) && (|done| == MAX_WSABUFS || soFar >= howMuch)
    ensures done == Vecs(spaces, howMuch, MAX_WSABUFS)
  {
  }

  // ----- draining

  /** The number of chains a drain of n bytes takes off the front. */
  function Dropped(offs: seq<nat>, n: nat): (k: nat)
    ensures k <= |offs|
  {
    if offs != [] && n >= offs[0] then 1 + Dropped(offs[1..], n - offs[0]) else 0
  }

  /** The bytes still to be drained from the first chain that stays. */
  function LeftOver(offs: seq<nat>, n: nat): (r: nat)
  {
    if offs != [] && n >= offs[0] then LeftOver(offs[1..], n - offs[0]) else n
  }

  function Drop(s: seq<byte>, n: nat): seq<byte> {
    if n <= |s| then s[n..] else []
  }

  lemma DropNothing(n: nat)
    ensures Drop([], n) == []
  {
  }

  /** Dropping those chains and cutting the left-over bytes off the next one drains exactly the first n bytes. */
  lemma {:induction false} DrainTakesPrefix(datas: seq<seq<byte>>, n: nat)
    ensures var k, r := Dropped(Lengths(datas), n), LeftOver(Lengths(datas), n);
            if k == |datas| then Drop(Flatten(datas), n) == []
            else r <= |datas[k]| && Drop(Flatten(datas), n) == Flatten([datas[k][r..]] + datas[k + 1..])
  {
    if datas != [] {
      var rest, m := datas[1..], |datas[0]|;
      if n >= m {
        DrainTakesPrefix(rest, n - m);
        assert Drop(Flatten(datas), n) == Drop(Flatten(rest), n - m);
        var k := Dropped(Lengths(rest), n - m);
        if k < |rest| {
          assert rest[k + 1..] == datas[k + 2..];
        }
      } else {
        assert Drop(Flatten(datas), n) == datas[0][n..] + Flatten(rest);
        assert ([datas[0][n..]] + rest)[1..] == rest;
      }
    }
  }

  lemma DroppedStep(offs: seq<nat>, n: nat)
    requires offs != []
    ensures Dropped(offs, n) == if n >= offs[0] then 1 + Dropped(offs[1..], n - offs[0]) else 0
    ensures LeftOver(offs, n) == if n >= offs[0] then LeftOver(offs[1..], n - offs[0]) else n
  {
  }

  lemma {:induction false} DropAll(offs: seq<nat>, n: nat)
    requires n >= Sum(offs)
    ensures Dropped(offs, n) == |offs|
  {
    if offs != [] {
      DropAll(offs[1..], n - offs[0]);
    }
  }

  /** One chain of a drain that does not take everything. */
  lemma {:induction false} DroppedStops(offs: seq<nat>, n: nat)
    requires n < Sum(offs)
    ensures var k, r := Dropped(offs, n), LeftOver(offs, n);
            k < |offs| && r < offs[k] && n == Sum(offs[..k]) + r
  {
    if n >= offs[0] {
      DroppedStops(offs[1..], n - offs[0]);
      var k := Dropped(offs[1..], n - offs[0]);
      assert offs[..k + 1] == [offs[0]] + offs[1..][..k];
    }
  }

  /** The index of the last chain with data, or 0 if there is none. */
  function LastWithData(offs: seq<nat>): (k: nat)
    ensures offs != [] ==> k < |offs|
  {
    if offs == [] || Sum(offs[1..]) == 0 then 0 else 1 + LastWithData(offs[1..])
  }

  lemma {:induction false} LastWithDataOfSuffix(offs: seq<nat>, k: nat)
    requires k < |offs| && Sum(offs[k..]) > 0
    ensures LastWithData(offs) == k + LastWithData(offs[k..])
  {
    if k != 0 {
      LastWithDataOfSuffix(offs[1..], k - 1);
      assert offs[1..][k - 1..] == offs[k..];
      assert offs[1..] == offs[1..k] + offs[k..];
      SumConcat(offs[1..k], offs[k..]);
    }
  }

  /** After a drain that leaves something: the lengths add up again, and the last chain with data is still the last. */
  lemma SumAfterDrain(offs: seq<nat>, n: nat)
    requires n < Sum(offs)
    ensures var k, r := Dropped(offs, n), LeftOver(offs, n);
            && k < |offs| && r < offs[k]
            && var after := [offs[k] - r] + offs[k + 1..];
               Sum(after) == Sum(offs) - n && k + LastWithData(after) == LastWithData(offs)
  {
    hide Dropped, LeftOver, LastWithData;
    DroppedStops(offs, n);
    var k, r := Dropped(offs, n), LeftOver(offs, n);
    var after: seq<nat> := [offs[k] - r] + offs[k + 1..];
    assert offs == offs[..k] + offs[k..];
    SumConcat(offs[..k], offs[k..]);
    assert after[1..] == offs[k + 1..] && offs[k..][1..] == offs[k + 1..];
    LastWithDataOfSuffix(offs, k);
    LastWithDataOfTail(after, offs[k..]);
  }

  /** The first entry does not matter. */
  lemma LastWithDataOfTail(a: seq<nat>, b: seq<nat>)
    requires a != [] && b != [] && a[1..] == b[1..]
    ensures LastWithData(a) == LastWithData(b)
  {
  }

  // ----- draining up to a chain that is pinned for reading

  /**
    Where a drain of n bytes stops: k chains are taken off and `left` bytes are
    cut off the next one. When everything goes, that is the first chain pinned
    for reading, number f.
   */
  ghost predicate Stops(offs: seq<nat>, n: nat, f: nat, k: nat, left: nat) {
    if n < Sum(offs) then k == Dropped(offs, n) && left == LeftOver(offs, n)
    else n == Sum(offs) && k == f < |offs| && left == offs[f] && LastWithData(offs) <= f
  }

  /** The loop has taken k chains off, and `left` bytes are still to go. */
  ghost predicate Draining(offs: seq<nat>, n: nat, f: nat, k: nat, left: nat) {
    && LastWithData(offs) <= f && n <= Sum(offs) && (n == Sum(offs) ==> f < |offs|)
    && k <= f && k < |offs| && n == Sum(offs[..k]) + left
    && Dropped(offs, n) == k + Dropped(offs[k..], left) && LeftOver(offs, n) == LeftOver(offs[k..], left)
  }

  lemma DrainingStarts(offs: seq<nat>, n: nat, f: nat)
    requires offs != [] && LastWithData(offs) <= f && n <= Sum(offs) && (n == Sum(offs) ==> f < |offs|)
    ensures Draining(offs, n, f, 0, n)
  {
    hide Dropped, LeftOver, LastWithData;
    assert offs[0..] == offs && offs[..0] == [];
  }

  /** What the chains from number k on hold, and that one alone if no data follows it. */
  lemma SumFrom(offs: seq<nat>, k: nat)
    requires k < |offs|
    ensures Sum(offs) == Sum(offs[..k]) + Sum(offs[k..]) && Sum(offs[k..]) >= offs[k]
    ensures Sum(offs[..k + 1]) == Sum(offs[..k]) + offs[k]
    ensures LastWithData(offs) <= k ==> Sum(offs[k..]) == offs[k]
  {
    hide *;
    SumConcat(offs[..k], offs[k..]);
    assert offs == offs[..k] + offs[k..];
    SumConcat(offs[..k], [offs[k]]);
    assert offs[..k + 1] == offs[..k] + [offs[k]];
    SumOfOne(offs[k]);
    SumFirst(offs[k..]);
    if LastWithData(offs) <= k {
      forall j | k < j < |offs| ensures offs[j] == 0 {
        ZeroAfterLast(offs, j);
      }
      SumOfZeroes(offs[k..][1..]);
    }
  }

  lemma SumOfOne(n: nat)
    ensures Sum([n]) == n
  {
  }

  lemma SumFirst(ns: seq<nat>)
    requires ns != []
    ensures Sum(ns) == ns[0] + Sum(ns[1..])
  {
  }

  lemma DrainingStep(offs: seq<nat>, n: nat, f: nat, k: nat, left: nat)
    requires Draining(offs, n, f, k, left) && k != f && left >= offs[k]
    ensures Draining(offs, n, f, k + 1, left - offs[k])
  {
    hide Dropped, LeftOver, LastWithData, Sum;
    SumFrom(offs, k);
    DroppedStep(offs[k..], left);
    assert offs[k..][1..] == offs[k + 1..];
    assert offs[..|offs|] == offs;
  }

  lemma DrainingIsBefore(offs: seq<nat>, n: nat, f: nat, k: nat, left: nat)
    requires Draining(offs, n, f, k, left)
    ensures k <= f && k < |offs|
  {
  }

  lemma DrainingEnds(offs: seq<nat>, n: nat, f: nat, k: nat, left: nat)
    requires Draining(offs, n, f, k, left) && left < offs[k]
    ensures Stops(offs, n, f, k, left)
  {
    hide Dropped, LeftOver, LastWithData, Sum;
    SumFrom(offs, k);
    DroppedStep(offs[k..], left);
  }

  lemma DrainingMeetsPin(offs: seq<nat>, n: nat, f: nat, left: nat)
    requires Draining(offs, n, f, f, left) && left >= offs[f]
    ensures left == offs[f] && Stops(offs, n, f, f, left)
  {
    hide Dropped, LeftOver, LastWithData, Sum;
    SumFrom(offs, f);
  }

  /** The lengths after such a drain: they add up, and the last chain with data is known. */
  lemma AfterStop(offs: seq<nat>, n: nat, f: nat, k: nat, left: nat)
    requires Stops(offs, n, f, k, left) && LastWithData(offs) <= f
    ensures k < |offs| && k <= f && left <= offs[k]
    ensures var after := [offs[k] - left] + offs[k + 1..];
            && Sum(after) == Sum(offs) - n
            && k + LastWithData(after) == if n < Sum(offs) then LastWithData(offs) else f
    ensures k > LastWithData(offs) <==> n == Sum(offs) && f > LastWithData(offs)
  {
    hide Dropped, LeftOver, LastWithData, Sum;
    if n < Sum(offs) {
      SumAfterDrain(offs, n);
      DroppedStops(offs, n);
    } else {
      SumFrom(offs, f);
      var after: seq<nat> := [0] + offs[f + 1..];
      forall j | 0 <= j < |after| ensures after[j] == 0 {
        if j > 0 { ZeroAfterLast(offs, f + j); }
      }
      SumOfZeroes(after);
      LastWithDataIs(after, 0);
    }
  }

  lemma StopsAt(offs: seq<nat>, n: nat, f: nat, k: nat, left: nat)
    requires Stops(offs, n, f, k, left)
    ensures k == if n < Sum(offs) then Dropped(offs, n) else f
  {
  }

  lemma {:induction false} LengthsAt(datas: seq<seq<byte>>, j: nat)
    requires j < |datas|
    ensures Lengths(datas)[j] == |datas[j]|
  {
    if j != 0 {
      LengthsAt(datas[1..], j - 1);
    }
  }

  /** It takes exactly the first n bytes. */
  lemma StopTakesPrefix(datas: seq<seq<byte>>, n: nat, f: nat, k: nat, left: nat)
    requires Stops(Lengths(datas), n, f, k, left)
    ensures k < |datas| && left <= |datas[k]|
    ensures Drop(Flatten(datas), n) == Flatten([datas[k][left..]] + datas[k + 1..])
  {
    hide Dropped, LeftOver, LastWithData, Sum, Flatten, Lengths;
    var offs := Lengths(datas);
    if n < Sum(offs) {
      DroppedStops(offs, n);
      DrainTakesPrefix(datas, n);
    } else {
      FlattenLength(datas);
      LengthsAt(datas, f);
      var rest := [datas[f][left..]] + datas[f + 1..];
      forall j | 0 <= j < |rest| ensures rest[j] == [] {
        if j > 0 {
          ZeroAfterLast(offs, f + j);
          LengthsAt(datas, f + j);
        }
      }
      FlattenOfEmpties(rest);
    }
  }

  lemma VisitedSome(lens: seq<nat>, n: nat)
    requires n <= Sum(lens)
    ensures Visited(lens, n) == 0 <==> n == 0
  {
  }

  // ----- what a completed read does to the offsets

  /** The offsets after n bytes arrived in buffers of these lengths, the first of them in chain number f. */
  function AfterRead(offs: seq<nat>, f: nat, lens: seq<nat>, n: nat): (r: seq<nat>)
    requires f + |lens| <= |offs|
    ensures |r| == |offs|
  {
    if f != 0 then [offs[0]] + AfterRead(offs[1..], f - 1, lens, n)
    else if lens == [] then offs
    else [offs[0] + Min(n, lens[0])] + AfterRead(offs[1..], 0, lens[1..], n - Min(n, lens[0]))
  }

  lemma {:induction false} AfterReadAdds(offs: seq<nat>, f: nat, lens: seq<nat>, n: nat, k: nat)
    requires f + |lens| <= |offs| && k < |offs|
    ensures AfterRead(offs, f, lens, n)[k] == offs[k] + if f <= k < f + |lens| then Received(lens, n)[k - f] else 0
    decreases |offs|
  {
    if k != 0 {
      if f != 0 {
        AfterReadAdds(offs[1..], f - 1, lens, n, k - 1);
      } else if lens != [] {
        AfterReadAdds(offs[1..], 0, lens[1..], n - Min(n, lens[0]), k - 1);
      }
    }
  }

  ghost predicate IsAfterRead(offs: seq<nat>, f: nat, lens: seq<nat>, n: nat, after: seq<nat>) {
    f + |lens| <= |offs| && after == AfterRead(offs, f, lens, n)
  }

  lemma AfterReadStep(offs: seq<nat>, f: nat, lens: seq<nat>, n: nat)
    requires 0 < f && f + |lens| <= |offs|
    ensures AfterRead(offs, f, lens, n) == [offs[0]] + AfterRead(offs[1..], f - 1, lens, n)
  {
  }

  lemma {:induction false} AfterReadShift(offs: seq<nat>, f: nat, lens: seq<nat>, n: nat)
    requires f + |lens| <= |offs|
    ensures AfterRead(offs, f, lens, n) == offs[..f] + AfterRead(offs[f..], 0, lens, n)
  {
    hide AfterRead;
    if f == 0 {
      assert offs[0..] == offs && offs[..0] == [];
    } else {
      AfterReadStep(offs, f, lens, n);
      AfterReadShift(offs[1..], f - 1, lens, n);
      assert offs[1..][f - 1..] == offs[f..] && offs[..f] == [offs[0]] + offs[1..][..f - 1];
    }
  }

  lemma {:induction false} AfterReadOfNothing(offs: seq<nat>, lens: seq<nat>, n: nat)
    requires |lens| <= |offs| && (n == 0 || lens == [])
    ensures AfterRead(offs, 0, lens, n) == offs && Visited(lens, n) == 0
    decreases |offs|
  {
    if lens != [] {
      AfterReadOfNothing(offs[1..], lens[1..], 0);
      assert offs == [offs[0]] + offs[1..];
    }
  }

  /** The filling loop has dealt with the first buffers: `done` are their offsets, and `left` bytes remain. */
  ghost predicate Filling(offs: seq<nat>, lens: seq<nat>, n: nat, done: seq<nat>, left: nat) {
    var i := |done|;
    && i <= |lens| <= |offs|
    && AfterRead(offs, 0, lens, n) == done + AfterRead(offs[i..], 0, lens[i..], left)
    && Visited(lens, n) == i + Visited(lens[i..], left)
  }

  lemma FillingStarts(offs: seq<nat>, lens: seq<nat>, n: nat)
    requires |lens| <= |offs|
    ensures Filling(offs, lens, n, [], n)
  {
    assert offs[0..] == offs && lens[0..] == lens;
  }

  lemma FillingStep(offs: seq<nat>, lens: seq<nat>, n: nat, done: seq<nat>, left: nat)
    requires Filling(offs, lens, n, done, left) && |done| < |lens| && left != 0
    ensures var i, len := |done|, if left < lens[|done|] then left else lens[|done|];
            i < |offs| && Filling(offs, lens, n, done + [offs[i] + len], left - len)
  {
    var i := |done|;
    assert offs[i..][1..] == offs[i + 1..] && lens[i..][1..] == lens[i + 1..];
  }

  lemma FillingEnds(offs: seq<nat>, lens: seq<nat>, n: nat, done: seq<nat>, left: nat)
    requires Filling(offs, lens, n, done, left) && (left == 0 || |done| == |lens|)
    ensures |done| <= |offs| && IsAfterRead(offs, 0, lens, n, done + offs[|done|..]) && Visited(lens, n) == |done|
  {
    AfterReadOfNothing(offs[|done|..], lens[|done|..], left);
  }

  /** The data in the buffer grows by what could be received. */
  lemma {:induction false} AfterReadSum(offs: seq<nat>, f: nat, lens: seq<nat>, n: nat)
    requires f + |lens| <= |offs|
    ensures Sum(AfterRead(offs, f, lens, n)) == Sum(offs) + Min(n, Sum(lens))
    decreases |offs|
  {
    if f != 0 {
      AfterReadSum(offs[1..], f - 1, lens, n);
    } else if lens != [] {
      AfterReadSum(offs[1..], 0, lens[1..], n - Min(n, lens[0]));
    }
  }

  lemma {:induction false} SumOfZeroes(ns: seq<nat>)
    requires forall k :: 0 <= k < |ns| ==> ns[k] == 0
    ensures Sum(ns) == 0
  {
    if ns != [] {
      SumOfZeroes(ns[1..]);
    }
  }

  lemma {:induction false} LastWithDataIs(offs: seq<nat>, k: nat)
    requires k < |offs| && (k == 0 || offs[k] > 0) && forall j :: k < j < |offs| ==> offs[j] == 0
    ensures LastWithData(offs) == k
  {
    if k == 0 {
      SumOfZeroes(offs[1..]);
    } else {
      LastWithDataIs(offs[1..], k - 1);
      SumConcat(offs[1..k], offs[k..]);
      assert offs[1..] == offs[1..k] + offs[k..];
    }
  }

  lemma {:induction false} ZeroAfterLast(offs: seq<nat>, j: nat)
    requires LastWithData(offs) < j < |offs|
    ensures offs[j] == 0
  {
    if Sum(offs[1..]) == 0 {
      SumZero(offs[1..], j - 1);
    } else {
      ZeroAfterLast(offs[1..], j - 1);
    }
  }

  lemma {:induction false} SumZero(ns: seq<nat>, j: nat)
    requires j < |ns| && Sum(ns) == 0
    ensures ns[j] == 0
  {
    if j != 0 {
      SumZero(ns[1..], j - 1);
    }
  }

  /** If everything fits, the chain of the last buffer visited is the last one with data afterwards. */
  lemma AfterReadLast(offs: seq<nat>, f: nat, lens: seq<nat>, n: nat)
    requires f + |lens| <= |offs| && LastWithData(offs) <= f && n <= Sum(lens)
    ensures LastWithData(AfterRead(offs, f, lens, n)) ==
              if n == 0 then LastWithData(offs) else f + Visited(lens, n) - 1
  {
    var after := AfterRead(offs, f, lens, n);
    if n == 0 {
      forall k | 0 <= k < |offs| ensures after[k] == offs[k] {
        AfterReadAdds(offs, f, lens, n, k);
        if f <= k < f + |lens| { NothingLeft(lens, k - f); }
      }
      assert after == offs;
    } else {
      LastVisitedReceives(lens, n);
      var last := f + Visited(lens, n) - 1;
      AfterReadAdds(offs, f, lens, n, last);
      forall j | last < j < |offs| ensures after[j] == 0 {
        AfterReadAdds(offs, f, lens, n, j);
        ZeroAfterLast(offs, j);
      }
      LastWithDataIs(after, last);
    }
  }

  /** What n arriving bytes leave in each of these stretches of memory. */
  function Pieces(rooms: seq<seq<byte>>, n: nat): (pieces: seq<seq<byte>>)
    ensures |pieces| == |rooms|
  {
    if rooms == [] then []
    else [rooms[0][..Min(n, |rooms[0]|)]] + Pieces(rooms[1..], n - Min(n, |rooms[0]|))
  }

  lemma {:induction false} PiecesAt(rooms: seq<seq<byte>>, n: nat, j: nat)
    requires j < |rooms|
    ensures var got := Received(Lengths(rooms), n)[j];
            got <= |rooms[j]| && Pieces(rooms, n)[j] == rooms[j][..got]
  {
    if j != 0 {
      PiecesAt(rooms[1..], n - Min(n, |rooms[0]|), j - 1);
    }
  }

  lemma {:induction false} PiecesArePrefix(rooms: seq<seq<byte>>, n: nat)
    ensures Flatten(Pieces(rooms, n)) == Flatten(rooms)[..Min(n, |Flatten(rooms)|)]
  {
    if rooms != [] {
      var got := Min(n, |rooms[0]|);
      PiecesArePrefix(rooms[1..], n - got);
      var rest := Flatten(rooms[1..]);
      assert (rooms[0] + rest)[..Min(n, |rooms[0] + rest|)] == rooms[0][..got] + rest[..Min(n - got, |rest|)];
    }
  }

  /** Contents with the first n of the bytes that came behind them, or all of these if they are fewer. */
  function Grown(contents: seq<byte>, came: seq<byte>, n: nat): seq<byte> {
    contents + came[..Min(n, |came|)]
  }

  lemma GrownWithin(contents: seq<byte>, came: seq<byte>, n: nat)
    requires n <= |came|
    ensures Grown(contents, came, n) == contents + came[..n]
  {
  }

  lemma SlicesJoin(mem: seq<byte>, a: nat, b: nat, c: nat, d: nat)
    requires a <= b <= c <= d <= |mem|
    ensures mem[a..c] == mem[a..b] + mem[b..d][..c - b]
  {
    assert mem[b..d][..c - b] == mem[b..c];
  }

  /** The data of a buffer with pieces appended to its chains from number f on. */
  function Appended(datas: seq<seq<byte>>, f: nat, pieces: seq<seq<byte>>): (r: seq<seq<byte>>)
    requires f + |pieces| <= |datas|
    ensures |r| == |datas|
  {
    if f != 0 then [datas[0]] + Appended(datas[1..], f - 1, pieces)
    else if pieces == [] then datas
    else [datas[0] + pieces[0]] + Appended(datas[1..], 0, pieces[1..])
  }

  lemma {:induction false} AppendedAt(datas: seq<seq<byte>>, f: nat, pieces: seq<seq<byte>>, k: nat)
    requires f + |pieces| <= |datas| && k < |datas|
    ensures Appended(datas, f, pieces)[k] == datas[k] + if f <= k < f + |pieces| then pieces[k - f] else []
    decreases |datas|
  {
    if k != 0 {
      if f != 0 {
        AppendedAt(datas[1..], f - 1, pieces, k - 1);
      } else if pieces != [] {
        AppendedAt(datas[1..], 0, pieces[1..], k - 1);
      }
    }
  }

  /** When no data follows the chain the pieces start at, they end up in order behind all data. */
  lemma {:induction false} FlattenAppended(datas: seq<seq<byte>>, f: nat, pieces: seq<seq<byte>>)
    requires f + |pieces| <= |datas|
    requires forall k :: f < k < |datas| ==> datas[k] == []
    ensures Flatten(Appended(datas, f, pieces)) == Flatten(datas) + Flatten(pieces)
    decreases |datas|
  {
    if f != 0 {
      FlattenAppended(datas[1..], f - 1, pieces);
    } else if pieces != [] {
      FlattenAppended(datas[1..], 0, pieces[1..]);
      FlattenOfEmpties(datas[1..]);
      assert datas[0] + pieces[0] + ([] + Flatten(pieces[1..])) == datas[0] + [] + (pieces[0] + Flatten(pieces[1..]));
    }
  }

  lemma {:induction false} FlattenOfEmpties(datas: seq<seq<byte>>)
    requires forall k :: 0 <= k < |datas| ==> datas[k] == []
    ensures Flatten(datas) == []
  {
    if datas != [] {
      FlattenOfEmpties(datas[1..]);
    }
  }

  // ----- making room for a read

  lemma LastHasData(offs: seq<nat>)
    requires LastWithData(offs) != 0
    ensures offs[LastWithData(offs)] > 0
  {
    LastHasSome(offs);
  }

  lemma {:induction false} LastHasSome(offs: seq<nat>)
    requires Sum(offs) > 0
    ensures offs[LastWithData(offs)] > 0
  {
    if Sum(offs[1..]) != 0 {
      LastHasSome(offs[1..]);
    }
  }

  /** Empty chains at the end may be cut off, and one may be put there. */
  lemma CutOffs(offs: seq<nat>, keep: nat, more: seq<nat>)
    requires keep <= |offs| && (more == [] || more == [0]) && offs[..keep] + more != []
    requires if keep == 0 then Sum(offs) == 0 else LastWithData(offs) < keep
    ensures Sum(offs[..keep] + more) == Sum(offs)
    ensures LastWithData(offs[..keep] + more) == if keep == 0 then 0 else LastWithData(offs)
  {
    hide LastWithData;
    var cut := offs[..keep] + more;
    forall j | keep <= j < |offs| ensures offs[j] == 0 {
      if keep == 0 { SumZero(offs, j); } else { ZeroAfterLast(offs, j); }
    }
    SumOfZeroes(offs[keep..]);
    SumOfZeroes(more);
    SumConcat(offs[..keep], offs[keep..]);
    SumConcat(offs[..keep], more);
    assert offs == offs[..keep] + offs[keep..];
    var w := if keep == 0 then 0 else LastWithData(offs);
    forall j | w < j < |cut| ensures cut[j] == 0 {
      if j < keep { ZeroAfterLast(offs, j); }
    }
    if w != 0 { LastHasData(offs); }
    LastWithDataIs(cut, w);
  }

  lemma {:induction false} FlattenConcat(a: seq<seq<byte>>, b: seq<seq<byte>>)
    ensures Flatten(a + b) == Flatten(a) + Flatten(b)
  {
    if a == [] {
      assert a + b == b;
    } else {
      assert (a + b)[1..] == a[1..] + b;
      FlattenConcat(a[1..], b);
    }
  }

  lemma CutDatas(datas: seq<seq<byte>>, keep: nat, more: seq<seq<byte>>)
    requires keep <= |datas| && (more == [] || more == [[]])
    requires forall k :: keep <= k < |datas| ==> datas[k] == []
    ensures Flatten(datas[..keep] + more) == Flatten(datas)
  {
    FlattenConcat(datas[..keep], datas[keep..]);
    FlattenConcat(datas[..keep], more);
    FlattenOfEmpties(datas[keep..]);
    FlattenOfEmpties(more);
    assert datas == datas[..keep] + datas[keep..];
  }

  const MIN_BUFFER_SIZE: nat := 1024
  const EVBUFFER_CHAIN_SIZE: nat := 48

  function Doubled(alloc: nat, size: nat): (r: nat)
    requires alloc > 0
    ensures r >= size && r >= alloc
    decreases size - alloc
  {
    if alloc < size then Doubled(2 * alloc, size) else alloc
  }

  /** The memory `evbuffer_chain_new` gives a chain: the next size that holds it, on a 64-bit system. */
  function Capacity(size: nat): (c: nat)
    ensures c >= size && c > 0
  {
    Doubled(MIN_BUFFER_SIZE, size + EVBUFFER_CHAIN_SIZE) - EVBUFFER_CHAIN_SIZE
  }

  function PowerOfTwo(k: nat): (p: nat)
    ensures p > 0
  {
    if k == 0 then 1 else 2 * PowerOfTwo(k - 1)
  }

  lemma {:induction false} DoubledIsLeast(alloc: nat, size: nat, i: nat) returns (k: nat)
    requires alloc == 1024 * PowerOfTwo(i)
    ensures Doubled(alloc, size) == 1024 * PowerOfTwo(k)
    ensures k == i || (k > i && 1024 * PowerOfTwo(k - 1) < size)
    decreases size - alloc
  {
    k := i;
    if alloc < size {
      k := DoubledIsLeast(2 * alloc, size, i + 1);
    }
  }

  /** With its header of 48 bytes a chain takes the least doubling of 1024 bytes that holds what is asked for. */
  lemma CapacityIsLeast(size: nat) returns (k: nat)
    ensures Capacity(size) + 48 == 1024 * PowerOfTwo(k) && Capacity(size) >= size
    ensures k != 0 ==> 1024 * PowerOfTwo(k - 1) < size + 48
  {
    k := DoubledIsLeast(MIN_BUFFER_SIZE, size + EVBUFFER_CHAIN_SIZE, 0);
  }

  /** There is room for len bytes in the first 16 chains that have any. */
  predicate Enough(spaces: seq<nat>, len: nat) {
    len <= Sum(spaces[..Min(MAX_WSABUFS, |spaces|)])
  }

  /**
    The spaces at the end of a nonempty buffer after `_evbuffer_expand_fast`.
    `keepsFirst` says that the first space is behind data and stays when the
    empty chains are thrown away.
   */
  function Expanded(spaces: seq<nat>, keepsFirst: bool, len: nat): seq<nat>
    requires keepsFirst ==> spaces != []
  {
    if Enough(spaces, len) then spaces
    else if |spaces| < MAX_WSABUFS then spaces + [Capacity(len - Min(len, Sum(spaces)))]
    else if keepsFirst then [spaces[0], Capacity(len - Min(len, spaces[0]))]
    else [Capacity(len)]
  }

  /** A short read fills only the first buffer. */
  lemma ReceivedShort(lens: seq<nat>, n: nat, j: nat)
    requires j < |lens| && n < lens[0]
    ensures Received(lens, n)[j] == if j == 0 then n else 0
  {
    if j != 0 {
      NothingLeft(lens[1..], j - 1);
    }
  }

  lemma AfterReadWas(offs: seq<nat>, f: nat, lens: seq<nat>, n: nat, after: seq<nat>)
    requires IsAfterRead(offs, f, lens, n, after)
    ensures f + |lens| <= |offs| && after == AfterRead(offs, f, lens, n)
  {
  }

  lemma FirstVec(spaces: seq<nat>, howMuch: nat, n: nat)
    requires spaces != [] && n < howMuch && n < spaces[0]
    ensures var lens := Vecs(spaces, howMuch, MAX_WSABUFS);
            lens != [] && n < lens[0] <= spaces[0]
  {
  }

  /** Descriptors for all of two or more chains fill the first one. */
  lemma AllDescribed(spaces: seq<nat>, howMuch: nat)
    requires |spaces| >= 2 && |Vecs(spaces, howMuch, MAX_WSABUFS)| == |spaces|
    ensures |spaces| <= MAX_WSABUFS && spaces[0] < howMuch
  {
    hide Vecs;
    VecsReachLast(spaces, howMuch, MAX_WSABUFS);
    FirstIsAtMostSum(spaces[..|spaces| - 1]);
  }

  lemma FirstIsAtMostSum(spaces: seq<nat>)
    requires spaces != []
    ensures spaces[0] <= Sum(spaces)
  {
  }

  lemma EnoughBeforeLast(spaces: seq<nat>, len: nat)
    requires spaces != [] && |spaces| <= MAX_WSABUFS && len <= Sum(spaces[..|spaces| - 1])
    ensures Enough(spaces, len) && len <= Sum(spaces[..Min(MAX_WSABUFS, |spaces| - 1)])
  {
    SumPrefix(spaces, |spaces| - 1);
    assert spaces[..|spaces|] == spaces;
  }

  /** One more chain behind a single space that is too small. */
  lemma OneSpaceExpanded(left: nat, keepsFirst: bool, len: nat)
    requires left < len
    ensures Expanded([left], keepsFirst, len) == [left, Capacity(len - left)] && !Enough([left], len)
    ensures |Vecs(Expanded([left], keepsFirst, len), len, MAX_WSABUFS)| == 2
    ensures Sum([left, Capacity(len - left)][..1]) == left
  {
    hide Capacity, Vecs;
    assert [left][..1] == [left] && Sum([left]) == left;
    PinsMatchExactlyWhen([left], keepsFirst, len);
    assert [left][..0] == [];
    assert [left, Capacity(len - left)][..1] == [left];
  }

  lemma CapacityHolds(size: nat)
    ensures Capacity(size) >= size && Capacity(size) > 0
  {
  }

  lemma LastAfterShortRead(offs: seq<nat>, f: nat, lens: seq<nat>, n: nat)
    requires f + |lens| <= |offs| && lens != [] && n < lens[0] && LastWithData(offs) <= f
    ensures LastWithData(AfterRead(offs, f, lens, n)) == if n == 0 then LastWithData(offs) else f
    ensures n < Sum(lens)
  {
    hide LastWithData, AfterRead;
    AfterReadLast(offs, f, lens, n);
    assert n != 0 ==> Visited(lens, n) == 1 + Visited(lens[1..], 0);
  }

  /** With n bytes less in the first space, what the spaces before the last hold. */
  lemma SpacesBeforeLast(spaces: seq<nat>, n: nat)
    requires |spaces| > 1 && n <= spaces[0]
    ensures var less := spaces[0 := spaces[0] - n];
            Sum(less[..|spaces| - 1]) == Sum(spaces[..|spaces| - 1]) - n
  {
    var less := spaces[0 := spaces[0] - n];
    var m := |spaces| - 1;
    assert less[..m][1..] == spaces[..m][1..];
  }

  /** The number of the first chain with space, from the last one with data (number w) on. */
  function TailOf(spaces: seq<nat>, w: nat): (t: nat)
    ensures w <= t <= w + 1 && (w < |spaces| ==> t <= |spaces|)
  {
    if w < |spaces| && spaces[w] == 0 then w + 1 else w
  }

  /** The chains w up to i have been looked at: `used` of them have space, `avail` bytes of it. */
  ghost predicate Counted(spaces: seq<nat>, w: nat, i: nat, used: nat, avail: nat) {
    var t := TailOf(spaces, w);
    && w < |spaces| && w <= i <= |spaces|
    && used == (if i <= t then 0 else i - t)
    && avail == Sum(spaces[t..][..used])
  }

  /** The chains behind number w, which are empty, all have space. */
  ghost predicate RoomBehind(spaces: seq<nat>, w: nat) {
    forall k :: w < k < |spaces| ==> spaces[k] > 0
  }

  lemma CountingStarts(spaces: seq<nat>, w: nat)
    requires w < |spaces|
    ensures Counted(spaces, w, w, 0, 0)
  {
    assert spaces[TailOf(spaces, w)..][..0] == [];
  }

  lemma CountingStep(spaces: seq<nat>, w: nat, i: nat, used: nat, avail: nat)
    requires Counted(spaces, w, i, used, avail) && i < |spaces| && RoomBehind(spaces, w)
    ensures if spaces[i] == 0 then Counted(spaces, w, i + 1, used, avail)
            else Counted(spaces, w, i + 1, used + 1, avail + spaces[i])
  {
    var tail := spaces[TailOf(spaces, w)..];
    if spaces[i] != 0 {
      assert tail[..used + 1] == tail[..used] + [spaces[i]];
      SumConcat(tail[..used], [spaces[i]]);
    }
  }

  /** What the count says when the search for space ends. */
  lemma CountingEnds(spaces: seq<nat>, w: nat, i: nat, used: nat, avail: nat, len: nat)
    requires Counted(spaces, w, i, used, avail) && used <= MAX_WSABUFS && i > w
    ensures var tail := spaces[TailOf(spaces, w)..];
            && (avail >= len ==> Enough(tail, len))
            && (avail < len && (used == MAX_WSABUFS || i == |spaces|) ==> !Enough(tail, len))
            && (used == MAX_WSABUFS ==> |tail| >= MAX_WSABUFS)
            && (used < MAX_WSABUFS && i == |spaces| ==> |tail| < MAX_WSABUFS && avail == Sum(tail))
  {
    var t := TailOf(spaces, w);
    var tail := spaces[t..];
    var m := Min(MAX_WSABUFS, |tail|);
    SumPrefix(tail[..m], used);
    assert tail[..m][..used] == tail[..used] && tail[..|tail|] == tail;
  }

  lemma CountedBefore(spaces: seq<nat>, w: nat, i: nat, used: nat, avail: nat, k: nat)
    requires Counted(spaces, w, i, used, avail) && i <= k <= |spaces| && TailOf(spaces, w) <= k
    ensures avail <= Sum(spaces[TailOf(spaces, w)..][..k - TailOf(spaces, w)])
  {
    var t := TailOf(spaces, w);
    SumPrefix(spaces[t..][..k - t], used);
    assert spaces[t..][..k - t][..used] == spaces[t..][..used];
  }

  lemma ExpandedByOne(spaces: seq<nat>, w: nat, keepsFirst: bool, len: nat)
    requires w < |spaces|
    requires var tail := spaces[TailOf(spaces, w)..];
             !Enough(tail, len) && |tail| < MAX_WSABUFS && (keepsFirst ==> tail != [])
    ensures var tail := spaces[TailOf(spaces, w)..];
            Sum(tail) < len
            && var after := spaces + [Capacity(len - Sum(tail))];
               after[TailOf(after, w)..] == Expanded(tail, keepsFirst, len)
  {
    hide Enough, Capacity, Sum;
    var t := TailOf(spaces, w);
    EnoughOrSumBelow(spaces[t..], len);
    var after := spaces + [Capacity(len - Sum(spaces[t..]))];
    assert TailOf(after, w) == t && after[t..] == spaces[t..] + [Capacity(len - Sum(spaces[t..]))];
  }

  lemma ExpandedByReplacing(spaces: seq<nat>, w: nat, len: nat)
    requires w < |spaces|
    requires var tail := spaces[TailOf(spaces, w)..]; !Enough(tail, len) && |tail| >= MAX_WSABUFS
    ensures var tail := spaces[TailOf(spaces, w)..];
            && spaces[w] < len
            && (var after := spaces[..w + 1] + [Capacity(len - spaces[w])];
                after[TailOf(after, w)..] == Expanded(tail, spaces[w] > 0, len))
            && (var after := [Capacity(len)];
                after[TailOf(after, 0)..] == Expanded(tail, false, len))
  {
    hide Enough, Capacity, Sum;
    var tail := spaces[TailOf(spaces, w)..];
    FirstIsBelow(tail, len);
    if spaces[w] > 0 {
      assert tail[0] == spaces[w];
    }
  }

  lemma EnoughOrSumBelow(spaces: seq<nat>, len: nat)
    requires !Enough(spaces, len) && |spaces| < MAX_WSABUFS
    ensures Sum(spaces) < len
  {
    assert spaces[..|spaces|] == spaces;
  }

  lemma FirstIsBelow(spaces: seq<nat>, len: nat)
    requires spaces != [] && !Enough(spaces, len)
    ensures spaces[0] < len
  {
    var front := spaces[..Min(MAX_WSABUFS, |spaces|)];
    assert front[0] == spaces[0];
  }

  lemma ExpandedIsEnough(spaces: seq<nat>, keepsFirst: bool, len: nat)
    requires keepsFirst ==> spaces != []
    ensures Enough(Expanded(spaces, keepsFirst, len), len)
  {
    var e := Expanded(spaces, keepsFirst, len);
    if !Enough(spaces, len) {
      assert e[..|e|] == e;
      if |spaces| < MAX_WSABUFS {
        EnoughOrSumBelow(spaces, len);
        SumConcat(spaces, [Capacity(len - Min(len, Sum(spaces)))]);
      }
    }
  }

  /**
    When the room does not suffice, one chain is added that just makes up for what
    is missing: behind all chains if fewer than 16 have space, or in place of the
    empty ones, so that only a space behind data stays.
   */
  lemma ExpansionAddsOne(spaces: seq<nat>, keepsFirst: bool, len: nat) returns (front: seq<nat>)
    requires (keepsFirst ==> spaces != []) && !Enough(spaces, len)
    ensures front == if |spaces| < 16 then spaces else if keepsFirst then [spaces[0]] else []
    ensures Sum(front) < len && Expanded(spaces, keepsFirst, len) == front + [Capacity(len - Sum(front))]
  {
    hide Capacity, Enough, Sum;
    if |spaces| < 16 {
      front := spaces;
      EnoughOrSumBelow(spaces, len);
    } else if keepsFirst {
      front := [spaces[0]];
      FirstIsBelow(spaces, len);
      SumOfOne(spaces[0]);
    } else {
      front := [];
      NothingIsEnough(spaces, len);
    }
  }

  lemma NothingIsEnough(spaces: seq<nat>, len: nat)
    requires !Enough(spaces, len)
    ensures 0 < len && Sum([]) == 0
  {
  }

  /**
    After a successful expansion of a nonempty buffer, the descriptors cover all
    chains that are pinned unless the spaces before the last of them already
    suffice: that is when the code's own assertion fails.
   */
  lemma PinsMatchExactlyWhen(spaces: seq<nat>, keepsFirst: bool, len: nat)
    requires keepsFirst ==> spaces != []
    ensures var e := Expanded(spaces, keepsFirst, len);
            |Vecs(e, len, MAX_WSABUFS)| != |e| <==>
              spaces != [] && len <= Sum(spaces[..Min(MAX_WSABUFS, |spaces| - 1)])
  {
    hide Capacity, Vecs;
    var e := Expanded(spaces, keepsFirst, len);
    if e != [] {
      VecsReachLast(e, len, MAX_WSABUFS);
    }
    if Enough(spaces, len) {
      if |spaces| > MAX_WSABUFS {
        assert spaces[..Min(MAX_WSABUFS, |spaces| - 1)] == spaces[..Min(MAX_WSABUFS, |spaces|)];
      }
    } else {
      if spaces != [] {
        var front := spaces[..Min(MAX_WSABUFS, |spaces|)];
        SumPrefix(front, Min(MAX_WSABUFS, |spaces| - 1));
        assert front[..Min(MAX_WSABUFS, |spaces| - 1)] == spaces[..Min(MAX_WSABUFS, |spaces| - 1)];
      }
      if |spaces| < MAX_WSABUFS {
        EnoughOrSumBelow(spaces, len);
        assert e[..|e| - 1] == spaces;
      } else {
        FirstIsBelow(spaces, len);
        assert e[..|e| - 1] == if keepsFirst then [spaces[0]] else [];
      }
    }
  }

  /** An empty buffer gets one chain, which is covered unless nothing was asked for. */
  lemma PinsMatchOnEmpty(len: nat)
    ensures |Vecs([Capacity(len)], len, MAX_WSABUFS)| != 1 <==> len == 0
  {
    VecsReachLast([Capacity(len)], len, MAX_WSABUFS);
  }
}
