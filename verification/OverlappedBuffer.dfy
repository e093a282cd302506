/**
  The overlapped evbuffer of buffer_iocp.c: a linked list of chains that are
  pinned while the operating system reads from or writes into them.
 */
module OverlappedBuffer {
  import opened Rc4
  import opened ScatterGather
  import opened Chains
  import opened ChainStates

  /** What becomes of a call of `evbuffer_launch_read`; `Aborted` is its assertion on the number of pinned chains. */
  datatype Launch = Refused | NoMemory | Aborted | Failed | Started

  class Overlapped {
    ghost var chains: seq<Chain>
    var first: Chain?
    var last: Chain?
    /** The chain that `*last_with_datap` is. */
    var lastWithData: Chain?
    var totalLen: nat
    var freezeStart: bool
    var freezeEnd: bool
    var refcnt: int
    var readInProgress: bool
    var writeInProgress: bool
    var firstPinned: Chain?
    var nBuffers: nat
    const buffers: array<WsaBuf>

    /** `evbuffer_overlapped_new` */
    constructor ()
      ensures Valid() && Unpinned() && chains == [] && totalLen == 0 && refcnt == 1 && fresh(buffers)
      ensures !readInProgress && !writeInProgress && !freezeStart && !freezeEnd
    {
      chains, first, last, lastWithData, totalLen := [], null, null, null, 0;
      freezeStart, freezeEnd, refcnt, readInProgress, writeInProgress := false, false, 1, false, false;
      firstPinned, nBuffers := null, 0;
      buffers := new WsaBuf[MAX_WSABUFS](_ => WsaBuf(null, 0, 0));
    }

    /** The list, its length, its last chain and its last chain with data; no chain in the list has been given back. */
    ghost predicate Shaped()
      reads this`chains, this`first, this`last, this`totalLen, this`lastWithData,
        (set c | c in chains)`next, (set c | c in chains)`off, (set c | c in chains)`misalign,
        (set c | c in chains)`dangling, (set c | c in chains)`freed
    {
      && IsList(chains, first)
      && buffers.Length == MAX_WSABUFS
      && totalLen == Sum(Offs(chains))
      && last == (if chains == [] then null else chains[|chains| - 1])
      && lastWithData == (if chains == [] then null else chains[LastWithData(Offs(chains))])
      && (forall c :: c in chains ==> c.misalign + c.off <= c.memory.Length && 0 < c.memory.Length && Live(c))
    }

    ghost function Contents(): seq<byte>
      reads this`chains, (set c | c in chains)`off, (set c | c in chains)`misalign, set c | c in chains :: c.memory
    {
      Flatten(Datas(chains))
    }

    /** The lengths of the descriptors in use. */
    ghost function Offered(): (lens: seq<nat>)
      reads this`nBuffers, buffers
      ensures nBuffers <= buffers.Length ==> |lens| == nBuffers
    {
      if nBuffers <= buffers.Length then LensOf(buffers[..nBuffers]) else []
    }

    /** The bytes in the memory they describe. */
    ghost function Incoming(): seq<byte>
      reads this`nBuffers, buffers, set b | b in buffers[..] && b.chain != null :: b.chain.memory
    {
      if nBuffers <= buffers.Length then AllBytes(buffers[..nBuffers]) else []
    }

    /** No chain is pinned. */
    ghost predicate Unpinned()
      reads this`chains, (set c | c in chains)`pins
    {
      forall c :: c in chains ==> c.pins == {}
    }

    /** A write is under way on the first nBuffers chains. */
    ghost predicate WriteInFlight()
      reads this`chains, this`freezeStart, this`nBuffers, this`firstPinned, (set c | c in chains)`pins
    {
      && freezeStart && 0 < nBuffers <= |chains| && firstPinned == chains[0]
      && (forall c :: c in chains[..nBuffers] ==> c.pins == {W})
      && (forall c :: c in chains[nBuffers..] ==> c.pins == {})
    }

    /** The chain a read starts at: the last one with data if it is pinned, else the one after it. */
    ghost function ReadStart(): nat
      reads this`chains, (set c | c in chains)`off, (set c | c in chains)`pins
    {
      var w := LastWithData(Offs(chains));
      if w < |chains| && R in chains[w].pins then w else w + 1
    }

    /** The chains of a read, and no others, are pinned. */
    ghost predicate ReadPinned()
      reads this`chains, this`nBuffers, this`firstPinned, (set c | c in chains)`pins, (set c | c in chains)`off
    {
      var f := ReadStart();
      && chains != [] && f + nBuffers == |chains|
      && (nBuffers > 0 ==> firstPinned == chains[f])
      && (forall k :: 0 <= k < |chains| ==> chains[k].pins == if f <= k then {R} else {})
    }

    /** The descriptors are for the free space of the chains from number f on. */
    ghost predicate DescribesSpace(f: nat)
      reads this`chains, this`nBuffers, buffers, (set c | c in chains)`off, (set c | c in chains)`misalign
    {
      && f + nBuffers <= |chains| && nBuffers <= buffers.Length
      && Fits(chains, Offs(chains), f, Offered())
      && (forall j :: 0 <= j < nBuffers ==>
            buffers[j].chain == chains[f + j] && buffers[j].start == chains[f + j].misalign + chains[f + j].off)
    }

    /** A read is under way into the free space of the last nBuffers chains, from `ReadStart` on. */
    ghost predicate ReadInFlight()
      reads this`chains, this`nBuffers, this`firstPinned, buffers,
        (set c | c in chains)`pins, (set c | c in chains)`off, (set c | c in chains)`misalign
    {
      ReadPinned() && DescribesSpace(ReadStart())
    }

    /** At most one direction is in progress, and exactly its chains are pinned. */
    ghost predicate Valid()
      reads this, buffers, (set c | c in chains)`next, (set c | c in chains)`off, (set c | c in chains)`misalign,
        (set c | c in chains)`dangling, (set c | c in chains)`freed,
        (set c | c in chains)`pins
    {
      && Shaped()
      && !(readInProgress && writeInProgress)
      && (writeInProgress ==> WriteInFlight())
      && (readInProgress ==> freezeEnd && ReadInFlight())
      && (!readInProgress && !writeInProgress ==> Unpinned())
    }

    /** `pin_release`; ps are the chains pinned, in the list or already taken out of it */
    method PinRelease(flag: Pin, ghost ps: seq<Chain>)
      requires |ps| == nBuffers && IsSegment(ps, firstPinned)
      requires forall c :: c in ps ==> c.pins == {flag}
      modifies (set c | c in ps)`pins, (set c | c in ps)`dangling, (set c | c in ps)`freed
      ensures forall c :: c in ps ==> c.pins == {} && c.dangling == old(c.dangling)
      ensures forall c :: c in ps ==> c.freed == old(c.freed) + if c.dangling then 1 else 0
    {
      hide IsSegment;
      var chain := firstPinned;
      assert ps[0..] == ps;
      for i := 0 to nBuffers
        invariant IsSegment(ps[i..], chain)
        invariant forall c :: c in ps ==> c.dangling == old(c.dangling)
        invariant forall c :: c in ps[..i] ==>
          c !in ps[i..] && c.pins == {} && c.freed == old(c.freed) + if c.dangling then 1 else 0
        invariant forall c :: c in ps[i..] ==> c.pins == {flag} && c.freed == old(c.freed)
      {
        SegmentStep(ps, i, chain);
        assert ps[..i + 1] == ps[..i] + [ps[i]];
        var next := chain.next;
        chain.Unpin(flag);
        chain := next;
      }
    }

    /** The chains pinned and described so far, with the lengths described. */
    ghost predicate Described(cs: seq<Chain>, lens: seq<nat>)
      reads buffers, (set c | c in cs)`pins, (set c | c in cs)`misalign
    {
      && |lens| <= |cs| && |lens| <= buffers.Length
      && (forall c :: c in cs[..|lens|] ==> c.pins == {W})
      && (forall c :: c in cs[|lens|..] ==> c.pins == {})
      && (forall j :: 0 <= j < |lens| ==> buffers[j] == WsaBuf(cs[j], cs[j].misalign, lens[j]))
    }

    lemma NothingDescribed(cs: seq<Chain>)
      requires forall c :: c in cs ==> c.pins == {}
      ensures Described(cs, [])
    {
    }

    method PinAndDescribe(chain: Chain, k: nat, len: nat, ghost cs: seq<Chain>, ghost lens: seq<nat>)
      requires Described(cs, lens) && k == |lens| < |cs| && k < buffers.Length
      requires chain == cs[k] && IsList(cs[k..], chain)
      modifies buffers, chain`pins
      ensures Described(cs, lens + [len])
    {
      assert cs[..k + 1] == cs[..k] + [cs[k]] && cs[k..][1..] == cs[k + 1..];
      buffers[k] := WsaBuf(chain, chain.misalign, len);
      chain.pins := chain.pins + {W};
    }

    /** The loop of `evbuffer_launch_write`: pin chains and describe what to send. */
    method DescribeForWrite(most: nat, ghost cs: seq<Chain>) returns (n: nat)
      requires IsList(cs, first) && buffers.Length == MAX_WSABUFS
      requires forall c :: c in cs ==> c.pins == {}
      modifies buffers, (set c | c in cs)`pins
      ensures n == |Slices(Offs(cs), most, MAX_WSABUFS)|
      ensures Described(cs, Slices(Offs(cs), most, MAX_WSABUFS))
    {
      hide *;
      Sixteen();
      NothingDescribed(cs);
      ghost var offs := Offs(cs);
      ghost var all := Slices(offs, most, MAX_WSABUFS);
      ghost var done: seq<nat> := [];
      var chain := first;
      var left: nat := most;
      n := 0;
      assert cs[0..] == cs && offs[0..] == offs;
      while n < MAX_WSABUFS && chain != null
        invariant n <= |cs| && n <= MAX_WSABUFS && |done| == n
        invariant IsList(cs[n..], chain)
        invariant all == done + Slices(offs[n..], left, MAX_WSABUFS - n)
        invariant Described(cs, done)
        decreases MAX_WSABUFS - n
      {
        ListStep(cs, n, chain);
        assert offs[n..][1..] == offs[n + 1..];
        OffsAt(cs, n);
        SlicesStep(all, done, offs[n..], left, MAX_WSABUFS - n);
        var len := if chain.off < left then chain.off else left;
        PinAndDescribe(chain, n, len, cs, done);
        done := done + [len];
        n := n + 1;
        if left > chain.off {
          left := left - chain.off;
        } else {
          return;
        }
        chain := chain.next;
      }
      ListStep(cs, n, chain);
      SlicesEnd(offs[n..], left, MAX_WSABUFS - n);
      assert all == done;
    }

    method PinForWrite(most: nat, ghost cs: seq<Chain>)
      requires IsList(cs, first) && buffers.Length == MAX_WSABUFS
      requires forall c :: c in cs ==> c.pins == {}
      modifies this`nBuffers, this`refcnt, buffers, (set c | c in cs)`pins
      ensures nBuffers == |Slices(Offs(cs), most, MAX_WSABUFS)| && refcnt == old(refcnt) + 1
      ensures Described(cs, Slices(Offs(cs), most, MAX_WSABUFS))
    {
      hide *;
      var n := DescribeForWrite(most, cs);
      nBuffers := n;
      refcnt := refcnt + 1;
    }

    /** What one call of `evbuffer_launch_write` may send at most. */
    function Clipped(atMost: int): nat
      reads this`totalLen
    {
      if atMost < 0 || atMost > totalLen then totalLen else atMost
    }

    /** The part of `evbuffer_launch_write` before the system call. */
    method BeginWrite(most: nat)
      requires Shaped() && Unpinned() && chains != []
      modifies this`freezeStart, this`nBuffers, this`firstPinned, this`refcnt, buffers, (set c | c in chains)`pins
      ensures Shaped() && WriteInFlight() && freezeStart && refcnt == old(refcnt) + 1
      ensures nBuffers == |Slices(Offs(chains), most, MAX_WSABUFS)|
      ensures Described(chains, Slices(Offs(chains), most, MAX_WSABUFS))
    {
      hide Offs, Slices, Shaped, Described, WriteInFlight;
      ShapedFacts();
      SlicesSome(Offs(chains), most, MAX_WSABUFS);
      ghost var lens := Slices(Offs(chains), most, MAX_WSABUFS);
      FreezeStart();
      PinForWrite(most, chains);
      DescribedIsInFlight(lens);
    }

    method FreezeStart()
      modifies this`freezeStart, this`firstPinned, buffers
      ensures freezeStart && firstPinned == first
    {
      freezeStart := true;
      firstPinned := first;
      ClearDescriptors();
    }

    method ClearDescriptors()
      modifies buffers
    {
      forall i | 0 <= i < buffers.Length {
        buffers[i] := WsaBuf(null, 0, 0);
      }
    }

    lemma ShapedFacts()
      requires Shaped()
      ensures IsList(chains, first) && buffers.Length == MAX_WSABUFS && totalLen == Sum(Offs(chains))
      ensures last == (if chains == [] then null else chains[|chains| - 1])
      ensures lastWithData == (if chains == [] then null else chains[LastWithData(Offs(chains))])
      ensures forall c :: c in chains ==> c.misalign + c.off <= c.memory.Length && 0 < c.memory.Length && Live(c)
      ensures chains != [] ==> first == chains[0]
    {
    }

    lemma DescribedIsInFlight(lens: seq<nat>)
      requires Described(chains, lens) && 0 < |lens| == nBuffers
      requires freezeStart && firstPinned == chains[0]
      ensures WriteInFlight()
    {
    }

    /** The part of `evbuffer_launch_write` for an error of the system call. */
    method AbandonWrite()
      requires Shaped() && WriteInFlight()
      modifies this`freezeStart, this`refcnt, (set c | c in chains)`pins, (set c | c in chains)`dangling,
        (set c | c in chains)`freed
      ensures Shaped() && Unpinned() && !freezeStart && refcnt == old(refcnt) - 1
    {
      hide Offs;
      PrefixIsSegment(chains, first, nBuffers);
      PinRelease(W, chains[..nBuffers]);
      forall c | c in chains ensures c.pins == {} && Live(c) {
        assert c in chains[..nBuffers] || c in chains[nBuffers..];
      }
      freezeStart := false;
      refcnt := refcnt - 1;
    }

    /** `evbuffer_launch_write`, given whether WSASend accepts the request */
    method LaunchWrite(atMost: int, sendOk: bool) returns (r: int)
      requires Valid() && !readInProgress
      modifies this, buffers, (set c | c in chains)`pins, (set c | c in chains)`dangling, (set c | c in chains)`freed
      ensures Valid() && chains == old(chains) && totalLen == old(totalLen) && freezeEnd == old(freezeEnd)
      ensures readInProgress == old(readInProgress) && Contents() == old(Contents())
      ensures old(freezeStart || writeInProgress) ==> r == -1 && unchanged(this)
      ensures old(!freezeStart && !writeInProgress && totalLen == 0) ==> r == 0 && unchanged(this)
      ensures old(!freezeStart && !writeInProgress && totalLen != 0) ==>
                if sendOk then
                  && r == 0 && writeInProgress && freezeStart && refcnt == old(refcnt) + 1
                  && nBuffers == |Slices(Offs(chains), Clipped(atMost), MAX_WSABUFS)|
                  && Described(chains, Slices(Offs(chains), Clipped(atMost), MAX_WSABUFS))
                else
                  r == -1 && !writeInProgress && !freezeStart && refcnt == old(refcnt) && Unpinned()
      ensures writeInProgress && !old(writeInProgress) ==> OffersExactly(Sendable(atMost))
    {
      hide Shaped, Unpinned, WriteInFlight, ReadInFlight, Offs, Described, Slices, Contents, Sendable, OffersExactly;
      if freezeStart || writeInProgress {
        return -1;
      }
      if totalLen == 0 {
        return 0;
      }
      NonemptyWhenLong();
      BeginWrite(Clipped(atMost));
      if !sendOk {
        AbandonWrite();
        return -1;
      }
      writeInProgress := true;
      DescribedOffers(atMost);
      return 0;
    }

    /** What a call asked for at most `atMost` bytes sends: that, but no more than the first 16 chains hold. */
    ghost function Sendable(atMost: int): nat
      reads this`chains, (set c | c in chains)`off
    {
      var held := Sum(Offs(chains)[..Min(16, |Offs(chains)|)]);
      if 0 <= atMost < held then atMost else held
    }

    /** The bytes in the memory described are exactly the first n of the contents. */
    ghost predicate OffersExactly(n: nat)
      reads this`nBuffers, buffers, set b | b in buffers[..] && b.chain != null :: b.chain.memory
      reads this`chains, (set c | c in chains)`off, (set c | c in chains)`misalign, set c | c in chains :: c.memory
    {
      nBuffers <= buffers.Length && n <= |Contents()| && AllBytes(buffers[..nBuffers]) == Contents()[..n]
    }

    lemma DescribedOffers(atMost: int)
      requires Shaped() && nBuffers == |Slices(Offs(chains), Clipped(atMost), MAX_WSABUFS)|
      requires Described(chains, Slices(Offs(chains), Clipped(atMost), MAX_WSABUFS))
      ensures OffersExactly(Sendable(atMost))
    {
      hide Slices, Described, Contents, Offs, IsList, AllBytes, Sum;
      DescriptorsArePrefix(Clipped(atMost));
      SumPrefix(Offs(chains), Min(16, |Offs(chains)|));
    }

    lemma NonemptyWhenLong()
      requires Shaped() && totalLen != 0
      ensures chains != []
    {
    }

    /**
      The descriptors set up by a write, concatenated, are a prefix of the contents, of
      the length that can be reached.
     */
    lemma DescriptorsArePrefix(most: nat)
      requires Shaped()
      requires Described(chains, Slices(Offs(chains), most, MAX_WSABUFS))
      ensures var n := |Slices(Offs(chains), most, MAX_WSABUFS)|;
              var reach := Reach(Offs(chains), most, MAX_WSABUFS);
              reach <= |Contents()| && AllBytes(buffers[..n]) == Contents()[..reach]
    {
      var lens := Slices(Offs(chains), most, MAX_WSABUFS);
      OffsAreLengths(chains);
      SlicesDescribePrefix(Datas(chains), most, MAX_WSABUFS);
      hide Slices, Reach;
      BytesAreGathered(chains, buffers[..|lens|], lens);
    }

    // ----- the end of a write

    method FreeHead(chain: Chain, ghost cs: seq<Chain>, ghost k: nat)
      requires k < |cs| && FreedTo(cs, k) && chain == cs[k] && IsList(cs[k..], chain)
      modifies chain`dangling, chain`freed
      ensures FreedTo(cs, k + 1)
    {
      hide IsList;
      ghost var rest := cs[k + 1..];
      assert cs[..k + 1] == cs[..k] + [chain] && cs[k..] == [chain] + rest;
      HeadIsFresh(cs, k, chain);
      assert chain in cs[k..] && Live(chain);
      chain.Free();
      forall c | c in cs[..k + 1] ensures Gone(c) && c !in rest {
        if c != chain {
          assert c in cs[..k] && c !in cs[k..];
        }
      }
      forall c | c in rest ensures Live(c) {
        assert c in cs[k..] && c != chain;
      }
    }

    /** The first loop of `evbuffer_drain`: everything goes. */
    method FreeAll(head: Chain?, ghost cs: seq<Chain>)
      requires IsList(cs, head) && FreedTo(cs, 0)
      modifies (set c | c in cs)`dangling, (set c | c in cs)`freed
      ensures FreedTo(cs, |cs|)
    {
      hide IsList, FreedTo;
      var chain := head;
      ghost var k := 0;
      assert cs[0..] == cs;
      while chain != null
        invariant k <= |cs| && IsList(cs[k..], chain) && FreedTo(cs, k)
        decreases |cs| - k
      {
        ListStep(cs, k, chain);
        var next := chain.next;
        FreeHead(chain, cs, k);
        chain := next;
        k := k + 1;
      }
      ListStep(cs, k, chain);
    }

    /**
      The second loop of `evbuffer_drain`: the chains that are drained whole go,
      up to the first one pinned for reading; `gone` says that the last chain
      with data went.
     */
    method FreeFront(head: Chain?, n: nat, ghost cs: seq<Chain>, ghost f: nat)
        returns (chain: Chain, left: nat, gone: bool, ghost k: nat)
      requires IsList(cs, head) && cs != [] && FreedTo(cs, 0) && PinnedFrom(cs, f)
      requires LastWithData(Offs(cs)) <= f && n <= Sum(Offs(cs)) && (n == Sum(Offs(cs)) ==> f < |cs|)
      requires lastWithData == cs[LastWithData(Offs(cs))]
      modifies (set c | c in cs)`dangling, (set c | c in cs)`freed
      ensures Stops(Offs(cs), n, f, k, left) && k < |cs| && chain == cs[k] && FreedTo(cs, k)
      ensures gone <==> k > LastWithData(Offs(cs))
    {
      hide *;
      ghost var offs, w := Offs(cs), LastWithData(Offs(cs));
      FreeingStarts(cs, head, n, f);
      chain, left, gone, k := head, n, false, 0;
      while left >= chain.off
        invariant k < |cs| && chain == cs[k] && PinnedFrom(cs, f)
        invariant Freeing(cs, offs, n, f, w, k, left, gone)
        decreases |cs| - k
      {
        PinnedAt(cs, f, k);
        FreeingFacts(cs, offs, n, f, w, k, left, gone);
        if R in chain.pins {
          DrainingMeetsPin(offs, n, f, left);
          return;
        }
        chain, left, gone := FreeStep(chain, left, gone, cs, offs, n, f, w, k);
        k := k + 1;
      }
      FreeingFacts(cs, offs, n, f, w, k, left, gone);
      DrainingEnds(offs, n, f, k, left);
    }

    /** One chain is taken off. */
    method FreeStep(chain: Chain, left: nat, gone: bool, ghost cs: seq<Chain>, ghost offs: seq<nat>, ghost n: nat,
                    ghost f: nat, ghost w: nat, ghost k: nat)
        returns (next: Chain, less: nat, goes: bool)
      requires Freeing(cs, offs, n, f, w, k, left, gone) && k < |cs| && chain == cs[k] && left >= chain.off && k != f
      requires w < |cs| && lastWithData == cs[w]
      modifies chain`dangling, chain`freed
      ensures Freeing(cs, offs, n, f, w, k + 1, less, goes) && k + 1 < |cs| && next == cs[k + 1]
    {
      hide *;
      FreeingFacts(cs, offs, n, f, w, k, left, gone);
      DrainingStep(offs, n, f, k, left);
      DrainingIsBefore(offs, n, f, k + 1, left - chain.off);
      SameChain(cs, k, w);
      goes := gone;
      if chain == lastWithData {
        goes := true;
      }
      ListStep(cs, k, chain);
      next := chain.next;
      less := left - chain.off;
      FreeHead(chain, cs, k);
      ListStep(cs, k + 1, next);
      FreeingIs(cs, offs, n, f, w, k + 1, less, goes);
    }

    /** The bytes left over are cut off the first chain that stays. */
    method CutFront(chain: Chain, left: nat, ghost cs: seq<Chain>)
      requires IsList(cs, chain) && left <= chain.off
      requires forall c :: c in cs ==> c.misalign + c.off <= c.memory.Length
      modifies chain`misalign, chain`off
      ensures Offs(cs) == [old(chain.off) - left] + old(Offs(cs))[1..]
      ensures Datas(cs) == [old(Datas(cs))[0][left..]] + old(Datas(cs))[1..]
      ensures EndsOf(cs) == old(EndsOf(cs))
      ensures forall c :: c in cs ==> c.misalign + c.off <= c.memory.Length
    {
      chain.misalign := chain.misalign + left;
      chain.off := chain.off - left;
    }

    /** The branch of `evbuffer_drain` that takes everything. */
    method DrainAll(len: nat)
      requires Shaped() && len >= totalLen && FreedTo(chains, 0)
      modifies this`chains, this`first, this`last, this`totalLen, this`lastWithData, (set c | c in chains)`dangling,
        (set c | c in chains)`freed
      ensures Shaped() && chains == [] && totalLen == 0 && Drop(old(Contents()), len) == []
      ensures Dropped(old(Offs(chains)), len) == |old(chains)| && FreedTo(old(chains), |old(chains)|)
    {
      hide *;
      ShapedFacts();
      EverythingGoes(len);
      FreeAll(first, chains);
      ZeroChain();
    }

    /** `ZERO_CHAIN` */
    method ZeroChain()
      requires buffers.Length == MAX_WSABUFS
      modifies this`chains, this`first, this`last, this`totalLen, this`lastWithData
      ensures Shaped() && chains == [] && totalLen == 0
    {
      first, last, lastWithData, totalLen, chains := null, null, null, 0, [];
    }

    lemma EverythingGoes(len: nat)
      requires Shaped() && len >= totalLen
      ensures Drop(Contents(), len) == [] && Dropped(Offs(chains), len) == |chains|
    {
      hide Offs, Datas, Flatten, LastWithData, IsList, Dropped, Lengths;
      OffsAreLengths(chains);
      FlattenLength(Datas(chains));
      DropAll(Offs(chains), len);
    }

    method Relink(chain: Chain, left: nat, len: nat, gone: bool, ghost k: nat)
      requires k < |chains| && chain == chains[k] && IsList(chains[k..], chain) && left <= chain.off && len <= totalLen
      requires forall c :: c in chains ==> c.misalign + c.off <= c.memory.Length
      modifies this`chains, this`first, this`totalLen, this`lastWithData, chain`misalign, chain`off
      ensures chains == old(chains)[k..] && first == chain && totalLen == old(totalLen) - len
      ensures lastWithData == if gone then chain else old(lastWithData)
      ensures IsList(chains, chain) && EndsOf(chains) == old(EndsOf(chains[k..]))
      ensures Offs(chains) == [old(chain.off) - left] + old(Offs(chains[k..]))[1..]
      ensures Datas(chains) == [old(Datas(chains[k..]))[0][left..]] + old(Datas(chains[k..]))[1..]
      ensures forall c :: c in chains ==> c.misalign + c.off <= c.memory.Length
    {
      hide *;
      CutFront(chain, left, chains[k..]);
      first := chain;
      if gone {
        lastWithData := chain;
      }
      totalLen := totalLen - len;
      chains := chains[k..];
    }

    /** The list restarts at chain number k with the bytes left over cut off. */
    method Restart(chain: Chain, left: nat, len: nat, gone: bool, ghost f: nat, ghost k: nat)
      requires IsList(chains, first) && k < |chains| && chain == chains[k] && buffers.Length == MAX_WSABUFS
      requires totalLen == Sum(Offs(chains)) && len <= totalLen
      requires Stops(Offs(chains), len, f, k, left) && LastWithData(Offs(chains)) <= f
      requires gone <==> k > LastWithData(Offs(chains))
      requires last == chains[|chains| - 1] && lastWithData == chains[LastWithData(Offs(chains))]
      requires forall c :: c in chains ==> c.misalign + c.off <= c.memory.Length && 0 < c.memory.Length
      requires forall c :: c in chains[k..] ==> Live(c)
      modifies this`chains, this`first, this`totalLen, this`lastWithData, chain`misalign, chain`off
      ensures Shaped() && chains == old(chains)[k..] && Contents() == Drop(old(Contents()), len)
      ensures EndsOf(chains) == old(EndsOf(chains))[k..] && k <= f
      ensures k + LastWithData(Offs(chains)) ==
                if len < old(totalLen) then old(LastWithData(Offs(chains))) else f
    {
      hide *;
      ghost var cs := chains;
      ContentsAre();
      CutOfList(chains, first, len, f, k, left);
      StopsAt(Offs(chains), len, f, k, left);
      EndsOfSuffix(chains, k);
      Relink(chain, left, len, gone, k);
      ContentsAre();
      SuffixAt(cs, k, LastWithData(Offs(chains)));
      BackInShape();
    }

    /** The branch of `evbuffer_drain` that leaves a chain; f is the first one pinned for reading. */
    method DrainFront(len: nat, ghost f: nat) returns (ghost k: nat)
      requires Shaped() && 0 < totalLen && len <= totalLen && FreedTo(chains, 0) && PinnedFrom(chains, f)
      requires LastWithData(Offs(chains)) <= f && (len == totalLen ==> f < |chains|)
      modifies this`chains, this`first, this`totalLen, this`lastWithData, (set c | c in chains)`dangling,
        (set c | c in chains)`freed, (set c | c in chains)`misalign, (set c | c in chains)`off
      ensures Shaped() && Contents() == Drop(old(Contents()), len)
      ensures k < |old(chains)| && chains == old(chains)[k..] && FreedTo(old(chains), k)
      ensures k == if len < old(totalLen) then Dropped(old(Offs(chains)), len) else f
      ensures EndsOf(chains) == old(EndsOf(chains))[k..] && k <= f
      ensures k + LastWithData(Offs(chains)) ==
                if len < old(totalLen) then old(LastWithData(Offs(chains))) else f
    {
      hide *;
      ShapedFacts();
      SomeChain();
      var chain, left, gone;
      chain, left, gone, k := FreeFront(first, len, chains, f);
      FreedLeavesLive(chains, k);
      StopsAt(Offs(chains), len, f, k, left);
      Restart(chain, left, len, gone, f, k);
    }

    lemma SomeChain()
      requires Shaped() && 0 < totalLen
      ensures chains != []
    {
    }

    lemma BackInShape()
      requires IsList(chains, first) && buffers.Length == MAX_WSABUFS && totalLen == Sum(Offs(chains))
      requires last == (if chains == [] then null else chains[|chains| - 1])
      requires lastWithData == (if chains == [] then null else chains[LastWithData(Offs(chains))])
      requires forall c :: c in chains ==> c.misalign + c.off <= c.memory.Length && 0 < c.memory.Length && Live(c)
      ensures Shaped()
    {
    }

    /** The first chain pinned for reading, found from the last one; |chains| if there is none. */
    ghost function FirstForReading(): nat
      reads this`chains, (set c | c in chains)`off, (set c | c in chains)`pins
    {
      if chains != [] && R in chains[|chains| - 1].pins then ReadStart() else |chains|
    }

    /** How many chains a drain of len bytes takes off. */
    ghost function Drained(len: nat): nat
      reads this`chains, this`totalLen, (set c | c in chains)`off, (set c | c in chains)`pins
    {
      if totalLen == 0 then 0 else if len < totalLen then Dropped(Offs(chains), len) else FirstForReading()
    }

    /** Chains are pinned for reading only by a read in flight. */
    ghost predicate Drainable()
      reads this`chains, this`nBuffers, this`firstPinned, buffers,
        (set c | c in chains)`pins, (set c | c in chains)`off, (set c | c in chains)`misalign
    {
      ReadInFlight() || forall c :: c in chains ==> R !in c.pins
    }

    lemma DrainablePins()
      requires Drainable() && chains != []
      ensures PinnedFrom(chains, FirstForReading()) && LastWithData(Offs(chains)) <= FirstForReading()
      ensures R in chains[|chains| - 1].pins ==> FirstForReading() < |chains|
      ensures R !in chains[|chains| - 1].pins ==> FirstForReading() == |chains|
      ensures ReadInFlight() ==> FirstForReading() == ReadStart()
    {
      hide Offs, LastWithData, DescribesSpace;
      assert chains[|chains| - 1] in chains;
    }

    /**
      `evbuffer_drain`. While a read is in flight its chains stay, and the read
      stays as it was, unless it has no chains and everything goes.
     */
    method Drain(len: nat) returns (r: int)
      requires Shaped() && Drainable()
      modifies this`chains, this`first, this`last, this`totalLen, this`lastWithData, (set c | c in chains)`dangling,
        (set c | c in chains)`freed, (set c | c in chains)`misalign, (set c | c in chains)`off
      ensures r == if old(totalLen) != 0 && freezeStart then -1 else 0
      ensures r == -1 ==> unchanged(this) && Shaped() && Contents() == old(Contents())
      ensures r == 0 ==> Shaped() && Contents() == Drop(old(Contents()), len)
      ensures r == 0 ==> old(Drained(len)) <= |old(chains)|
                         && chains == old(chains)[old(Drained(len))..] && FreedTo(old(chains), old(Drained(len)))
      ensures old(ReadInFlight()) ==> (ReadInFlight() <==> chains != [])
    {
      hide *;
      FreedWhenShaped();
      DrainedIs(len);
      if totalLen == 0 {
        EmptyContents();
        DropNothing(len);
        NothingToRead();
        assert chains[0..] == chains;
        return 0;
      }
      if freezeStart {
        NothingToRead();
        return -1;
      }
      SomeChain();
      ShapedFacts();
      DrainablePins();
      if len >= totalLen && R !in last.pins {
        DrainAll(len);
        EmptyContents();
        NothingToRead();
      } else {
        ghost var f, cs, ends, w := FirstForReading(), chains, EndsOf(chains), LastWithData(Offs(chains));
        ghost var reading := ReadInFlight();
        if reading {
          ReadingFacts();
        }
        var n := len;
        if n > totalLen {
          n := totalLen;
        }
        DropMore(n, len);
        ghost var k := DrainFront(n, f);
        if reading {
          ReadSurvives(cs, ends, f, k, w);
        }
      }
      return 0;
    }

    /**
      Draining a buffer in any state keeps it valid, unless a read is in flight
      that has no chains at all and everything goes: then committing that read
      finds no chain.
     */
    method DrainValid(len: nat) returns (r: int)
      requires Valid()
      modifies this`chains, this`first, this`last, this`totalLen, this`lastWithData, (set c | c in chains)`dangling,
        (set c | c in chains)`freed, (set c | c in chains)`misalign, (set c | c in chains)`off
      ensures r == if old(totalLen) != 0 && freezeStart then -1 else 0
      ensures Contents() == if r == 0 then Drop(old(Contents()), len) else old(Contents())
      ensures Valid() <==> !(readInProgress && nBuffers == 0 && r == 0 && 0 < old(totalLen) <= len)
    {
      hide *;
      ghost var cs, k := chains, Drained(len);
      ValidIs();
      ValidIsDrainable();
      WritingIsFrozen();
      if readInProgress {
        LostExactly(len);
      }
      assert cs[0..] == cs;
      r := Drain(len);
      ValidIs();
      if r == 0 && !readInProgress && !writeInProgress {
        NonePinnedInSuffix(cs, k);
      }
    }

    lemma ValidIs()
      ensures Valid() <==>
                && Shaped() && !(readInProgress && writeInProgress)
                && (writeInProgress ==> WriteInFlight()) && (readInProgress ==> freezeEnd && ReadInFlight())
                && (!readInProgress && !writeInProgress ==> Unpinned())
    {
    }

    lemma ValidIsDrainable()
      requires Valid()
      ensures Drainable() && (Unpinned() ==> forall c :: c in chains ==> c.pins == {})
    {
      hide Shaped, ReadInFlight;
      if writeInProgress {
        assert forall c :: c in chains ==> c in chains[..nBuffers] || c in chains[nBuffers..];
      }
    }

    lemma WritingIsFrozen()
      ensures WriteInFlight() ==> freezeStart
      ensures totalLen == 0 ==> forall len: nat :: Drained(len) == 0
    {
    }

    /** A drain takes every chain of a read in flight off exactly if it has none pinned and all bytes go. */
    lemma LostExactly(len: nat)
      requires Shaped() && ReadInFlight()
      ensures Drained(len) == |chains| <==> nBuffers == 0 && 0 < totalLen <= len
    {
      hide Offs, LastWithData, Dropped, Sum, IsList, DescribesSpace;
      if len < totalLen {
        DroppedStops(Offs(chains), len);
      }
    }

    lemma NonePinnedInSuffix(cs: seq<Chain>, k: nat)
      requires k <= |cs| && chains == cs[k..] && forall c :: c in cs ==> c.pins == {}
      ensures Unpinned()
    {
    }

    lemma FreedWhenShaped()
      requires Shaped()
      ensures FreedTo(chains, 0)
    {
      hide IsList, Offs, LastWithData;
    }

    lemma DrainedIs(len: nat)
      ensures Drained(len) ==
                if totalLen == 0 then 0 else if len < totalLen then Dropped(Offs(chains), len) else FirstForReading()
    {
    }

    /** When no chain is pinned for reading the arithmetic alone decides. */
    lemma DrainedUnpinned(len: nat)
      requires Shaped() && forall c :: c in chains ==> R !in c.pins
      ensures Drained(len) == if totalLen == 0 then 0 else Dropped(Offs(chains), len)
      ensures Drainable()
    {
      hide Offs, LastWithData, Dropped, Sum, IsList;
      if chains != [] {
        assert chains[|chains| - 1] in chains;
      }
      if totalLen <= len {
        DropAll(Offs(chains), len);
      }
    }

    lemma NothingToRead()
      ensures chains == [] ==> !ReadInFlight()
    {
    }

    /** Bytes beyond the end make no difference. */
    lemma DropMore(n: nat, len: nat)
      requires Shaped() && n == if len > totalLen then totalLen else len
      ensures Drop(Contents(), n) == Drop(Contents(), len)
    {
      hide Offs, Datas, Flatten, LastWithData, IsList;
      OffsAreLengths(chains);
      FlattenLength(Datas(chains));
    }

    /** What a read in flight needs of the chains, in terms of where their data ends. */
    ghost predicate ReadsInto(cs: seq<Chain>, ends: seq<nat>, f: nat)
      reads this`nBuffers, this`firstPinned, buffers, (set c | c in cs)`pins
    {
      && nBuffers <= buffers.Length && f + nBuffers == |cs| && (nBuffers > 0 ==> firstPinned == cs[f])
      && (forall k :: 0 <= k < |cs| ==> cs[k].pins == if f <= k then {R} else {})
      && SpaceAtEnds(cs, ends, buffers[..nBuffers], f)
    }

    lemma ReadingFacts()
      requires Shaped() && ReadInFlight()
      ensures ReadsInto(chains, EndsOf(chains), ReadStart())
      ensures ReadStart() == LastWithData(Offs(chains)) || ReadStart() == LastWithData(Offs(chains)) + 1
    {
      hide Offs, LastWithData, Offered, EndsOf, IsList, Sum;
      var f := ReadStart();
      forall k | 0 <= k < |chains|
        ensures EndsOf(chains)[k] == chains[k].misalign + chains[k].off <= chains[k].memory.Length {
        EndsAt(chains, k);
        assert chains[k] in chains;
      }
      forall j | 0 <= j < nBuffers
        ensures EndsOf(chains)[f + j] + buffers[j].len <= chains[f + j].memory.Length {
        DescribesAt(f, j);
      }
    }

    /** After a drain that took k chains off, the last chain with data being number w or f. */
    lemma ReadSurvives(cs: seq<Chain>, ends: seq<nat>, f: nat, k: nat, w: nat)
      requires ReadsInto(cs, ends, f) && (f == w || f == w + 1) && k <= f && k < |cs| && chains == cs[k..]
      requires EndsOf(chains) == ends[k..]
      requires k + LastWithData(Offs(chains)) == w || k + LastWithData(Offs(chains)) == f
      ensures ReadInFlight()
    {
      hide EndsOf, Offs, LastWithData, SpaceAtEnds, DescribesSpace;
      SpaceShifts(cs, ends, buffers[..nBuffers], f, k);
      forall j | 0 <= j < |chains| ensures chains[j] == cs[k + j] && chains[j].pins == if f - k <= j then {R} else {} {
      }
      SpaceIsDescribed(f - k);
    }

    lemma SpaceIsDescribed(f: nat)
      requires nBuffers <= buffers.Length && SpaceAtEnds(chains, EndsOf(chains), buffers[..nBuffers], f)
      ensures DescribesSpace(f)
    {
      hide EndsOf, Offs, LensOf;
      LensAre(buffers[..nBuffers]);
      forall k | 0 <= k < |chains|
        ensures EndsOf(chains)[k] == chains[k].misalign + Offs(chains)[k] && chains[k].off == Offs(chains)[k] {
        EndsAt(chains, k);
        OffsAt(chains, k);
      }
      forall j | 0 <= j < nBuffers
        ensures buffers[j].chain == chains[f + j] && buffers[j].start == chains[f + j].misalign + chains[f + j].off
        ensures EndsOf(chains)[f + j] + Offered()[j] <= chains[f + j].memory.Length {
        assert buffers[..nBuffers][j] == buffers[j];
      }
    }

    /** Unpinning after a drain: chains taken off the list are given back now, exactly once, the others stay. */
    method ReleaseDrained(ghost cs: seq<Chain>, ghost k: nat)
      requires Shaped() && k <= |cs| && chains == cs[k..] && FreedTo(cs, k)
      requires nBuffers <= |cs| && IsSegment(cs[..nBuffers], firstPinned)
      requires forall c :: c in cs[..nBuffers] ==> c.pins == {W}
      requires forall c :: c in cs[nBuffers..] ==> c.pins == {}
      modifies this`writeInProgress, this`refcnt
      modifies (set c | c in cs)`pins, (set c | c in cs)`dangling, (set c | c in cs)`freed
      ensures Shaped() && Unpinned() && !writeInProgress && refcnt == old(refcnt) - 1
      ensures forall c :: c in cs[..k] ==> c.freed == 1 && c.pins == {}
    {
      hide *;
      ShapedFacts();
      FreedFacts(cs, k);
      UnpinWrite(cs);
      StillLive(cs, k);
      BackInShape();
      NonePinnedInSuffix(cs, k);
    }

    method UnpinWrite(ghost cs: seq<Chain>)
      requires nBuffers <= |cs| && IsSegment(cs[..nBuffers], firstPinned)
      requires forall c :: c in cs[..nBuffers] ==> c.pins == {W}
      requires forall c :: c in cs[nBuffers..] ==> c.pins == {}
      modifies this`writeInProgress, this`refcnt
      modifies (set c | c in cs)`pins, (set c | c in cs)`dangling, (set c | c in cs)`freed
      ensures !writeInProgress && refcnt == old(refcnt) - 1
      ensures forall c :: c in cs ==> c.pins == {} && c.dangling == old(c.dangling)
      ensures forall c :: c in cs ==> c.freed == old(c.freed) + if c.dangling && old(c.pins) != {} then 1 else 0
    {
      hide IsSegment;
      PinRelease(W, cs[..nBuffers]);
      writeInProgress := false;
      refcnt := refcnt - 1;
      assert forall c :: c in cs ==> c in cs[..nBuffers] || c in cs[nBuffers..];
    }

    /** `evbuffer_commit_write` */
    method CommitWrite(nBytes: nat)
      requires Valid() && writeInProgress
      modifies this, (set c | c in chains)`dangling, (set c | c in chains)`freed, (set c | c in chains)`misalign,
        (set c | c in chains)`off, (set c | c in chains)`pins
      ensures Valid() && Unpinned() && !writeInProgress && !readInProgress && !freezeStart
      ensures refcnt == old(refcnt) - 1 && freezeEnd == old(freezeEnd)
      ensures Contents() == Drop(old(Contents()), nBytes)
      ensures var k := if old(totalLen) == 0 then 0 else Dropped(old(Offs(chains)), nBytes);
              chains == old(chains)[k..] && forall c :: c in old(chains)[..k] ==> c.freed == 1 && c.pins == {}
    {
      hide *;
      ghost var cs := chains;
      ValidIs();
      WriteFacts();
      DrainedUnpinned(nBytes);
      ghost var k := Drained(nBytes);
      UnfreezeAndDrain(nBytes);
      ReleaseDrained(cs, k);
      IdleIsValid();
    }

    method UnfreezeAndDrain(len: nat)
      requires Shaped() && Drainable()
      modifies this`freezeStart, this`chains, this`first, this`last, this`totalLen, this`lastWithData,
        (set c | c in chains)`dangling, (set c | c in chains)`freed, (set c | c in chains)`misalign,
        (set c | c in chains)`off
      ensures !freezeStart && Shaped() && Contents() == Drop(old(Contents()), len)
      ensures old(Drained(len)) <= |old(chains)| && chains == old(chains)[old(Drained(len))..]
      ensures FreedTo(old(chains), old(Drained(len)))
    {
      hide *;
      freezeStart := false;
      var r := Drain(len);
    }

    lemma WriteFacts()
      requires Shaped() && WriteInFlight()
      ensures nBuffers <= |chains| && IsSegment(chains[..nBuffers], firstPinned)
      ensures forall c :: c in chains[..nBuffers] ==> c.pins == {W}
      ensures forall c :: c in chains[nBuffers..] ==> c.pins == {}
      ensures forall c :: c in chains ==> R !in c.pins
    {
      PrefixIsSegment(chains, first, nBuffers);
      assert forall c :: c in chains ==> c in chains[..nBuffers] || c in chains[nBuffers..];
    }

    // ----- the end of a read

    method AddTo(chain: Chain, len: nat, ghost cs: seq<Chain>, ghost done: seq<nat>, ghost offs: seq<nat>)
      requires FilledTo(cs, done, offs) && |done| < |cs| && chain == cs[|done|]
      modifies chain`off, this`lastWithData
      ensures FilledTo(cs, done + [offs[|done|] + len], offs) && lastWithData == chain
    {
      chain.off := chain.off + len;
      lastWithData := chain;
    }

    /** The loop of `evbuffer_commit_read`, over the chains from the first one read into. */
    method FillChains(head: Chain?, nBytes: nat, ghost cs: seq<Chain>, ghost lens: seq<nat>)
      requires IsList(cs, head) && nBuffers == |lens| <= |cs| && nBuffers <= buffers.Length
      requires forall j :: 0 <= j < nBuffers ==> buffers[j].len == lens[j]
      modifies this`lastWithData, (set c | c in cs)`off
      ensures IsAfterRead(old(Offs(cs)), 0, lens, nBytes, Offs(cs))
      ensures lastWithData == LastReceiver(cs, old(lastWithData), 0, lens, nBytes)
    {
      hide *;
      ghost var offs, was := Offs(cs), lastWithData;
      ghost var done: seq<nat> := [];
      NothingFilled(cs, head);
      FillingStarts(offs, lens, nBytes);
      var chain, remaining, i := head, nBytes, 0;
      assert cs[0..] == cs;
      while remaining > 0 && i < nBuffers
        invariant 0 <= remaining && i <= nBuffers && |done| == i
        invariant IsList(cs[i..], chain) && FilledTo(cs, done, offs)
        invariant Filling(offs, lens, nBytes, done, remaining)
        invariant lastWithData == if i == 0 then was else cs[i - 1]
        decreases nBuffers - i
      {
        ListStep(cs, i, chain);
        FillingStep(offs, lens, nBytes, done, remaining);
        var len := buffers[i].len;
        if remaining < len {
          len := remaining;
        }
        AddTo(chain, len, cs, done, offs);
        done := done + [offs[i] + len];
        remaining := remaining - len;
        chain := chain.next;
        i := i + 1;
      }
      FilledIsOffs(cs, done, offs);
      FillingEnds(offs, lens, nBytes, done, remaining);
      LastFilled(cs, was, lens, nBytes, i);
    }

    lemma ReadFacts()
      requires Shaped() && ReadInFlight()
      ensures var f := ReadStart();
              && chains != [] && f + nBuffers <= |chains| && nBuffers <= buffers.Length
              && lastWithData == chains[LastWithData(Offs(chains))]
              && f == LastWithData(Offs(chains)) + (if R in lastWithData.pins then 0 else 1)
              && Fits(chains, Offs(chains), f, Offered())
    {
      hide Shaped, IsList, Offs, LastWithData, Fits, Offered;
      ShapedFacts();
    }

    lemma ReadPins(f: nat)
      requires ReadPinned() && f == ReadStart()
      ensures f + nBuffers <= |chains|
      ensures forall c :: c in chains[f..f + nBuffers] ==> c.pins == {R}
      ensures forall c :: c in chains ==> c in chains[f..f + nBuffers] || c.pins == {}
    {
      hide ReadStart;
      assert forall k :: f <= k < f + nBuffers ==> chains[k] == chains[f..f + nBuffers][k - f];
    }

    /** Where the chains of a read are in the list. */
    lemma ReadPlace()
      requires Shaped() && ReadInFlight()
      ensures var f := ReadStart();
              && f + nBuffers <= |chains|
              && lastWithData != null
              && IsList(chains[f..], if R in lastWithData.pins then lastWithData else lastWithData.next)
              && IsSegment(chains[f..f + nBuffers], firstPinned)
    {
      hide Shaped, IsList, IsSegment, Offs, LastWithData, DescribesSpace;
      ShapedFacts();
      PlaceInList(chains, first, LastWithData(Offs(chains)), ReadStart(), nBuffers, firstPinned);
    }

    lemma ReadIsApart()
      requires Shaped() && ReadInFlight()
      ensures forall c :: c in chains[..ReadStart()] ==> c !in chains[ReadStart()..]
    {
      hide IsSegment, Offs, LastWithData, DescribesSpace, IsList;
      ListIsDistinct(chains, first);
    }

    lemma DescribesAt(f: nat, j: nat)
      requires DescribesSpace(f) && j < nBuffers
      ensures j < |Offered()| && buffers[j].len == Offered()[j]
      ensures buffers[j].chain == chains[f + j] && buffers[j].start == chains[f + j].misalign + chains[f + j].off
      ensures buffers[j].start + buffers[j].len <= chains[f + j].memory.Length
    {
      hide Fits;
      FitsAt(chains, Offs(chains), f, Offered(), j);
      LensAt(buffers[..nBuffers], j);
      OffsAt(chains, f + j);
    }

    lemma RoomOf(f: nat, k: nat)
      requires DescribesSpace(f) && f <= k < f + nBuffers
      ensures f + nBuffers <= |chains| && nBuffers <= buffers.Length
      ensures var room := Rooms(buffers[..nBuffers])[k - f];
              IsAt(chains[k], Offs(chains)[k], |room|, room)
    {
      hide DescribesSpace, Rooms, Offs;
      DescribedSizes(f);
      DescribesAt(f, k - f);
      RoomsAt(buffers[..nBuffers], k - f);
      OffsAt(chains, k);
    }

    lemma DescribedSizes(f: nat)
      requires DescribesSpace(f)
      ensures f + nBuffers <= |chains| && nBuffers <= buffers.Length
    {
    }

    lemma HoldsBefore(f: nat)
      requires DescribesSpace(f) && forall c :: c in chains ==> c.misalign + c.off <= c.memory.Length
      ensures nBuffers <= buffers.Length && Incoming() == Flatten(Rooms(buffers[..nBuffers]))
      ensures Offered() == Lengths(Rooms(buffers[..nBuffers]))
      ensures Holds(chains, Offs(chains), Datas(chains), f, Rooms(buffers[..nBuffers]))
    {
      hide Offs, Datas, LensOf, IsAt, Rooms, DescribesSpace, Flatten, Lengths;
      DescribedSizes(f);
      forall k | 0 <= k < |chains| ensures IsAt(chains[k], 0, Offs(chains)[k], Datas(chains)[k]) {
        OffsAt(chains, k);
        DatasAt(chains, k);
        DataIsAt(chains[k]);
      }
      forall k | f <= k < f + nBuffers
        ensures var room := Rooms(buffers[..nBuffers])[k - f]; IsAt(chains[k], Offs(chains)[k], |room|, room) {
        RoomOf(f, k);
      }
      forall j | 0 <= j < nBuffers
        ensures buffers[j].chain != null && buffers[j].start + buffers[j].len <= buffers[j].chain.memory.Length {
        DescribesAt(f, j);
      }
      RoomsLengths(buffers[..nBuffers]);
    }

    /** The bytes that arrived come right behind the contents. */
    lemma ContentsGrow(offs: seq<nat>, datas: seq<seq<byte>>, f: nat, rooms: seq<seq<byte>>, n: nat)
      requires Holds(chains, offs, datas, f, rooms)
      requires IsAfterRead(offs, f, Lengths(rooms), n, Offs(chains)) && LastWithData(offs) <= f
      ensures Contents() == Grown(Flatten(datas), Flatten(rooms), n)
    {
      hide IsAfterRead, Offs, Datas, Appended, Pieces, Lengths, Flatten, LastWithData, IsAt;
      DataGrows(chains, offs, datas, f, rooms, n);
      PiecesArePrefix(rooms, n);
      forall k | f < k < |datas| ensures datas[k] == [] {
        ZeroAfterLast(offs, k);
        NoData(chains[k], offs[k], datas[k]);
      }
      FlattenAppended(datas, f, Pieces(rooms, n));
    }

    /** The part of `evbuffer_commit_read` that hands the bytes out to the chains. */
    method HandOut(nBytes: nat)
      requires Shaped() && ReadInFlight()
      modifies this`lastWithData, this`freezeEnd, (set c | c in chains)`off
      ensures !freezeEnd
      ensures IsAfterRead(old(Offs(chains)), old(ReadStart()), Offered(), nBytes, Offs(chains))
      ensures lastWithData == LastReceiver(chains, old(lastWithData), old(ReadStart()), Offered(), nBytes)
    {
      hide Shaped, ReadInFlight, ReadStart, IsList, IsSegment, LastWithData, Offs, AfterRead, LensOf, Visited, Fits;
      ReadFacts();
      ReadPlace();
      ReadIsApart();
      ghost var f, lens, offs := ReadStart(), Offered(), Offs(chains);
      freezeEnd := false;
      var chain := lastWithData;
      if R !in chain.pins {
        chain := chain.next;
      }
      OffsSplit(chains, f);
      ghost var front := Offs(chains[..f]);
      LensAre(buffers[..nBuffers]);
      FillChains(chain, nBytes, chains[f..], lens);
      assert front == Offs(chains[..f]);
      OffsSplit(chains, f);
      AfterReadShift(offs, f, lens, nBytes);
    }

    /** What it does to the contents. */
    method Receive(nBytes: nat)
      requires Shaped() && ReadInFlight()
      modifies this`lastWithData, this`freezeEnd, (set c | c in chains)`off
      ensures !freezeEnd
      ensures Filled(old(Offs(chains)), old(ReadStart()), old(Offered()), nBytes, old(lastWithData))
      ensures Contents() == Grown(old(Contents()), old(Incoming()), nBytes)
    {
      hide *;
      ReadFacts();
      ShapedFacts();
      ghost var f, offs, was := ReadStart(), Offs(chains), lastWithData;
      ghost var datas, rooms := Datas(chains), Rooms(buffers[..nBuffers]);
      InFlightDescribes();
      HoldsBefore(f);
      ContentsAre();
      HandOut(nBytes);
      ContentsGrow(offs, datas, f, rooms, nBytes);
      IsFilled(offs, f, Offered(), nBytes, was);
    }

    /** The buffer after n bytes were handed out. */
    ghost predicate Filled(offs: seq<nat>, f: nat, lens: seq<nat>, n: nat, was: Chain?)
      reads this`chains, this`first, this`last, this`lastWithData,
        (set c | c in chains)`next, (set c | c in chains)`off, (set c | c in chains)`misalign
    {
      && IsList(chains, first) && buffers.Length == MAX_WSABUFS && chains != [] && last == chains[|chains| - 1]
      && |offs| == |chains| && IsAfterRead(offs, f, lens, n, Offs(chains)) && LastWithData(offs) <= f
      && was == chains[LastWithData(offs)] && lastWithData == LastReceiver(chains, was, f, lens, n)
      && Fits(chains, offs, f, lens) && forall c :: c in chains ==> 0 < c.memory.Length
    }

    lemma IsFilled(offs: seq<nat>, f: nat, lens: seq<nat>, n: nat, was: Chain?)
      requires IsList(chains, first) && buffers.Length == MAX_WSABUFS && chains != [] && last == chains[|chains| - 1]
      requires |offs| == |chains| && IsAfterRead(offs, f, lens, n, Offs(chains)) && LastWithData(offs) <= f
      requires was == chains[LastWithData(offs)] && lastWithData == LastReceiver(chains, was, f, lens, n)
      requires Fits(chains, offs, f, lens) && forall c :: c in chains ==> 0 < c.memory.Length
      ensures Filled(offs, f, lens, n, was)
    {
      hide IsList, Offs, LastWithData, LastReceiver, Fits, IsAfterRead;
    }

    lemma InFlightDescribes()
      requires ReadInFlight()
      ensures DescribesSpace(ReadStart())
    {
    }

    lemma ContentsAre()
      ensures Contents() == Flatten(Datas(chains))
    {
    }

    lemma FilledSum(offs: seq<nat>, f: nat, lens: seq<nat>, n: nat, was: Chain?)
      requires Filled(offs, f, lens, n, was) && totalLen == Sum(offs) + n
      ensures IsAfterRead(offs, f, lens, n, Offs(chains))
      ensures n <= Sum(lens) <==> totalLen == Sum(Offs(chains))
    {
      hide Offs, AfterRead, Sum, IsList, Fits, LastWithData;
      AfterReadSum(offs, f, lens, n);
    }

    /** The n chains from number f on are pinned for reading, and no others. */
    ghost predicate Held(f: nat)
      reads this`chains, this`nBuffers, this`firstPinned,
        (set c | c in chains)`next, (set c | c in chains)`pins, (set c | c in chains)`dangling,
        (set c | c in chains)`freed
    {
      && f + nBuffers <= |chains| && IsSegment(chains[f..f + nBuffers], firstPinned)
      && (forall c :: c in chains[f..f + nBuffers] ==> c.pins == {R})
      && (forall c :: c in chains ==> c in chains[f..f + nBuffers] || c.pins == {})
      && (forall c :: c in chains ==> Live(c))
    }

    lemma ReadHolds()
      requires Shaped() && ReadInFlight()
      ensures Held(ReadStart()) && totalLen == Sum(Offs(chains))
    {
      hide Shaped, ReadPinned, DescribesSpace, ReadStart, IsList, IsSegment, Offs, LastWithData, Sum;
      ReadPins(ReadStart());
      ReadPlace();
      ShapedFacts();
    }

    lemma ValidReading()
      requires Valid() && readInProgress
      ensures Shaped() && ReadInFlight() && !writeInProgress && freezeEnd
    {
    }

    lemma IdleIsValid()
      requires Shaped() && Unpinned() && !readInProgress && !writeInProgress
      ensures Valid()
    {
    }

    /** `evbuffer_commit_read` */
    method CommitRead(nBytes: nat)
      requires Valid() && readInProgress
      modifies this`lastWithData, this`freezeEnd, this`readInProgress, this`totalLen, this`refcnt,
        (set c | c in chains)`off, (set c | c in chains)`pins, (set c | c in chains)`dangling,
        (set c | c in chains)`freed
      ensures chains == old(chains) && Unpinned() && !readInProgress && !writeInProgress && !freezeEnd
      ensures freezeStart == old(freezeStart) && refcnt == old(refcnt) - 1 && totalLen == old(totalLen) + nBytes
      ensures IsAfterRead(old(Offs(chains)), old(ReadStart()), old(Offered()), nBytes, Offs(chains))
      ensures Contents() == Grown(old(Contents()), old(Incoming()), nBytes) && Incoming() == old(Incoming())
      ensures nBytes <= Sum(old(Offered())) <==> totalLen == Sum(Offs(chains))
      ensures nBytes <= Sum(old(Offered())) ==> Valid()
    {
      hide *;
      ValidReading();
      ReadHolds();
      ghost var f, lens, offs, was := ReadStart(), Offered(), Offs(chains), lastWithData;
      ghost var bs, rooms := InUse(), Rooms(InUse());
      RoomsDescribe();
      IncomingIs(chains, rooms);
      Receive(nBytes);
      ReleaseRead(f, nBytes);
      assert InUse() == bs && Describe(chains, bs, rooms);
      IncomingIs(chains, rooms);
      FilledSum(offs, f, lens, nBytes, was);
      if nBytes <= Sum(lens) {
        ReadInShape(offs, f, lens, nBytes, was);
        IdleIsValid();
      }
    }

    /** The descriptors in use. */
    ghost function InUse(): seq<WsaBuf>
      reads this`nBuffers, buffers
    {
      if nBuffers <= buffers.Length then buffers[..nBuffers] else []
    }

    /** They describe memory of these chains, and what it holds. */
    ghost predicate Describe(cs: seq<Chain>, bs: seq<WsaBuf>, rooms: seq<seq<byte>>)
      reads set c | c in cs :: c.memory
    {
      |bs| == |rooms| && forall j :: 0 <= j < |bs| ==> bs[j].chain in cs && Bytes(bs[j]) == rooms[j]
    }

    lemma RoomsDescribe()
      requires ReadInFlight()
      ensures Describe(chains, InUse(), Rooms(InUse()))
    {
      hide Rooms, Bytes, Offs, Fits, Offered, ReadStart;
      forall j | 0 <= j < nBuffers ensures Bytes(InUse()[j]) == Rooms(InUse())[j] {
        RoomsAt(InUse(), j);
      }
    }

    lemma IncomingIs(cs: seq<Chain>, rooms: seq<seq<byte>>)
      requires Describe(cs, InUse(), rooms)
      ensures Incoming() == Flatten(rooms)
    {
      hide Rooms, Bytes;
      RoomsAre(InUse(), rooms);
    }

    lemma IncomingLength()
      requires Valid() && readInProgress
      ensures |Incoming()| == Sum(Offered())
    {
      hide *;
      ValidReading();
      ShapedFacts();
      InFlightDescribes();
      HoldsBefore(ReadStart());
      FlattenLength(Rooms(buffers[..nBuffers]));
    }

    /** The rest of `evbuffer_commit_read`. */
    method ReleaseRead(ghost f: nat, nBytes: nat)
      requires Held(f)
      modifies this`readInProgress, this`totalLen, this`refcnt
      modifies (set c | c in chains)`pins, (set c | c in chains)`dangling, (set c | c in chains)`freed
      ensures Unpinned() && forall c :: c in chains ==> Live(c)
      ensures !readInProgress && totalLen == old(totalLen) + nBytes && refcnt == old(refcnt) - 1
      ensures Offs(chains) == old(Offs(chains)) && Contents() == old(Contents())
    {
      hide IsSegment, Offs, Contents, AllBytes;
      PinRelease(R, chains[f..f + nBuffers]);
      readInProgress := false;
      totalLen := totalLen + nBytes;
      refcnt := refcnt - 1;
    }

    lemma ReadInShape(offs: seq<nat>, f: nat, lens: seq<nat>, n: nat, was: Chain?)
      requires Filled(offs, f, lens, n, was) && n <= Sum(lens) && totalLen == Sum(offs) + n
      requires forall c :: c in chains ==> Live(c)
      ensures Shaped()
    {
      hide IsList, Offs, AfterRead, LastWithData, Visited, Sum, Fits, Shaped;
      AfterReadSum(offs, f, lens, n);
      AfterReadLast(offs, f, lens, n);
      VisitedSome(lens, n);
      StillFits(chains, offs, f, lens, n);
      BackInShape();
    }

    lemma EmptyContents()
      requires Shaped() && totalLen == 0
      ensures Contents() == []
    {
      OffsAreLengths(chains);
      FlattenLength(Datas(chains));
    }

    // ----- making room for a read

    /** The chain number of the first chain that a read can put bytes into; |chains| if there is none. */
    ghost function Tail(): nat
      reads this`chains, (set c | c in chains)`off, (set c | c in chains)`misalign
    {
      if chains == [] then 0 else TailOf(Spaces(chains), LastWithData(Offs(chains)))
    }

    ghost function TailSpaces(): seq<nat>
      reads this`chains, (set c | c in chains)`off, (set c | c in chains)`misalign
    {
      if chains == [] then [] else Spaces(chains)[Tail()..]
    }

    /** The list can be cut off behind its first `keep` chains: what follows holds no data. */
    ghost predicate Cuttable(keep: nat)
      reads this`chains, this`first, this`lastWithData, this`totalLen, (set c | c in chains)`next,
        (set c | c in chains)`off, (set c | c in chains)`misalign, (set c | c in chains)`pins,
        (set c | c in chains)`dangling, (set c | c in chains)`freed
    {
      && IsList(chains, first) && buffers.Length == MAX_WSABUFS && keep <= |chains|
      && lastWithData == (if chains == [] then null else chains[LastWithData(Offs(chains))])
      && Loose(chains, keep, totalLen)
    }

    method SetLinks(prev: Chain?, chain: Chain?, ghost keep: nat)
      requires IsList(chains, first) && keep <= |chains| && prev == (if keep == 0 then null else chains[keep - 1])
      requires chain != null ==> chain !in chains && chain.next == null
      modifies this`chains, this`first, this`last, this`lastWithData, (set c | c in chains)`next
      ensures chains == Cut(old(chains), keep, chain) && IsList(chains, first)
      ensures last == if chains == [] then null else chains[|chains| - 1]
      ensures lastWithData == if keep == 0 then chain else old(lastWithData)
    {
      hide IsList;
      ListIsLinked(chains, first);
      if prev == null {
        first := chain;
        lastWithData := chain;
      } else {
        prev.next := chain;
      }
      last := if chain == null then prev else chain;
      chains := Cut(chains, keep, chain);
      LinkedIsList(chains, first);
    }

    /** Puts a new chain, or none, behind the first `keep` chains. */
    method Splice(prev: Chain?, chain: Chain?, ghost keep: nat)
      requires Cuttable(keep) && keep <= |chains| && prev == (if keep == 0 then null else chains[keep - 1])
      requires chain != null ==> chain !in chains && IsNew(chain) && chain.next == null
      modifies this`chains, this`first, this`last, this`lastWithData, (set c | c in chains)`next
      ensures chains == Cut(old(chains), keep, chain) && Shaped() && Unpinned() && Contents() == old(Contents())
      ensures Spaces(chains) == old(Spaces(chains))[..keep] + if chain == null then [] else [chain.memory.Length]
      ensures chains != [] ==> LastWithData(Offs(chains)) == if keep == 0 then 0 else old(LastWithData(Offs(chains)))
    {
      hide *;
      CuttableFacts(keep);
      ContentsAre();
      ghost var cs, datas, spaces, w := chains, Datas(chains), Spaces(chains), LastWithData(Offs(chains));
      SetLinks(prev, chain, keep);
      assert Datas(cs) == datas && Spaces(cs) == spaces && LastWithData(Offs(cs)) == w;
      SplicedInShape(cs, keep, chain);
      OffsOfCut(cs, keep, chain);
    }

    lemma CuttableFacts(keep: nat)
      requires Cuttable(keep)
      ensures IsList(chains, first) && keep <= |chains| && Loose(chains, keep, totalLen)
      ensures buffers.Length == MAX_WSABUFS
      ensures lastWithData == (if chains == [] then null else chains[LastWithData(Offs(chains))])
    {
    }

    lemma SplicedInShape(cs: seq<Chain>, keep: nat, chain: Chain?)
      requires keep <= |cs| && Loose(cs, keep, totalLen) && (chain != null ==> IsNew(chain))
      requires chains == Cut(cs, keep, chain) && IsList(chains, first) && buffers.Length == MAX_WSABUFS
      requires last == if chains == [] then null else chains[|chains| - 1]
      requires lastWithData == if keep == 0 then chain else cs[LastWithData(Offs(cs))]
      ensures Shaped() && Unpinned() && Contents() == Flatten(Datas(cs))
      ensures chains != [] ==> LastWithData(Offs(chains)) == if keep == 0 then 0 else LastWithData(Offs(cs))
    {
      hide *;
      LooseFacts(cs, keep, totalLen);
      CutKeepsData(cs, keep, chain);
      CutIsSound(cs, keep, chain);
      CutAt(cs, keep, chain, LastWithData(Offs(cs)));
      BackInShape();
      NonePinned();
      ContentsAre();
    }

    lemma NonePinned()
      requires forall c :: c in chains ==> c.pins == {}
      ensures Unpinned()
    {
    }

    // ----- counting free space

    /** The space of one chain, which is realigned if it is empty. */
    method Examine(chain: Chain, ghost cs: seq<Chain>, ghost spaces: seq<nat>, ghost datas: seq<seq<byte>>,
                   ghost w: nat, ghost i: nat)
        returns (space: nat)
      requires Scanned(cs, spaces, datas, w, i) && i < |cs| && chain == cs[i]
      modifies chain`misalign
      ensures Scanned(cs, spaces, datas, w, i + 1) && i < |spaces| && space == spaces[i]
    {
      assert chain in cs && Space(chain) == spaces[i];
      if chain.off != 0 {
        space := chain.memory.Length - chain.misalign - chain.off;
      } else {
        EmptyData(chain);
        chain.misalign := 0;
        EmptyData(chain);
        space := chain.memory.Length;
      }
    }

    /** For a read of len bytes: the chains that will be described are aligned. */
    ghost predicate Ready(len: nat)
      reads this`chains, (set c | c in chains)`off, (set c | c in chains)`misalign
    {
      && chains != [] && Aligned(chains[LastWithData(Offs(chains))])
      && forall k :: Tail() <= k < |chains| && Sum(TailSpaces()[..k - Tail()]) < len ==> Aligned(chains[k])
    }

    lemma SpaceBehind()
      requires Shaped() && chains != []
      ensures RoomBehind(Spaces(chains), LastWithData(Offs(chains)))
    {
      hide Offs, LastWithData, Spaces;
      ShapedFacts();
      forall k | LastWithData(Offs(chains)) < k < |chains| ensures Spaces(chains)[k] > 0 {
        ZeroAfterLast(Offs(chains), k);
        OffsAt(chains, k);
        SpacesAt(chains, k);
      }
    }

    /** The loop of `_evbuffer_expand_fast`, from chain number w on: how many chains have space, and how much. */
    method CountSpace(len: nat, ghost cs: seq<Chain>, ghost spaces: seq<nat>, ghost datas: seq<seq<byte>>, ghost w: nat)
        returns (used: nat, avail: nat, ghost i: nat)
      requires w < |cs| == |spaces| && IsList(cs[w..], lastWithData) && Scanned(cs, spaces, datas, w, w)
      requires Counted(spaces, w, w, 0, 0) && RoomBehind(spaces, w)
      modifies (set c | c in cs)`misalign
      ensures w < i && Scanned(cs, spaces, datas, w, i) && Counted(spaces, w, i, used, avail)
      ensures used <= MAX_WSABUFS && (avail >= len || used == MAX_WSABUFS || i == |cs|)
    {
      hide *;
      Sixteen();
      var chain := lastWithData;
      used, avail, i := 0, 0, w;
      while chain != null
        invariant w <= i <= |cs| && IsList(cs[i..], chain)
        invariant Scanned(cs, spaces, datas, w, i) && Counted(spaces, w, i, used, avail) && used < MAX_WSABUFS
        decreases |cs| - i
      {
        ListStep(cs, i, chain);
        CountingStep(spaces, w, i, used, avail);
        var space := Examine(chain, cs, spaces, datas, w, i);
        if space != 0 {
          avail := avail + space;
          used := used + 1;
        }
        i := i + 1;
        if avail >= len || used == MAX_WSABUFS {
          return;
        }
        chain := chain.next;
      }
      ListStep(cs, i, chain);
    }

    lemma ReadyWhenCounted(spaces: seq<nat>, datas: seq<seq<byte>>, w: nat, i: nat, used: nat, avail: nat, len: nat)
      requires Scanned(chains, spaces, datas, w, i) && Counted(spaces, w, i, used, avail) && w < i && len <= avail
      requires w == LastWithData(Offs(chains))
      ensures Ready(len)
    {
      hide Offs, Spaces, Datas, LastWithData, Sum, Aligned, Counted, TailOf;
      ScannedSame(chains, spaces, datas, w, i);
      forall k | Tail() <= k < |chains| && Sum(TailSpaces()[..k - Tail()]) < len ensures Aligned(chains[k]) {
        if i <= k {
          CountedBefore(spaces, w, i, used, avail, k);
        }
      }
    }

    lemma AlignedWhenScanned(spaces: seq<nat>, datas: seq<seq<byte>>, w: nat)
      requires Scanned(chains, spaces, datas, w, |chains|)
      ensures AllAligned(chains, w, |chains|)
    {
    }

    lemma TailIs(w: nat)
      requires chains != [] && w == LastWithData(Offs(chains))
      ensures Tail() == TailOf(Spaces(chains), w) <= |chains| && TailSpaces() == Spaces(chains)[Tail()..]
    {
    }

    /** The count, and what it means for the buffer. */
    method MeasureSpace(len: nat) returns (used: nat, avail: nat)
      requires Shaped() && Unpinned() && chains != []
      modifies (set c | c in chains)`misalign
      ensures Shaped() && Unpinned() && Contents() == old(Contents())
      ensures Spaces(chains) == old(Spaces(chains)) && Offs(chains) == old(Offs(chains))
      ensures avail >= len ==> Enough(TailSpaces(), len) && Ready(len)
      ensures avail < len ==> !Enough(TailSpaces(), len) && used <= MAX_WSABUFS
      ensures avail < len && used == MAX_WSABUFS ==> |TailSpaces()| >= MAX_WSABUFS
      ensures avail < len && used < MAX_WSABUFS ==>
                && |TailSpaces()| < MAX_WSABUFS && avail == Sum(TailSpaces())
                && AllAligned(chains, LastWithData(Offs(chains)), |chains|)
    {
      hide *;
      ShapedFacts();
      ContentsAre();
      ghost var w, spaces, datas := LastWithData(Offs(chains)), Spaces(chains), Datas(chains);
      NothingScanned(chains, w);
      CountingStarts(spaces, w);
      SpaceBehind();
      ListSuffix(chains, first, w);
      ghost var i;
      used, avail, i := CountSpace(len, chains, spaces, datas, w);
      ScannedSame(chains, spaces, datas, w, i);
      ContentsAre();
      BackInShape();
      TailIs(w);
      CountingEnds(spaces, w, i, used, avail, len);
      if avail >= len {
        ReadyWhenCounted(spaces, datas, w, i, used, avail, len);
      } else if used < MAX_WSABUFS {
        AlignedWhenScanned(spaces, datas, w);
      }
    }

    // ----- `_evbuffer_expand_fast`

    /** The chain the free space starts in holds data, so that it survives when the empty chains are replaced. */
    ghost predicate KeepsFirst()
      reads this`chains, (set c | c in chains)`off, (set c | c in chains)`misalign
    {
      chains != [] && Spaces(chains)[LastWithData(Offs(chains))] > 0 && Offs(chains)[LastWithData(Offs(chains))] > 0
    }

    /** The space at the end of the buffer after room was made for len bytes. */
    ghost function AfterExpansion(len: nat): seq<nat>
      reads this`chains, (set c | c in chains)`off, (set c | c in chains)`misalign
    {
      if chains == [] then [Capacity(len)] else Expanded(TailSpaces(), KeepsFirst(), len)
    }

    ghost predicate NeedsChain(len: nat)
      reads this`chains, (set c | c in chains)`off, (set c | c in chains)`misalign
    {
      chains == [] || !Enough(TailSpaces(), len)
    }

    /** An empty buffer gets its first chain. */
    method StartList(len: nat)
      requires Shaped() && Unpinned() && chains == []
      modifies this`chains, this`first, this`last, this`lastWithData
      ensures Shaped() && Unpinned() && Contents() == old(Contents())
      ensures |chains| == 1 && fresh(chains[0])
      ensures TailSpaces() == [Capacity(len)] && Ready(len)
    {
      hide *;
      ShapedFacts();
      var chain := new Chain(Capacity(len));
      NewChain(chain, len);
      NoChains();
      CuttableWhenShaped(0);
      CutAt(chains, 0, chain, 0);
      ghost var spaces := Spaces(chains);
      Splice(null, chain, 0);
      assert spaces[..0] == [];
      OneChain(len);
    }

    lemma NoChains()
      requires Shaped() && chains == []
      ensures totalLen == 0 && first == null && last == null
    {
    }

    lemma OneChain(len: nat)
      requires |chains| == 1 && Spaces(chains) == [] + [Capacity(len)] && IsNew(chains[0])
      requires LastWithData(Offs(chains)) == 0
      ensures TailSpaces() == [Capacity(len)] && Ready(len)
    {
      hide Capacity, Offs, Spaces, LastWithData;
    }

    lemma CuttableWhenShaped(keep: nat)
      requires Shaped() && Unpinned() && keep <= |chains|
      requires if keep == 0 then totalLen == 0 else LastWithData(Offs(chains)) < keep
      ensures Cuttable(keep)
    {
      hide IsList, Offs, LastWithData, Sum;
    }

    lemma AfterExpansionIs(len: nat)
      requires chains != []
      ensures AfterExpansion(len) == Expanded(TailSpaces(), KeepsFirst(), len)
      ensures KeepsFirst() ==> TailSpaces() != []
      ensures var w := LastWithData(Offs(chains));
              KeepsFirst() == (Offs(chains)[w] > 0 && Spaces(chains)[w] > 0)
    {
      hide Expanded;
    }

    /** After a new chain was put behind chains that are aligned from the last one with data on. */
    lemma CutIsReady(cs: seq<Chain>, keep: nat, chain: Chain, w: nat, len: nat)
      requires keep <= |cs| && chains == Cut(cs, keep, chain) && Aligned(chain)
      requires w == LastWithData(Offs(chains)) && AllAligned(cs, w, keep) && if keep == 0 then w == 0 else w < keep
      ensures Ready(len)
    {
      hide Offs, LastWithData, Aligned, Spaces, Sum;
      forall k | w <= k < |chains| ensures Aligned(chains[k]) {
        assert chains[k] == if k < keep then cs[k] else chain;
      }
    }

    /** A new chain is put behind the first `keep` chains; w is the last one with data of those that stay. */
    method PutChain(prev: Chain?, size: nat, ghost keep: nat, ghost w: nat, ghost len: nat)
      requires Cuttable(keep) && keep <= |chains| && prev == (if keep == 0 then null else chains[keep - 1])
      requires w == (if keep == 0 then 0 else LastWithData(Offs(chains))) && AllAligned(chains, w, keep)
      modifies this`chains, this`first, this`last, this`lastWithData, (set c | c in chains)`next
      ensures Shaped() && Unpinned() && Contents() == old(Contents()) && chains != []
      ensures forall c :: c in chains ==> c in old(chains) || fresh(c)
      ensures forall c :: c in old(chains) ==> c in chains || c in old(chains)[keep..]
      ensures var after := old(Spaces(chains))[..keep] + [Capacity(size)];
              w < |after| && TailSpaces() == after[TailOf(after, w)..] && Ready(len)
    {
      hide *;
      ghost var cs := chains;
      CuttableFacts(keep);
      LooseFacts(chains, keep, totalLen);
      var chain := new Chain(Capacity(size));
      NewChain(chain, size);
      CutAt(cs, keep, chain, 0);
      WhereCut(cs, keep, chain);
      Splice(prev, chain, keep);
      CutIsReady(cs, keep, chain, w, len);
      TailIs(w);
    }

    /** One more chain is put at the end. */
    method AppendChain(len: nat, avail: nat)
      requires Shaped() && Unpinned() && chains != []
      requires !Enough(TailSpaces(), len) && |TailSpaces()| < MAX_WSABUFS && avail == Sum(TailSpaces()) && avail < len
      requires AllAligned(chains, LastWithData(Offs(chains)), |chains|)
      modifies this`chains, this`first, this`last, this`lastWithData, (set c | c in chains)`next
      ensures Shaped() && Unpinned() && Contents() == old(Contents()) && chains != []
      ensures forall c :: c in chains ==> c in old(chains) || fresh(c)
      ensures forall c :: c in old(chains) ==> c in chains
      ensures TailSpaces() == old(AfterExpansion(len)) && Ready(len)
    {
      hide *;
      ShapedFacts();
      ghost var w, spaces := LastWithData(Offs(chains)), Spaces(chains);
      TailIs(w);
      AfterExpansionIs(len);
      ExpandedByOne(spaces, w, KeepsFirst(), len);
      CuttableWhenShaped(|chains|);
      assert spaces[..|chains|] == spaces && chains[|chains|..] == [];
      PutChain(last, len - avail, |chains|, w, len);
    }

    /** The free space behind a chain's data. */
    method SpaceLeft(chain: Chain) returns (space: nat)
      requires chain.misalign + chain.off <= chain.memory.Length && chain.off != 0
      ensures space == Space(chain)
    {
      space := chain.memory.Length - chain.misalign - chain.off;
    }

    /** The empty chains are thrown away. */
    method FreeEmpties(head: Chain?, ghost keep: nat)
      requires Cuttable(keep) && keep <= |chains| && IsList(chains[keep..], head)
      requires forall c :: c in chains ==> Live(c)
      modifies (set c | c in chains[keep..])`dangling, (set c | c in chains[keep..])`freed
      ensures Cuttable(keep)
      ensures forall c :: c in chains[keep..] ==> c.freed == 1
    {
      hide IsList, FreedTo, Offs, LastWithData, Sum;
      ListIsDistinct(chains, first);
      FreedNone(chains[keep..]);
      FreeAll(head, chains[keep..]);
      FreedRest(chains, keep);
    }

    /** Where the empty chains begin: behind the last chain with data, which is the first one if no chain has any. */
    lemma EmptiesBegin(w: nat)
      requires Shaped() && chains != [] && w == LastWithData(Offs(chains))
      ensures lastWithData == chains[w] && lastWithData.off == Offs(chains)[w]
      ensures Space(lastWithData) == Spaces(chains)[w] && (lastWithData.off != 0 ==> Aligned(lastWithData))
      ensures lastWithData.off == 0 ==> w == 0 && totalLen == 0
      ensures IsList(chains, lastWithData) || w != 0
      ensures IsList(chains[w + 1..], lastWithData.next)
      ensures lastWithData.misalign + lastWithData.off <= lastWithData.memory.Length
      ensures forall c :: c in chains ==> Live(c)
    {
      hide Offs, Spaces, LastWithData, IsList, Sum, Shaped;
      ShapedFacts();
      OffsAt(chains, w);
      SpacesAt(chains, w);
      ListSuffix(chains, first, w);
      ListStep(chains, w, lastWithData);
      if Offs(chains)[w] == 0 {
        if w != 0 { LastHasData(Offs(chains)); }
        if Sum(Offs(chains)) > 0 { LastHasSome(Offs(chains)); }
      }
      if w == 0 {
        assert chains[0..] == chains;
      }
    }

    /** Throws the empty chains away, and says what comes before them. */
    method DropEmpties() returns (prev: Chain?, avail: nat, ghost keep: nat)
      requires Shaped() && Unpinned() && chains != []
      modifies (set c | c in chains)`dangling, (set c | c in chains)`freed
      ensures Cuttable(keep) && keep <= |chains| && prev == if keep == 0 then null else chains[keep - 1]
      ensures var w := LastWithData(Offs(chains));
              && keep == (if Offs(chains)[w] == 0 then 0 else w + 1) && (keep == 0 ==> w == 0)
              && avail == (if keep == 0 then 0 else Spaces(chains)[w])
      ensures AllAligned(chains, if keep == 0 then 0 else keep - 1, keep)
      ensures forall c :: c in chains[keep..] ==> c.freed == 1
    {
      hide *;
      ShapedFacts();
      ghost var w := LastWithData(Offs(chains));
      EmptiesBegin(w);
      var chain: Chain? := lastWithData;
      prev, avail, keep := null, 0, 0;
      if chain.off != 0 {
        avail := SpaceLeft(chain);
        prev := chain;
        chain := chain.next;
        keep := w + 1;
      }
      CuttableWhenShaped(keep);
      assert chains[0..] == chains;
      AlignedOne(chains, keep);
      FreeEmpties(chain, keep);
    }

    /** Replaces the empty chains by one, or by none if there is no memory. */
    method ReplaceEmpties(len: nat, allocOk: bool) returns (r: int)
      requires Shaped() && Unpinned() && chains != [] && !Enough(TailSpaces(), len) && |TailSpaces()| >= MAX_WSABUFS
      modifies this`chains, this`first, this`last, this`lastWithData, (set c | c in chains)`next,
        (set c | c in chains)`dangling, (set c | c in chains)`freed
      ensures Shaped() && Unpinned() && Contents() == old(Contents())
      ensures forall c :: c in chains ==> c in old(chains) || fresh(c)
      ensures forall c :: c in old(chains) ==> c in chains || c.freed == 1
      ensures r == if allocOk then 0 else -1
      ensures r == 0 ==> chains != [] && TailSpaces() == old(AfterExpansion(len)) && Ready(len)
    {
      hide *;
      ghost var cs, w := chains, LastWithData(Offs(chains));
      var prev, avail;
      ghost var keep;
      prev, avail, keep := DropEmpties();
      if !allocOk {
        WhereCut(cs, keep, null);
        Splice(prev, null, keep);
        return -1;
      }
      ReplacedTail(len, w, keep, avail);
      PutChain(prev, len - avail, keep, w, len);
      return 0;
    }

    /** The spaces at the end once the chains behind the first `keep` are replaced by one. */
    lemma ReplacedTail(len: nat, w: nat, keep: nat, avail: nat)
      requires chains != [] && !Enough(TailSpaces(), len) && |TailSpaces()| >= MAX_WSABUFS
      requires w == LastWithData(Offs(chains)) && keep == (if Offs(chains)[w] == 0 then 0 else w + 1)
      requires (keep == 0 ==> w == 0) && avail == if keep == 0 then 0 else Spaces(chains)[w]
      ensures avail <= len
      ensures var after := Spaces(chains)[..keep] + [Capacity(len - avail)];
              w < |after| && after[TailOf(after, w)..] == AfterExpansion(len)
    {
      hide *;
      TailIs(w);
      AfterExpansionIs(len);
      ExpandedByReplacing(Spaces(chains), w, len);
      if keep == 0 {
        assert Spaces(chains)[..0] + [Capacity(len)] == [Capacity(len)];
      }
    }

    /** `_evbuffer_expand_fast` for at most 16 chains, given whether memory is available */
    method ExpandFast(len: nat, allocOk: bool) returns (r: int)
      requires Shaped() && Unpinned()
      modifies this`chains, this`first, this`last, this`lastWithData, (set c | c in chains)`next,
        (set c | c in chains)`misalign, (set c | c in chains)`dangling, (set c | c in chains)`freed
      ensures Shaped() && Unpinned() && Contents() == old(Contents())
      ensures forall c :: c in chains ==> c in old(chains) || fresh(c)
      ensures forall c :: c in old(chains) ==> c in chains || c.freed == 1
      ensures r == if old(NeedsChain(len)) && !allocOk then -1 else 0
      ensures r == 0 ==> chains != [] && TailSpaces() == old(AfterExpansion(len)) && Ready(len)
    {
      hide *;
      Expanding(len);
      if last == null {
        if !allocOk {
          return -1;
        }
        StartList(len);
        return 0;
      }
      ghost var spaces, offs := Spaces(chains), Offs(chains);
      ExpansionDependsOn(spaces, offs, len);
      var used, avail := MeasureSpace(len);
      ExpansionDependsOn(spaces, offs, len);
      if avail >= len {
        EnoughStays(len);
        return 0;
      }
      if used < MAX_WSABUFS {
        if !allocOk {
          return -1;
        }
        AppendChain(len, avail);
        return 0;
      }
      r := ReplaceEmpties(len, allocOk);
    }

    lemma Expanding(len: nat)
      requires Shaped()
      ensures last == null <==> chains == []
      ensures chains == [] ==> AfterExpansion(len) == [Capacity(len)]
      ensures NeedsChain(len) == (chains == [] || !Enough(TailSpaces(), len))
    {
      hide IsList, Enough, Capacity, Offs, LastWithData;
    }

    lemma ExpansionDependsOn(spaces: seq<nat>, offs: seq<nat>, len: nat)
      requires chains != [] && Spaces(chains) == spaces && Offs(chains) == offs
      ensures |offs| == |spaces| == |chains|
      ensures var w := LastWithData(offs);
              var tail := spaces[TailOf(spaces, w)..];
              TailSpaces() == tail && AfterExpansion(len) == Expanded(tail, spaces[w] > 0 && offs[w] > 0, len)
    {
      hide Expanded, LastWithData, Offs, Spaces;
    }

    lemma EnoughStays(len: nat)
      requires chains != [] && Enough(TailSpaces(), len)
      ensures AfterExpansion(len) == TailSpaces()
    {
      hide Enough, LastWithData, Offs, Spaces;
    }

    // ----- `_evbuffer_read_setup_vecs`

    /** The first descriptors are for the free space of these chains. */
    ghost predicate DescribesFree(cs: seq<Chain>, lens: seq<nat>)
      reads buffers, (set c | c in cs)`off, (set c | c in cs)`misalign
    {
      && |lens| <= buffers.Length && |lens| <= |cs|
      && forall j :: 0 <= j < |lens| ==>
           && buffers[j] == WsaBuf(cs[j], cs[j].misalign + cs[j].off, lens[j])
           && cs[j].misalign + cs[j].off + lens[j] <= cs[j].memory.Length
    }

    lemma NothingDescribesFree(cs: seq<Chain>)
      ensures DescribesFree(cs, [])
    {
    }

    method DescribeSpace(chain: Chain, n: nat, len: nat, ghost cs: seq<Chain>, ghost lens: seq<nat>)
      requires DescribesFree(cs, lens) && n == |lens| < |cs| && n < buffers.Length && chain == cs[n]
      requires chain.misalign + chain.off + len <= chain.memory.Length
      modifies buffers
      ensures DescribesFree(cs, lens + [len])
    {
      buffers[n] := WsaBuf(chain, chain.misalign + chain.off, len);
    }

    lemma ReadyIsFillable(howMuch: nat)
      requires Shaped() && Ready(howMuch)
      ensures Tail() <= |chains| && Fillable(chains[Tail()..], TailSpaces(), howMuch)
      ensures Aligned(chains[LastWithData(Offs(chains))])
    {
      hide LastWithData, Spaces, Offs, IsList, Sum, TailOf;
      var cs := chains[Tail()..];
      forall n | 0 <= n < |cs| && Sum(TailSpaces()[..n]) < howMuch
        ensures cs[n].misalign + cs[n].off + TailSpaces()[n] == cs[n].memory.Length {
        var k := Tail() + n;
        SpacesAt(chains, k);
        assert Aligned(chains[k]) && chains[k] in chains;
      }
    }

    /** The loop of `_evbuffer_read_setup_vecs` with exact lengths, and the copying of its result to the descriptors. */
    method DescribeSpaces(start: Chain?, howMuch: nat, ghost cs: seq<Chain>, ghost spaces: seq<nat>) returns (n: nat)
      requires IsList(cs, start) && Fillable(cs, spaces, howMuch) && Enough(spaces, howMuch)
      requires buffers.Length == MAX_WSABUFS
      modifies buffers
      ensures n == |Vecs(spaces, howMuch, MAX_WSABUFS)| && DescribesFree(cs, Vecs(spaces, howMuch, MAX_WSABUFS))
    {
      hide *;
      NothingDescribesFree(cs);
      DescribingStarts(spaces, howMuch);
      ghost var lens: seq<nat> := [];
      var chain := start;
      var soFar: nat := 0;
      n := 0;
      assert cs[0..] == cs;
      while n < MAX_WSABUFS && soFar < howMuch
        invariant n == |lens| <= |cs| && n <= MAX_WSABUFS && IsList(cs[n..], chain)
        invariant Describing(spaces, howMuch, lens, soFar) && DescribesFree(cs, lens)
        decreases MAX_WSABUFS - n
      {
        FillableAt(cs, spaces, howMuch, n);
        DescribingGoesOn(spaces, howMuch, lens, soFar);
        DescribingStep(spaces, howMuch, lens, soFar);
        ListStep(cs, n, chain);
        var avail := chain.memory.Length - chain.misalign - chain.off;
        if avail > howMuch - soFar {
          avail := howMuch - soFar;
        }
        DescribeSpace(chain, n, avail, cs, lens);
        lens := lens + [avail];
        soFar := soFar + avail;
        n := n + 1;
        chain := chain.next;
      }
      DescribingEnds(spaces, howMuch, lens, soFar);
    }

    /** The first chain with space. */
    method FirstWithSpace() returns (start: Chain?)
      requires Shaped() && chains != [] && Aligned(chains[LastWithData(Offs(chains))])
      ensures Tail() <= |chains| && IsList(chains[Tail()..], start)
      ensures start == (if Tail() < |chains| then chains[Tail()] else null)
    {
      hide LastWithData, Spaces, Offs, IsList, Sum, Shaped;
      ghost var w := LastWithData(Offs(chains));
      ShapedFacts();
      SpacesAt(chains, w);
      ListSuffix(chains, first, w);
      ListStep(chains, w, chains[w]);
      start := lastWithData;
      if start.memory.Length - start.misalign - start.off == 0 {
        start := start.next;
      }
      ListStep(chains, Tail(), start);
    }

    method SetupVecs(howMuch: nat) returns (n: nat, start: Chain?)
      requires Shaped() && Ready(howMuch) && Enough(TailSpaces(), howMuch) && chains != []
      modifies buffers
      ensures Tail() <= |chains| && IsList(chains[Tail()..], start)
      ensures start == (if Tail() < |chains| then chains[Tail()] else null)
      ensures n == |Vecs(TailSpaces(), howMuch, MAX_WSABUFS)|
      ensures DescribesFree(chains[Tail()..], Vecs(TailSpaces(), howMuch, MAX_WSABUFS))
    {
      hide *;
      ShapedFacts();
      ReadyIsFillable(howMuch);
      start := FirstWithSpace();
      n := DescribeSpaces(start, howMuch, chains[Tail()..], TailSpaces());
    }

    // ----- the start of a read

    method PinOne(chain: Chain, ghost cs: seq<Chain>, ghost n: nat)
      requires PinnedTo(cs, n) && n < |cs| && chain == cs[n]
      modifies chain`pins
      ensures PinnedTo(cs, n + 1)
    {
      chain.pins := chain.pins + {R};
    }

    /** The loop of `evbuffer_launch_read`: all chains to the end of the list are pinned. */
    method PinForRead(start: Chain?, ghost cs: seq<Chain>) returns (npin: nat)
      requires IsList(cs, start) && PinnedTo(cs, 0)
      modifies (set c | c in cs)`pins
      ensures npin == |cs| && PinnedTo(cs, |cs|)
    {
      hide *;
      var chain := start;
      npin := 0;
      assert cs[0..] == cs;
      while chain != null
        invariant npin <= |cs| && IsList(cs[npin..], chain) && PinnedTo(cs, npin)
        decreases |cs| - npin
      {
        ListStep(cs, npin, chain);
        PinOne(chain, cs, npin);
        npin := npin + 1;
        chain := chain.next;
      }
      ListStep(cs, npin, chain);
    }

    lemma TailIsStart()
      requires chains != [] && Tail() <= |chains|
      requires forall k :: 0 <= k < |chains| ==> chains[k].pins == if Tail() <= k then {R} else {}
      ensures ReadStart() == Tail()
    {
      hide Spaces, Offs, LastWithData;
    }

    /** Pinning all chains from `Tail` on makes that the place the read starts at. */
    lemma PinnedFromTail()
      requires chains != [] && Tail() <= |chains|
      requires PinnedTo(chains[Tail()..], |chains| - Tail()) && forall k :: 0 <= k < Tail() ==> chains[k].pins == {}
      requires nBuffers == |chains| - Tail() && (nBuffers > 0 ==> firstPinned == chains[Tail()])
      ensures ReadPinned() && ReadStart() == Tail()
    {
      hide Tail, ReadStart, Distinct;
      var f := Tail();
      forall k | f <= k < |chains| ensures chains[k].pins == {R} {
        assert chains[k] == chains[f..][k - f];
      }
      TailIsStart();
    }

    lemma OffersAre(cs: seq<Chain>, lens: seq<nat>)
      requires DescribesFree(cs, lens) && nBuffers == |lens|
      ensures nBuffers <= buffers.Length && Offered() == lens
    {
      hide LensOf;
      LensAre(buffers[..nBuffers]);
    }

    lemma DescribedFromTail(f: nat, lens: seq<nat>)
      requires f <= |chains| && DescribesFree(chains[f..], lens) && nBuffers == |lens|
      requires forall c :: c in chains ==> c.misalign + c.off <= c.memory.Length
      ensures DescribesSpace(f) && Offered() == lens
    {
      hide Offs, Offered;
      OffersAre(chains[f..], lens);
      forall k | 0 <= k < |chains|
        ensures chains[k].misalign + Offs(chains)[k] + (if f <= k < f + |lens| then lens[k - f] else 0)
                  <= chains[k].memory.Length {
        OffsAt(chains, k);
        if f <= k < f + |lens| {
          assert chains[k] == chains[f..][k - f];
        } else {
          assert chains[k] in chains;
        }
      }
      forall j | 0 <= j < nBuffers
        ensures buffers[j].chain == chains[f + j] && buffers[j].start == chains[f + j].misalign + chains[f + j].off {
        assert chains[f + j] == chains[f..][j];
      }
    }

    /** The part of `evbuffer_launch_read` before the system call; `matched` is what its assertion tests. */
    method BeginRead(atMost: nat) returns (matched: bool)
      requires Shaped() && Unpinned() && chains != [] && Ready(atMost) && Enough(TailSpaces(), atMost)
      modifies this`freezeEnd, this`nBuffers, this`firstPinned, buffers, (set c | c in chains)`pins
      ensures matched <==> |Vecs(TailSpaces(), atMost, MAX_WSABUFS)| == |TailSpaces()|
      ensures Shaped() && freezeEnd
      ensures matched ==>
                ReadInFlight() && nBuffers == |TailSpaces()| && Offered() == Vecs(TailSpaces(), atMost, MAX_WSABUFS)
    {
      hide *;
      ShapedFacts();
      ghost var f, cs, tail := Tail(), chains, TailSpaces();
      var n, start := PrepareRead(atMost);
      ghost var lens := Vecs(tail, atMost, MAX_WSABUFS);
      var npin := PinTail(start, f);
      matched := npin == n;
      TailSize();
      if matched {
        MatchedIsInFlight(lens);
      }
    }

    lemma MatchedIsInFlight(lens: seq<nat>)
      requires Shaped() && chains != [] && Tail() <= |chains|
      requires PinnedTo(chains[Tail()..], |chains| - Tail()) && forall k :: 0 <= k < Tail() ==> chains[k].pins == {}
      requires nBuffers == |lens| == |chains| - Tail()
      requires firstPinned == if Tail() < |chains| then chains[Tail()] else null
      requires DescribesFree(chains[Tail()..], lens)
      ensures ReadInFlight() && Offered() == lens
    {
      hide *;
      ShapedFacts();
      PinnedFromTail();
      DescribedFromTail(Tail(), lens);
      InFlightIs();
    }

    method PinTail(start: Chain?, ghost f: nat) returns (npin: nat)
      requires Shaped() && Unpinned() && f <= |chains| && IsList(chains[f..], start)
      modifies (set c | c in chains)`pins
      ensures npin == |chains| - f && PinnedTo(chains[f..], |chains| - f)
      ensures forall k :: 0 <= k < f ==> chains[k].pins == {}
    {
      hide *;
      UnpinnedFrom(f, start);
      npin := PinForRead(start, chains[f..]);
    }

    method PrepareRead(atMost: nat) returns (n: nat, start: Chain?)
      requires Shaped() && chains != [] && Ready(atMost) && Enough(TailSpaces(), atMost)
      modifies this`freezeEnd, this`nBuffers, this`firstPinned, buffers
      ensures freezeEnd && nBuffers == n && firstPinned == start
      ensures Tail() <= |chains| && IsList(chains[Tail()..], start)
      ensures start == (if Tail() < |chains| then chains[Tail()] else null)
      ensures n == |Vecs(TailSpaces(), atMost, MAX_WSABUFS)|
      ensures DescribesFree(chains[Tail()..], Vecs(TailSpaces(), atMost, MAX_WSABUFS))
    {
      hide *;
      freezeEnd := true;
      n, start := SetupVecs(atMost);
      nBuffers := n;
      firstPinned := start;
    }

    lemma UnpinnedFrom(f: nat, start: Chain?)
      requires Shaped() && Unpinned() && f <= |chains| && IsList(chains[f..], start)
      ensures PinnedTo(chains[f..], 0)
      ensures forall k :: 0 <= k < f ==> chains[k].pins == {} && chains[k] !in chains[f..]
    {
      hide IsList, Offs, LastWithData, Sum;
      ListIsDistinct(chains, first);
      ListIsDistinct(chains[f..], start);
    }

    lemma TailSize()
      requires chains != []
      ensures Tail() <= |chains| && |TailSpaces()| == |chains| - Tail()
    {
    }

    lemma InFlightIs()
      requires ReadPinned() && DescribesSpace(ReadStart())
      ensures ReadInFlight()
    {
    }

    /** The rest of `evbuffer_launch_read`: the system call and what follows it. */
    method SubmitRead(recvOk: bool)
      requires Shaped() && ReadInFlight() && freezeEnd && !readInProgress && !writeInProgress
      modifies this`readInProgress, this`freezeEnd, this`refcnt, (set c | c in chains)`pins,
        (set c | c in chains)`dangling, (set c | c in chains)`freed
      ensures Valid() && readInProgress == recvOk && freezeEnd == recvOk
      ensures refcnt == old(refcnt) + if recvOk then 1 else 0
      ensures !recvOk ==> Unpinned()
    {
      hide *;
      refcnt := refcnt + 1;
      if !recvOk {
        AbandonRead();
        IdleIsValid();
        return;
      }
      readInProgress := true;
      ReadingIsValid();
    }

    lemma ReadingIsValid()
      requires Shaped() && ReadInFlight() && freezeEnd && readInProgress && !writeInProgress
      ensures Valid()
    {
    }

    /** The part of it for an error of the system call. */
    method AbandonRead()
      requires Shaped() && ReadInFlight()
      modifies this`freezeEnd, this`refcnt, (set c | c in chains)`pins, (set c | c in chains)`dangling,
        (set c | c in chains)`freed
      ensures Shaped() && Unpinned() && !freezeEnd && refcnt == old(refcnt) - 1
    {
      hide *;
      ShapedFacts();
      ReadHolds();
      UnpinRead(ReadStart());
      freezeEnd := false;
      refcnt := refcnt - 1;
      BackInShape();
    }

    method UnpinRead(ghost f: nat)
      requires Held(f)
      modifies (set c | c in chains)`pins, (set c | c in chains)`dangling, (set c | c in chains)`freed
      ensures Unpinned() && forall c :: c in chains ==> Live(c)
    {
      hide IsSegment;
      PinRelease(R, chains[f..f + nBuffers]);
    }

    ghost function LaunchOutcome(atMost: nat, allocOk: bool, recvOk: bool): Launch
      reads this`freezeEnd, this`readInProgress, this`chains, (set c | c in chains)`off, (set c | c in chains)`misalign
    {
      var spaces := AfterExpansion(atMost);
      if freezeEnd || readInProgress then Refused
      else if NeedsChain(atMost) && !allocOk then NoMemory
      else if |Vecs(spaces, atMost, MAX_WSABUFS)| != |spaces| then Aborted
      else if !recvOk then Failed
      else Started
    }

    /**
      The program is aborted exactly when the spaces before the last of the
      chains with space, or of the first 16 of more, already suffice.
     */
    lemma AbortsExactlyWhen(atMost: nat, allocOk: bool, recvOk: bool)
      requires !freezeEnd && !readInProgress && (NeedsChain(atMost) ==> allocOk)
      ensures LaunchOutcome(atMost, allocOk, recvOk) == Aborted <==>
                if chains == [] then atMost == 0
                else TailSpaces() != [] && atMost <= Sum(TailSpaces()[..Min(MAX_WSABUFS, |TailSpaces()| - 1)])
    {
      hide Expanded, Vecs, Sum, Tail, Enough, Capacity;
      if chains == [] {
        PinsMatchOnEmpty(atMost);
      } else {
        AfterExpansionIs(atMost);
        PinsMatchExactlyWhen(TailSpaces(), KeepsFirst(), atMost);
      }
    }

    /** The other outcomes: refusals come first, then a lack of memory, and last what WSARecv says. */
    lemma OutcomesExactlyWhen(atMost: nat, allocOk: bool, recvOk: bool)
      ensures var o := LaunchOutcome(atMost, allocOk, recvOk);
              var idle, tail := !freezeEnd && !readInProgress, TailSpaces();
              && (o == Refused <==> !idle)
              && (o == NoMemory <==>
                    idle && !allocOk && (chains == [] || Sum(tail[..Min(16, |tail|)]) < atMost))
              && (o == Failed ==> !recvOk) && (o == Started ==> recvOk)
    {
      hide TailSpaces, AfterExpansion, Vecs, Sum;
    }

    lemma ExpansionSuffices(len: nat)
      ensures Enough(AfterExpansion(len), len)
      ensures Sum(Vecs(AfterExpansion(len), len, MAX_WSABUFS)) == len
    {
      hide Expanded, Vecs, Capacity, KeepsFirst, TailSpaces;
      if chains != [] {
        AfterExpansionIs(len);
        ExpandedIsEnough(TailSpaces(), KeepsFirst(), len);
      }
      VecsOfferAll(AfterExpansion(len), len, MAX_WSABUFS);
    }

    method ResetRequest()
      modifies this`firstPinned, this`nBuffers, buffers
    {
      firstPinned := null;
      nBuffers := 0;
      ClearDescriptors();
    }

    /** `evbuffer_launch_read`, given whether memory is available and WSARecv accepts the request */
    method LaunchRead(atMost: nat, allocOk: bool, recvOk: bool) returns (o: Launch)
      requires Valid() && !writeInProgress
      modifies this`chains, this`first, this`last, this`lastWithData, this`freezeEnd, this`nBuffers, this`firstPinned,
        this`refcnt, this`readInProgress, buffers, (set c | c in chains)`next, (set c | c in chains)`misalign,
        (set c | c in chains)`pins, (set c | c in chains)`dangling, (set c | c in chains)`freed
      ensures o == old(LaunchOutcome(atMost, allocOk, recvOk))
      ensures o != Aborted ==> Valid() && Contents() == old(Contents())
      ensures o == Refused ==> unchanged(this) && unchanged(buffers)
      ensures o == NoMemory || o == Failed ==> !readInProgress && Unpinned() && !freezeEnd && refcnt == old(refcnt)
      ensures o == Started ==>
                && readInProgress && freezeEnd && refcnt == old(refcnt) + 1 && nBuffers == |old(AfterExpansion(atMost))|
                && Offered() == Vecs(old(AfterExpansion(atMost)), atMost, MAX_WSABUFS) && Sum(Offered()) == atMost
                && chains != [] && TailSpaces() == old(AfterExpansion(atMost)) && Ready(atMost)
      ensures forall c :: c in chains ==> c in old(chains) || fresh(c)
      ensures forall c :: c in old(chains) ==> c in chains || c.freed == 1
    {
      hide *;
      OutcomeIs(atMost, allocOk, recvOk);
      ShapedWhenValid();
      if freezeEnd || readInProgress {
        return Refused;
      }
      ExpansionSuffices(atMost);
      ghost var spaces := AfterExpansion(atMost);
      ResetRequest();
      var r := ExpandFast(atMost, allocOk);
      if r == -1 {
        IdleIsValid();
        return NoMemory;
      }
      var matched := BeginRead(atMost);
      if !matched {
        return Aborted;
      }
      SubmitRead(recvOk);
      return if recvOk then Started else Failed;
    }

    lemma OutcomeIs(atMost: nat, allocOk: bool, recvOk: bool)
      ensures var spaces := AfterExpansion(atMost);
              LaunchOutcome(atMost, allocOk, recvOk) ==
                if freezeEnd || readInProgress then Refused
                else if NeedsChain(atMost) && !allocOk then NoMemory
                else if |Vecs(spaces, atMost, MAX_WSABUFS)| != |spaces| then Aborted
                else if !recvOk then Failed
                else Started
    {
    }

    lemma ShapedWhenValid()
      requires Valid()
      ensures Shaped() && (!readInProgress && !writeInProgress ==> Unpinned())
    {
    }

    // ----- a request from its launch to its completion

    /** A write, which is committed if it was accepted, leaves nothing behind but the shorter contents. */
    method WriteCycle(atMost: int, sendOk: bool, nBytes: nat)
      requires Valid() && !readInProgress && !writeInProgress && !freezeStart
      modifies this, buffers, (set c | c in chains)`dangling, (set c | c in chains)`freed,
        (set c | c in chains)`misalign, (set c | c in chains)`off, (set c | c in chains)`pins
      ensures Valid() && Unpinned() && !readInProgress && !writeInProgress && !freezeStart
      ensures refcnt == old(refcnt) && freezeEnd == old(freezeEnd)
      ensures Contents() == if sendOk && old(totalLen) != 0 then Drop(old(Contents()), nBytes) else old(Contents())
    {
      hide *;
      var r := LaunchWrite(atMost, sendOk);
      ShapedWhenValid();
      if writeInProgress {
        CommitWrite(nBytes);
      }
    }

    /** A read, which is committed if it was accepted, leaves nothing behind but the longer contents. */
    method ReadCycle(atMost: nat, allocOk: bool, recvOk: bool, nBytes: nat) returns (o: Launch)
      requires Valid() && !readInProgress && !writeInProgress && !freezeEnd && nBytes <= atMost
      modifies this`chains, this`first, this`last, this`lastWithData, this`freezeEnd, this`nBuffers, this`firstPinned,
        this`refcnt, this`readInProgress, this`totalLen, buffers, (set c | c in chains)`next,
        (set c | c in chains)`misalign, (set c | c in chains)`off, (set c | c in chains)`pins,
        (set c | c in chains)`dangling, (set c | c in chains)`freed
      ensures o == old(LaunchOutcome(atMost, allocOk, recvOk))
      ensures o != Aborted ==>
                && Valid() && Unpinned() && !readInProgress && !writeInProgress && !freezeEnd && refcnt == old(refcnt)
                && (o == Started ==> nBytes <= |Incoming()| && Contents() == old(Contents()) + Incoming()[..nBytes])
                && (o != Started ==> Contents() == old(Contents()))
                && totalLen == old(totalLen) + if o == Started then nBytes else 0
    {
      hide *;
      OutcomeIs(atMost, allocOk, recvOk);
      o := LaunchRead(atMost, allocOk, recvOk);
      if o == Started {
        IncomingLength();
        GrownWithin(Contents(), Incoming(), nBytes);
        CommitRead(nBytes);
      }
    }

    // ----- a short read, and why the next one may abort the program

    lemma ReadStartsAtTail()
      requires ReadInFlight() && nBuffers == |TailSpaces()|
      ensures ReadStart() == Tail()
    {
      hide Spaces, Offs, LastWithData, DescribesSpace, ReadStart;
      TailSize();
    }

    /** What is known while a read is in flight that was asked for more than 0 bytes. */
    lemma ReadySpaces(atMost: nat)
      requires Shaped() && Ready(atMost) && 0 < atMost && Tail() < |chains|
      ensures SpacesFor(chains, Offs(chains), Spaces(chains))
      ensures Offs(chains)[Tail()] == 0 ==> chains[Tail()].misalign == 0
      ensures Spaces(chains)[Tail()] == TailSpaces()[0] && LastWithData(Offs(chains)) <= Tail()
    {
      hide LastWithData, Offs, Spaces, Sum, IsList, Tail, TailSpaces;
      ShapedFacts();
      SpacesForNow(chains);
      OffsAt(chains, Tail());
      TailIs(LastWithData(Offs(chains)));
      SumOfNone(TailSpaces());
      assert Aligned(chains[Tail()]);
    }

    /** The end of the buffer after n bytes came, fewer than the first descriptor offered. */
    lemma TailAfterShortRead(spaces: seq<nat>, f: nat, n: nat)
      requires chains != [] && f < |spaces| && n < spaces[f] && Spaces(chains) == spaces[f := spaces[f] - n]
      requires f == LastWithData(Offs(chains)) || (f == TailOf(spaces, LastWithData(Offs(chains))))
      ensures TailSpaces() == spaces[f..][0 := spaces[f] - n] && Tail() == f
    {
      hide Offs, Spaces, LastWithData;
    }

    /** A read that is started, and committed with fewer bytes than its first descriptor offers. */
    method ShortRead(atMost: nat, n: nat)
      requires Valid() && !writeInProgress && LaunchOutcome(atMost, true, true) == Started
      requires AfterExpansion(atMost) != [] && n < atMost && n < AfterExpansion(atMost)[0]
      modifies this`chains, this`first, this`last, this`lastWithData, this`freezeEnd, this`nBuffers, this`firstPinned,
        this`refcnt, this`readInProgress, this`totalLen, buffers, (set c | c in chains)`next,
        (set c | c in chains)`misalign, (set c | c in chains)`off, (set c | c in chains)`pins,
        (set c | c in chains)`dangling, (set c | c in chains)`freed
      ensures Valid() && Unpinned() && chains != [] && !readInProgress && !writeInProgress && !freezeEnd
      ensures TailSpaces() == old(AfterExpansion(atMost))[0 := old(AfterExpansion(atMost)[0]) - n]
      ensures forall c :: c in chains ==> c in old(chains) || fresh(c)
    {
      hide *;
      ghost var tail := AfterExpansion(atMost);
      var o := LaunchRead(atMost, true, true);
      ShapedWhenValid();
      ValidReading();
      TailSize();
      ReadStartsAtTail();
      ReadySpaces(atMost);
      ghost var f, offs, spaces, lens := Tail(), Offs(chains), Spaces(chains), Offered();
      TailIs(LastWithData(offs));
      FirstVec(tail, atMost, n);
      LastAfterShortRead(offs, f, lens, n);
      CommitRead(n);
      AfterReadWas(offs, f, lens, n, Offs(chains));
      SpacesAfterShortRead(chains, offs, spaces, f, lens, n);
      TailAfterShortRead(spaces, f, n);
    }

    /**
      Any read whose descriptors span two chains or more, if it comes up short,
      leaves the buffer so that a later read of at most the space left before
      the last chain aborts the program.
     */
    method ShortReadThenAbort(atMost: nat, n: nat, next: nat, allocOk: bool, recvOk: bool) returns (o: Launch)
      requires Valid() && !writeInProgress && LaunchOutcome(atMost, true, true) == Started
      requires |AfterExpansion(atMost)| >= 2 && n < AfterExpansion(atMost)[0]
      requires next <= Sum(AfterExpansion(atMost)[..|AfterExpansion(atMost)| - 1]) - n
      modifies this`chains, this`first, this`last, this`lastWithData, this`freezeEnd, this`nBuffers, this`firstPinned,
        this`refcnt, this`readInProgress, this`totalLen, buffers, (set c | c in chains)`next,
        (set c | c in chains)`misalign, (set c | c in chains)`off, (set c | c in chains)`pins,
        (set c | c in chains)`dangling, (set c | c in chains)`freed
      ensures o == Aborted
    {
      hide *;
      ghost var spaces := AfterExpansion(atMost);
      OutcomeIs(atMost, true, true);
      AllDescribed(spaces, atMost);
      ShortRead(atMost, n);
      SpacesBeforeLast(spaces, n);
      EnoughBeforeLast(TailSpaces(), next);
      EnoughNeedsNoChain(next);
      AbortsExactlyWhen(next, allocOk, recvOk);
      var o2 := LaunchRead(next, allocOk, recvOk);
      o := o2;
    }

    lemma EnoughNeedsNoChain(len: nat)
      requires chains != []
      ensures NeedsChain(len) <==> !Enough(TailSpaces(), len)
    {
      hide Enough, TailSpaces;
    }

    /** Such reads are reached from a new buffer: two short ones of any sizes, the second larger than what is left. */
    static method TwoShortReads(a: nat, n: nat, b: nat, m: nat, c: nat) returns (o: Launch)
      requires n < a && Capacity(a) - n < b && m < Capacity(a) - n && c <= Capacity(a) - n - m
      ensures o == Aborted
    {
      hide *;
      var buf := new Overlapped();
      buf.FirstReadStarts(a);
      buf.ShortRead(a, n);
      CapacityHolds(a);
      ghost var left := Capacity(a) - n;
      assert [Capacity(a)][0 := left] == [left];
      buf.SecondReadStarts(left, b);
      o := buf.ShortReadThenAbort(b, m, c, true, true);
    }

    lemma FirstReadStarts(a: nat)
      requires chains == [] && !freezeEnd && !readInProgress && 0 < a
      ensures LaunchOutcome(a, true, true) == Started && AfterExpansion(a) == [Capacity(a)]
    {
      hide Capacity, Vecs;
      PinsMatchOnEmpty(a);
    }

    lemma SecondReadStarts(left: nat, b: nat)
      requires chains != [] && !freezeEnd && !readInProgress && TailSpaces() == [left] && left < b
      ensures LaunchOutcome(b, true, true) == Started
      ensures AfterExpansion(b) == [left, Capacity(b - left)] && Sum(AfterExpansion(b)[..1]) == left
    {
      hide *;
      AfterExpansionIs(b);
      OneSpaceExpanded(left, KeepsFirst(), b);
      OutcomeIs(b, true, true);
    }
  }
}
