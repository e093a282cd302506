/** What the operations of the overlapped evbuffer make of a list of chains, apart from the buffer's own fields. */
module ChainStates {
  import opened Rc4
  import opened ScatterGather
  import opened Chains

  ghost predicate Live(c: Chain)
    reads c`dangling, c`freed
  {
    !c.dangling && c.freed == 0
  }

  /** The chains have room for these offsets and, from number f on, for what the descriptors offer. */
  ghost predicate Fits(cs: seq<Chain>, offs: seq<nat>, f: nat, lens: seq<nat>)
    requires |cs| == |offs|
    reads (set c | c in cs)`misalign
  {
    forall k :: 0 <= k < |cs| ==>
      cs[k].misalign + offs[k] + (if f <= k < f + |lens| then lens[k - f] else 0) <= cs[k].memory.Length
  }

  /** What became of a chain that was taken off the list. */
  ghost predicate Gone(c: Chain)
    reads c`pins, c`dangling, c`freed
  {
    if c.pins != {} then c.dangling && c.freed == 0 else !c.dangling && c.freed == 1
  }

  /** The first k chains of a list are gone, the others are as they were. */
  ghost predicate FreedTo(cs: seq<Chain>, k: nat)
    requires k <= |cs|
    reads (set c | c in cs)`pins, (set c | c in cs)`dangling, (set c | c in cs)`freed
  {
    && (forall c :: c in cs[..k] ==> Gone(c) && c !in cs[k..])
    && (forall c :: c in cs[k..] ==> Live(c))
  }

  lemma FreedNone(cs: seq<Chain>)
    requires forall c :: c in cs ==> Live(c)
    ensures FreedTo(cs, 0)
  {
  }

  // ----- what a drain leaves

  /** What taking k chains off the front and `left` bytes off the next one leaves. */
  lemma CutOfList(cs: seq<Chain>, head: Chain?, len: nat, f: nat, k: nat, left: nat)
    requires IsList(cs, head) && Stops(Offs(cs), len, f, k, left) && LastWithData(Offs(cs)) <= f
    requires forall c :: c in cs ==> c.misalign + c.off <= c.memory.Length
    ensures k < |cs| && k <= f && left <= cs[k].off && IsList(cs[k..], cs[k])
    ensures Offs(cs[k..]) != [] && Datas(cs[k..]) != []
    ensures left <= |Datas(cs[k..])[0]|
    ensures var offs: seq<nat> := [cs[k].off - left] + Offs(cs[k..])[1..];
            && Sum(offs) == Sum(Offs(cs)) - len
            && k + LastWithData(offs) == if len < Sum(Offs(cs)) then LastWithData(Offs(cs)) else f
    ensures k > LastWithData(Offs(cs)) <==> len == Sum(Offs(cs)) && f > LastWithData(Offs(cs))
    ensures Flatten([Datas(cs[k..])[0][left..]] + Datas(cs[k..])[1..]) == Drop(Flatten(Datas(cs)), len)
  {
    hide *;
    var offs, datas := Offs(cs), Datas(cs);
    OffsAreLengths(cs);
    AfterStop(offs, len, f, k, left);
    StopTakesPrefix(datas, len, f, k, left);
    SuffixOfList(cs, k);
    OffsAt(cs, k);
    ListSuffix(cs, head, k);
    SplitFirst(offs, k);
    SplitFirstData(datas, k);
  }

  lemma SplitFirst(offs: seq<nat>, k: nat)
    requires k < |offs|
    ensures offs[k..] != [] && offs[k..][0] == offs[k] && offs[k..][1..] == offs[k + 1..]
  {
  }

  lemma SplitFirstData(datas: seq<seq<byte>>, k: nat)
    requires k < |datas|
    ensures datas[k..] != [] && datas[k..][0] == datas[k] && datas[k..][1..] == datas[k + 1..]
  {
  }

  lemma SuffixAt(cs: seq<Chain>, k: nat, j: nat)
    requires k + j < |cs|
    ensures |cs[k..]| == |cs| - k && cs[k..][j] == cs[k + j] && cs[k..][|cs| - k - 1] == cs[|cs| - 1]
  {
  }

  /** Exactly the chains from number f on are pinned for reading. */
  ghost predicate PinnedFrom(cs: seq<Chain>, f: nat)
    reads (set c | c in cs)`pins
  {
    forall k :: 0 <= k < |cs| ==> (R in cs[k].pins <==> f <= k)
  }

  lemma PinnedAt(cs: seq<Chain>, f: nat, k: nat)
    requires PinnedFrom(cs, f) && k < |cs|
    ensures R in cs[k].pins <==> f <= k
  {
  }

  lemma SameChain(cs: seq<Chain>, j: nat, k: nat)
    requires Distinct(cs) && j < |cs| && k < |cs|
    ensures cs[j] == cs[k] <==> j == k
  {
  }

  /** k chains are gone, `left` bytes are still to go. */
  ghost predicate Freeing(cs: seq<Chain>, offs: seq<nat>, n: nat, f: nat, w: nat, k: nat, left: nat, gone: bool)
    reads (set c | c in cs)`next, (set c | c in cs)`off, (set c | c in cs)`pins, (set c | c in cs)`dangling,
      (set c | c in cs)`freed
  {
    && k < |cs| && IsList(cs[k..], cs[k]) && Distinct(cs) && offs == Offs(cs) && w == LastWithData(offs) < |cs|
    && Draining(offs, n, f, k, left) && FreedTo(cs, k) && (gone <==> k > w)
  }

  lemma FreeingStarts(cs: seq<Chain>, head: Chain?, n: nat, f: nat)
    requires IsList(cs, head) && cs != [] && FreedTo(cs, 0)
    requires LastWithData(Offs(cs)) <= f && n <= Sum(Offs(cs)) && (n == Sum(Offs(cs)) ==> f < |cs|)
    ensures head == cs[0] && Freeing(cs, Offs(cs), n, f, LastWithData(Offs(cs)), 0, n, false)
  {
    hide IsList, LastWithData, Offs, Sum, FreedTo, Draining, Distinct;
    ListIsDistinct(cs, head);
    DrainingStarts(Offs(cs), n, f);
    ListStep(cs, 0, head);
    assert cs[0..] == cs;
  }

  lemma FreeingFacts(cs: seq<Chain>, offs: seq<nat>, n: nat, f: nat, w: nat, k: nat, left: nat, gone: bool)
    requires Freeing(cs, offs, n, f, w, k, left, gone)
    ensures k < |cs| == |offs| && k <= f && Draining(offs, n, f, k, left) && FreedTo(cs, k) && (gone <==> k > w)
    ensures IsList(cs[k..], cs[k]) && Distinct(cs) && offs == Offs(cs) && w == LastWithData(offs) < |cs|
    ensures cs[k].off == offs[k]
  {
    hide IsList, LastWithData, Offs, Sum, FreedTo, Distinct, Dropped, LeftOver;
    OffsAt(cs, k);
  }

  lemma FreeingIs(cs: seq<Chain>, offs: seq<nat>, n: nat, f: nat, w: nat, k: nat, left: nat, gone: bool)
    requires k < |cs| && IsList(cs[k..], cs[k]) && Distinct(cs) && offs == Offs(cs) && w == LastWithData(offs) < |cs|
    requires Draining(offs, n, f, k, left) && FreedTo(cs, k) && (gone <==> k > w)
    ensures Freeing(cs, offs, n, f, w, k, left, gone)
  {
  }

  /** Where the data of each chain ends. */
  ghost function EndsOf(cs: seq<Chain>): (ends: seq<nat>)
    reads (set c | c in cs)`off, (set c | c in cs)`misalign
    ensures |ends| == |cs|
  {
    if cs == [] then [] else [cs[0].misalign + cs[0].off] + EndsOf(cs[1..])
  }

  lemma {:induction false} EndsAt(cs: seq<Chain>, k: nat)
    requires k < |cs|
    ensures EndsOf(cs)[k] == cs[k].misalign + cs[k].off
  {
    if k != 0 {
      EndsAt(cs[1..], k - 1);
    }
  }

  lemma {:induction false} EndsOfSuffix(cs: seq<Chain>, k: nat)
    requires k <= |cs|
    ensures EndsOf(cs[k..]) == EndsOf(cs)[k..]
  {
    if k != 0 {
      EndsOfSuffix(cs[1..], k - 1);
      assert cs[1..][k - 1..] == cs[k..];
      assert EndsOf(cs)[1..][k - 1..] == EndsOf(cs)[k..];
    }
  }

  lemma {:induction false} EndsAre(cs: seq<Chain>, vals: seq<nat>)
    requires |cs| == |vals| && forall j :: 0 <= j < |cs| ==> cs[j].misalign + cs[j].off == vals[j]
    ensures EndsOf(cs) == vals
  {
    if cs != [] {
      EndsAre(cs[1..], vals[1..]);
      assert vals == [vals[0]] + vals[1..];
    }
  }

  /** The descriptors are for the memory behind these ends, from chain number f on. */
  ghost predicate SpaceAtEnds(cs: seq<Chain>, ends: seq<nat>, bs: seq<WsaBuf>, f: nat) {
    && |cs| == |ends| && f + |bs| <= |cs|
    && (forall k :: 0 <= k < |cs| ==> ends[k] <= cs[k].memory.Length)
    && (forall j :: 0 <= j < |bs| ==>
          && bs[j].chain == cs[f + j] && bs[j].start == ends[f + j]
          && ends[f + j] + bs[j].len <= cs[f + j].memory.Length)
  }

  /** It does not matter to them that chains before them are taken off. */
  lemma SpaceShifts(cs: seq<Chain>, ends: seq<nat>, bs: seq<WsaBuf>, f: nat, k: nat)
    requires SpaceAtEnds(cs, ends, bs, f) && k <= f
    ensures k <= |cs| == |ends| && SpaceAtEnds(cs[k..], ends[k..], bs, f - k)
  {
    forall j | 0 <= j < |bs|
      ensures bs[j].chain == cs[k..][f - k + j] && bs[j].start == ends[k..][f - k + j]
      ensures ends[k..][f - k + j] + bs[j].len <= cs[k..][f - k + j].memory.Length {
      assert cs[k..][f - k + j] == cs[f + j] && ends[k..][f - k + j] == ends[f + j];
    }
  }

  lemma FreedFacts(cs: seq<Chain>, k: nat)
    requires k <= |cs| && FreedTo(cs, k)
    ensures forall c :: c in cs[..k] ==>
              if c.pins != {} then c.dangling && c.freed == 0 else !c.dangling && c.freed == 1
    ensures forall c :: c in cs[k..] ==> !c.dangling && c.freed == 0
  {
  }

  lemma StillLive(cs: seq<Chain>, k: nat)
    requires k <= |cs| && forall c :: c in cs[k..] ==> !c.dangling && c.freed == 0
    ensures forall c :: c in cs[k..] ==> c in cs && Live(c)
    ensures forall c :: c in cs[..k] ==> c in cs
  {
  }

  lemma FreedLeavesLive(cs: seq<Chain>, k: nat)
    requires k <= |cs| && FreedTo(cs, k)
    ensures forall c :: c in cs[k..] ==> Live(c)
  {
  }

  // ----- what a read leaves

  /** The first chains of a list have these offsets now, the others the offsets they had. */
  ghost predicate FilledTo(cs: seq<Chain>, done: seq<nat>, offs: seq<nat>)
    reads (set c | c in cs)`off
  {
    && |done| <= |cs| == |offs| && Distinct(cs)
    && (forall j :: 0 <= j < |done| ==> cs[j].off == done[j])
    && (forall j :: |done| <= j < |cs| ==> cs[j].off == offs[j])
  }

  lemma NothingFilled(cs: seq<Chain>, head: Chain?)
    requires IsList(cs, head)
    ensures FilledTo(cs, [], Offs(cs))
  {
    ListIsDistinct(cs, head);
    forall j | 0 <= j < |cs| ensures cs[j].off == Offs(cs)[j] { OffsAt(cs, j); }
  }

  lemma FilledIsOffs(cs: seq<Chain>, done: seq<nat>, offs: seq<nat>)
    requires FilledTo(cs, done, offs)
    ensures Offs(cs) == done + offs[|done|..]
  {
    OffsAre(cs, done + offs[|done|..]);
  }

  lemma LastFilled(cs: seq<Chain>, was: Chain?, lens: seq<nat>, n: nat, i: nat)
    requires Visited(lens, n) == i <= |cs|
    ensures LastReceiver(cs, was, 0, lens, n) == if i == 0 then was else cs[i - 1]
  {
  }

  lemma PlaceInList(cs: seq<Chain>, head: Chain?, w: nat, f: nat, n: nat, pinned: Chain?)
    requires IsList(cs, head) && w < |cs| && (f == w || f == w + 1) && f + n <= |cs|
    requires n > 0 ==> pinned == cs[f]
    ensures IsList(cs[f..], if f == w then cs[w] else cs[w].next) && IsSegment(cs[f..f + n], pinned)
  {
    hide IsList, IsSegment;
    ListSuffix(cs, head, w);
    ListStep(cs, w, cs[w]);
    var start := if f == w then cs[w] else cs[w].next;
    PrefixIsSegment(cs[f..], start, n);
    assert cs[f..][..n] == cs[f..f + n];
    if n > 0 {
      ListStep(cs, f, start);
    }
    SegmentHead(cs[f..f + n], start, pinned);
  }

  lemma StillFits(cs: seq<Chain>, offs: seq<nat>, f: nat, lens: seq<nat>, n: nat)
    requires |cs| == |offs| && f + |lens| <= |offs| && Fits(cs, offs, f, lens)
    requires Offs(cs) == AfterRead(offs, f, lens, n)
    ensures forall c :: c in cs ==> c.misalign + c.off <= c.memory.Length
  {
    forall k | 0 <= k < |cs| ensures cs[k].misalign + cs[k].off <= cs[k].memory.Length {
      OffsAt(cs, k);
      AfterReadAdds(offs, f, lens, n, k);
      if f <= k < f + |lens| { ReceivedAtMost(lens, n, k - f); }
    }
  }

  /**
    Before a read is committed: what the chains hold, and that `rooms` is the memory
    behind it that descriptors offer.
   */
  ghost predicate Holds(cs: seq<Chain>, offs: seq<nat>, datas: seq<seq<byte>>, f: nat, rooms: seq<seq<byte>>)
    reads (set c | c in cs)`misalign, set c | c in cs :: c.memory
  {
    && |cs| == |offs| == |datas| && f + |rooms| <= |cs|
    && (forall k :: 0 <= k < |cs| ==> IsAt(cs[k], 0, offs[k], datas[k]))
    && (forall k :: f <= k < f + |rooms| ==> IsAt(cs[k], offs[k], |rooms[k - f]|, rooms[k - f]))
  }

  ghost predicate IsAt(c: Chain, off: nat, len: nat, bytes: seq<byte>)
    reads c`misalign, c.memory
  {
    var start := c.misalign + off;
    start + len <= c.memory.Length && bytes == c.memory[start..start + len]
  }

  lemma FitsAt(cs: seq<Chain>, offs: seq<nat>, f: nat, lens: seq<nat>, j: nat)
    requires |cs| == |offs| && f + |lens| <= |cs| && Fits(cs, offs, f, lens) && j < |lens|
    ensures cs[f + j].misalign + offs[f + j] + lens[j] <= cs[f + j].memory.Length
  {
  }

  lemma DataIsAt(c: Chain)
    requires c.misalign + c.off <= c.memory.Length
    ensures IsAt(c, 0, c.off, c.Data())
  {
  }

  lemma DataGrowsAt(cs: seq<Chain>, offs: seq<nat>, datas: seq<seq<byte>>, f: nat, rooms: seq<seq<byte>>, n: nat,
                    k: nat)
    requires Holds(cs, offs, datas, f, rooms) && IsAfterRead(offs, f, Lengths(rooms), n, Offs(cs)) && k < |cs|
    ensures f + |rooms| <= |cs| == |datas|
    ensures cs[k].Data() == datas[k] + if f <= k < f + |rooms| then Pieces(rooms, n)[k - f] else []
  {
    hide Offs, Datas, Pieces, Lengths, AfterRead, Received, IsAt, Chain.Data;
    OffsAt(cs, k);
    AfterReadAdds(offs, f, Lengths(rooms), n, k);
    assert IsAt(cs[k], 0, offs[k], datas[k]);
    if f <= k < f + |rooms| {
      PiecesAt(rooms, n, k - f);
      Adjoin(cs[k], offs[k], datas[k], rooms[k - f], Received(Lengths(rooms), n)[k - f]);
    } else {
      AsBefore(cs[k], datas[k]);
    }
  }

  lemma Adjoin(c: Chain, off: nat, data: seq<byte>, room: seq<byte>, got: nat)
    requires IsAt(c, 0, off, data) && IsAt(c, off, |room|, room) && got <= |room| && c.off == off + got
    ensures c.Data() == data + room[..got]
  {
    var start := c.misalign + off;
    var mem := c.memory[..];
    SlicesJoin(mem, c.misalign, start, start + got, start + |room|);
    assert data == mem[c.misalign..start] && room == mem[start..start + |room|];
    assert c.Data() == mem[c.misalign..start + got];
  }

  lemma AsBefore(c: Chain, data: seq<byte>)
    requires IsAt(c, 0, c.off, data)
    ensures c.Data() == data + []
  {
  }

  /** Moving the offsets up appends what is in the free space to the data of the chains. */
  lemma DataGrows(cs: seq<Chain>, offs: seq<nat>, datas: seq<seq<byte>>, f: nat, rooms: seq<seq<byte>>, n: nat)
    requires Holds(cs, offs, datas, f, rooms) && IsAfterRead(offs, f, Lengths(rooms), n, Offs(cs))
    ensures f + |rooms| <= |cs| == |datas| == |offs| && Datas(cs) == Appended(datas, f, Pieces(rooms, n))
  {
    hide Datas, Appended, Offs, IsAt, Pieces, Lengths, IsAfterRead, Chain.Data;
    var vals := Appended(datas, f, Pieces(rooms, n));
    forall k | 0 <= k < |cs| ensures cs[k].Data() == vals[k] {
      DataGrowsAt(cs, offs, datas, f, rooms, n, k);
      AppendedAt(datas, f, Pieces(rooms, n), k);
    }
    DatasAre(cs, vals);
  }

  lemma NoData(c: Chain, off: nat, data: seq<byte>)
    requires IsAt(c, 0, off, data) && off == 0
    ensures data == []
  {
  }

  /** The chain that `last_with_datap` is set to by a read, which is not changed when nothing arrives. */
  ghost function LastReceiver(cs: seq<Chain>, was: Chain?, f: nat, lens: seq<nat>, n: nat): Chain? {
    var k := Visited(lens, n);
    if 0 < k && f + k <= |cs| then cs[f + k - 1] else was
  }

  // ----- cutting off empty chains

  /** What that says about the chains apart from their links. */
  ghost predicate Loose(cs: seq<Chain>, keep: nat, total: nat)
    requires keep <= |cs|
    reads (set c | c in cs)`off, (set c | c in cs)`misalign, (set c | c in cs)`pins,
      (set c | c in cs)`dangling, (set c | c in cs)`freed
  {
    && total == Sum(Offs(cs))
    && (if keep == 0 then total == 0 else LastWithData(Offs(cs)) < keep)
    && (forall c :: c in cs ==> c.misalign + c.off <= c.memory.Length && 0 < c.memory.Length && c.pins == {})
    && (forall c :: c in cs[..keep] ==> Live(c))
  }

  ghost predicate IsNew(c: Chain)
    reads c`misalign, c`off, c`pins, c`dangling, c`freed
  {
    c.misalign == 0 && c.off == 0 && 0 < c.memory.Length && c.pins == {} && Live(c)
  }

  /** The list after cutting it off and putting `more` there. */
  ghost function Cut(cs: seq<Chain>, keep: nat, chain: Chain?): seq<Chain>
    requires keep <= |cs|
  {
    cs[..keep] + if chain == null then [] else [chain]
  }

  lemma OffsOfCut(cs: seq<Chain>, keep: nat, chain: Chain?)
    requires keep <= |cs| && (chain != null ==> IsNew(chain))
    ensures Offs(Cut(cs, keep, chain)) == Offs(cs)[..keep] + if chain == null then [] else [0]
    ensures Spaces(Cut(cs, keep, chain)) ==
              Spaces(cs)[..keep] + if chain == null then [] else [chain.memory.Length]
    ensures Datas(Cut(cs, keep, chain)) == Datas(cs)[..keep] + if chain == null then [] else [[]]
  {
    hide Offs, Spaces, Datas, IsNew;
    OfPrefix(cs, keep);
    OfConcat(cs[..keep], if chain == null then [] else [chain]);
    if chain != null {
      OfOne(chain);
    }
  }

  lemma OfOne(chain: Chain)
    requires IsNew(chain)
    ensures Offs([chain]) == [0] && Spaces([chain]) == [chain.memory.Length] && Datas([chain]) == [[]]
  {
  }

  lemma NoDataBehind(cs: seq<Chain>, keep: nat, k: nat)
    requires keep <= k < |cs|
    requires if keep == 0 then Sum(Offs(cs)) == 0 else LastWithData(Offs(cs)) < keep
    requires forall c :: c in cs ==> c.misalign + c.off <= c.memory.Length
    ensures Datas(cs)[k] == []
  {
    hide *;
    if keep == 0 { SumZero(Offs(cs), k); } else { ZeroAfterLast(Offs(cs), k); }
    OffsAt(cs, k);
    DatasAt(cs, k);
    EmptyData(cs[k]);
  }

  lemma EmptyData(c: Chain)
    requires c.misalign + c.off <= c.memory.Length && c.off == 0
    ensures c.Data() == []
  {
  }

  /** Cutting off empty chains changes neither the contents nor which chain is the last with data. */
  lemma CutKeepsData(cs: seq<Chain>, keep: nat, chain: Chain?)
    requires keep <= |cs| && (chain != null ==> IsNew(chain))
    requires if keep == 0 then Sum(Offs(cs)) == 0 else LastWithData(Offs(cs)) < keep
    requires forall c :: c in cs ==> c.misalign + c.off <= c.memory.Length
    ensures var cut := Cut(cs, keep, chain);
            && Sum(Offs(cut)) == Sum(Offs(cs))
            && (cut != [] ==> LastWithData(Offs(cut)) == if keep == 0 then 0 else LastWithData(Offs(cs)))
            && Flatten(Datas(cut)) == Flatten(Datas(cs))
  {
    hide Offs, Spaces, Datas, LastWithData, Flatten, Sum, IsNew;
    OffsOfCut(cs, keep, chain);
    var offs := Offs(cs);
    forall k | keep <= k < |cs| ensures Datas(cs)[k] == [] {
      NoDataBehind(cs, keep, k);
    }
    CutDatas(Datas(cs), keep, if chain == null then [] else [[]]);
    if keep == 0 && chain == null {
      SumOfZeroes([]);
    } else {
      CutOffs(offs, keep, if chain == null then [] else [0]);
    }
  }

  lemma LooseFacts(cs: seq<Chain>, keep: nat, total: nat)
    requires keep <= |cs| && Loose(cs, keep, total)
    ensures total == Sum(Offs(cs)) && if keep == 0 then total == 0 else LastWithData(Offs(cs)) < keep
    ensures forall c :: c in cs ==> c.misalign + c.off <= c.memory.Length && 0 < c.memory.Length && c.pins == {}
    ensures forall c :: c in cs[..keep] ==> Live(c)
  {
  }

  lemma CutIsSound(cs: seq<Chain>, keep: nat, chain: Chain?)
    requires keep <= |cs| && (chain != null ==> IsNew(chain))
    requires forall c :: c in cs ==> c.misalign + c.off <= c.memory.Length && 0 < c.memory.Length && c.pins == {}
    requires forall c :: c in cs[..keep] ==> Live(c)
    ensures forall c :: c in Cut(cs, keep, chain) ==>
              c.misalign + c.off <= c.memory.Length && 0 < c.memory.Length && c.pins == {} && Live(c)
  {
    forall c | c in Cut(cs, keep, chain)
      ensures c.misalign + c.off <= c.memory.Length && 0 < c.memory.Length && c.pins == {} && Live(c) {
      assert c == chain || c in cs[..keep];
    }
  }

  lemma CutAt(cs: seq<Chain>, keep: nat, chain: Chain?, k: nat)
    requires keep <= |cs|
    ensures keep == 0 ==> Cut(cs, keep, chain) == if chain == null then [] else [chain]
    ensures k < keep ==> k < |Cut(cs, keep, chain)| && Cut(cs, keep, chain)[k] == cs[k]
  {
  }

  // ----- counting free space

  /** Only the start of empty chains has changed, and of the chains from number w on those before i are aligned. */
  ghost predicate Scanned(cs: seq<Chain>, spaces: seq<nat>, datas: seq<seq<byte>>, w: nat, i: nat)
    reads (set c | c in cs)`off, (set c | c in cs)`misalign, set c | c in cs :: c.memory
  {
    && w <= i <= |cs| == |spaces| == |datas|
    && (forall k :: 0 <= k < |cs| ==> Space(cs[k]) == spaces[k] && cs[k].Data() == datas[k])
    && (forall c :: c in cs ==> c.misalign + c.off <= c.memory.Length)
    && (forall k :: w <= k < i ==> Aligned(cs[k]))
  }

  lemma NothingScanned(cs: seq<Chain>, w: nat)
    requires w <= |cs| && forall c :: c in cs ==> c.misalign + c.off <= c.memory.Length
    ensures Scanned(cs, Spaces(cs), Datas(cs), w, w)
  {
    hide Spaces, Datas, Space, Chain.Data;
    forall k | 0 <= k < |cs|
      ensures Space(cs[k]) == Spaces(cs)[k]
      ensures cs[k].Data() == Datas(cs)[k] {
      SpacesAt(cs, k);
      DatasAt(cs, k);
    }
  }

  lemma ScannedSame(cs: seq<Chain>, spaces: seq<nat>, datas: seq<seq<byte>>, w: nat, i: nat)
    requires Scanned(cs, spaces, datas, w, i)
    ensures Spaces(cs) == spaces && Datas(cs) == datas
    ensures forall c :: c in cs ==> c.misalign + c.off <= c.memory.Length
    ensures forall k :: w <= k < i <= |cs| ==> Aligned(cs[k])
  {
    hide Spaces, Datas, Space, Chain.Data, Aligned;
    SpacesAre(cs, spaces);
    DatasAre(cs, datas);
  }

  ghost predicate AllAligned(cs: seq<Chain>, a: nat, b: nat)
    reads (set c | c in cs)`off, (set c | c in cs)`misalign
  {
    forall k :: a <= k < b <= |cs| ==> Aligned(cs[k])
  }

  lemma NewChain(chain: Chain, size: nat)
    requires chain.misalign == 0 && chain.off == 0 && chain.pins == {} && !chain.dangling && chain.freed == 0
    requires chain.memory.Length == Capacity(size)
    ensures IsNew(chain) && Aligned(chain)
  {
  }

  lemma FreedRest(cs: seq<Chain>, keep: nat)
    requires keep <= |cs| && FreedTo(cs[keep..], |cs| - keep)
    requires forall c :: c in cs ==> c.pins == {}
    ensures forall c :: c in cs[keep..] ==> c.freed == 1
  {
    assert cs[keep..][..|cs| - keep] == cs[keep..];
  }

  lemma AlignedOne(cs: seq<Chain>, keep: nat)
    requires keep <= |cs| && (keep > 0 ==> Aligned(cs[keep - 1]))
    ensures AllAligned(cs, if keep == 0 then 0 else keep - 1, keep)
  {
    hide Aligned;
  }

  lemma WhereCut(cs: seq<Chain>, keep: nat, chain: Chain?)
    requires keep <= |cs|
    ensures forall c :: c in Cut(cs, keep, chain) ==> c in cs || c == chain
    ensures forall c :: c in cs ==> c in Cut(cs, keep, chain) || c in cs[keep..]
  {
    assert cs == cs[..keep] + cs[keep..];
  }

  // ----- describing and pinning

  /** The chains that are going to be described have just the spaces that were counted. */
  ghost predicate Fillable(cs: seq<Chain>, spaces: seq<nat>, howMuch: nat)
    reads (set c | c in cs)`off, (set c | c in cs)`misalign
  {
    && |spaces| == |cs|
    && forall n :: 0 <= n < |cs| && Sum(spaces[..n]) < howMuch ==>
         cs[n].misalign + cs[n].off + spaces[n] == cs[n].memory.Length
  }

  lemma FillableAt(cs: seq<Chain>, spaces: seq<nat>, howMuch: nat, n: nat)
    requires Fillable(cs, spaces, howMuch)
    ensures |spaces| == |cs|
    ensures n < |cs| && Sum(spaces[..n]) < howMuch ==>
              cs[n].misalign + cs[n].off + spaces[n] == cs[n].memory.Length
  {
  }

  /** The first n of these chains are pinned for reading, the others are not pinned. */
  ghost predicate PinnedTo(cs: seq<Chain>, n: nat)
    reads (set c | c in cs)`pins
  {
    Distinct(cs) && forall k :: 0 <= k < |cs| ==> cs[k].pins == if k < n then {R} else {}
  }

  // ----- a short read

  /** The spaces of the chains when they hold this many bytes. */
  ghost predicate SpacesFor(cs: seq<Chain>, offs: seq<nat>, spaces: seq<nat>)
    reads (set c | c in cs)`misalign
  {
    && |cs| == |offs| == |spaces|
    && forall k :: 0 <= k < |cs| ==>
         if offs[k] == 0 then spaces[k] == cs[k].memory.Length
         else cs[k].misalign + offs[k] + spaces[k] == cs[k].memory.Length
  }

  lemma SpacesForNow(cs: seq<Chain>)
    requires forall c :: c in cs ==> c.misalign + c.off <= c.memory.Length
    ensures SpacesFor(cs, Offs(cs), Spaces(cs))
  {
    hide Offs, Spaces;
    forall k | 0 <= k < |cs| ensures Offs(cs)[k] == cs[k].off && Spaces(cs)[k] == Space(cs[k]) {
      OffsAt(cs, k);
      SpacesAt(cs, k);
    }
  }

  /** When n bytes came, fewer than the first descriptor offers, only the first chain read into has less space. */
  lemma SpacesAfterShortRead(cs: seq<Chain>, offs: seq<nat>, spaces: seq<nat>, f: nat, lens: seq<nat>, n: nat)
    requires SpacesFor(cs, offs, spaces) && IsAfterRead(offs, f, lens, n, Offs(cs))
    requires lens != [] && n < lens[0] && f < |spaces| && n <= spaces[f]
    requires offs[f] == 0 ==> cs[f].misalign == 0
    ensures Spaces(cs) == spaces[f := spaces[f] - n]
  {
    hide Offs, AfterRead, Spaces, Received;
    forall k | 0 <= k < |cs| ensures Space(cs[k]) == spaces[f := spaces[f] - n][k] {
      OffsAt(cs, k);
      AfterReadAdds(offs, f, lens, n, k);
      if f <= k < f + |lens| {
        ReceivedShort(lens, n, k - f);
      }
    }
    SpacesAre(cs, spaces[f := spaces[f] - n]);
  }
}
