/**
  The chains of an evbuffer, lists of them, and the descriptors handed to the
  operating system (buffer.c, evbuffer-internal.h).
 */
module Chains {
  import opened Rc4
  import opened ScatterGather

  /** The two EVBUFFER_MEM_PINNED_* flags. */
  datatype Pin = R | W

  /** `freed` counts how often the chain's memory was given back. */
  class Chain {
    var next: Chain?
    const memory: array<byte>
    var misalign: nat
    var off: nat
    var pins: set<Pin>
    var dangling: bool
    var freed: nat

    constructor (size: nat)
      ensures next == null && misalign == 0 && off == 0 && memory.Length == size && fresh(memory)
      ensures pins == {} && !dangling && freed == 0
    {
      next, misalign, off := null, 0, 0;
      memory := new byte[size](_ => 0);
      pins, dangling, freed := {}, false, 0;
    }

    /** The bytes stored in the chain. */
    ghost function Data(): (d: seq<byte>)
      reads this`misalign, this`off, memory
    {
      if misalign + off <= memory.Length then memory[misalign..misalign + off] else []
    }

    /** `evbuffer_chain_free`: a pinned chain is only marked. */
    method Free()
      modifies this`dangling, this`freed
      ensures if pins != {} then dangling && freed == old(freed)
              else dangling == old(dangling) && freed == old(freed) + 1
    {
      if pins != {} {
        dangling := true;
        return;
      }
      freed := freed + 1;
    }

    /** `_evbuffer_chain_unpin`: a marked chain is given back when its last pin goes. */
    method Unpin(flag: Pin)
      requires flag in pins
      modifies this`pins, this`dangling, this`freed
      ensures pins == old(pins) - {flag} && dangling == old(dangling)
      ensures freed == old(freed) + if dangling && pins == {} then 1 else 0
    {
      pins := pins - {flag};
      if dangling {
        Free();
      }
    }
  }

  // ----- lists of chains

  /** The chains from `head` to the end of its list, in order. */
  ghost predicate IsList(cs: seq<Chain>, head: Chain?)
    reads (set c | c in cs)`next
  {
    if cs == [] then head == null
    else head == cs[0] && cs[0] !in cs[1..] && IsList(cs[1..], cs[0].next)
  }

  ghost predicate Distinct(cs: seq<Chain>) {
    forall i, j :: 0 <= i < j < |cs| ==> cs[i] != cs[j]
  }

  lemma {:induction false} ListIsDistinct(cs: seq<Chain>, head: Chain?)
    requires IsList(cs, head)
    ensures Distinct(cs)
  {
    if cs != [] {
      ListIsDistinct(cs[1..], cs[0].next);
      assert forall j :: 1 <= j < |cs| ==> cs[j] == cs[1..][j - 1];
    }
  }

  /** Chains that follow each other, wherever the last one leads. */
  ghost predicate IsSegment(cs: seq<Chain>, head: Chain?)
    reads (set c | c in cs)`next
  {
    cs == [] ||
    (head == cs[0] && cs[0] !in cs[1..] && IsSegment(cs[1..], cs[0].next))
  }

  lemma SegmentStep(cs: seq<Chain>, n: nat, chain: Chain?)
    requires n < |cs| && IsSegment(cs[n..], chain)
    ensures chain == cs[n] && chain !in cs[n + 1..] && IsSegment(cs[n + 1..], chain.next)
  {
    assert cs[n..][1..] == cs[n + 1..];
  }

  lemma ListStep(cs: seq<Chain>, n: nat, chain: Chain?)
    requires n <= |cs| && IsList(cs[n..], chain)
    ensures chain == null <==> n == |cs|
    ensures chain != null ==> chain == cs[n] && chain in cs && IsList(cs[n + 1..], chain.next)
  {
    if n < |cs| {
      assert cs[n..][1..] == cs[n + 1..];
    }
  }

  lemma {:induction false} ListSuffix(cs: seq<Chain>, head: Chain?, k: nat)
    requires IsList(cs, head) && k < |cs|
    ensures IsList(cs[k..], cs[k])
  {
    if k == 0 {
      assert cs[0..] == cs;
    } else {
      ListSuffix(cs[1..], cs[0].next, k - 1);
      assert cs[1..][k - 1..] == cs[k..];
    }
  }

  lemma {:induction false} PrefixIsSegment(cs: seq<Chain>, head: Chain?, k: nat)
    requires IsList(cs, head) && k <= |cs|
    ensures IsSegment(cs[..k], head)
  {
    if k != 0 {
      PrefixIsSegment(cs[1..], cs[0].next, k - 1);
      assert cs[..k][1..] == cs[1..][..k - 1];
    }
  }

  lemma SegmentHead(cs: seq<Chain>, a: Chain?, b: Chain?)
    requires IsSegment(cs, a) && (cs == [] || a == b)
    ensures IsSegment(cs, b)
  {
  }

  ghost function Offs(cs: seq<Chain>): (offs: seq<nat>)
    reads (set c | c in cs)`off
    ensures |offs| == |cs|
  {
    if cs == [] then [] else [cs[0].off] + Offs(cs[1..])
  }

  lemma OffsSplit(cs: seq<Chain>, k: nat)
    requires k <= |cs|
    ensures Offs(cs) == Offs(cs[..k]) + Offs(cs[k..])
    ensures Offs(cs[..k]) == Offs(cs)[..k] && Offs(cs[k..]) == Offs(cs)[k..]
  {
    hide *;
    assert cs == cs[..k] + cs[k..];
    OfConcat(cs[..k], cs[k..]);
  }

  lemma {:induction false} OffsAre(cs: seq<Chain>, vals: seq<nat>)
    requires |cs| == |vals| && forall j :: 0 <= j < |cs| ==> cs[j].off == vals[j]
    ensures Offs(cs) == vals
  {
    if cs != [] {
      OffsAre(cs[1..], vals[1..]);
      assert vals == [vals[0]] + vals[1..];
    }
  }

  lemma {:induction false} OffsAt(cs: seq<Chain>, k: nat)
    requires k < |cs|
    ensures Offs(cs)[k] == cs[k].off
  {
    if k != 0 {
      OffsAt(cs[1..], k - 1);
    }
  }

  ghost function Datas(cs: seq<Chain>): (datas: seq<seq<byte>>)
    reads (set c | c in cs)`off, (set c | c in cs)`misalign, set c | c in cs :: c.memory
    ensures |datas| == |cs|
  {
    if cs == [] then [] else [cs[0].Data()] + Datas(cs[1..])
  }

  lemma {:induction false} DatasAre(cs: seq<Chain>, vals: seq<seq<byte>>)
    requires |cs| == |vals| && forall j :: 0 <= j < |cs| ==> cs[j].Data() == vals[j]
    ensures Datas(cs) == vals
  {
    if cs != [] {
      DatasAre(cs[1..], vals[1..]);
      assert vals == [vals[0]] + vals[1..];
    }
  }

  lemma {:induction false} DatasAt(cs: seq<Chain>, k: nat)
    requires k < |cs|
    ensures Datas(cs)[k] == cs[k].Data()
  {
    if k != 0 {
      DatasAt(cs[1..], k - 1);
    }
  }

  lemma {:induction false} OffsAreLengths(cs: seq<Chain>)
    requires forall c :: c in cs ==> c.misalign + c.off <= c.memory.Length
    ensures Lengths(Datas(cs)) == Offs(cs)
  {
    if cs != [] {
      OffsAreLengths(cs[1..]);
    }
  }

  /** In a list no chain comes twice. */
  lemma {:induction false} HeadIsFresh(cs: seq<Chain>, k: nat, chain: Chain?)
    requires k < |cs| && IsList(cs[k..], chain)
    ensures cs[k] !in cs[k + 1..]
  {
    assert cs[k..][1..] == cs[k + 1..];
  }

  /** Offsets and data of the end of a list are the ends of its offsets and data. */
  lemma {:induction false} SuffixOfList(cs: seq<Chain>, k: nat)
    requires k <= |cs|
    ensures Offs(cs[k..]) == Offs(cs)[k..] && Datas(cs[k..]) == Datas(cs)[k..]
  {
    if k != 0 {
      SuffixOfList(cs[1..], k - 1);
      assert cs[1..][k - 1..] == cs[k..];
      assert Offs(cs)[1..][k - 1..] == Offs(cs)[k..] && Datas(cs)[1..][k - 1..] == Datas(cs)[k..];
    }
  }

  // ----- free space

  /** The bytes that can be put behind a chain's data; an empty chain can be filled from its start. */
  ghost function Space(c: Chain): (space: nat)
    reads c`off, c`misalign
  {
    if c.off == 0 then c.memory.Length
    else if c.misalign + c.off <= c.memory.Length then c.memory.Length - c.misalign - c.off
    else 0
  }

  ghost function Spaces(cs: seq<Chain>): (spaces: seq<nat>)
    reads (set c | c in cs)`off, (set c | c in cs)`misalign
    ensures |spaces| == |cs|
  {
    if cs == [] then [] else [Space(cs[0])] + Spaces(cs[1..])
  }

  lemma {:induction false} SpacesAt(cs: seq<Chain>, k: nat)
    requires k < |cs|
    ensures Spaces(cs)[k] == Space(cs[k])
  {
    if k != 0 {
      SpacesAt(cs[1..], k - 1);
    }
  }

  lemma {:induction false} SpacesAre(cs: seq<Chain>, vals: seq<nat>)
    requires |cs| == |vals| && forall j :: 0 <= j < |cs| ==> Space(cs[j]) == vals[j]
    ensures Spaces(cs) == vals
  {
    if cs != [] {
      SpacesAre(cs[1..], vals[1..]);
      assert vals == [vals[0]] + vals[1..];
    }
  }

  lemma {:induction false} OfConcat(a: seq<Chain>, b: seq<Chain>)
    ensures Offs(a + b) == Offs(a) + Offs(b)
    ensures Datas(a + b) == Datas(a) + Datas(b)
    ensures Spaces(a + b) == Spaces(a) + Spaces(b)
  {
    if a == [] {
      assert a + b == b;
    } else {
      assert (a + b)[1..] == a[1..] + b;
      OfConcat(a[1..], b);
    }
  }

  lemma OfPrefix(cs: seq<Chain>, k: nat)
    requires k <= |cs|
    ensures Offs(cs[..k]) == Offs(cs)[..k] && Datas(cs[..k]) == Datas(cs)[..k] && Spaces(cs[..k]) == Spaces(cs)[..k]
  {
    hide *;
    assert cs == cs[..k] + cs[k..];
    OfConcat(cs[..k], cs[k..]);
  }

  /** An empty chain that begins at the start of its memory, or one that is not empty. */
  ghost predicate Aligned(c: Chain)
    reads c`off, c`misalign
  {
    c.off == 0 ==> c.misalign == 0
  }

  // ----- relinking

  ghost predicate Linked(cs: seq<Chain>, head: Chain?)
    reads (set c | c in cs)`next
  {
    && Distinct(cs)
    && (if cs == [] then head == null else head == cs[0] && cs[|cs| - 1].next == null)
    && forall i :: 0 <= i < |cs| - 1 ==> cs[i].next == cs[i + 1]
  }

  lemma {:induction false} LinkedIsList(cs: seq<Chain>, head: Chain?)
    requires Linked(cs, head)
    ensures IsList(cs, head)
  {
    if cs != [] {
      var rest := cs[1..];
      forall i | 0 <= i < |rest| - 1 ensures rest[i].next == rest[i + 1] {
        assert cs[i + 1].next == cs[i + 2];
      }
      if rest != [] {
        assert cs[0].next == cs[0 + 1];
      }
      LinkedIsList(rest, cs[0].next);
    }
  }

  lemma {:induction false} ListIsLinked(cs: seq<Chain>, head: Chain?)
    requires IsList(cs, head)
    ensures Linked(cs, head)
  {
    ListIsDistinct(cs, head);
    if cs != [] {
      var rest := cs[1..];
      ListIsLinked(rest, cs[0].next);
      forall i | 0 <= i < |cs| - 1 ensures cs[i].next == cs[i + 1] {
        if i > 0 {
          assert rest[i - 1].next == rest[i - 1 + 1];
        }
      }
    }
  }

  // ----- descriptors

  /** A WSABUF: `len` bytes of a chain's memory from index `start` on. */
  datatype WsaBuf = WsaBuf(chain: Chain?, start: nat, len: nat)

  function LensOf(bs: seq<WsaBuf>): (lens: seq<nat>)
    ensures |lens| == |bs|
  {
    if bs == [] then [] else [bs[0].len] + LensOf(bs[1..])
  }

  lemma {:induction false} LensAt(bs: seq<WsaBuf>, k: nat)
    requires k < |bs|
    ensures LensOf(bs)[k] == bs[k].len
  {
    if k != 0 {
      LensAt(bs[1..], k - 1);
    }
  }

  lemma LensAre(bs: seq<WsaBuf>)
    ensures forall j :: 0 <= j < |bs| ==> LensOf(bs)[j] == bs[j].len
  {
    forall j | 0 <= j < |bs| ensures LensOf(bs)[j] == bs[j].len {
      LensAt(bs, j);
    }
  }

  ghost function Bytes(b: WsaBuf): seq<byte>
    reads if b.chain == null then {} else {b.chain.memory}
  {
    if b.chain != null && b.start + b.len <= b.chain.memory.Length then b.chain.memory[b.start..b.start + b.len] else []
  }

  ghost function Rooms(bs: seq<WsaBuf>): (rooms: seq<seq<byte>>)
    reads set b | b in bs && b.chain != null :: b.chain.memory
    ensures |rooms| == |bs|
  {
    if bs == [] then [] else [Bytes(bs[0])] + Rooms(bs[1..])
  }

  /** The bytes that descriptors stand for, in order. */
  ghost function AllBytes(bs: seq<WsaBuf>): seq<byte>
    reads set b | b in bs && b.chain != null :: b.chain.memory
  {
    Flatten(Rooms(bs))
  }

  lemma {:induction false} RoomsAt(bs: seq<WsaBuf>, j: nat)
    requires j < |bs|
    ensures Rooms(bs)[j] == Bytes(bs[j])
  {
    if j != 0 {
      RoomsAt(bs[1..], j - 1);
    }
  }

  lemma {:induction false} RoomsAre(bs: seq<WsaBuf>, vals: seq<seq<byte>>)
    requires |bs| == |vals| && forall j :: 0 <= j < |bs| ==> Bytes(bs[j]) == vals[j]
    ensures Rooms(bs) == vals
  {
    if bs != [] {
      RoomsAre(bs[1..], vals[1..]);
      assert vals == [vals[0]] + vals[1..];
    }
  }

  lemma {:induction false} RoomsLengths(bs: seq<WsaBuf>)
    requires forall j :: 0 <= j < |bs| ==> bs[j].chain != null && bs[j].start + bs[j].len <= bs[j].chain.memory.Length
    ensures Lengths(Rooms(bs)) == LensOf(bs)
  {
    if bs != [] {
      RoomsLengths(bs[1..]);
    }
  }

  lemma {:induction false} BytesAreGathered(cs: seq<Chain>, bs: seq<WsaBuf>, lens: seq<nat>)
    requires |bs| == |lens| <= |cs|
    requires forall c :: c in cs ==> c.misalign + c.off <= c.memory.Length
    requires forall j :: 0 <= j < |lens| ==> lens[j] <= |Datas(cs)[j]|
    requires forall j :: 0 <= j < |lens| ==> bs[j] == WsaBuf(cs[j], cs[j].misalign, lens[j])
    ensures AllBytes(bs) == Gather(Datas(cs), lens)
  {
    if lens != [] {
      assert lens[0] <= |Datas(cs)[0]|;
      BytesAreGathered(cs[1..], bs[1..], lens[1..]);
    }
  }
}
