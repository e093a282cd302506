/**
  The RC4 stream inside arc4random.c as values: the key schedule, the output
  step and its inverse. `Arc4Random.dfy` proves the in-place code against the
  functions of this module.
 */
module Rc4 {
  import opened Arithmetic

  /** An `unsigned char`. */
  type byte = x: int | 0 <= x < 256

  /** Addition stored into an `unsigned char`. */
  function Add8(a: byte, b: byte): byte {
    var sum: int := a + b;
    if sum < 256 then sum else sum - 256
  }

  /** Subtraction stored into an `unsigned char`. */
  function Sub8(a: byte, b: byte): byte {
    var difference: int := a - b;
    if 0 <= difference then difference else difference + 256
  }

  /** Both wrap around: they are the sum and the difference modulo 256. */
  lemma ByteArithmeticWraps(a: byte, b: byte)
    ensures var sum: int := a + b; Add8(a, b) == sum % 256
    ensures var difference: int := a - b; Sub8(a, b) == difference % 256
  {
  }

  /** The 256 slots of `rs.s`. */
  type Table = s: seq<byte> | |s| == 256 witness seq(256, _ => 0)

  /** Key material: `arc4_addrandom` divides by its length. */
  type Key = k: seq<byte> | 0 < |k| witness [0]

  datatype Stream = Stream(i: byte, j: byte, s: Table)

  // ----- the operations

  function Swap(s: Table, a: byte, b: byte): (r: Table)
    ensures r[a] == s[b] && r[b] == s[a]
    ensures forall k :: 0 <= k < 256 && k != a && k != b ==> r[k] == s[k]
  {
    s[a := s[b]][b := s[a]]
  }

  function Identity(): (s: Table)
    ensures forall k :: 0 <= k < 256 ==> s[k] == k
  {
    seq(256, k requires 0 <= k < 256 => k)
  }

  function Initial(): Stream {
    Stream(0, 0, Identity())
  }

  /** One round of the keyed mixing loop. */
  function MixRound(st: Stream, k: byte): Stream {
    var i := Add8(st.i, 1);
    var j := Add8(Add8(st.j, st.s[i]), k);
    Stream(i, j, Swap(st.s, i, j))
  }

  /** One round for each byte of ks, in order. */
  function MixBytes(st: Stream, ks: seq<byte>): Stream {
    if ks == [] then st else MixRound(MixBytes(st, ks[..|ks| - 1]), ks[|ks| - 1])
  }

  /** The key byte that each of the 256 rounds uses. */
  function Extension(key: Key): (k: seq<byte>)
    ensures |k| == 256
  {
    seq(256, n requires 0 <= n < 256 => key[n % |key|])
  }

  lemma ExtensionAt(key: Key, n: nat)
    requires n < 256
    ensures Extension(key)[n] == key[n % |key|]
  {
  }

  /** The state in which `arc4_addrandom` enters its loop. */
  function StepBack(st: Stream): Stream {
    st.(i := Sub8(st.i, 1))
  }

  /** `arc4_addrandom`: step back, mix all 256 rounds, then set j from i. */
  function AddRandom(st: Stream, key: Key): Stream {
    var mixed := MixBytes(StepBack(st), Extension(key));
    mixed.(j := mixed.i)
  }

  /** The state change of `arc4_getbyte`. */
  function Next(st: Stream): Stream {
    MixRound(st, 0)
  }

  /** The byte read off a state that `arc4_getbyte` has just reached. */
  function Output(st: Stream): byte {
    st.s[Add8(st.s[st.i], st.s[st.j])]
  }

  function Advance(st: Stream, n: nat): Stream {
    if n == 0 then st else Next(Advance(st, n - 1))
  }

  // ----- the output step is the textbook one

  /** One output step of RC4 as usually defined: the new i, j and table, and the byte put out. */
  function OutputStep(i: byte, j: byte, s: Table): (r: (byte, byte, Table, byte)) {
    var nextI: byte := (i as int + 1) % 256;
    var nextJ: byte := (j as int + s[nextI]) % 256;
    var t := s[nextI := s[nextJ]][nextJ := s[nextI]];
    (nextI, nextJ, t, t[(t[nextI] as int + t[nextJ]) % 256])
  }

  lemma NextIsOutputStep(st: Stream)
    ensures var t := Next(st);
            (t.i, t.j, t.s, Output(t)) == OutputStep(st.i, st.j, st.s)
  {
    ByteArithmeticWraps(st.i, 1);
  }

  /** Byte number n of the RC4 output from the given i, j and table on. */
  function Keystream(i: byte, j: byte, s: Table, n: nat): byte
    decreases n
  {
    var (i', j', s', b) := OutputStep(i, j, s);
    if n == 0 then b else Keystream(i', j', s', n - 1)
  }

  lemma {:induction false} AdvanceOn(st: Stream, n: nat)
    ensures Advance(st, n + 1) == Advance(Next(st), n)
  {
    hide Next;
    if n != 0 {
      AdvanceOn(st, n - 1);
    }
  }

  lemma {:induction false} AdvanceTwice(st: Stream, m: nat, n: nat)
    ensures Advance(Advance(st, m), n) == Advance(st, m + n)
  {
    hide Next;
    if n != 0 {
      AdvanceTwice(st, m, n - 1);
    }
  }

  /** From any state, the bytes put out are those of the RC4 output. */
  lemma {:induction false} OutputsAreKeystream(st: Stream, n: nat)
    ensures Output(Advance(st, n + 1)) == Keystream(st.i, st.j, st.s, n)
    decreases n
  {
    hide Next, Output, OutputStep;
    NextIsOutputStep(st);
    AdvanceOn(st, n);
    if n != 0 {
      OutputsAreKeystream(Next(st), n - 1);
    } else {
      assert Advance(Next(st), 0) == Next(st);
    }
  }

  // ----- s stays a permutation

  ghost predicate IsPermutation(s: Table) {
    && (forall a, b :: 0 <= a < b < 256 ==> s[a] != s[b])
    && (forall v: byte :: v in s)
  }

  lemma InitialIsPermutation()
    ensures IsPermutation(Initial().s)
  {
    var s := Identity();
    forall v: byte ensures v in s { assert s[v] == v; }
  }

  lemma SwapKeepsPermutation(s: Table, a: byte, b: byte)
    requires IsPermutation(s)
    ensures IsPermutation(Swap(s, a, b))
  {
    var r := Swap(s, a, b);
    forall v: byte ensures v in r {
      assert v in s;
      var k :| 0 <= k < 256 && s[k] == v;
      assert r[if k == a then b else if k == b then a else k] == v;
    }
  }

  lemma {:induction false} MixBytesKeepsPermutation(st: Stream, ks: seq<byte>)
    requires IsPermutation(st.s)
    ensures IsPermutation(MixBytes(st, ks).s)
  {
    if ks != [] {
      var t := MixBytes(st, ks[..|ks| - 1]);
      MixBytesKeepsPermutation(st, ks[..|ks| - 1]);
      SwapKeepsPermutation(t.s, Add8(t.i, 1), MixRound(t, ks[|ks| - 1]).j);
    }
  }

  lemma AddRandomKeepsPermutation(st: Stream, key: Key)
    requires IsPermutation(st.s)
    ensures IsPermutation(AddRandom(st, key).s)
  {
    MixBytesKeepsPermutation(StepBack(st), Extension(key));
  }

  lemma {:induction false} AdvanceKeepsPermutation(st: Stream, n: nat)
    requires IsPermutation(st.s)
    ensures IsPermutation(Advance(st, n).s)
  {
    if n != 0 {
      AdvanceKeepsPermutation(st, n - 1);
      var t := Advance(st, n - 1);
      SwapKeepsPermutation(t.s, Add8(t.i, 1), Next(t).j);
    }
  }

  // ----- the output step can be undone

  /** The inverse of `Next`: swap back, then take s[i] off j and one off i. */
  function Undo(st: Stream): Stream {
    var s := Swap(st.s, st.i, st.j);
    Stream(Sub8(st.i, 1), Sub8(st.j, s[st.i]), s)
  }

  function Rewind(st: Stream, n: nat): Stream
    decreases n
  {
    if n == 0 then st else Rewind(Undo(st), n - 1)
  }

  lemma SwapTwice(s: Table, a: byte, b: byte)
    ensures Swap(Swap(s, a, b), a, b) == s
  {
  }

  lemma UndoNext(st: Stream)
    ensures Undo(Next(st)) == st
  {
    var t := Next(st);
    SwapTwice(st.s, t.i, t.j);
  }

  lemma NextUndo(st: Stream)
    ensures Next(Undo(st)) == st
  {
    SwapTwice(st.s, st.i, st.j);
  }

  /** `Next` is a bijection on all states: it is injective, and every state has a predecessor. */
  lemma NextIsBijection(a: Stream, b: Stream)
    ensures Next(a) == Next(b) <==> a == b
    ensures exists p :: Next(p) == a
  {
    UndoNext(a);
    UndoNext(b);
    NextUndo(a);
  }

  lemma {:induction false} RewindAdvance(st: Stream, n: nat)
    ensures Rewind(Advance(st, n), n) == st
  {
    hide Next, Undo;
    if n != 0 {
      var t := Advance(st, n - 1);
      UndoNext(t);
      RewindAdvance(st, n - 1);
    }
  }

  /** Distinct generator states stay distinct under runs of equal length. */
  lemma AdvanceNeverMerges(a: Stream, b: Stream, n: nat)
    ensures Advance(a, n) == Advance(b, n) <==> a == b
  {
    RewindAdvance(a, n);
    RewindAdvance(b, n);
  }

  /** Every state is reached in n steps from exactly one state. */
  lemma {:induction false} AdvanceRewind(st: Stream, n: nat)
    ensures Advance(Rewind(st, n), n) == st
    decreases n
  {
    hide Next, Undo;
    if n != 0 {
      AdvanceRewind(Undo(st), n - 1);
      NextUndo(st);
    }
  }

  // ----- what one mixing call does to i and j, from any starting index

  /** The slot that round n of a mixing call starting at index i works on. */
  function SlotOfRound(i: byte, n: byte): byte {
    Add8(i, n)
  }

  lemma {:induction false} RoundWorksOnSlot(st: Stream, ks: seq<byte>)
    requires 0 < |ks| <= 256
    ensures MixBytes(StepBack(st), ks).i == SlotOfRound(st.i, |ks| - 1)
  {
    if |ks| > 1 {
      RoundWorksOnSlot(st, ks[..|ks| - 1]);
    }
  }

  /** Each of the 256 slots is worked on in exactly one of the 256 rounds, wherever the call starts. */
  lemma EachSlotVisitedOnce(i: byte, v: byte)
    ensures exists n: byte :: SlotOfRound(i, n) == v && forall m: byte :: SlotOfRound(i, m) == v ==> m == n
  {
    assert SlotOfRound(i, Sub8(v, i)) == v;
  }

  /** The call leaves i one lower modulo 256, and j equal to i. */
  lemma AddRandomLowersIndex(st: Stream, key: Key)
    ensures AddRandom(st, key).i == Sub8(st.i, 1)
    ensures AddRandom(st, key).j == AddRandom(st, key).i
  {
    RoundWorksOnSlot(st, Extension(key));
  }

  // ----- the key schedule

  /** One round of RC4 key scheduling: j := (j + S[n] + K) mod 256, then swap S[n] and S[j]. */
  function ScheduleRound(j: byte, s: Table, n: byte, k: byte): (byte, Table) {
    var sum: int := j + s[n] + k;
    var j' := sum % 256;
    (j', Swap(s, n, j'))
  }

  /** The RC4 key-scheduling algorithm as RC4 is usually defined, after n of its 256 rounds. */
  function KeySchedule(key: Key, n: nat): (byte, Table)
    requires n <= 256
  {
    if n == 0 then (0, Identity())
    else
      var (j, s) := KeySchedule(key, n - 1);
      ScheduleRound(j, s, n - 1, key[(n - 1) % |key|])
  }

  lemma MixRoundIsScheduleRound(st: Stream, k: byte)
    ensures var m := MixRound(st, k); (m.j, m.s) == ScheduleRound(st.j, st.s, m.i, k)
  {
  }

  lemma {:induction false} MixBytesFollowsKeySchedule(st: Stream, key: Key, n: nat)
    requires st == StepBack(Initial())
    requires n <= 256
    ensures var m := MixBytes(st, Extension(key)[..n]); (m.j, m.s) == KeySchedule(key, n)
  {
    if n != 0 {
      var ks := Extension(key)[..n];
      var m := MixBytes(st, ks[..n - 1]);
      MixBytesFollowsKeySchedule(st, key, n - 1);
      assert ks[..n - 1] == Extension(key)[..n - 1];
      MixRoundIsScheduleRound(m, ks[n - 1]);
      RoundWorksOnSlot(Initial(), ks);
    }
  }

  /** Mixing a key into a fresh generator is the textbook key schedule; i and j both end at 255. */
  lemma AddRandomIsKeySchedule(key: Key)
    ensures AddRandom(Initial(), key) == Stream(255, 255, KeySchedule(key, 256).1)
  {
    var ext, n := Extension(key), |Extension(key)|;
    MixBytesFollowsKeySchedule(StepBack(Initial()), key, n);
    assert ext[..n] == ext;
    AddRandomLowersIndex(Initial(), key);
  }

  /** Such rounds with the given key bytes, from any j and table on, starting with slot `start` and going round. */
  function ScheduleFrom(start: byte, j: byte, s: Table, ks: seq<byte>): (byte, Table) {
    if ks == [] then (j, s)
    else
      var (j', s') := ScheduleFrom(start, j, s, ks[..|ks| - 1]);
      ScheduleRound(j', s', (start as int + |ks| - 1) % 256, ks[|ks| - 1])
  }

  lemma {:induction false} MixBytesFollowsSchedule(st: Stream, ks: seq<byte>)
    requires |ks| <= 256
    ensures var m := MixBytes(StepBack(st), ks); (m.j, m.s) == ScheduleFrom(st.i, st.j, st.s, ks)
  {
    if ks != [] {
      hide MixRound, ScheduleRound, Add8;
      var front := ks[..|ks| - 1];
      MixBytesFollowsSchedule(st, front);
      MixRoundIsScheduleRound(MixBytes(StepBack(st), front), ks[|ks| - 1]);
      RoundWorksOnSlot(st, ks);
      SlotWraps(st.i, |ks| - 1);
    }
  }

  lemma SlotWraps(i: byte, n: byte)
    ensures SlotOfRound(i, n) == (i as int + n) % 256
  {
  }

  /**
    Mixing a key into any generator runs 256 such rounds from its i, j and table on,
    with the bytes of the key over and over.
   */
  lemma AddRandomFollowsSchedule(st: Stream, key: Key) returns (ks: seq<byte>)
    ensures |ks| == 256 && forall r :: 0 <= r < 256 ==> ks[r] == key[r % |key|]
    ensures var lowered: byte := (st.i as int + 255) % 256;
            AddRandom(st, key) == Stream(lowered, lowered, ScheduleFrom(st.i, st.j, st.s, ks).1)
  {
    hide MixBytes, ScheduleFrom, StepBack;
    ks := Extension(key);
    MixBytesFollowsSchedule(st, ks);
    AddRandomLowersIndex(st, key);
  }

  // ----- repeating the key changes nothing

  function Repeat(key: Key, times: nat): Key
    requires times != 0
  {
    if times == 1 then key else key + Repeat(key, times - 1)
  }

  lemma {:induction false} RepeatIsPeriodic(key: Key, times: nat, n: nat)
    requires times != 0 && n < |Repeat(key, times)|
    ensures Repeat(key, times)[n] == key[n % |key|]
  {
    if n >= |key| {
      RepeatIsPeriodic(key, times - 1, n - |key|);
      ModMinus(n, |key|);
    }
  }

  lemma {:induction false} RepeatLength(key: Key, times: nat)
    requires times != 0
    ensures |Repeat(key, times)| == times * |key|
  {
    if times != 1 {
      RepeatLength(key, times - 1);
    }
  }

  /** Mixing in a key repeated any number of times is mixing in the key. */
  lemma RepeatingKeyChangesNothing(st: Stream, key: Key, times: nat)
    requires times != 0
    ensures AddRandom(st, Repeat(key, times)) == AddRandom(st, key)
  {
    var long := Repeat(key, times);
    RepeatLength(key, times);
    forall n | 0 <= n < 256 ensures Extension(long)[n] == Extension(key)[n] {
      RepeatIsPeriodic(key, times, n % |long|);
      ModOfMultiple(n, |key|, times);
    }
    assert Extension(long) == Extension(key);
  }
}
