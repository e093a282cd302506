/**
  The calls of arc4random.c on values: seeding, the reseed budget and its
  consumers, and what every run of calls keeps.
 */
module RandomCalls {
  import opened Wrappers
  import opened Rc4
  import opened HexEntropy
  import opened UniformSampling

  const BYTES_BEFORE_RESEED: int := 1600000
  const DISCARDED: nat := 12 * 256

  /**
    What the three seed sources deliver to one call of `arc4_seed`: 32 bytes of
    a random device, the uuid file, and 32 bytes of the uuid system call.
   */
  datatype Sources = Sources(urandom: Option<Key>, uuid: nat -> Read, sysctl: Option<Key>)

  /** `sinceStir` counts the bytes handed to callers since the last stir that succeeded. */
  datatype Generator = Generator(stream: Stream, initialized: bool, pid: int, count: int,
                                 seededOk: bool, stirs: nat, sinceStir: nat)

  // ----- seeding

  /** The keys one call of `arc4_seed` mixes in, its success, and whether it sets `arc4_seeded_ok`. */
  datatype Seeding = Seeding(keys: seq<Key>, ok: bool, seeds: bool)

  function Seed(src: Sources): Seeding {
    var device := if src.urandom.Some? then [src.urandom.value] else [];
    var harvest := Collect(src.uuid, 0, 0);
    if src.urandom.Some? || harvest.ok then
      Seeding(device + harvest.keys, true, src.urandom.Some?)
    else if src.sysctl.Some? then
      Seeding(device + harvest.keys + [src.sysctl.value], true, true)
    else
      Seeding(device + harvest.keys, false, false)
  }

  function AddKeys(st: Stream, keys: seq<Key>): Stream
    decreases |keys|
  {
    if keys == [] then st else AddKeys(Rc4.AddRandom(st, keys[0]), keys[1..])
  }

  lemma AddKeysStep(st: Stream, key: Key, keys: seq<Key>)
    ensures AddKeys(st, [key] + keys) == AddKeys(Rc4.AddRandom(st, key), keys)
  {
    hide Rc4.AddRandom;
    assert ([key] + keys)[1..] == keys;
  }

  lemma AddNoKeys(st: Stream)
    ensures AddKeys(st, []) == st
  {
  }

  lemma {:induction false} AddKeysConcat(st: Stream, a: seq<Key>, b: seq<Key>)
    ensures AddKeys(st, a + b) == AddKeys(AddKeys(st, a), b)
    decreases |a|
  {
    if a == [] {
      assert a + b == b;
    } else {
      assert (a + b)[1..] == a[1..] + b;
      AddKeysConcat(Rc4.AddRandom(st, a[0]), a[1..], b);
    }
  }

  lemma {:induction false} AddKeysKeepsPermutation(st: Stream, keys: seq<Key>)
    requires IsPermutation(st.s)
    ensures IsPermutation(AddKeys(st, keys).s)
    decreases |keys|
  {
    if keys != [] {
      AddRandomKeepsPermutation(st, keys[0]);
      AddKeysKeepsPermutation(Rc4.AddRandom(st, keys[0]), keys[1..]);
    }
  }

  // ----- the calls

  function Stir(g: Generator, sources: nat -> Sources): Generator {
    var start := if g.initialized then g.stream else Initial();
    var seeding := Seed(sources(g.stirs));
    var mixed := g.(stream := AddKeys(start, seeding.keys), initialized := true,
                    seededOk := g.seededOk || seeding.seeds, stirs := g.stirs + 1);
    if mixed.seededOk then
      mixed.(stream := Advance(mixed.stream, DISCARDED), count := BYTES_BEFORE_RESEED, sinceStir := 0)
    else mixed
  }

  function StirIfNeeded(g: Generator, pid: int, sources: nat -> Sources): Generator {
    if g.count <= 0 || !g.initialized || g.pid != pid then Stir(g.(pid := pid), sources) else g
  }

  /** The word made of the next four bytes, the first one highest. */
  function Word(st: Stream): int {
    var b0: int, b1: int := Output(Advance(st, 1)), Output(Advance(st, 2));
    var b2: int, b3: int := Output(Advance(st, 3)), Output(Advance(st, 4));
    ((b0 * 256 + b1) * 256 + b2) * 256 + b3
  }

  function BeforeWord(g: Generator, pid: int, sources: nat -> Sources): Generator {
    StirIfNeeded(g.(count := g.count - 4), pid, sources)
  }

  function Random(g: Generator, pid: int, sources: nat -> Sources): Generator {
    var r := BeforeWord(g, pid, sources);
    r.(stream := Advance(r.stream, 4), sinceStir := r.sinceStir + 4)
  }

  /** The state from which `arc4random_buf` takes its next byte. */
  function BeforeByte(g: Generator, sources: nat -> Sources): Generator {
    var less := g.(count := g.count - 1);
    if less.count <= 0 then Stir(less, sources) else less
  }

  function TakeByte(g: Generator, sources: nat -> Sources): Generator {
    var r := BeforeByte(g, sources);
    r.(stream := Next(r.stream), sinceStir := r.sinceStir + 1)
  }

  /** The loop of `arc4random_buf`: the final state and the memory of n bytes, filled from its end. */
  function Fill(g: Generator, n: nat, sources: nat -> Sources): (Generator, seq<byte>)
    decreases n
  {
    if n == 0 then (g, [])
    else
      var taken := TakeByte(g, sources);
      var (last, front) := Fill(taken, n - 1, sources);
      (last, front + [Output(taken.stream)])
  }

  function Buf(g: Generator, pid: int, n: nat, sources: nat -> Sources): (Generator, seq<byte>) {
    Fill(StirIfNeeded(g, pid, sources), n, sources)
  }

  /** The part of dat that chunk number c of `arc4random_addrandom` hands on. */
  function Chunk(dat: seq<byte>, c: nat): Key
    requires 256 * c < |dat|
  {
    dat[256 * c..]
  }

  function Chunks(length: nat): nat {
    (length + 255) / 256
  }

  function AbsorbChunks(st: Stream, dat: seq<byte>, n: nat): Stream
    requires n <= Chunks(|dat|)
  {
    if n == 0 then st else Rc4.AddRandom(AbsorbChunks(st, dat, n - 1), Chunk(dat, n - 1))
  }

  function AddRandom(g: Generator, dat: seq<byte>, sources: nat -> Sources): Generator {
    var r := if g.initialized then g else Stir(g, sources);
    r.(stream := AbsorbChunks(r.stream, dat, Chunks(|dat|)))
  }

  // ----- what the calls compute

  /** The keys of one call of `arc4_seed`, mixed in one after the other: the device, the uuid file, the last resort. */
  lemma SeedMixesInOrder(st: Stream, src: Sources)
    ensures var uuid := Collect(src.uuid, 0, 0);
            var s1 := if src.urandom.Some? then Rc4.AddRandom(st, src.urandom.value) else st;
            var s2 := AddKeys(s1, uuid.keys);
            AddKeys(st, Seed(src).keys) ==
              if src.urandom.None? && !uuid.ok && src.sysctl.Some? then Rc4.AddRandom(s2, src.sysctl.value) else s2
  {
    hide Rc4.AddRandom, Collect;
    var uuid := Collect(src.uuid, 0, 0);
    var device := if src.urandom.Some? then [src.urandom.value] else [];
    AddKeysConcat(st, device, uuid.keys);
    if src.sysctl.Some? {
      AddKeysConcat(st, device + uuid.keys, [src.sysctl.value]);
    }
  }

  /**
    A stir starts from the state there is, or from the fresh one before the first;
    after the keys of its turn it throws 3072 bytes away if any source has set the
    flag by then.
   */
  lemma StirMixes(g: Generator, sources: nat -> Sources)
    ensures var src := sources(g.stirs);
            var start := if g.initialized then g.stream else Stream(0, 0, Identity());
            var uuid := Collect(src.uuid, 0, 0);
            var s1 := if src.urandom.Some? then Rc4.AddRandom(start, src.urandom.value) else start;
            var s2 := AddKeys(s1, uuid.keys);
            var last := src.urandom.None? && !uuid.ok && src.sysctl.Some?;
            var s3 := if last then Rc4.AddRandom(s2, src.sysctl.value) else s2;
            var r := Stir(g, sources);
            && (r.seededOk <==> g.seededOk || src.urandom.Some? || last)
            && r.stream == (if r.seededOk then Advance(s3, 3072) else s3)
            && r.stirs == g.stirs + 1 && r.initialized && r.pid == g.pid
  {
    hide Rc4.AddRandom, Collect, AddKeys, Advance;
    SeedMixesInOrder(if g.initialized then g.stream else Initial(), sources(g.stirs));
  }

  /**
    Exactly when the count is used up, nothing is initialized, or another process
    asks does a word or a buffer stir first; afterwards the process is known. So a
    child of a fork never goes on with its parent's bytes.
   */
  lemma StirsExactlyWhen(g: Generator, pid: int, n: nat, sources: nat -> Sources)
    ensures var spent := g.(count := g.count - 4);
            var r := Random(g, pid, sources);
            && r.pid == pid
            && if spent.count <= 0 || !g.initialized || g.pid != pid then
                 r.stirs == g.stirs + 1 && NextWord(g, pid, sources) == Word(Stir(spent.(pid := pid), sources).stream)
               else r.stirs == g.stirs && NextWord(g, pid, sources) == Word(g.stream)
    ensures var r := Buf(g, pid, n, sources);
            && r.0.pid == pid
            && if g.count <= 0 || !g.initialized || g.pid != pid then
                 r.0.stirs > g.stirs && r == Fill(Stir(g.(pid := pid), sources), n, sources)
               else r == Fill(g, n, sources)
  {
    hide Stir, Fill, Word;
    StirFacts(g.(count := g.count - 4, pid := pid), sources);
    StirFacts(g.(pid := pid), sources);
    FillFacts(StirIfNeeded(g, pid, sources), n, sources);
  }

  lemma StirFacts(g: Generator, sources: nat -> Sources)
    ensures Stir(g, sources).stirs == g.stirs + 1 && Stir(g, sources).pid == g.pid && Stir(g, sources).initialized
  {
  }

  lemma {:induction false} FillFacts(g: Generator, n: nat, sources: nat -> Sources)
    ensures Fill(g, n, sources).0.pid == g.pid && Fill(g, n, sources).0.stirs >= g.stirs
    decreases n
  {
    if n != 0 {
      hide Stir, Next, Output;
      StirFacts(g.(count := g.count - 1), sources);
      FillFacts(TakeByte(g, sources), n - 1, sources);
    }
  }

  /** The word is made of the next four bytes of the RC4 output, the first one highest. */
  lemma WordIsNextFourBytes(st: Stream)
    ensures var w := Word(st);
            && 0 <= w < 0x1_0000_0000
            && w / 0x100_0000 == Keystream(st.i, st.j, st.s, 0)
            && w / 0x1_0000 % 256 == Keystream(st.i, st.j, st.s, 1)
            && w / 0x100 % 256 == Keystream(st.i, st.j, st.s, 2)
            && w % 256 == Keystream(st.i, st.j, st.s, 3)
  {
    hide Keystream, Output, Advance;
    OutputsAreKeystream(st, 0);
    OutputsAreKeystream(st, 1);
    OutputsAreKeystream(st, 2);
    OutputsAreKeystream(st, 3);
    BigEndian(Output(Advance(st, 1)), Output(Advance(st, 2)), Output(Advance(st, 3)), Output(Advance(st, 4)));
  }

  lemma BigEndian(b0: byte, b1: byte, b2: byte, b3: byte)
    ensures var w: int := ((b0 as int * 256 + b1) * 256 + b2) * 256 + b3;
            && 0 <= w < 0x1_0000_0000 && w / 0x100_0000 == b0
            && w / 0x1_0000 % 256 == b1 && w / 0x100 % 256 == b2 && w % 256 == b3
  {
    var high: int := b0 as int * 256 + b1;
    var most: int := high * 256 + b2;
    assert most % 256 == b2 && high % 256 == b1;
    assert (most * 256 + b3) / 256 == most && most / 256 == high;
  }

  /** The state after k bytes for a buffer. */
  function Taken(g: Generator, k: nat, sources: nat -> Sources): Generator
    decreases k
  {
    if k == 0 then g else Taken(TakeByte(g, sources), k - 1, sources)
  }

  /** A buffer is filled from its end: the byte at p comes after those behind it, off the state reached by then. */
  lemma {:induction false} FillFromEnd(g: Generator, n: nat, sources: nat -> Sources, p: nat)
    requires p < n
    ensures var (last, bytes) := Fill(g, n, sources);
            && last == Taken(g, n, sources) && |bytes| == n
            && bytes[p] == Output(Taken(g, n - p, sources).stream)
    decreases n
  {
    hide TakeByte, Output;
    var next := TakeByte(g, sources);
    if n == 1 {
      assert Fill(next, 0, sources) == (next, []);
      assert Taken(g, 1, sources) == Taken(next, 0, sources) == next;
    } else {
      FillFromEnd(next, n - 1, sources, if p == n - 1 then 0 else p);
      assert p == n - 1 ==> Taken(g, 1, sources) == Taken(next, 0, sources) == next;
    }
  }

  /** Without a stir the buffer is the next n bytes of the RC4 output in reverse. */
  lemma {:induction false} FillIsKeystream(g: Generator, n: nat, sources: nat -> Sources, p: nat)
    requires p < n < g.count
    ensures var bytes := Fill(g, n, sources).1;
            |bytes| == n && bytes[p] == Keystream(g.stream.i, g.stream.j, g.stream.s, n - p - 1)
  {
    hide Fill, TakeByte, Keystream, Output, Taken;
    FillFromEnd(g, n, sources, p);
    TakenWithinBudget(g, n - p, sources);
    OutputsAreKeystream(g.stream, n - p - 1);
  }

  lemma {:induction false} TakenWithinBudget(g: Generator, k: nat, sources: nat -> Sources)
    requires k < g.count
    ensures Taken(g, k, sources).stream == Advance(g.stream, k)
    decreases k
  {
    hide Next;
    if k != 0 {
      TakenWithinBudget(TakeByte(g, sources), k - 1, sources);
      AdvanceOn(g.stream, k - 1);
    }
  }

  /**
    The first word of a process in which only a random device works: bytes 3072 to
    3075 of the RC4 output that follows the textbook key schedule of its bytes.
   */
  lemma FirstWord(pid: int, key: Key, sources: nat -> Sources, n: nat)
    requires sources(0).urandom == Some(key) && sources(0).uuid(0) == Failed && n < 4
    ensures var w, s := NextWord(Fresh(), pid, sources), KeySchedule(key, 256).1;
            w / (if n == 0 then 0x100_0000 else if n == 1 then 0x1_0000 else if n == 2 then 0x100 else 1) % 256
            == Keystream(255, 255, s, 3072 + n)
  {
    hide Stir, KeySchedule, Rc4.AddRandom, Advance, Output, Keystream, Word;
    StirMixes(Fresh().(count := -4, pid := pid), sources);
    CollectEnds(sources(0).uuid, 0, 0);
    AddRandomIsKeySchedule(key);
    var st := Rc4.AddRandom(Initial(), key);
    AddNoKeys(st);
    var before := Advance(st, 3072);
    assert NextWord(Fresh(), pid, sources) == Word(before);
    WordIsNextFourBytes(before);
    OutputsAreKeystream(before, n);
    OutputsAreKeystream(st, 3072 + n);
    AdvanceTwice(st, 3072, n + 1);
  }

  // ----- what every run keeps

  datatype Call =
    | CallRandom(pid: int)
    | CallBuf(pid: int, n: nat)
    | CallStir
    | CallAddRandom(dat: seq<byte>)

  function Apply(g: Generator, call: Call, sources: nat -> Sources): Generator {
    match call
    case CallRandom(pid) => Random(g, pid, sources)
    case CallBuf(pid, n) => Buf(g, pid, n, sources).0
    case CallStir => Stir(g, sources)
    case CallAddRandom(dat) => AddRandom(g, dat, sources)
  }

  function Run(g: Generator, calls: seq<Call>, sources: nat -> Sources): Generator {
    if calls == [] then g else Apply(Run(g, calls[..|calls| - 1], sources), calls[|calls| - 1], sources)
  }

  /** The generator before its first call: every static variable is zero. */
  function Fresh(): Generator {
    Generator(Stream(0, 0, seq(256, _ => 0)), false, 0, 0, false, 0, 0)
  }

  ghost predicate Inv(g: Generator) {
    && (g.initialized ==> IsPermutation(g.stream.s))
    && (g.seededOk ==>
          && g.initialized
          && 1 <= g.count <= BYTES_BEFORE_RESEED
          && g.sinceStir + g.count <= BYTES_BEFORE_RESEED + 4)
    && (!g.seededOk ==> g.count <= 0)
  }

  /** Stirring repairs the budget whatever the count was before. */
  lemma StirKeepsInv(g: Generator, sources: nat -> Sources)
    requires g.initialized ==> IsPermutation(g.stream.s)
    requires !g.seededOk ==> g.count <= 0
    ensures var r := Stir(g, sources);
            && Inv(r) && r.initialized && (g.seededOk ==> r.seededOk)
            && if r.seededOk then r.count == BYTES_BEFORE_RESEED && r.sinceStir == 0 else r.count == g.count
  {
    var start := if g.initialized then g.stream else Initial();
    var keys := Seed(sources(g.stirs)).keys;
    InitialIsPermutation();
    AddKeysKeepsPermutation(start, keys);
    AdvanceKeepsPermutation(AddKeys(start, keys), DISCARDED);
  }

  lemma StirIfNeededKeepsInv(g: Generator, pid: int, sources: nat -> Sources)
    requires g.initialized ==> IsPermutation(g.stream.s)
    requires !g.seededOk ==> g.count <= 0
    requires g.seededOk ==> g.count <= BYTES_BEFORE_RESEED && g.sinceStir + g.count <= BYTES_BEFORE_RESEED + 4
    ensures Inv(StirIfNeeded(g, pid, sources)) && StirIfNeeded(g, pid, sources).initialized
    ensures g.seededOk ==> StirIfNeeded(g, pid, sources).seededOk
  {
    StirKeepsInv(g.(pid := pid), sources);
  }

  lemma RandomKeepsInv(g: Generator, pid: int, sources: nat -> Sources)
    requires Inv(g)
    ensures var r := Random(g, pid, sources);
            && Inv(r) && (g.seededOk ==> r.seededOk)
            && (r.stirs == g.stirs ==> r.count == g.count - 4 && r.sinceStir == g.sinceStir + 4)
            && (r.stirs != g.stirs ==>
                  if r.seededOk then r.count == BYTES_BEFORE_RESEED && r.sinceStir == 4 else r.count == g.count - 4)
  {
    var less := g.(count := g.count - 4);
    if less.count <= 0 {
      StirKeepsInv(less.(pid := pid), sources);
    } else {
      StirIfNeededKeepsInv(less, pid, sources);
    }
    AdvanceKeepsPermutation(BeforeWord(g, pid, sources).stream, 4);
  }

  lemma TakeByteKeepsInv(g: Generator, sources: nat -> Sources)
    requires Inv(g) && g.initialized
    ensures Inv(TakeByte(g, sources)) && TakeByte(g, sources).initialized
    ensures g.seededOk ==> TakeByte(g, sources).seededOk
  {
    var r := BeforeByte(g, sources);
    if g.count - 1 <= 0 {
      StirKeepsInv(g.(count := g.count - 1), sources);
    }
    AdvanceKeepsPermutation(r.stream, 1);
    assert Advance(r.stream, 1) == Next(Advance(r.stream, 0));
  }

  lemma {:induction false} FillKeepsInv(g: Generator, n: nat, sources: nat -> Sources)
    requires Inv(g) && g.initialized
    ensures Inv(Fill(g, n, sources).0)
    ensures g.seededOk ==> Fill(g, n, sources).0.seededOk
    decreases n
  {
    hide TakeByte, Inv;
    if n != 0 {
      TakeByteKeepsInv(g, sources);
      FillKeepsInv(TakeByte(g, sources), n - 1, sources);
    }
  }

  lemma {:induction false} AbsorbKeepsPermutation(st: Stream, dat: seq<byte>, n: nat)
    requires n <= Chunks(|dat|) && IsPermutation(st.s)
    ensures IsPermutation(AbsorbChunks(st, dat, n).s)
  {
    hide Rc4.AddRandom, IsPermutation;
    if n != 0 {
      AbsorbKeepsPermutation(st, dat, n - 1);
      AddRandomKeepsPermutation(AbsorbChunks(st, dat, n - 1), Chunk(dat, n - 1));
    }
  }

  lemma ApplyKeepsInv(g: Generator, call: Call, sources: nat -> Sources)
    requires Inv(g)
    ensures Inv(Apply(g, call, sources))
    ensures g.seededOk ==> Apply(g, call, sources).seededOk
  {
    match call {
      case CallRandom(pid) => RandomKeepsInv(g, pid, sources);
      case CallBuf(pid, n) =>
        StirIfNeededKeepsInv(g, pid, sources);
        FillKeepsInv(StirIfNeeded(g, pid, sources), n, sources);
      case CallStir => StirKeepsInv(g, sources);
      case CallAddRandom(dat) =>
        StirKeepsInv(g, sources);
        AbsorbKeepsPermutation((if g.initialized then g else Stir(g, sources)).stream, dat, Chunks(|dat|));
    }
  }

  /**
    After any run of calls: s is a permutation once it is initialized; once
    seeding has succeeded the count lies in 1..1600000 and at most 1600003 bytes
    have been handed out since the last stir; before that the count never
    becomes positive, so every request stirs again.
   */
  lemma {:induction false} RunKeepsBudget(calls: seq<Call>, sources: nat -> Sources)
    ensures var g := Run(Fresh(), calls, sources);
            && Inv(g)
            && (g.seededOk ==> 1 <= g.count <= 1600000 && g.sinceStir <= 1600003)
  {
    if calls != [] {
      RunKeepsBudget(calls[..|calls| - 1], sources);
      ApplyKeepsInv(Run(Fresh(), calls[..|calls| - 1], sources), calls[|calls| - 1], sources);
    }
  }

  lemma {:induction false} FillWithinBudget(g: Generator, n: nat, sources: nat -> Sources)
    requires n < g.count
    ensures var r := Fill(g, n, sources).0;
            r.count == g.count - n && r.sinceStir == g.sinceStir + n && r.stirs == g.stirs
    decreases n
  {
    hide Stir, Next;
    if n != 0 {
      FillWithinBudget(TakeByte(g, sources), n - 1, sources);
    }
  }

  /** The bound is reached: one word, then a buffer of 1599999 bytes, with no stir in between. */
  lemma BudgetIsTight(pid: int, sources: nat -> Sources)
    requires Seed(sources(0)).seeds
    ensures var g := Run(Fresh(), [CallRandom(pid), CallBuf(pid, (BYTES_BEFORE_RESEED - 1) as nat)], sources);
            g.sinceStir == 1600003 && g.count == 1 && g.stirs == 1
  {
    var first := CallRandom(pid);
    var calls := [first, CallBuf(pid, BYTES_BEFORE_RESEED - 1)];
    assert calls[..1] == [first] && [first][..0] == [];
    assert Run(Fresh(), [first], sources) == Random(Fresh(), pid, sources);
    var g := Random(Fresh(), pid, sources);
    FillWithinBudget(g, BYTES_BEFORE_RESEED - 1, sources);
  }

  /** The uuid file alone makes `arc4_seed` report success but does not set `arc4_seeded_ok`, so the stir fails. */
  lemma UuidAloneDoesNotSeed(g: Generator, sources: nat -> Sources)
    requires !g.seededOk
    ensures var src := sources(g.stirs);
            var uuidAlone := src.urandom.None? && Collect(src.uuid, 0, 0).ok;
            && (uuidAlone ==> Seed(src).ok)
            && (Stir(g, sources).seededOk <==> Seed(src).ok && !uuidAlone)
  {
  }

  // ----- arc4random_addrandom absorbs all of its input

  /** Byte p of the data is the key byte of round p mod 256 of chunk p / 256; no read is out of range. */
  lemma EveryByteIsAKeyByte(dat: seq<byte>, p: nat)
    requires p < |dat|
    ensures p / 256 < Chunks(|dat|)
    ensures Extension(Chunk(dat, p / 256))[p % 256] == dat[p]
  {
    var c, n := p / 256, p % 256;
    assert p == 256 * c + n;
    assert n < |Chunk(dat, c)|;
    assert n % |Chunk(dat, c)| == n by { Arithmetic.ModIsUnique(n, |Chunk(dat, c)|, 0, n); }
  }

  /**
    Round n of the loop mixes in 256 key bytes, which are the data from byte 256 * n
    on, over and over if they are fewer.
   */
  lemma AbsorbMixesChunk(st: Stream, dat: seq<byte>, n: nat) returns (ks: seq<byte>)
    requires n < Chunks(|dat|)
    ensures 256 * n < |dat| && |ks| == 256
    ensures forall r :: 0 <= r < 256 ==> ks[r] == dat[256 * n + r % (|dat| - 256 * n)]
    ensures forall r :: 0 <= r < 256 && 256 * n + r < |dat| ==> ks[r] == dat[256 * n + r]
    ensures var before, after := AbsorbChunks(st, dat, n), AbsorbChunks(st, dat, n + 1);
            var lowered: byte := (before.i as int + 255) % 256;
            after == Stream(lowered, lowered, ScheduleFrom(before.i, before.j, before.s, ks).1)
  {
    hide Rc4.AddRandom, ScheduleFrom;
    var chunk := Chunk(dat, n);
    ks := AddRandomFollowsSchedule(AbsorbChunks(st, dat, n), chunk);
    forall r | 0 <= r < 256
      ensures ks[r] == dat[256 * n + r % (|dat| - 256 * n)]
      ensures 256 * n + r < |dat| ==> ks[r] == dat[256 * n + r] {
      if r < |chunk| {
        Arithmetic.ModIsUnique(r, |chunk|, 0, r);
      }
    }
  }

  /** The whole call: it stirs first if nothing is initialized, and then every chunk has its round. */
  lemma AddRandomAbsorbsAll(g: Generator, dat: seq<byte>, sources: nat -> Sources)
    ensures var r := AddRandom(g, dat, sources);
            var start := if g.initialized then g else Stir(g, sources);
            && r == start.(stream := AbsorbChunks(start.stream, dat, (|dat| + 255) / 256))
            && AbsorbChunks(start.stream, dat, 0) == start.stream
  {
    hide Stir;
  }

  lemma {:induction false} AbsorbLowersIndex(st: Stream, dat: seq<byte>, n: nat)
    requires n <= Chunks(|dat|)
    ensures var lowered: int := st.i - n; AbsorbChunks(st, dat, n).i == lowered % 256
  {
    hide Rc4.AddRandom, Add8, Sub8;
    if n != 0 {
      AbsorbLowersIndex(st, dat, n - 1);
      var before := AbsorbChunks(st, dat, n - 1);
      AddRandomLowersIndex(before, Chunk(dat, n - 1));
      ByteArithmeticWraps(before.i, 1);
      Arithmetic.WrapAdd(st.i - (n - 1), -1);
    }
  }

  /** The values the loop counter of `arc4random_addrandom` takes, the last one ending the loop. */
  ghost predicate IsLoopCounter(j: int, length: nat) {
    exists c :: 0 <= c <= Chunks(length) && j == 256 * c
  }

  /** The counter is an `int`: it stays in range exactly for lengths up to 2^31 - 256. */
  lemma LoopCounterFits(length: nat)
    ensures (forall j :: IsLoopCounter(j, length) ==> j <= 0x7fff_ffff) <==> length <= 0x7fff_ff00
  {
    if 0x7fff_ff00 < length {
      assert IsLoopCounter(256 * Chunks(length), length);
    }
  }

  // ----- arc4random_uniform

  /** The word one call of `arc4random` returns. */
  function NextWord(g: Generator, pid: int, sources: nat -> Sources): int {
    Word(BeforeWord(g, pid, sources).stream)
  }

  /** Draw words until one is accepted, at most `tries` of them. */
  function Uniform(g: Generator, pid: int, bound: uint32, tries: nat, sources: nat -> Sources): (Generator, Option<int>)
    requires 2 <= bound
    decreases tries
  {
    if tries == 0 then (g, None)
    else
      var word, next := NextWord(g, pid, sources), Random(g, pid, sources);
      if Accepted(word, bound) then (next, Some(word % bound))
      else Uniform(next, pid, bound, tries - 1, sources)
  }

  /** The word of call number n of `arc4random`, when called again and again. */
  function NthWord(g: Generator, pid: int, n: nat, sources: nat -> Sources): int
    decreases n
  {
    if n == 0 then NextWord(g, pid, sources) else NthWord(Random(g, pid, sources), pid, n - 1, sources)
  }

  ghost predicate FirstAccepted(g: Generator, pid: int, bound: uint32, n: nat, sources: nat -> Sources)
    requires 2 <= bound
  {
    && Accepted(NthWord(g, pid, n, sources), bound)
    && forall m: nat :: m < n ==> !Accepted(NthWord(g, pid, m, sources), bound)
  }

  /** The result is the first accepted word reduced modulo the bound; there is none only if all were rejected. */
  lemma {:induction false} UniformIsFirstAccepted(g: Generator, pid: int, bound: uint32, tries: nat,
                                                  sources: nat -> Sources)
    returns (n: nat)
    requires 2 <= bound
    ensures var r := Uniform(g, pid, bound, tries, sources).1;
            if r.Some? then
              n < tries && FirstAccepted(g, pid, bound, n, sources) && r.value == NthWord(g, pid, n, sources) % bound
            else
              forall m: nat :: m < tries ==> !Accepted(NthWord(g, pid, m, sources), bound)
    decreases tries
  {
    hide Random, NextWord;
    n := 0;
    if tries != 0 && !Accepted(NextWord(g, pid, sources), bound) {
      var next := Random(g, pid, sources);
      var k := UniformIsFirstAccepted(next, pid, bound, tries - 1, sources);
      n := k + 1;
      forall m: nat | m != 0 ensures NthWord(g, pid, m, sources) == NthWord(next, pid, m - 1, sources) {
      }
    }
  }
}
