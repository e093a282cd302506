/** The in-place code of arc4random.c, each function proved against its value in `RandomCalls`. */
module Arc4Random {
  import opened Wrappers
  import opened Rc4
  import opened HexEntropy
  import opened UniformSampling
  import Calls = RandomCalls

  class Arc4 {
    var i: byte
    var j: byte
    const s: array<byte>
    var initialized: bool
    var pid: int
    var count: int
    var seededOk: bool
    /** How often `arc4_seed` has been called, and what the sources deliver each time. */
    var stirs: nat
    const sources: nat -> Calls.Sources
    ghost var sinceStir: nat

    ghost predicate Valid()
      reads this
    {
      s.Length == 256
    }

    ghost function State(): Stream
      reads this, s
      requires Valid()
    {
      Stream(i, j, s[..])
    }

    ghost function View(): Calls.Generator
      reads this, s
      requires Valid()
    {
      Calls.Generator(State(), initialized, pid, count, seededOk, stirs, sinceStir)
    }

    constructor (sources: nat -> Calls.Sources)
      ensures Valid() && View() == Calls.Fresh() && this.sources == sources && fresh(s)
    {
      i, j := 0, 0;
      s := new byte[256](_ => 0);
      initialized, pid, count, seededOk, stirs, sinceStir := false, 0, 0, false, 0, 0;
      this.sources := sources;
      new;
      assert s[..] == Calls.Fresh().stream.s;
    }

    /** `arc4_init` */
    method Init()
      requires Valid()
      modifies this`i, this`j, s
      ensures Valid() && State() == Initial()
    {
      for n := 0 to 256
        invariant forall k :: 0 <= k < n ==> s[k] == k
      {
        s[n] := n;
      }
      i, j := 0, 0;
      assert s[..] == Identity();
    }

    /** The body of the loop of `arc4_addrandom`. */
    method MixByte(k: byte)
      requires Valid()
      modifies this`i, this`j, s
      ensures Valid() && State() == MixRound(old(State()), k)
      ensures IsPermutation(old(State()).s) ==> IsPermutation(State().s)
    {
      hide IsPermutation;
      ghost var was := State();
      i := Add8(i, 1);
      var si := s[i];
      j := Add8(Add8(j, si), k);
      s[i] := s[j];
      s[j] := si;
      assert s[..] == Swap(was.s, i, j);
      if IsPermutation(was.s) {
        SwapKeepsPermutation(was.s, i, j);
      }
    }

    /** `arc4_addrandom` */
    method Mix(dat: Key)
      requires Valid()
      modifies this`i, this`j, s
      ensures Valid() && State() == Rc4.AddRandom(old(State()), dat)
    {
      ghost var start, ext := StepBack(State()), Extension(dat);
      i := Sub8(i, 1);
      hide MixRound, Extension;
      for n := 0 to 256
        invariant State() == MixBytes(start, ext[..n])
      {
        MixByte(dat[n % |dat|]);
        ExtensionAt(dat, n);
        assert ext[..n + 1][..n] == ext[..n];
      }
      assert ext[..256] == ext;
      j := i;
    }

    /** `arc4_getbyte` */
    method GetByte() returns (b: byte)
      requires Valid()
      modifies this`i, this`j, s
      ensures Valid() && State() == Next(old(State())) && b == Output(State())
      ensures (i, j, s[..], b) == OutputStep(old(i), old(j), old(s[..]))
    {
      ghost var was := State();
      NextIsOutputStep(was);
      i := Add8(i, 1);
      var si := s[i];
      j := Add8(j, si);
      var sj := s[j];
      s[i] := sj;
      s[j] := si;
      assert s[..] == Swap(was.s, i, j);
      b := s[Add8(si, sj)];
    }

    /** `arc4_seed_proc_sys_kernel_random_uuid` */
    method SeedFromUuid(uuid: nat -> Read) returns (ok: bool)
      requires Valid()
      modifies this`i, this`j, s
      ensures Valid() && ok == Collect(uuid, 0, 0).ok
      ensures State() == Calls.AddKeys(old(State()), Collect(uuid, 0, 0).keys)
    {
      hide Rc4.AddRandom, Pack, HexDigits, Collect, Calls.AddKeys;
      var entropy := new bv8[64];
      var bytes, n := 0, 0;
      ghost var start, all := State(), Collect(uuid, 0, 0);
      while bytes < ADD_ENTROPY
        invariant Collect(uuid, n, bytes).ok == all.ok
        invariant Calls.AddKeys(State(), Collect(uuid, n, bytes).keys) == Calls.AddKeys(start, all.keys)
        decreases ADD_ENTROPY - bytes
      {
        CollectEnds(uuid, n, bytes);
        Calls.AddNoKeys(State());
        var attempt := uuid(n);
        if attempt.Failed? {
          return false;
        }
        var nybbles := Decode(attempt.text, entropy);
        if nybbles < 2 {
          return false;
        }
        var key := ToKey(entropy[..nybbles / 2]);
        CollectStep(uuid, n, bytes);
        Calls.AddKeysStep(State(), key, Collect(uuid, n + 1, bytes + nybbles / 2).keys);
        Mix(key);
        bytes := bytes + nybbles / 2;
        n := n + 1;
      }
      CollectEnds(uuid, n, bytes);
      Calls.AddNoKeys(State());
      return true;
    }

    /** `arc4_seed` */
    method SeedAll() returns (ok: bool)
      requires Valid()
      modifies this`i, this`j, this`seededOk, s
      ensures Valid() && ok == Calls.Seed(sources(stirs)).ok
      ensures State() == Calls.AddKeys(old(State()), Calls.Seed(sources(stirs)).keys)
      ensures seededOk == (old(seededOk) || Calls.Seed(sources(stirs)).seeds)
    {
      ghost var start := State();
      var src := sources(stirs);
      ghost var device := if src.urandom.Some? then [src.urandom.value] else [];
      ok := false;
      if src.urandom.Some? {
        Mix(src.urandom.value);
        seededOk := true;
        ok := true;
      }
      assert State() == Calls.AddKeys(start, device);
      var uuidOk := SeedFromUuid(src.uuid);
      if uuidOk {
        ok := true;
      }
      ghost var harvest := Collect(src.uuid, 0, 0);
      Calls.AddKeysConcat(start, device, harvest.keys);
      if !ok && src.sysctl.Some? {
        Calls.AddKeysConcat(start, device + harvest.keys, [src.sysctl.value]);
        Mix(src.sysctl.value);
        seededOk := true;
        ok := true;
      }
    }

    /** The loop of `arc4_stir` that throws early output away. */
    method Discard()
      requires Valid()
      modifies this`i, this`j, s
      ensures Valid() && State() == Advance(old(State()), Calls.DISCARDED)
    {
      hide Next, Output;
      for n := 0 to Calls.DISCARDED
        invariant State() == Advance(old(State()), n)
      {
        var discarded := GetByte();
      }
    }

    /** `arc4_stir` */
    method Stir() returns (r: int)
      requires Valid()
      modifies this, s
      ensures Valid() && View() == Calls.Stir(old(View()), sources)
      ensures r == if seededOk then 0 else -1
    {
      hide Calls.Seed, Calls.AddKeys, Advance;
      if !initialized {
        Init();
        initialized := true;
      }
      var ok := SeedAll();
      stirs := stirs + 1;
      if !seededOk {
        return -1;
      }
      Discard();
      count := Calls.BYTES_BEFORE_RESEED;
      sinceStir := 0;
      return 0;
    }

    /** `arc4_stir_if_needed` */
    method StirIfNeeded(callerPid: int)
      requires Valid()
      modifies this, s
      ensures Valid() && View() == Calls.StirIfNeeded(old(View()), callerPid, sources)
    {
      if count <= 0 || !initialized || pid != callerPid {
        pid := callerPid;
        var r := Stir();
      }
    }

    /** `arc4_getword` */
    method GetWord() returns (word: int)
      requires Valid()
      modifies this`i, this`j, s
      ensures Valid() && State() == Advance(old(State()), 4) && word == Calls.Word(old(State()))
    {
      hide Next, Output;
      ghost var st := State();
      var b0 := GetByte();
      assert State() == Advance(st, 1);
      var b1 := GetByte();
      assert State() == Advance(st, 2);
      var b2 := GetByte();
      assert State() == Advance(st, 3);
      var b3 := GetByte();
      assert State() == Advance(st, 4);
      var w0: int, w1: int, w2: int, w3: int := b0, b1, b2, b3;
      word := ((w0 * 256 + w1) * 256 + w2) * 256 + w3;
    }

    /** `arc4random` */
    method Random(callerPid: int) returns (word: int)
      requires Valid()
      modifies this, s
      ensures Valid() && View() == Calls.Random(old(View()), callerPid, sources)
      ensures word == Calls.NextWord(old(View()), callerPid, sources)
    {
      hide Advance, Calls.Word, Calls.StirIfNeeded;
      count := count - 4;
      StirIfNeeded(callerPid);
      word := GetWord();
      sinceStir := sinceStir + 4;
    }

    /** The body of the loop of `arc4random_buf`. */
    method TakeByte() returns (b: byte)
      requires Valid()
      modifies this, s
      ensures Valid() && View() == Calls.TakeByte(old(View()), sources) && b == Output(State())
    {
      hide Calls.Stir, Next, Output;
      count := count - 1;
      if count <= 0 {
        var r := Stir();
      }
      b := GetByte();
      sinceStir := sinceStir + 1;
    }

    /** `arc4random_buf` */
    method Buf(buf: array<byte>, callerPid: int)
      requires Valid() && buf != s
      modifies this, s, buf
      ensures Valid() && (View(), buf[..]) == Calls.Buf(old(View()), callerPid, buf.Length, sources)
    {
      hide Calls.StirIfNeeded, Calls.TakeByte, Output;
      StirIfNeeded(callerPid);
      var n := buf.Length;
      ghost var all := Calls.Fill(View(), n, sources);
      while n != 0
        invariant 0 <= n <= buf.Length
        invariant Calls.Fill(View(), n, sources).0 == all.0
        invariant Calls.Fill(View(), n, sources).1 + buf[n..] == all.1
      {
        ghost var done := buf[n..];
        n := n - 1;
        var b := TakeByte();
        buf[n] := b;
        assert buf[n..] == [b] + done;
      }
      assert [] + buf[0..] == buf[..];
    }

    /** `arc4random_addrandom` */
    method AddRandom(dat: seq<byte>)
      requires Valid()
      modifies this, s
      ensures Valid() && View() == Calls.AddRandom(old(View()), dat, sources)
    {
      hide Calls.Stir, Rc4.AddRandom;
      if !initialized {
        var r := Stir();
      }
      ghost var start := View();
      var j, c := 0, 0;
      while j < |dat|
        invariant j == 256 * c && 0 <= c <= Calls.Chunks(|dat|)
        invariant View() == start.(stream := Calls.AbsorbChunks(start.stream, dat, c))
      {
        Mix(dat[j..]);
        j := j + 256;
        c := c + 1;
      }
    }

    /** `arc4random_uniform`, giving up after a number of rejected words. */
    method Uniform(bound: uint32, callerPid: int, tries: nat) returns (r: Option<int>)
      requires Valid()
      modifies this, s
      ensures Valid()
      ensures bound < 2 ==> r == Some(0) && View() == old(View())
      ensures 2 <= bound ==> (View(), r) == Calls.Uniform(old(View()), callerPid, bound, tries, sources)
    {
      hide Calls.Random, Calls.Word, Threshold;
      if bound < 2 {
        return Some(0);
      }
      var min := Threshold(bound);
      ThresholdIsRemainder(bound);
      ghost var all := Calls.Uniform(View(), callerPid, bound, tries, sources);
      for n := 0 to tries
        invariant Valid()
        invariant Calls.Uniform(View(), callerPid, bound, tries - n, sources) == all
      {
        var word := Random(callerPid);
        if word >= min {
          return Some(word % bound);
        }
      }
      return None;
    }
  }
}
