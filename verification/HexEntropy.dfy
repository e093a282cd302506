/**
  The decoder of `arc4_seed_proc_sys_kernel_random_uuid`: hexadecimal digits
  are picked out of untidy text and packed two to a byte.
 */
module HexEntropy {
  import opened Rc4

  /** `EVUTIL_ISXDIGIT`. */
  predicate IsHexDigit(c: char) {
    '0' <= c <= '9' || 'A' <= c <= 'F' || 'a' <= c <= 'f'
  }

  /** `evutil_hex_char_to_int` on a hexadecimal digit. */
  function HexValue(c: char): (v: bv8)
    requires IsHexDigit(c)
    ensures v < 16
  {
    match c
    case '0' => 0
    case '1' => 1
    case '2' => 2
    case '3' => 3
    case '4' => 4
    case '5' => 5
    case '6' => 6
    case '7' => 7
    case '8' => 8
    case '9' => 9
    case 'A' => 10
    case 'B' => 11
    case 'C' => 12
    case 'D' => 13
    case 'E' => 14
    case 'F' => 15
    case 'a' => 10
    case 'b' => 11
    case 'c' => 12
    case 'd' => 13
    case 'e' => 14
    case _ => 15
  }

  /** The hexadecimal digits are these characters and no others. */
  lemma HexAlphabet(c: char)
    ensures IsHexDigit(c) <==> c in "0123456789abcdef" || c in "0123456789ABCDEF"
  {
  }

  /** A capital letter stands for the same value as the small one; what the small ones stand for, `Digit` says. */
  lemma CaseMakesNoDifference(c: char)
    requires 'a' <= c <= 'f'
    ensures var capital := 'A' + (c - 'a'); IsHexDigit(capital) && HexValue(capital) == HexValue(c)
  {
    assert c == 'a' || c == 'b' || c == 'c' || c == 'd' || c == 'e' || c == 'f';
  }

  // ----- what the decoder is to compute

  /** The hexadecimal digits of a text, in order. */
  function HexDigits(text: string): (digits: string)
    ensures forall c :: c in digits ==> IsHexDigit(c)
    ensures |digits| <= |text|
  {
    if text == [] then []
    else
      var digits, c := HexDigits(text[..|text| - 1]), text[|text| - 1];
      if IsHexDigit(c) then digits + [c] else digits
  }

  function HighHalf(v: bv8): bv8 {
    v << 4
  }

  /** The byte written as two digits, the high half first. */
  function FromPair(high: char, low: char): bv8
    requires IsHexDigit(high) && IsHexDigit(low)
  {
    HighHalf(HexValue(high)) | HexValue(low)
  }

  /** The bytes whose high and low halves are the digits of each successive pair. */
  function Pack(digits: string): (bytes: seq<bv8>)
    requires forall c :: c in digits ==> IsHexDigit(c)
    ensures |bytes| == |digits| / 2
  {
    seq(|digits| / 2, k requires 0 <= k < |digits| / 2 =>
      assert digits[2 * k] in digits && digits[2 * k + 1] in digits;
      FromPair(digits[2 * k], digits[2 * k + 1]))
  }

  /** What one pass over a text leaves in the zeroed array: whole bytes, then a high half if a digit is left over. */
  ghost predicate Holds(entropy: seq<bv8>, digits: string)
    requires forall c :: c in digits ==> IsHexDigit(c)
  {
    && |digits| / 2 <= |entropy|
    && entropy[..|digits| / 2] == Pack(digits)
    && (|digits| % 2 == 1 ==>
          && |digits| / 2 < |entropy|
          && digits[|digits| - 1] in digits
          && entropy[|digits| / 2] == HighHalf(HexValue(digits[|digits| - 1])))
    && forall k :: (|digits| + 1) / 2 <= k < |entropy| ==> entropy[k] == 0
  }

  // ----- the decoder

  method StoreNybble(entropy: array<bv8>, ghost digits: string, nybbles: nat, c: char)
    requires forall d :: d in digits ==> IsHexDigit(d)
    requires nybbles == |digits| && Holds(entropy[..], digits)
    requires nybbles / 2 < entropy.Length && IsHexDigit(c)
    modifies entropy
    ensures Holds(entropy[..], digits + [c])
  {
    ghost var was := entropy[..];
    var nyb := HexValue(c);
    if nybbles % 2 == 1 {
      entropy[nybbles / 2] := entropy[nybbles / 2] | nyb;
    } else {
      entropy[nybbles / 2] := entropy[nybbles / 2] | HighHalf(nyb);
    }
    ghost var all, h := digits + [c], nybbles / 2;
    if nybbles % 2 == 1 {
      assert all[2 * h] == digits[2 * h] && all[2 * h + 1] == c;
      assert entropy[h] == Pack(all)[h];
    }
    forall k | 0 <= k < |all| / 2 ensures entropy[k] == Pack(all)[k] {
      if k < h {
        assert entropy[k] == was[..h][k] == Pack(digits)[k];
        assert all[2 * k] == digits[2 * k] && all[2 * k + 1] == digits[2 * k + 1];
      }
    }
    assert entropy[..|all| / 2] == Pack(all);
  }

  /** One pass of the decoding loop over a text that was read; 64 bytes hold every text of 128 characters. */
  method Decode(text: string, entropy: array<bv8>) returns (nybbles: nat)
    requires |text| <= 128 && entropy.Length == 64
    modifies entropy
    ensures nybbles == |HexDigits(text)|
    ensures Holds(entropy[..], HexDigits(text))
  {
    hide HexDigits, Holds, Pack;
    for k := 0 to entropy.Length
      invariant forall m :: 0 <= m < k ==> entropy[m] == 0
    {
      entropy[k] := 0;
    }
    nybbles := 0;
    NoDigits(entropy[..], text);
    for i := 0 to |text|
      invariant nybbles == |HexDigits(text[..i])|
      invariant Holds(entropy[..], HexDigits(text[..i]))
    {
      DigitsStep(text, i);
      if IsHexDigit(text[i]) {
        StoreNybble(entropy, HexDigits(text[..i]), nybbles, text[i]);
        nybbles := nybbles + 1;
      }
    }
    assert text[..|text|] == text;
  }

  lemma NoDigits(entropy: seq<bv8>, text: string)
    requires forall m :: 0 <= m < |entropy| ==> entropy[m] == 0
    ensures HexDigits(text[..0]) == [] && Holds(entropy, HexDigits(text[..0]))
  {
    var digits := HexDigits(text[..0]);
    assert entropy[..|digits| / 2] == Pack(digits);
  }

  lemma DigitsStep(text: string, i: nat)
    requires i < |text|
    ensures HexDigits(text[..i + 1]) ==
              if IsHexDigit(text[i]) then HexDigits(text[..i]) + [text[i]] else HexDigits(text[..i])
  {
    assert text[..i + 1][..i] == text[..i];
  }

  // ----- printing and decoding

  function Digit(n: bv8): (c: char)
    requires n < 16
    ensures IsHexDigit(c)
    ensures HexValue(c) == n
  {
    "0123456789abcdef"[n]
  }

  function PrintByte(b: bv8): (text: string)
    ensures forall c :: c in text ==> IsHexDigit(c)
  {
    [Digit(b >> 4), Digit(b & 15)]
  }

  function HexPrint(bytes: seq<bv8>): (text: string)
    ensures forall c :: c in text ==> IsHexDigit(c)
    ensures |text| == 2 * |bytes|
  {
    if bytes == [] then [] else HexPrint(bytes[..|bytes| - 1]) + PrintByte(bytes[|bytes| - 1])
  }

  lemma {:induction false} PackHexPrint(bytes: seq<bv8>)
    ensures Pack(HexPrint(bytes)) == bytes
  {
    if bytes != [] {
      var b, front := bytes[|bytes| - 1], bytes[..|bytes| - 1];
      PackHexPrint(front);
      forall k | 0 <= k < |bytes| ensures Pack(HexPrint(bytes))[k] == bytes[k] {
        if k < |front| {
          assert HexPrint(bytes)[2 * k] == HexPrint(front)[2 * k];
          assert HexPrint(bytes)[2 * k + 1] == HexPrint(front)[2 * k + 1];
          assert Pack(HexPrint(bytes))[k] == Pack(HexPrint(front))[k];
        }
      }
    }
  }

  lemma {:induction false} HexDigitsConcat(a: string, b: string)
    ensures HexDigits(a + b) == HexDigits(a) + HexDigits(b)
  {
    if b == [] {
      assert a + b == a;
    } else {
      assert (a + b)[..|a + b| - 1] == a + b[..|b| - 1];
      HexDigitsConcat(a, b[..|b| - 1]);
    }
  }

  /** Text in which separators without hexadecimal digits stand before each printed byte and at the end. */
  function Separated(bytes: seq<bv8>, separators: seq<string>): string
    requires |separators| == |bytes| + 1
  {
    if bytes == [] then separators[0]
    else
      Separated(bytes[..|bytes| - 1], separators[..|bytes|])
        + PrintByte(bytes[|bytes| - 1]) + separators[|bytes|]
  }

  lemma {:induction false} HexDigitsOfDigits(text: string)
    requires forall c :: c in text ==> IsHexDigit(c)
    ensures HexDigits(text) == text
  {
    if text != [] {
      assert text[|text| - 1] in text;
      HexDigitsOfDigits(text[..|text| - 1]);
    }
  }

  lemma {:induction false} HexDigitsOfSeparated(bytes: seq<bv8>, separators: seq<string>)
    requires |separators| == |bytes| + 1
    requires forall k :: 0 <= k < |separators| ==> HexDigits(separators[k]) == []
    ensures HexDigits(Separated(bytes, separators)) == HexPrint(bytes)
  {
    if bytes == [] {
      assert HexDigits(separators[0]) == [];
    } else {
      hide HexDigits, PrintByte;
      var printed := PrintByte(bytes[|bytes| - 1]);
      var before := Separated(bytes[..|bytes| - 1], separators[..|bytes|]);
      HexDigitsOfSeparated(bytes[..|bytes| - 1], separators[..|bytes|]);
      HexDigitsConcat(before + printed, separators[|bytes|]);
      HexDigitsConcat(before, printed);
      HexDigitsOfDigits(printed);
      assert HexDigits(separators[|bytes|]) == [];
    }
  }

  /** Printing bytes in hexadecimal, with any separators, and decoding gives the bytes back. */
  lemma DecodePrinted(bytes: seq<bv8>, separators: seq<string>)
    requires |separators| == |bytes| + 1
    requires forall k :: 0 <= k < |separators| ==> HexDigits(separators[k]) == []
    ensures Pack(HexDigits(Separated(bytes, separators))) == bytes
  {
    HexDigitsOfSeparated(bytes, separators);
    PackHexPrint(bytes);
  }

  // ----- repeated reads

  /** One attempt to open and read the uuid file; a read delivers 1 to 128 characters. */
  type Text = t: string | 0 < |t| <= 128 witness "0"
  datatype Read = Failed | Got(text: Text)

  const ADD_ENTROPY: nat := 32

  function ToKey(bytes: seq<bv8>): (key: seq<byte>)
    ensures |key| == |bytes|
  {
    seq(|bytes|, k requires 0 <= k < |bytes| => bytes[k] as int)
  }

  datatype Harvest = Harvest(ok: bool, keys: seq<Key>)

  /**
    The keys mixed in from attempt number n on, when `bytes` bytes were decoded
    before, and whether the function returns 0.
   */
  function Collect(attempts: nat -> Read, n: nat, bytes: nat): Harvest
    decreases ADD_ENTROPY - bytes
  {
    if ADD_ENTROPY <= bytes then Harvest(true, [])
    else match attempts(n)
      case Failed => Harvest(false, [])
      case Got(text) =>
        var digits := HexDigits(text);
        if |digits| < 2 then Harvest(false, [])
        else
          var rest := Collect(attempts, n + 1, bytes + |digits| / 2);
          Harvest(rest.ok, [ToKey(Pack(digits))] + rest.keys)
  }

  lemma CollectEnds(attempts: nat -> Read, n: nat, bytes: nat)
    ensures ADD_ENTROPY <= bytes ==> Collect(attempts, n, bytes) == Harvest(true, [])
    ensures bytes < ADD_ENTROPY && attempts(n).Failed? ==> Collect(attempts, n, bytes) == Harvest(false, [])
    ensures bytes < ADD_ENTROPY && attempts(n).Got? && |HexDigits(attempts(n).text)| < 2 ==>
              Collect(attempts, n, bytes) == Harvest(false, [])
  {
  }

  lemma CollectStep(attempts: nat -> Read, n: nat, bytes: nat)
    requires bytes < ADD_ENTROPY && attempts(n).Got? && |HexDigits(attempts(n).text)| >= 2
    ensures var digits := HexDigits(attempts(n).text);
            var rest := Collect(attempts, n + 1, bytes + |digits| / 2);
            && |Pack(digits)| == |digits| / 2
            && Collect(attempts, n, bytes) == Harvest(rest.ok, [ToKey(Pack(digits))] + rest.keys)
  {
    hide Pack, HexDigits;
  }

  /** Key number m is decoded from the text of read number m. */
  lemma {:induction false} CollectKey(attempts: nat -> Read, n: nat, bytes: nat, m: nat)
    requires m < |Collect(attempts, n, bytes).keys|
    ensures attempts(n + m).Got?
    ensures var key, digits := Collect(attempts, n, bytes).keys[m], HexDigits(attempts(n + m).text);
            |key| == |digits| / 2 && forall k :: 0 <= k < |key| ==> key[k] == Pack(digits)[k] as int
    decreases m
  {
    hide Pack, HexDigits, Collect;
    CollectEnds(attempts, n, bytes);
    CollectStep(attempts, n, bytes);
    if m != 0 {
      var digits := HexDigits(attempts(n).text);
      CollectKey(attempts, n + 1, bytes + |digits| / 2, m - 1);
    }
  }

  /** So if that text prints some bytes, whatever stands between them, the key is these bytes. */
  lemma CollectPrinted(attempts: nat -> Read, m: nat, bytes: seq<bv8>, separators: seq<string>)
    requires m < |Collect(attempts, 0, 0).keys|
    requires |separators| == |bytes| + 1
    requires forall t :: t in separators ==> forall c :: c in t ==> !IsHexDigit(c)
    requires attempts(m).Got? ==> attempts(m).text == Separated(bytes, separators)
    ensures var key := Collect(attempts, 0, 0).keys[m];
            |key| == |bytes| && forall k :: 0 <= k < |key| ==> key[k] == bytes[k] as int
  {
    hide Collect, Pack, HexDigits;
    CollectKey(attempts, 0, 0, m);
    forall t | t in separators ensures HexDigits(t) == [] {
      NoHexDigits(t);
    }
    DecodePrinted(bytes, separators);
  }

  lemma {:induction false} NoHexDigits(t: string)
    requires forall c :: c in t ==> !IsHexDigit(c)
    ensures HexDigits(t) == []
  {
    if t != [] {
      assert t[|t| - 1] in t;
      NoHexDigits(t[..|t| - 1]);
    }
  }

  function TotalLength(keys: seq<Key>): nat {
    if keys == [] then 0 else |keys[0]| + TotalLength(keys[1..])
  }

  /** From the start: at most 32 reads succeed, and 32 to 95 bytes are success. */
  lemma CollectFromStart(attempts: nat -> Read)
    ensures var h := Collect(attempts, 0, 0);
            |h.keys| <= 32 && TotalLength(h.keys) <= 95 && (h.ok <==> 32 <= TotalLength(h.keys))
  {
    hide Collect, TotalLength;
    CollectBounds(attempts, 0, 0);
  }

  /**
    The outer loop makes at most 32 successful reads; it returns 0 exactly when
    it has decoded 32 bytes or more, and never more than 95.
   */
  lemma {:induction false} CollectBounds(attempts: nat -> Read, n: nat, bytes: nat)
    requires bytes < ADD_ENTROPY
    ensures var h := Collect(attempts, n, bytes);
            && |h.keys| <= ADD_ENTROPY - bytes
            && (h.ok <==> ADD_ENTROPY <= bytes + TotalLength(h.keys))
            && bytes + TotalLength(h.keys) < ADD_ENTROPY + 64
    decreases ADD_ENTROPY - bytes
  {
    match attempts(n) {
      case Failed =>
      case Got(text) =>
        var digits := HexDigits(text);
        if 2 <= |digits| {
          var h := Collect(attempts, n, bytes);
          assert h.keys[1..] == Collect(attempts, n + 1, bytes + |digits| / 2).keys;
          if bytes + |digits| / 2 < ADD_ENTROPY {
            CollectBounds(attempts, n + 1, bytes + |digits| / 2);
          }
        }
    }
  }
}
