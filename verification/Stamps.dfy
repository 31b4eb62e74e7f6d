/** Proof-of-work stamps: a stamp is worth the leading zero bits of a hash. */
module Stamps {
  import opened Arithmetic
  import opened Bits
  import opened Bytes
  import Msgpack
  import MsgpackFormat
  import opened Options

  type u32 = x: int | 0 <= x < 0x1_0000_0000

  /** SHA-256, of which only the length of its result is used. */
  type Sha = seq<byte> -> seq<byte>

  /** How many bits the n-byte number h has to spare. */
  function SpareBits(hash: seq<byte>): int {
    8 * |hash| - BitLength(BeVal(hash))
  }

  /** `byte.leading_zeros()` */
  function ByteZeros(b: byte): int {
    8 - BitLength(b)
  }

  lemma {:induction false} ZerosAreZero(s: seq<byte>)
    requires forall i :: 0 <= i < |s| ==> s[i] == 0
    ensures BeVal(s) == 0
  {
    if s != [] {
      ZerosAreZero(s[..|s| - 1]);
    }
  }

  /** The value of zeros, a byte and a tail. */
  lemma {:induction false} LeadByte(s: seq<byte>, i: nat)
    requires i < |s| && forall j :: 0 <= j < i ==> s[j] == 0
    ensures s[i] * Pow2(8 * (|s| - 1 - i)) <= BeVal(s) < (s[i] + 1) * Pow2(8 * (|s| - 1 - i))
    decreases |s|
  {
    var init := s[..|s| - 1];
    if i == |s| - 1 {
      ZerosAreZero(init);
    } else {
      LeadByte(init, i);
      var k := 8 * (|init| - 1 - i);
      Pow2Small();
      Pow2Add(k, 8);
      ShiftBounds(s[i], Pow2(k), BeVal(init), s[|s| - 1]);
    }
  }

  lemma ShiftBounds(b: nat, p: nat, v: nat, last: byte)
    requires b * p <= v < (b + 1) * p
    ensures b * (p * 256) <= 256 * v + last < (b + 1) * (p * 256)
  {
    MulAssoc(b, p, 256);
    MulAssoc(b + 1, p, 256);
  }

  /** The bit length of a number is where its leading non-zero byte puts it. */
  lemma LeadBits(s: seq<byte>, i: nat)
    requires i < |s| && s[i] != 0 && forall j :: 0 <= j < i ==> s[j] == 0
    ensures BitLength(BeVal(s)) == BitLength(s[i]) + 8 * (|s| - 1 - i)
  {
    hide Pow2, BeVal, BitLength;
    var b: int := s[i];
    var k := 8 * (|s| - 1 - i);
    var n := BitLength(b);
    LeadByte(s, i);
    BitLengthBounds(b);
    Pow2Add(n - 1, k);
    Pow2Add(n, k);
    MulMonotone(Pow2(n - 1), b, Pow2(k));
    MulMonotone(b + 1, Pow2(n), Pow2(k));
    BitLengthUnique(BeVal(s), n + k);
  }

  lemma NothingLeads(s: seq<byte>)
    requires forall i :: 0 <= i < |s| ==> s[i] == 0
    ensures BitLength(BeVal(s)) == 0
  {
    ZerosAreZero(s);
  }

  /** The hash is a number below 2^(8n - c). */
  ghost predicate Below(hash: seq<byte>, c: nat)
    requires c <= 8 * |hash|
  {
    BeVal(hash) < Pow2(8 * |hash| - c)
  }

  lemma SpareIff(hash: seq<byte>, c: nat)
    requires c <= 8 * |hash|
    ensures SpareBits(hash) >= c <==> Below(hash, c)
  {
    hide Pow2, BeVal;
    var h := BeVal(hash);
    BitLengthBounds(h);
    if SpareBits(hash) >= c {
      Pow2Monotone(BitLength(h), 8 * |hash| - c);
    } else {
      Pow2Monotone(8 * |hash| - c, BitLength(h) - 1);
    }
  }

  /** The loop counts the bits to spare, in a hash of any length: it returns at least c
      exactly when the hash is below 2^(8n - c). */
  method LeadingZeros(hash: seq<byte>) returns (count: int)
    ensures count == SpareBits(hash)
    ensures forall c: nat :: c <= 8 * |hash| ==> (count >= c <==> Below(hash, c))
  {
    hide BitLength, BeVal, Below;
    count := 0;
    var i := 0;
    while i < |hash|
      invariant i <= |hash| && count == 8 * i
      invariant forall j :: 0 <= j < i ==> hash[j] == 0
    {
      if hash[i] == 0 {
        count := count + 8;
      } else {
        count := count + ByteZeros(hash[i]);
        LeadBits(hash, i);
        break;
      }
      i := i + 1;
    }
    if i == |hash| {
      NothingLeads(hash);
    }
    forall c: nat | c <= 8 * |hash|
      ensures count >= c <==> Below(hash, c)
    {
      SpareIff(hash, c);
    }
  }

  method StampValue(sha: Sha, workblock: seq<byte>, stamp: seq<byte>) returns (value: int)
    requires |sha(workblock + stamp)| == 32
    ensures value == SpareBits(sha(workblock + stamp))
  {
    var material := workblock;
    material := material + stamp;
    value := LeadingZeros(sha(material));
  }

  /** A stamp is valid exactly when it is worth the cost, which is when its hash is a
      number below 2^(256 - cost). */
  method StampValid(sha: Sha, stamp: seq<byte>, targetCost: byte, workblock: seq<byte>) returns (valid: bool)
    requires |sha(workblock + stamp)| == 32
    ensures valid <==> SpareBits(sha(workblock + stamp)) >= targetCost
    ensures valid <==> Below(sha(workblock + stamp), targetCost)
  {
    hide Below;
    var material := workblock;
    material := material + stamp;
    var zeros := LeadingZeros(sha(material));
    valid := zeros >= targetCost;
  }

  /** The non-strict bound the code's comment derives differs from the code on exactly one
      hash for each cost but zero: the number 2^(8n - cost) itself. */
  lemma NonStrictBound(hash: seq<byte>, cost: nat)
    requires cost <= 8 * |hash|
    ensures (BeVal(hash) <= Pow2(8 * |hash| - cost) <==> SpareBits(hash) >= cost)
       <==> !(cost > 0 && hash == BeBytes(Pow2(8 * |hash| - cost), |hash|))
  {
    hide Pow2, Pow, BeVal, BeBytes, BitLength, SpareBits;
    var t := Pow2(8 * |hash| - cost);
    SpareIff(hash, cost);
    Pow256IsPow2(|hash|);
    BeValBound(hash);
    if cost > 0 {
      Pow2Strict(8 * |hash| - cost, 8 * |hash|);
      BeValOfBytes(t, |hash|);
      if BeVal(hash) == t {
        BeValInjective(hash, BeBytes(t, |hash|));
      }
    }
  }

  lemma Pow2Strict(a: nat, b: nat)
    requires a < b
    ensures Pow2(a) < Pow2(b)
  {
    assert Pow2(a + 1) == 2 * Pow2(a);
    Pow2Monotone(a + 1, b);
  }

  // ----- workblocks -----

  /** Key expansion to 256 bytes from material and salt; it fails on empty material. */
  type Hkdf = (seq<byte>, seq<byte>) -> Option<seq<byte>>

  function SaltInput(material: seq<byte>, n: u32): seq<byte> {
    material + Msgpack.Encode(MsgpackFormat.UInt(n))
  }

  /** The blocks of rounds n and up, each salted with its own round number, up to the
      first that cannot be expanded. */
  function Blocks(sha: Sha, hkdf: Hkdf, material: seq<byte>, n: u32, rounds: u32): seq<byte>
    requires n <= rounds
    decreases rounds - n
  {
    if n == rounds then []
    else
      match hkdf(material, sha(SaltInput(material, n)))
      case None => []
      case Some(block) => block + Blocks(sha, hkdf, material, n + 1, rounds)
  }

  method Workblock(sha: Sha, hkdf: Hkdf, material: seq<byte>, expandRounds: u32) returns (workblock: seq<byte>)
    ensures workblock == Blocks(sha, hkdf, material, 0, expandRounds)
  {
    hide Msgpack.Encode;
    workblock := [];
    for n := 0 to expandRounds
      invariant workblock + Blocks(sha, hkdf, material, n, expandRounds) == Blocks(sha, hkdf, material, 0, expandRounds)
    {
      var saltInput := material;
      saltInput := saltInput + Msgpack.Encode(MsgpackFormat.UInt(n));
      var expanded := hkdf(material, sha(saltInput));
      if expanded.None? {
        return;
      }
      workblock := workblock + expanded.value;
    }
  }

  /** Rounds times 256 bytes, where expansion does not fail. */
  lemma {:induction false} WorkblockSize(sha: Sha, hkdf: Hkdf, material: seq<byte>, n: u32, rounds: u32)
    requires n <= rounds
    requires forall salt :: hkdf(material, salt).Some? && |hkdf(material, salt).value| == 256
    ensures |Blocks(sha, hkdf, material, n, rounds)| == 256 * (rounds - n)
    decreases rounds - n
  {
    if n < rounds {
      WorkblockSize(sha, hkdf, material, n + 1, rounds);
    }
  }

  lemma EncodingDiffers(m: u32, n: u32)
    requires Msgpack.Encode(MsgpackFormat.UInt(m)) == Msgpack.Encode(MsgpackFormat.UInt(n))
    ensures m == n
  {
    var p := MsgpackFormat.Platform(_ => true, _ => 0);
    var v, w := MsgpackFormat.UInt(m), MsgpackFormat.UInt(n);
    assert Msgpack.Fits(p, v, 0) && Msgpack.Fits(p, w, 0);
    assert Msgpack.Encode(v) + [] == Msgpack.Encode(w) + [];
    Msgpack.EncodingsUnambiguous(p, v, w, [], []);
    assert Msgpack.Canon(v) == v && Msgpack.Canon(w) == w;
  }

  /** No two rounds are salted alike, whatever the material. */
  lemma SaltsDiffer(material: seq<byte>, m: u32, n: u32)
    requires m != n
    ensures SaltInput(material, m) != SaltInput(material, n)
  {
    hide Msgpack.Encode;
    var s, t := Msgpack.Encode(MsgpackFormat.UInt(m)), Msgpack.Encode(MsgpackFormat.UInt(n));
    if material + s == material + t {
      assert s == (material + s)[|material|..] && t == (material + t)[|material|..];
      EncodingDiffers(m, n);
    }
  }

  /** Nor is the same round for two materials. */
  lemma MaterialsDiffer(a: seq<byte>, b: seq<byte>, n: u32)
    requires a != b
    ensures SaltInput(a, n) != SaltInput(b, n)
  {
    hide Msgpack.Encode;
    var s := Msgpack.Encode(MsgpackFormat.UInt(n));
    assert (a + s)[..|a|] == a && (b + s)[..|b|] == b;
  }
}
