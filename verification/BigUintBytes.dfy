/** Byte strings in and out of BigUint, in both byte orders. */
module ByteConversion {
  import opened Arithmetic
  import opened Bytes
  import opened Limbs
  import opened BigUints

  lemma {:induction false} BasePow256(k: nat)
    ensures Pow(BASE, k) == Pow(256, 8 * k)
  {
    Pow256Words();
    if k > 0 {
      BasePow256(k - 1);
      PowAdd(256, 8, 8 * (k - 1));
    }
  }

  function Zeros(n: nat): (z: seq<byte>)
    ensures |z| == n && forall i :: 0 <= i < n ==> z[i] == 0
  {
    seq(n, _ => 0)
  }

  lemma PaddingKeepsValue(s: seq<byte>, n: nat)
    ensures LeVal(s + Zeros(n)) == LeVal(s)
  {
    LeValAppend(s, Zeros(n));
    LeValZeros(Zeros(n));
  }

  /** `u64::from_le_bytes` of a chunk copied into a zeroed buffer. */
  method LimbOfChunk(chunk: seq<byte>) returns (limb: Limb)
    requires |chunk| <= 8
    ensures limb == LeVal(chunk)
  {
    var buf := chunk + Zeros(8 - |chunk|);
    PaddingKeepsValue(chunk, 8 - |chunk|);
    LeValBound(buf);
    Pow256Words();
    limb := LeVal(buf);
  }

  lemma ChunkStep(bytes: seq<byte>, i: nat, j: nat, limbs: seq<Limb>, limb: Limb)
    requires i <= j <= |bytes| && i == 8 * |limbs|
    requires Val(limbs) == LeVal(bytes[..i]) && limb == LeVal(bytes[i..j])
    ensures Val(limbs + [limb]) == LeVal(bytes[..j])
  {
    ValSnoc(limbs, limb);
    BasePow256(|limbs|);
    assert bytes[..j] == bytes[..i] + bytes[i..j];
    LeValAppend(bytes[..i], bytes[i..j]);
    MulEqual(Pow(256, i), LeVal(bytes[i..j]), limb, Pow(256, i));
  }

  method FromBytesLe(bytes: seq<byte>) returns (r: BigUint)
    ensures fresh(r) && r.Valid()
    ensures r.Value() == LeVal(bytes)
  {
    if bytes == [] {
      r := new BigUint.FromU64(0);
      return;
    }
    var limbs: seq<Limb> := [];
    var i := 0;
    while i < |bytes|
      invariant i <= |bytes| && (i < |bytes| ==> i == 8 * |limbs|)
      invariant i > 0 ==> limbs != []
      invariant Val(limbs) == LeVal(bytes[..i])
    {
      var j := if i + 8 <= |bytes| then i + 8 else |bytes|;
      var limb := LimbOfChunk(bytes[i..j]);
      ChunkStep(bytes, i, j, limbs, limb);
      limbs := limbs + [limb];
      i := j;
    }
    assert bytes[..i] == bytes;
    r := new BigUint.FromLimbs(limbs);
    r.Normalize();
  }

  method FromBytesBe(bytes: seq<byte>) returns (r: BigUint)
    ensures fresh(r) && r.Valid()
    ensures r.Value() == BeVal(bytes)
  {
    ReverseLeIsBe(bytes);
    r := FromBytesLe(Reverse(bytes));
  }

  lemma LimbBytes(x: Limb)
    ensures LeVal(LeBytes(x, 8)) == x
  {
    Pow256Words();
    LeValOfBytes(x, 8);
    DivModUnique(x, BASE, 0, x);
  }

  lemma LimbBytesStep(limbs: seq<Limb>, i: nat, bytes: seq<byte>, word: seq<byte>)
    requires i < |limbs| && |bytes| == 8 * i && LeVal(bytes) == Val(limbs[..i])
    requires LeVal(word) == limbs[i]
    ensures LeVal(bytes + word) == Val(limbs[..i + 1])
  {
    ValPrefixNext(limbs, i);
    LeValAppend(bytes, word);
    BasePow256(i);
    MulEqual(Pow(256, 8 * i), LeVal(word), limbs[i], Pow(BASE, i));
  }

  /** `resize(size, 0)` then `truncate(size)`. */
  function Resized(s: seq<byte>, size: nat): (r: seq<byte>)
    ensures |r| == size
  {
    if |s| <= size then s + Zeros(size - |s|) else s[..size]
  }

  lemma ResizedValue(s: seq<byte>, size: nat)
    ensures Pow(256, size) > 0 && LeVal(Resized(s, size)) == LeVal(s) % Pow(256, size)
  {
    PowPositive(256, size);
    LeValBound(Resized(s, size));
    if |s| <= size {
      PaddingKeepsValue(s, size - |s|);
      DivModUnique(LeVal(s), Pow(256, size), 0, LeVal(s));
    } else {
      assert s == s[..size] + s[size..];
      LeValAppend(s[..size], s[size..]);
      DivRecovers(LeVal(s[..size]), Pow(256, size), LeVal(s[size..]));
    }
  }

  method ToBytesLe(a: BigUint, size: nat) returns (r: seq<byte>)
    ensures |r| == size && Pow(256, size) > 0
    ensures LeVal(r) == a.Value() % Pow(256, size)
  {
    var bytes: seq<byte> := [];
    for i := 0 to |a.limbs|
      invariant |bytes| == 8 * i
      invariant LeVal(bytes) == Val(a.limbs[..i])
    {
      var word := LeBytes(a.limbs[i], 8);
      LimbBytes(a.limbs[i]);
      LimbBytesStep(a.limbs, i, bytes, word);
      bytes := bytes + word;
    }
    assert a.limbs[..|a.limbs|] == a.limbs;
    ResizedValue(bytes, size);
    r := Resized(bytes, size);
  }

  method ToBytesBe(a: BigUint, size: nat) returns (r: seq<byte>)
    ensures |r| == size && Pow(256, size) > 0
    ensures BeVal(r) == a.Value() % Pow(256, size)
  {
    var bytes := ToBytesLe(a, size);
    r := Reverse(bytes);
    ReverseTwice(bytes);
    ReverseLeIsBe(r);
  }

  /** Reading bytes and writing as many back restores them, in either order. */
  method BytesRoundTrip(bytes: seq<byte>) returns (le: seq<byte>, be: seq<byte>)
    ensures le == bytes && be == bytes
  {
    var n := FromBytesLe(bytes);
    le := ToBytesLe(n, |bytes|);
    LeValBound(bytes);
    DivModUnique(LeVal(bytes), Pow(256, |bytes|), 0, LeVal(bytes));
    LeValInjective(le, bytes);
    var m := FromBytesBe(bytes);
    be := ToBytesBe(m, |bytes|);
    BeValBound(bytes);
    DivModUnique(BeVal(bytes), Pow(256, |bytes|), 0, BeVal(bytes));
    BeValInjective(be, bytes);
  }

  /** Writing a number to `size` bytes and reading it back keeps its residue. */
  method ValueRoundTrip(a: BigUint, size: nat) returns (r: BigUint)
    ensures fresh(r) && r.Valid() && Pow(256, size) > 0
    ensures r.Value() == a.Value() % Pow(256, size)
  {
    var bytes := ToBytesLe(a, size);
    r := FromBytesLe(bytes);
  }
}
