/** Byte strings as Python's `bytes`: the prefix test used by the sniffers and `xor_bytestrings`. */
module ByteStrings {
  import opened Wrappers

  type Byte = bv8
  type Bytes = seq<Byte>

  /** `data.startswith(prefix)` on Python byte strings. */
  predicate StartsWith(data: Bytes, prefix: Bytes) {
    |prefix| <= |data| && data[..|prefix|] == prefix
  }

  /** The error `xor_bytestrings` raises when its operands differ in length. */
  datatype XorError = LengthMismatch

  /** The generator `b1 ^ b2 for b1, b2 in zip(term1, term2)`: pairs bytes up to the shorter operand. */
  function ZipXor(a: Bytes, b: Bytes): (r: Bytes)
    ensures |r| == if |a| <= |b| then |a| else |b|
    ensures forall i :: 0 <= i < |r| ==> r[i] == a[i] ^ b[i]
  {
    if |a| == 0 || |b| == 0 then []
    else [a[0] ^ b[0]] + ZipXor(a[1..], b[1..])
  }

  /** `xor_bytestrings`: byte-wise XOR of two byte strings of equal length. */
  function XorBytestrings(a: Bytes, b: Bytes): (r: Result<Bytes, XorError>)
    ensures r.Failure? <==> |a| != |b|
    ensures r.Success? ==> |r.value| == |a| && forall i :: 0 <= i < |a| ==> r.value[i] == a[i] ^ b[i]
  {
    if |a| != |b| then Failure(LengthMismatch)
    else Success(ZipXor(a, b))
  }

  /** A string of `n` zero bytes. */
  function Zeros(n: nat): (r: Bytes)
    ensures |r| == n && forall i :: 0 <= i < n ==> r[i] == 0
  {
    if n == 0 then [] else [0] + Zeros(n - 1)
  }

  /** XOR of a string with itself is all zeros. */
  lemma XorSelfIsZero(a: Bytes)
    ensures XorBytestrings(a, a) == Success(Zeros(|a|))
  {
    var r := XorBytestrings(a, a).value;
    assert forall i :: 0 <= i < |a| ==> r[i] == 0 by {
      forall i | 0 <= i < |a| ensures r[i] == 0 {
        XorSelfByte(a[i]);
      }
    }
    assert r == Zeros(|a|);
  }

  lemma XorSelfByte(x: Byte)
    ensures x ^ x == 0
  {
  }

  /** XOR is commutative, including its failure on mismatched lengths. */
  lemma XorCommutes(a: Bytes, b: Bytes)
    ensures XorBytestrings(a, b) == XorBytestrings(b, a)
  {
    if |a| == |b| {
      var ab, ba := XorBytestrings(a, b).value, XorBytestrings(b, a).value;
      forall i | 0 <= i < |a| ensures ab[i] == ba[i] {
        XorCommutesByte(a[i], b[i]);
      }
      assert ab == ba;
    }
  }

  lemma XorCommutesByte(x: Byte, y: Byte)
    ensures x ^ y == y ^ x
  {
  }

  /** XOR-ing with the same key twice gives back the original bytes. */
  lemma XorInvolution(a: Bytes, key: Bytes)
    requires |a| == |key|
    ensures XorBytestrings(a, key).Success?
    ensures XorBytestrings(XorBytestrings(a, key).value, key) == Success(a)
  {
    var c := XorBytestrings(a, key).value;
    var d := XorBytestrings(c, key).value;
    forall i | 0 <= i < |a| ensures d[i] == a[i] {
      XorCancelByte(a[i], key[i]);
    }
    assert d == a;
  }

  lemma XorCancelByte(x: Byte, k: Byte)
    ensures (x ^ k) ^ k == x
  {
  }
}
