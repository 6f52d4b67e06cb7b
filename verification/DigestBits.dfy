/**
 * The bits of a digest, most significant first, and the first bit in which two digests
 * differ (`get_bit` and `find_critical_bit` in crates/rv-hash/src/critbit.rs).
 */
module DigestBits {
  import opened Types

  const DIGEST_BITS: nat := 8 * DIGEST_LEN

  function Pow2(k: nat): (r: nat)
    ensures r > 0
  {
    if k == 0 then 1 else 2 * Pow2(k - 1)
  }

  /** Bit `k` of a byte, bit 7 being the most significant: `(x >> k) & 1`. */
  function BitOf(x: nat, k: nat): (r: nat)
    ensures r < 2
  {
    if k == 0 then x % 2 else BitOf(x / 2, k - 1)
  }

  /** The source's `get_bit`: bit 0 is the most significant bit of byte 0. */
  function GetBit(d: Digest, pos: nat): (r: nat)
    requires pos < DIGEST_BITS
    ensures r < 2
  {
    BitOf(d.bytes[pos / 8], 7 - pos % 8)
  }

  ghost predicate AgreeBelow(a: Digest, b: Digest, n: nat)
    requires n <= DIGEST_BITS
  {
    forall q | 0 <= q < n :: GetBit(a, q) == GetBit(b, q)
  }

  /** `p` is the first bit at which `a` and `b` differ. */
  ghost predicate FirstDiff(a: Digest, b: Digest, p: nat) {
    p < DIGEST_BITS && GetBit(a, p) != GetBit(b, p) && AgreeBelow(a, b, p)
  }

  lemma {:induction false} EqualFromBits(x: nat, y: nat, n: nat)
    requires x < Pow2(n) && y < Pow2(n)
    requires forall k | 0 <= k < n :: BitOf(x, k) == BitOf(y, k)
    ensures x == y
  {
    if n > 0 {
      assert BitOf(x, 0) == BitOf(y, 0);
      forall k | 0 <= k < n - 1
        ensures BitOf(x / 2, k) == BitOf(y / 2, k)
      {
        assert BitOf(x, k + 1) == BitOf(y, k + 1);
      }
      EqualFromBits(x / 2, y / 2, n - 1);
    }
  }

  /** Exclusive or of the low `n` bits. */
  function Xor(x: nat, y: nat, n: nat): (r: nat)
    ensures r < Pow2(n)
  {
    if n == 0 then 0
    else (if BitOf(x, n - 1) == BitOf(y, n - 1) then 0 else Pow2(n - 1)) + Xor(x, y, n - 1)
  }

  /** `leading_zeros` of an `n`-bit number. */
  function LeadingZeros(v: nat, n: nat): (z: nat)
    ensures z <= n
  {
    if n == 0 || v >= Pow2(n - 1) then 0 else 1 + LeadingZeros(v, n - 1)
  }

  /** The leading zeros of the exclusive or count the high bits on which two numbers agree. */
  lemma {:induction false} LeadingZerosOfXor(x: nat, y: nat, n: nat)
    ensures var z := LeadingZeros(Xor(x, y, n), n);
            && (Xor(x, y, n) == 0 <==> z == n)
            && (forall k | n - z <= k < n :: BitOf(x, k) == BitOf(y, k))
            && (z < n ==> BitOf(x, n - 1 - z) != BitOf(y, n - 1 - z))
  {
    if n > 0 {
      LeadingZerosOfXor(x, y, n - 1);
    }
  }

  lemma ByteAgreement(a: Digest, b: Digest, n: nat)
    requires n <= DIGEST_LEN
    requires a.bytes[..n] == b.bytes[..n]
    ensures AgreeBelow(a, b, 8 * n)
  {
    forall q | 0 <= q < 8 * n
      ensures GetBit(a, q) == GetBit(b, q)
    {
      assert a.bytes[q / 8] == a.bytes[..n][q / 8] == b.bytes[..n][q / 8];
    }
  }

  /** The source's `find_critical_bit`. */
  method FindCriticalBit(a: Digest, b: Digest) returns (r: Option<nat>)
    ensures r.None? <==> a == b
    ensures r.Some? ==> FirstDiff(a, b, r.value)
  {
    for i := 0 to DIGEST_LEN
      invariant a.bytes[..i] == b.bytes[..i]
    {
      var diff := Xor(a.bytes[i], b.bytes[i], 8);
      LeadingZerosOfXor(a.bytes[i], b.bytes[i], 8);
      if diff != 0 {
        var bitInByte := 7 - LeadingZeros(diff, 8);
        var bitPos := i * 8 + (7 - bitInByte);
        ByteAgreement(a, b, i);
        forall q | 0 <= q < bitPos
          ensures GetBit(a, q) == GetBit(b, q)
        {
          if q >= 8 * i {
            assert q / 8 == i && q % 8 == q - 8 * i;
          }
        }
        assert bitPos / 8 == i && bitPos % 8 == 7 - bitInByte;
        return Some(bitPos);
      }
      assert Pow2(8) == 256;
      EqualFromBits(a.bytes[i], b.bytes[i], 8);
    }
    assert a.bytes == a.bytes[..DIGEST_LEN] && b.bytes == b.bytes[..DIGEST_LEN];
    return None;
  }

  // ---------------------------------------------------------------- the critical bit as a function

  lemma AgreeEverywhere(a: Digest, b: Digest)
    requires AgreeBelow(a, b, DIGEST_BITS)
    ensures a == b
  {
    forall i | 0 <= i < DIGEST_LEN
      ensures a.bytes[i] == b.bytes[i]
    {
      forall k | 0 <= k < 8
        ensures BitOf(a.bytes[i], k) == BitOf(b.bytes[i], k)
      {
        var q := 8 * i + (7 - k);
        assert q / 8 == i && q % 8 == 7 - k;
        assert GetBit(a, q) == GetBit(b, q);
      }
      assert Pow2(8) == 256;
      EqualFromBits(a.bytes[i], b.bytes[i], 8);
    }
  }

  lemma FirstDiffBelow(a: Digest, b: Digest, n: nat)
    requires n <= DIGEST_BITS && !AgreeBelow(a, b, n)
    ensures exists p :: FirstDiff(a, b, p)
  {
    if AgreeBelow(a, b, n - 1) {
      assert FirstDiff(a, b, n - 1);
    } else {
      FirstDiffBelow(a, b, n - 1);
    }
  }

  lemma FirstDiffExists(a: Digest, b: Digest)
    requires a != b
    ensures exists p :: FirstDiff(a, b, p)
  {
    if AgreeBelow(a, b, DIGEST_BITS) {
      AgreeEverywhere(a, b);
    } else {
      FirstDiffBelow(a, b, DIGEST_BITS);
    }
  }

  /** Where two different digests first differ. */
  ghost function CriticalBit(a: Digest, b: Digest): (p: nat)
    requires a != b
    ensures FirstDiff(a, b, p)
  {
    FirstDiffExists(a, b);
    var p: nat :| FirstDiff(a, b, p);
    p
  }
}
