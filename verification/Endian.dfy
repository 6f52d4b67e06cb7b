/** Little-endian integers as the source writes and reads them (`to_le_bytes`, `from_le_bytes`). */
module Endian {
  import opened Types
  import opened Quotients

  function Pow256(k: nat): (p: nat)
    ensures p > 0
  {
    if k == 0 then 1 else 256 * Pow256(k - 1)
  }

  /** The low `k` bytes of `n`, least significant first. */
  function ToLE(n: nat, k: nat): (s: seq<byte>)
    ensures |s| == k
  {
    if k == 0 then [] else [n % 256] + ToLE(n / 256, k - 1)
  }

  function FromLE(s: seq<byte>): (n: nat)
    ensures n < Pow256(|s|)
  {
    if s == [] then 0 else s[0] + 256 * FromLE(s[1..])
  }

  /** A number that fits the width survives the round trip. */
  lemma {:induction false} RoundTrip(n: nat, k: nat)
    requires n < Pow256(k)
    ensures FromLE(ToLE(n, k)) == n
  {
    if k > 0 {
      RoundTrip(n / 256, k - 1);
      assert ToLE(n, k)[1..] == ToLE(n / 256, k - 1);
    }
  }

  lemma DivPow(n: nat, k: nat)
    ensures n / 256 / Pow256(k) == n / Pow256(k + 1)
  {
    var p := Pow256(k);
    var q, r := n / 256, n % 256;
    var a, b := q / p, q % p;
    assert q == a * p + b;
    assert n == a * (256 * p) + (256 * b + r);
    DivModUnique(n, 256 * p, a, 256 * b + r);
  }

  /** Byte `i` is the coefficient of 256 to the power `i`. */
  lemma {:induction false} LeastFirst(n: nat, k: nat, i: nat)
    requires i < k
    ensures ToLE(n, k)[i] == n / Pow256(i) % 256
    decreases k
  {
    if i > 0 {
      LeastFirst(n / 256, k - 1, i - 1);
      DivPow(n, i - 1);
    }
  }

  /** Two bytes keep a number modulo 65536: the `as u16` truncation. */
  lemma RoundTrip16(n: nat)
    ensures FromLE(ToLE(n, 2)) == n % 65536
  {
    assert ToLE(n, 2) == [n % 256, n / 256 % 256];
    assert FromLE([n / 256 % 256]) == n / 256 % 256;
    assert ToLE(n, 2)[1..] == [n / 256 % 256];
  }
}
