/** Fixed-width little-endian integers. */
module LittleEndian {
  import opened Bytes

  function Pow256(k: nat): (p: nat)
    ensures p > 0
  {
    if k == 0 then 1 else 256 * Pow256(k - 1)
  }

  function ToLe(n: nat, k: nat): (s: Bytes)
    ensures |s| == k
  {
    if k == 0 then [] else [n % 256] + ToLe(n / 256, k - 1)
  }

  function FromLe(s: Bytes): (n: nat) {
    if s == [] then 0 else s[0] + 256 * FromLe(s[1..])
  }

  lemma {:induction false} FromTo(n: nat, k: nat)
    requires n < Pow256(k)
    ensures FromLe(ToLe(n, k)) == n
    decreases k
  {
    if k > 0 {
      FromTo(n / 256, k - 1);
      assert ToLe(n, k)[1..] == ToLe(n / 256, k - 1);
    }
  }

  lemma {:induction false} ToFrom(s: Bytes)
    ensures FromLe(s) < Pow256(|s|) && ToLe(FromLe(s), |s|) == s
    decreases |s|
  {
    if s != [] {
      ToFrom(s[1..]);
      assert s == [s[0]] + s[1..];
    }
  }

  /** The last byte weighs most: byte number `i` counts 256 to the power `i`. */
  lemma {:induction false} LastWeighsMost(s: Bytes, b: byte)
    ensures FromLe(s + [b]) == FromLe(s) + b * Pow256(|s|)
    decreases |s|
  {
    if s == [] {
      assert s + [b] == [b];
    } else {
      assert (s + [b])[1..] == s[1..] + [b];
      LastWeighsMost(s[1..], b);
      assert b * Pow256(|s|) == 256 * (b * Pow256(|s| - 1));
    }
  }

  lemma Widths()
    ensures Pow256(2) == 0x1_0000 && Pow256(4) == 0x1_0000_0000 && Pow256(8) == 0x1_0000_0000_0000_0000
  {
    assert Pow256(6) == 0x1_0000_0000_0000;
  }
}
