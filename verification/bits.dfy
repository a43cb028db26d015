/** MSB-first conversion between bytes and bit sequences.

    Both the DES program (src/main.rs, bits as the characters '0'/'1') and the
    Huffman compressor (lab06/src/main.rs, bits as bool) convert bytes the same
    way: every byte becomes its eight bits, most significant first, and a group
    of up to eight bits is folded back into one byte, most significant first.
    Bits are modelled as `bool` ('1' is `true`). */
module Bits {

  type byte = x: int | 0 <= x < 256

  function Pow2(k: nat): (r: nat)
    ensures r >= 1
  {
    if k == 0 then 1 else 2 * Pow2(k - 1)
  }

  /** The low `k` bits of `v`, most significant first. */
  function NatToBits(v: nat, k: nat): (r: seq<bool>)
    ensures |r| == k
  {
    if k == 0 then [] else NatToBits(v / 2, k - 1) + [v % 2 == 1]
  }

  /** Folds bits most significant first: `acc << 1 | bit` for every bit. */
  function BitsToNat(bits: seq<bool>): (r: nat)
    ensures r < Pow2(|bits|)
  {
    if bits == [] then 0
    else 2 * BitsToNat(bits[..|bits| - 1]) + (if bits[|bits| - 1] then 1 else 0)
  }

  lemma {:induction false} BitsToNatOfNatToBits(v: nat, k: nat)
    requires v < Pow2(k)
    ensures BitsToNat(NatToBits(v, k)) == v
  {
    if k > 0 {
      var bits := NatToBits(v, k);
      assert bits[..k - 1] == NatToBits(v / 2, k - 1);
      BitsToNatOfNatToBits(v / 2, k - 1);
    }
  }

  lemma {:induction false} NatToBitsOfBitsToNat(bits: seq<bool>)
    ensures NatToBits(BitsToNat(bits), |bits|) == bits
  {
    if bits != [] {
      var front := bits[..|bits| - 1];
      var v := BitsToNat(bits);
      assert v / 2 == BitsToNat(front);
      NatToBitsOfBitsToNat(front);
      assert bits == front + [bits[|bits| - 1]];
    }
  }

  lemma DivPow2Step(v: nat, m: nat)
    ensures v / 2 / Pow2(m) == v / Pow2(m + 1)
  {
    var p := Pow2(m);
    var a := v / 2;
    var q := a / p;
    var r := a % p;
    assert v == q * (2 * p) + (2 * r + v % 2);
    assert 0 <= 2 * r + v % 2 < 2 * p;
    DivUnique(v, 2 * p, q, 2 * r + v % 2);
  }

  lemma DivUnique(v: nat, d: nat, q: nat, r: nat)
    requires d > 0 && v == q * d + r && r < d
    ensures v / d == q
  {
    var q0: nat := v / d;
    if q0 < q {
      assert (q0 + 1) * d == q0 * d + d;
      MulMonotone(q0 + 1, q, d);
    } else if q0 > q {
      assert (q + 1) * d == q * d + d;
      MulMonotone(q + 1, q0, d);
    }
  }

  lemma MulMonotone(a: nat, b: nat, d: nat)
    requires a <= b
    ensures a * d <= b * d
  {
    assert b * d == a * d + (b - a) * d;
  }

  /** Bit `j` of `NatToBits(v, k)` is `(v >> (k - 1 - j)) & 1`, the formula the
      source uses for every byte. */
  lemma {:induction false} NatToBitsAt(v: nat, k: nat, j: nat)
    requires j < k
    ensures NatToBits(v, k)[j] == (v / Pow2(k - 1 - j) % 2 == 1)
  {
    if j == k - 1 {
    } else {
      NatToBitsAt(v / 2, k - 1, j);
      DivPow2Step(v, k - 2 - j);
    }
  }

  /** Concatenation regrouped; stated on its own so that proofs about
      framed or prefixed sequences need not search for it. */
  lemma AppendAssoc<T>(a: seq<T>, b: seq<T>, c: seq<T>)
    ensures a + (b + c) == (a + b) + c
  {
  }

  /** `bytes_to_binary`: eight bits per byte, most significant first. */
  function BytesToBits(s: seq<byte>): (r: seq<bool>)
    ensures |r| == 8 * |s|
  {
    if s == [] then [] else NatToBits(s[0], 8) + BytesToBits(s[1..])
  }

  /** `binary_to_bytes`: every chunk of eight bits (the last one possibly
      shorter) is read as a binary number. */
  function BitsToBytes(bits: seq<bool>): (r: seq<byte>)
    ensures |r| == (|bits| + 7) / 8
    decreases |bits|
  {
    if bits == [] then []
    else if |bits| <= 8 then
      assert Pow2(|bits|) <= 256 by { Pow2Monotone(|bits|, 8); }
      [BitsToNat(bits)]
    else
      assert Pow2(8) == 256;
      [BitsToNat(bits[..8])] + BitsToBytes(bits[8..])
  }

  lemma {:induction false} Pow2Monotone(a: nat, b: nat)
    requires a <= b
    ensures Pow2(a) <= Pow2(b)
    decreases b
  {
    if a < b { Pow2Monotone(a, b - 1); }
  }

  lemma {:induction false} BytesToBitsBlock(s: seq<byte>, i: nat)
    requires i < |s|
    ensures BytesToBits(s)[8 * i..8 * i + 8] == NatToBits(s[i], 8)
  {
    if i > 0 {
      BytesToBitsBlock(s[1..], i - 1);
      assert BytesToBits(s)[8..] == BytesToBits(s[1..]);
    }
  }

  /** Bit `8 * i + j` of the expansion is bit `7 - j` of byte `i`. */
  lemma BytesToBitsAt(s: seq<byte>, i: nat, j: nat)
    requires i < |s| && j < 8
    ensures BytesToBits(s)[8 * i + j] == (s[i] / Pow2(7 - j) % 2 == 1)
  {
    BytesToBitsBlock(s, i);
    assert BytesToBits(s)[8 * i + j] == NatToBits(s[i], 8)[j];
    NatToBitsAt(s[i], 8, j);
  }

  lemma {:induction false} BytesToBitsAppend(a: seq<byte>, b: seq<byte>)
    ensures BytesToBits(a + b) == BytesToBits(a) + BytesToBits(b)
  {
    if a != [] {
      assert (a + b)[1..] == a[1..] + b;
      BytesToBitsAppend(a[1..], b);
    } else {
      assert a + b == b;
    }
  }

  lemma {:induction false} BitsToBytesAppend(a: seq<bool>, b: seq<bool>)
    requires |a| % 8 == 0
    ensures BitsToBytes(a + b) == BitsToBytes(a) + BitsToBytes(b)
    decreases |a|
  {
    if a == [] {
      assert a + b == b;
    } else if b == [] {
      assert a + b == a;
    } else {
      assert (a + b)[..8] == a[..8];
      assert (a + b)[8..] == a[8..] + b;
      BitsToBytesAppend(a[8..], b);
    }
  }

  /** `binary_to_bytes` inverts `bytes_to_binary`. */
  lemma {:induction false} BitsToBytesOfBytesToBits(s: seq<byte>)
    ensures BitsToBytes(BytesToBits(s)) == s
  {
    if s != [] {
      assert Pow2(8) == 256;
      BitsToNatOfNatToBits(s[0], 8);
      BitsToBytesOfBytesToBits(s[1..]);
      var bits := BytesToBits(s);
      assert bits[..8] == NatToBits(s[0], 8);
      assert bits[8..] == BytesToBits(s[1..]);
      if |s| == 1 {
        assert bits == bits[..8];
      }
      assert s == [s[0]] + s[1..];
    }
  }

  /** `bytes_to_binary` inverts `binary_to_bytes` on whole bytes. */
  lemma {:induction false} BytesToBitsOfBitsToBytes(bits: seq<bool>)
    requires |bits| % 8 == 0
    ensures BytesToBits(BitsToBytes(bits)) == bits
    decreases |bits|
  {
    if bits != [] {
      NatToBitsOfBitsToNat(bits[..8]);
      if |bits| == 8 {
        assert bits[..8] == bits;
      } else {
        BytesToBitsOfBitsToBytes(bits[8..]);
        assert bits == bits[..8] + bits[8..];
      }
    }
  }
}
