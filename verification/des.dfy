/** The DES cipher of src/main.rs: key schedule, the round function f, the
    sixteen-round Feistel network and the ECB driver that pads the last block
    with '.' (byte 46).

    The source keeps bits as the characters '0' and '1' and, inside a round,
    round-trips them through `u64` to XOR them; here bits are `bool` and the
    XOR is done on the sequences directly. */
module Des {
  import opened Bits
  import opened DesTables
  import opened Ecb

  /** Applies a selection table: output bit `i` is input bit `table[i]`. */
  function Permute<T>(s: seq<T>, table: seq<nat>): (r: seq<T>)
    requires forall i :: 0 <= i < |table| ==> table[i] < |s|
    ensures |r| == |table|
    ensures forall i :: 0 <= i < |table| ==> r[i] == s[table[i]]
  {
    seq(|table|, i requires 0 <= i < |table| => s[table[i]])
  }

  function Xor(a: seq<bool>, b: seq<bool>): (r: seq<bool>)
    requires |a| == |b|
    ensures |r| == |a|
    ensures forall i :: 0 <= i < |a| ==> r[i] == (a[i] != b[i])
  {
    seq(|a|, i requires 0 <= i < |a| => a[i] != b[i])
  }

  lemma XorCancel(x: seq<bool>, a: seq<bool>)
    requires |x| == |a|
    ensures Xor(x, Xor(x, a)) == a
  {
  }

  // ----- Key schedule -----

  /** `pc1`: the halves C0 and D0 of the key. The source indexes the key bits
      up to position 62, so shorter keys make it panic. */
  function Pc1<T>(s: seq<T>): (r: (seq<T>, seq<T>))
    requires |s| >= 63
    ensures |r.0| == 28 && |r.1| == 28
    ensures forall i :: 0 <= i < 28 ==> r.0[i] == s[PC1[i]] && r.1[i] == s[PC1[28 + i]]
    ensures forall p :: 0 <= p < 64 && p % 8 != 7 ==>
              (PC1_POSITION[p] < 28 && r.0[PC1_POSITION[p]] == s[p]) ||
              (28 <= PC1_POSITION[p] < 56 && r.1[PC1_POSITION[p] - 28] == s[p])
  {
    Pc1Table();
    (Permute(s, PC1)[..28], Permute(s, PC1)[28..])
  }

  /** PC-1 keeps exactly the non-parity bits: two keys give the same halves
      if and only if they agree on every bit other than 7, 15, ..., 63. */
  lemma Pc1IgnoresOnlyParity<T>(s: seq<T>, t: seq<T>)
    requires |s| == 64 && |t| == 64
    ensures Pc1(s) == Pc1(t) <==> forall p :: 0 <= p < 64 && p % 8 != 7 ==> s[p] == t[p]
  {
    Pc1Table();
    var cs := Permute(s, PC1);
    var ct := Permute(t, PC1);
    assert cs == Pc1(s).0 + Pc1(s).1;
    assert ct == Pc1(t).0 + Pc1(t).1;
    if Pc1(s) == Pc1(t) {
      forall p | 0 <= p < 64 && p % 8 != 7
        ensures s[p] == t[p]
      {
        var i := PC1_POSITION[p];
        assert cs[i] == ct[i];
      }
    }
    if forall p :: 0 <= p < 64 && p % 8 != 7 ==> s[p] == t[p] {
      assert cs == ct;
    }
  }

  /** `pc2`: compresses C || D to a 48-bit round key. */
  function Pc2(s: seq<bool>): (r: seq<bool>)
    requires |s| == 56
    ensures |r| == 48
    ensures forall i :: 0 <= i < 48 ==> r[i] == s[PC2[i]]
    ensures forall p :: 0 <= p < 56 && !DroppedByPc2(p) ==> PC2_POSITION[p] < 48 && r[PC2_POSITION[p]] == s[p]
  {
    Pc2Table();
    Permute(s, PC2)
  }

  /** The first 24 bits of a round key come from C only and the last 24 from
      D only. */
  lemma Pc2Halves(c: seq<bool>, d: seq<bool>, c': seq<bool>, d': seq<bool>)
    requires |c| == 28 && |d| == 28 && |c'| == 28 && |d'| == 28
    ensures Pc2(c + d)[..24] == Pc2(c + d')[..24]
    ensures Pc2(c + d)[24..] == Pc2(c' + d)[24..]
  {
    Pc2Table();
  }

  /** PC-2 reads every bit of C || D except the eight it drops, so two inputs
      give the same round key if and only if they agree on the kept bits. */
  lemma Pc2KeepsAllButEight(x: seq<bool>, y: seq<bool>)
    requires |x| == 56 && |y| == 56
    ensures Pc2(x) == Pc2(y) <==> forall p :: 0 <= p < 56 && !DroppedByPc2(p) ==> x[p] == y[p]
  {
    Pc2Table();
    if Pc2(x) == Pc2(y) {
      forall p | 0 <= p < 56 && !DroppedByPc2(p)
        ensures x[p] == y[p]
      {
        var i := PC2_POSITION[p];
        assert Pc2(x)[i] == Pc2(y)[i];
      }
    }
  }

  /** `rotate_left(k)` on a vector; the source panics for `k > |s|`. */
  function RotateLeft<T>(s: seq<T>, k: nat): (r: seq<T>)
    requires k <= |s|
    ensures |r| == |s|
    ensures forall i :: 0 <= i < |s| ==> r[i] == if i + k < |s| then s[i + k] else s[i + k - |s|]
  {
    s[k..] + s[..k]
  }

  /** Rotations accumulate: rotating by `a` and then by `b` rotates by
      `a + b`. */
  lemma RotateLeftTwice<T>(s: seq<T>, a: nat, b: nat)
    requires a + b <= |s|
    ensures RotateLeft(RotateLeft(s, a), b) == RotateLeft(s, a + b)
  {
    var once := RotateLeft(s, a);
    assert once[b..] == s[a + b..] + s[..a];
    assert once[..b] == s[a..a + b];
    assert s[..a] + s[a..a + b] == s[..a + b];
  }

  lemma {:induction false} CumulativeShiftAtMost28(k: nat)
    requires k <= 16
    ensures CumulativeShift(k) <= 28
    decreases 16 - k
  {
    ShiftsTable();
    if k < 16 {
      CumulativeShiftAtMost28(k + 1);
    }
  }

  /** After the 16 rounds of the schedule, C and D are back to their PC-1
      values, since the shifts add up to 28. */
  lemma HalvesReturnAfterSchedule<T>(c: seq<T>)
    requires |c| == 28
    ensures CumulativeShift(16) <= |c| && RotateLeft(c, CumulativeShift(16)) == c
  {
    ShiftsTable();
  }

  predicate ValidSchedule(keys: seq<seq<bool>>) {
    |keys| == 16 && forall i :: 0 <= i < 16 ==> |keys[i]| == 48
  }

  /** Round key `i` from the PC-1 halves `c0` and `d0`: PC-2 of both halves,
      each rotated by the sum of the first `i + 1` shifts. */
  function RoundKey(c0: seq<bool>, d0: seq<bool>, i: nat): (r: seq<bool>)
    requires |c0| == 28 && |d0| == 28 && i < 16
    ensures |r| == 48
  {
    CumulativeShiftAtMost28(i + 1);
    Pc2(RotateLeft(c0, CumulativeShift(i + 1)) + RotateLeft(d0, CumulativeShift(i + 1)))
  }

  /** Round key `i` of the schedule derived from `key`, in closed form. */
  function ScheduledKey(key: seq<byte>, i: nat): (r: seq<bool>)
    requires |key| >= 8 && i < 16
    ensures |r| == 48
  {
    RoundKey(Pc1(BytesToBits(key)).0, Pc1(BytesToBits(key)).1, i)
  }

  /** One round of the schedule: rotating the halves reached after `i` rounds
      by the next shift gives the halves of round key `i`. */
  lemma ScheduleStep(c0: seq<bool>, d0: seq<bool>, i: nat)
    requires |c0| == 28 && |d0| == 28 && i < 16
    ensures CumulativeShift(i + 1) <= 28
    ensures var c := RotateLeft(c0, CumulativeShift(i));
            var d := RotateLeft(d0, CumulativeShift(i));
            SHIFTS[i] <= 28 &&
            RotateLeft(c, SHIFTS[i]) == RotateLeft(c0, CumulativeShift(i + 1)) &&
            RotateLeft(d, SHIFTS[i]) == RotateLeft(d0, CumulativeShift(i + 1)) &&
            Pc2(RotateLeft(c, SHIFTS[i]) + RotateLeft(d, SHIFTS[i])) == RoundKey(c0, d0, i)
  {
    CumulativeShiftAtMost28(i + 1);
    RotateLeftTwice(c0, CumulativeShift(i), SHIFTS[i]);
    RotateLeftTwice(d0, CumulativeShift(i), SHIFTS[i]);
  }

  /** The loop of `generate_keys`: rotates C and D round by round and keeps
      PC-2 of each intermediate C || D. */
  method RotateAndCompress(c0: seq<bool>, d0: seq<bool>) returns (keys: seq<seq<bool>>)
    requires |c0| == 28 && |d0| == 28
    ensures |keys| == 16
    ensures forall i :: 0 <= i < 16 ==> keys[i] == RoundKey(c0, d0, i)
  {
    var c, d := c0, d0;
    keys := [];
    for i := 0 to 16
      invariant CumulativeShift(i) <= 28
      invariant c == RotateLeft(c0, CumulativeShift(i))
      invariant d == RotateLeft(d0, CumulativeShift(i))
      invariant |keys| == i
      invariant forall j :: 0 <= j < i ==> keys[j] == RoundKey(c0, d0, j)
    {
      ScheduleStep(c0, d0, i);
      c := RotateLeft(c, SHIFTS[i]);
      d := RotateLeft(d, SHIFTS[i]);
      keys := keys + [Pc2(c + d)];
    }
  }

  /** `generate_keys`: the sixteen round keys of `key`, each equal to its
      closed form. */
  method GenerateKeys(key: seq<byte>) returns (keys: seq<seq<bool>>)
    requires |key| >= 8
    ensures ValidSchedule(keys)
    ensures forall i :: 0 <= i < 16 ==> keys[i] == ScheduledKey(key, i)
  {
    var halves := Pc1(BytesToBits(key));
    keys := RotateAndCompress(halves.0, halves.1);
  }

  /** Only the first eight key bytes matter: the source reads key bits up to
      position 62 and ignores the rest. */
  lemma ScheduleIgnoresBytesPastEight(key: seq<byte>, i: nat)
    requires |key| >= 8 && i < 16
    ensures ScheduledKey(key, i) == ScheduledKey(key[..8], i)
  {
    Pc1Table();
    assert key == key[..8] + key[8..];
    BytesToBitsAppend(key[..8], key[8..]);
    var bits := BytesToBits(key);
    var short := BytesToBits(key[..8]);
    assert Permute(bits, PC1) == Permute(short, PC1);
  }

  // ----- The cipher function f -----

  /** `expansion`: the 32-bit half spread to 48 bits. */
  function Expansion(r: seq<bool>): (e: seq<bool>)
    requires |r| == 32
    ensures |e| == 48
    ensures forall i :: 0 <= i < 48 ==> e[i] == r[E[i]]
    ensures forall j :: 0 <= j < 32 ==> E_SOURCE[j] < 48 && e[E_SOURCE[j]] == r[j]
  {
    ExpansionTable();
    Permute(r, E)
  }

  /** E copies every bit of the half at least once, so it loses nothing. */
  lemma ExpansionInjective(a: seq<bool>, b: seq<bool>)
    requires |a| == 32 && |b| == 32
    ensures Expansion(a) == Expansion(b) <==> a == b
  {
    ExpansionTable();
    if Expansion(a) == Expansion(b) {
      forall j | 0 <= j < 32
        ensures a[j] == b[j]
      {
        assert Expansion(a)[E_SOURCE[j]] == Expansion(b)[E_SOURCE[j]];
      }
    }
  }

  /** The S-box lookup for one 6-bit group: the middle four bits pick the
      column, the outer two bits the row. */
  function SboxLookup(g: nat, group: seq<bool>): (v: nat)
    requires g < 8 && |group| == 6
    ensures v < 16
  {
    SboxTable();
    assert Pow2(4) == 16 && Pow2(2) == 4;
    SBOX[g][BitsToNat(group[1..5])][BitsToNat([group[0], group[5]])]
  }

  /** The group `substitution` starts from; named so that the group loop is
      not unrolled wherever it is mentioned. */
  const FIRST_GROUP: nat := 0

  function SubstituteFrom(s: seq<bool>, g: nat): (r: seq<bool>)
    requires |s| == 48 && g <= 8
    ensures |r| == 4 * (8 - g)
    decreases 8 - g
  {
    if g == 8 then []
    else NatToBits(SboxLookup(g, s[6 * g..6 * g + 6]), 4) + SubstituteFrom(s, g + 1)
  }

  /** `substitution`: 48 bits to 32, group by group. Output bits
      `4g .. 4g+3` are the 4-bit binary form of S-box `g` at the column given
      by bits 1..4 of input group `g` and the row given by its bits 0 and 5. */
  function Substitution(s: seq<bool>): (r: seq<bool>)
    requires |s| == 48
    ensures |r| == 32
    ensures forall g :: 0 <= g < 8 ==> BitsToNat(r[4 * g..4 * g + 4]) == SboxLookup(g, s[6 * g..6 * g + 6])
  {
    forall g | 0 <= g < 8
      ensures BitsToNat(SubstituteFrom(s, FIRST_GROUP)[4 * g..4 * g + 4]) == SboxLookup(g, s[6 * g..6 * g + 6])
    {
      GroupValue(s, g);
    }
    SubstituteFrom(s, FIRST_GROUP)
  }

  lemma SliceAfterPrefix<T>(a: seq<T>, rest: seq<T>, m: nat)
    requires |a| == 4 && 1 <= m && 4 * m + 4 <= |a| + |rest|
    ensures (a + rest)[4 * m..4 * m + 4] == rest[4 * (m - 1)..4 * (m - 1) + 4]
  {
  }

  /** The four bits the group loop emits for group `g` read back as the
      S-box value of input group `g`. */
  lemma GroupValue(s: seq<bool>, g: nat)
    requires |s| == 48 && g < 8
    ensures BitsToNat(SubstituteFrom(s, FIRST_GROUP)[4 * g..4 * g + 4]) == SboxLookup(g, s[6 * g..6 * g + 6])
  {
    SubstituteFromGroup(s, FIRST_GROUP, g);
    assert Pow2(4) == 16;
    BitsToNatOfNatToBits(SboxLookup(g, s[6 * g..6 * g + 6]), 4);
  }

  lemma {:induction false} SubstituteFromGroup(s: seq<bool>, g0: nat, g: nat)
    requires |s| == 48 && g0 <= g < 8
    ensures SubstituteFrom(s, g0)[4 * (g - g0)..4 * (g - g0) + 4]
         == NatToBits(SboxLookup(g, s[6 * g..6 * g + 6]), 4)
    decreases g - g0
  {
    if g0 < g {
      SubstituteFromGroup(s, g0 + 1, g);
      SliceAfterPrefix(NatToBits(SboxLookup(g0, s[6 * g0..6 * g0 + 6]), 4), SubstituteFrom(s, g0 + 1), g - g0);
    }
  }

  /** `permutation_p`. */
  function PermutationP(s: seq<bool>): (r: seq<bool>)
    requires |s| == 32
    ensures |r| == 32
    ensures forall i :: 0 <= i < 32 ==> r[i] == s[P[i]]
    ensures forall j :: 0 <= j < 32 ==> P_INVERSE[j] < 32 && r[P_INVERSE[j]] == s[j]
  {
    PermutationTable();
    Permute(s, P)
  }

  /** P is a bijection: P_INVERSE undoes it, and so it is injective. */
  lemma PermutationPBijective(a: seq<bool>, b: seq<bool>)
    requires |a| == 32 && |b| == 32
    ensures Permute(PermutationP(a), P_INVERSE) == a
    ensures PermutationP(a) == PermutationP(b) <==> a == b
  {
    PermutationTable();
    assert Permute(PermutationP(a), P_INVERSE) == a;
    if PermutationP(a) == PermutationP(b) {
      assert Permute(PermutationP(b), P_INVERSE) == b;
    }
  }

  /** The cipher function f(R, K) = P(S(E(R) xor K)). */
  function CipherF(r: seq<bool>, k: seq<bool>): (out: seq<bool>)
    requires |r| == 32 && |k| == 48
    ensures |out| == 32
  {
    PermutationP(Substitution(Xor(Expansion(r), k)))
  }

  // ----- The Feistel network -----

  predicate RoundKeys(ks: seq<seq<bool>>) {
    forall i :: 0 <= i < |ks| ==> |ks[i]| == 48
  }

  /** A round function maps a 32-bit half and a 48-bit key to 32 bits. The
      network below is stated for any such function, so that its inverse
      does not depend on what f computes. */
  ghost predicate IsRoundFunction(f: (seq<bool>, seq<bool>) --> seq<bool>) {
    forall r, k :: |r| == 32 && |k| == 48 ==> f.requires(r, k) && |f(r, k)| == 32
  }

  lemma CipherFIsRoundFunction()
    ensures IsRoundFunction(CipherF)
  {
  }

  /** The rounds of `rounds`, one per key: L' = R and R' = f(R, K) xor L. */
  function Feistel(f: (seq<bool>, seq<bool>) --> seq<bool>, l: seq<bool>, r: seq<bool>, ks: seq<seq<bool>>): (res: (seq<bool>, seq<bool>))
    requires IsRoundFunction(f) && |l| == 32 && |r| == 32 && RoundKeys(ks)
    ensures |res.0| == 32 && |res.1| == 32
    decreases |ks|
  {
    if ks == [] then (l, r)
    else Feistel(f, r, Xor(f(r, ks[0]), l), ks[1..])
  }

  /** One more key is one more round at the end. */
  lemma {:induction false} FeistelSnoc(f: (seq<bool>, seq<bool>) --> seq<bool>, l: seq<bool>, r: seq<bool>, ks: seq<seq<bool>>, k: seq<bool>)
    requires IsRoundFunction(f) && |l| == 32 && |r| == 32 && RoundKeys(ks) && |k| == 48
    ensures RoundKeys(ks + [k])
    ensures var lr := Feistel(f, l, r, ks);
            Feistel(f, l, r, ks + [k]) == (lr.1, Xor(f(lr.1, k), lr.0))
    decreases |ks|
  {
    if ks != [] {
      assert (ks + [k])[1..] == ks[1..] + [k];
      FeistelSnoc(f, r, Xor(f(r, ks[0]), l), ks[1..], k);
    }
  }

  function Reverse<T>(s: seq<T>): (r: seq<T>)
    ensures |r| == |s|
  {
    seq(|s|, i requires 0 <= i < |s| => s[|s| - 1 - i])
  }

  lemma ReverseSnoc<T>(front: seq<T>, k: T)
    ensures Reverse(front + [k]) == [k] + Reverse(front)
  {
  }

  /** A key at the front is one round at the start. */
  lemma FeistelCons(f: (seq<bool>, seq<bool>) --> seq<bool>, l: seq<bool>, r: seq<bool>, k: seq<bool>, ks: seq<seq<bool>>)
    requires IsRoundFunction(f) && |l| == 32 && |r| == 32 && |k| == 48 && RoundKeys(ks)
    ensures RoundKeys([k] + ks)
    ensures Feistel(f, l, r, [k] + ks) == Feistel(f, r, Xor(f(r, k), l), ks)
  {
    assert ([k] + ks)[1..] == ks;
  }

  /** Running the rounds on the swapped output with the keys reversed gives
      back the swapped input, whatever the round function computes. */
  lemma {:induction false} FeistelReversed(f: (seq<bool>, seq<bool>) --> seq<bool>, l: seq<bool>, r: seq<bool>, ks: seq<seq<bool>>)
    requires IsRoundFunction(f) && |l| == 32 && |r| == 32 && RoundKeys(ks)
    ensures RoundKeys(Reverse(ks))
    ensures var lr := Feistel(f, l, r, ks);
            Feistel(f, lr.1, lr.0, Reverse(ks)) == (r, l)
    decreases |ks|
  {
    if ks != [] {
      var front, k := ks[..|ks| - 1], ks[|ks| - 1];
      assert ks == front + [k];
      FeistelSnoc(f, l, r, front, k);
      var a, b := Feistel(f, l, r, front).0, Feistel(f, l, r, front).1;
      ReverseSnoc(front, k);
      FeistelReversed(f, l, r, front);
      FeistelCons(f, Xor(f(b, k), a), b, k, Reverse(front));
      XorCancel(f(b, k), a);
    }
  }

  /** `FeistelReversed` on a 64-bit block split into halves, with the halves
      swapped at the end as `rounds` does. */
  lemma SwappedBlockReversed(f: (seq<bool>, seq<bool>) --> seq<bool>, x: seq<bool>, ks: seq<seq<bool>>)
    requires IsRoundFunction(f) && |x| == 64 && RoundKeys(ks)
    ensures RoundKeys(Reverse(ks))
    ensures var lr := Feistel(f, x[..32], x[32..], ks);
            var y := lr.1 + lr.0;
            var back := Feistel(f, y[..32], y[32..], Reverse(ks));
            back.1 + back.0 == x
  {
    var lr := Feistel(f, x[..32], x[32..], ks);
    var y := lr.1 + lr.0;
    assert y[..32] == lr.1 && y[32..] == lr.0;
    FeistelReversed(f, x[..32], x[32..], ks);
    assert x[..32] + x[32..] == x;
  }

  /** The key order of `rounds`: `keys[i]` when enciphering and
      `keys[15 - i]` when deciphering. */
  function RoundOrder(keys: seq<seq<bool>>, decrypt: bool): (ks: seq<seq<bool>>)
    requires ValidSchedule(keys)
    ensures |ks| == 16 && RoundKeys(ks)
    ensures forall i :: 0 <= i < 16 ==> ks[i] == keys[if decrypt then 15 - i else i]
  {
    seq(16, i requires 0 <= i < 16 => if decrypt then keys[15 - i] else keys[i])
  }

  /** Deciphering uses the enciphering order reversed, and vice versa. */
  lemma RoundOrderReversed(keys: seq<seq<bool>>, decrypt: bool)
    requires ValidSchedule(keys)
    ensures RoundOrder(keys, !decrypt) == Reverse(RoundOrder(keys, decrypt))
  {
  }

  /** `rounds`: the sixteen rounds on an IP-permuted block. */
  function Rounds(block: seq<bool>, keys: seq<seq<bool>>, decrypt: bool): (res: (seq<bool>, seq<bool>))
    requires |block| == 64 && ValidSchedule(keys)
    ensures |res.0| == 32 && |res.1| == 32
  {
    CipherFIsRoundFunction();
    Feistel(CipherF, block[..32], block[32..], RoundOrder(keys, decrypt))
  }

  /** `ip`. */
  function InitialPermutation(bits: seq<bool>): (r: seq<bool>)
    requires |bits| == 64
    ensures |r| == 64
    ensures forall i :: 0 <= i < 64 ==> r[i] == bits[IP[i]]
    ensures forall j :: 0 <= j < 64 ==> IPL1[j] < 64 && r[IPL1[j]] == bits[j]
  {
    IpTables();
    Permute(bits, IP)
  }

  /** `ipl1`. */
  function FinalPermutation(bits: seq<bool>): (r: seq<bool>)
    requires |bits| == 64
    ensures |r| == 64
    ensures forall i :: 0 <= i < 64 ==> r[i] == bits[IPL1[i]]
    ensures forall j :: 0 <= j < 64 ==> IP[j] < 64 && r[IP[j]] == bits[j]
  {
    IpTables();
    Permute(bits, IPL1)
  }

  /** IP^-1 and IP undo each other on 64-bit blocks. */
  lemma IpInverse(bits: seq<bool>)
    requires |bits| == 64
    ensures InitialPermutation(FinalPermutation(bits)) == bits
    ensures FinalPermutation(InitialPermutation(bits)) == bits
  {
    IpTables();
  }

  /** One 64-bit block through IP, the rounds, the swap to R16 || L16 and
      IP^-1. */
  function CryptBits(bits: seq<bool>, keys: seq<seq<bool>>, decrypt: bool): (out: seq<bool>)
    requires |bits| == 64 && ValidSchedule(keys)
    ensures |out| == 64
  {
    var lr := Rounds(InitialPermutation(bits), keys, decrypt);
    FinalPermutation(lr.1 + lr.0)
  }

  /** The rounds in the other direction, started from the swapped output of
      the rounds, end on the swapped input. */
  lemma RoundsReversed(x: seq<bool>, keys: seq<seq<bool>>, decrypt: bool)
    requires |x| == 64 && ValidSchedule(keys)
    ensures var lr := Rounds(x, keys, decrypt);
            var back := Rounds(lr.1 + lr.0, keys, !decrypt);
            back.1 + back.0 == x
  {
    CipherFIsRoundFunction();
    RoundOrderReversed(keys, decrypt);
    SwappedBlockReversed(CipherF, x, RoundOrder(keys, decrypt));
  }

  /** Deciphering a 64-bit block undoes enciphering it, and the other way
      round. */
  lemma CryptBitsInverse(bits: seq<bool>, keys: seq<seq<bool>>, decrypt: bool)
    requires |bits| == 64 && ValidSchedule(keys)
    ensures CryptBits(CryptBits(bits, keys, decrypt), keys, !decrypt) == bits
  {
    var x := InitialPermutation(bits);
    var lr := Rounds(x, keys, decrypt);
    IpInverse(lr.1 + lr.0);
    RoundsReversed(x, keys, decrypt);
    IpInverse(bits);
  }

  /** The per-block body shared by `encrypt` and `decrypt`: the block's bits
      through `CryptBits`, packed back into bytes. */
  function CryptBlock(block: seq<byte>, keys: seq<seq<bool>>, decrypt: bool): (out: seq<byte>)
    requires |block| == 8 && ValidSchedule(keys)
    ensures |out| == 8
  {
    BitsToBytes(CryptBits(BytesToBits(block), keys, decrypt))
  }

  /** Deciphering a block undoes enciphering it, and enciphering undoes
      deciphering, for every well-formed key schedule. */
  lemma CryptBlockInverse(block: seq<byte>, keys: seq<seq<bool>>, decrypt: bool)
    requires |block| == 8 && ValidSchedule(keys)
    ensures CryptBlock(CryptBlock(block, keys, decrypt), keys, !decrypt) == block
  {
    var y := CryptBits(BytesToBits(block), keys, decrypt);
    BytesToBitsOfBitsToBytes(y);
    CryptBitsInverse(BytesToBits(block), keys, decrypt);
    BitsToBytesOfBytesToBits(block);
  }

  /** Distinct blocks encipher to distinct blocks under one schedule. */
  lemma CryptBlockInjective(a: seq<byte>, b: seq<byte>, keys: seq<seq<bool>>)
    requires |a| == 8 && |b| == 8 && ValidSchedule(keys)
    ensures CryptBlock(a, keys, false) == CryptBlock(b, keys, false) <==> a == b
  {
    CryptBlockInverse(a, keys, false);
    CryptBlockInverse(b, keys, false);
  }

  // ----- The ECB driver -----

  /** The block function `encrypt` applies to each chunk. */
  function Encipher(keys: seq<seq<bool>>): (c: seq<byte> --> seq<byte>)
    requires ValidSchedule(keys)
    ensures IsBlockFunction(c)
    ensures forall b :: |b| == 8 ==> c(b) == CryptBlock(b, keys, false)
  {
    b requires |b| == 8 && ValidSchedule(keys) => CryptBlock(b, keys, false)
  }

  /** The block function `decrypt` applies to each chunk. */
  function Decipher(keys: seq<seq<bool>>): (d: seq<byte> --> seq<byte>)
    requires ValidSchedule(keys)
    ensures IsBlockFunction(d)
    ensures forall b :: |b| == 8 ==> d(b) == CryptBlock(b, keys, true)
  {
    b requires |b| == 8 && ValidSchedule(keys) => CryptBlock(b, keys, true)
  }

  /** Under one schedule the two block functions undo each other. */
  lemma CipherPair(keys: seq<seq<bool>>)
    requires ValidSchedule(keys)
    ensures Undoes(Decipher(keys), Encipher(keys))
    ensures Undoes(Encipher(keys), Decipher(keys))
  {
    var c, d := Encipher(keys), Decipher(keys);
    forall b | |b| == 8
      ensures d(c(b)) == b
    {
      var x := CryptBlock(b, keys, false);
      assert c(b) == x;
      assert d(x) == CryptBlock(x, keys, true);
      CryptBlockInverse(b, keys, false);
    }
    forall b | |b| == 8
      ensures c(d(b)) == b
    {
      var x := CryptBlock(b, keys, true);
      assert d(b) == x;
      assert c(x) == CryptBlock(x, keys, false);
      CryptBlockInverse(b, keys, true);
    }
  }

  /** `encrypt` with a generated key schedule. */
  function Encrypt(data: seq<byte>, keys: seq<seq<bool>>): (r: seq<byte>)
    requires ValidSchedule(keys)
    ensures |r| == |PadWithDots(data)|
  {
    Ecb.Encrypt(Encipher(keys), data)
  }

  /** `decrypt` with a generated key schedule; the input must be whole
      blocks. */
  function Decrypt(data: seq<byte>, keys: seq<seq<bool>>): (r: seq<byte>)
    requires ValidSchedule(keys) && |data| % 8 == 0
    ensures |r| == |data|
  {
    Ecb.Decrypt(Decipher(keys), data)
  }

  /** The round trip of the source's test: deciphering the ciphertext gives
      the message followed by the '.' padding of its last block. */
  lemma DecryptEncrypt(data: seq<byte>, keys: seq<seq<bool>>)
    requires ValidSchedule(keys)
    ensures |Encrypt(data, keys)| % 8 == 0
    ensures Decrypt(Encrypt(data, keys), keys) == PadWithDots(data)
  {
    CipherPair(keys);
    Ecb.DecryptEncrypt(Encipher(keys), Decipher(keys), data);
  }

  /** On whole blocks, enciphering undoes deciphering. */
  lemma EncryptDecrypt(data: seq<byte>, keys: seq<seq<bool>>)
    requires ValidSchedule(keys) && |data| % 8 == 0
    ensures Encrypt(Decrypt(data, keys), keys) == data
  {
    CipherPair(keys);
    Ecb.EncryptDecrypt(Encipher(keys), Decipher(keys), data);
  }

  /** The source's unit test: "hello world!\n" under any schedule comes
      back as "hello world!\n...". */
  lemma HelloWorldRoundTrip(keys: seq<seq<bool>>)
    requires ValidSchedule(keys)
    ensures Decrypt(Encrypt(Ecb.HELLO, keys), keys) == Ecb.HELLO + [46, 46, 46]
  {
    CipherPair(keys);
    Ecb.HelloWorldRoundTrip(Encipher(keys), Decipher(keys));
  }
}
