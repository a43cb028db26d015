/** The fixed tables of the Data Encryption Algorithm (FIPS PUB 46-3,
    Appendices 1 and 2) exactly as src/main.rs spells them out, with bit
    positions counted from 0.

    Every table is written in rows, as the source writes it, and flattened with
    a comprehension; that keeps each literal short enough for the verifier to
    evaluate, so the facts below are established by computation. The
    `..._POSITION`, `P_INVERSE` and `E_SOURCE` tables are proof witnesses: they
    are not part of the cipher and are only used to establish the facts. */
module DesTables {

  /** IP: output bit `i` of the initial permutation is input bit `IP[i]`. */
  const IP_ROWS: seq<seq<nat>> := [
    [57, 49, 41, 33, 25, 17, 9, 1],
    [59, 51, 43, 35, 27, 19, 11, 3],
    [61, 53, 45, 37, 29, 21, 13, 5],
    [63, 55, 47, 39, 31, 23, 15, 7],
    [56, 48, 40, 32, 24, 16, 8, 0],
    [58, 50, 42, 34, 26, 18, 10, 2],
    [60, 52, 44, 36, 28, 20, 12, 4],
    [62, 54, 46, 38, 30, 22, 14, 6]
  ]
  function IpAt(i: nat): nat
    requires i < 64
  {
    IP_ROWS[i / 8][i % 8]
  }
  function IpEntries(): seq<nat> {
    seq(64, i requires 0 <= i < 64 => IpAt(i))
  }
  const IP: seq<nat> := IpEntries()

  /** IP^-1, the final permutation. */
  const IPL1_ROWS: seq<seq<nat>> := [
    [39, 7, 47, 15, 55, 23, 63, 31],
    [38, 6, 46, 14, 54, 22, 62, 30],
    [37, 5, 45, 13, 53, 21, 61, 29],
    [36, 4, 44, 12, 52, 20, 60, 28],
    [35, 3, 43, 11, 51, 19, 59, 27],
    [34, 2, 42, 10, 50, 18, 58, 26],
    [33, 1, 41, 9, 49, 17, 57, 25],
    [32, 0, 40, 8, 48, 16, 56, 24]
  ]
  function Ipl1At(i: nat): nat
    requires i < 64
  {
    IPL1_ROWS[i / 8][i % 8]
  }
  function Ipl1Entries(): seq<nat> {
    seq(64, i requires 0 <= i < 64 => Ipl1At(i))
  }
  const IPL1: seq<nat> := Ipl1Entries()

  /** PC-1: the first four rows select C0, the last four select D0. */
  const PC1_ROWS: seq<seq<nat>> := [
    [56, 48, 40, 32, 24, 16, 8],
    [0, 57, 49, 41, 33, 25, 17],
    [9, 1, 58, 50, 42, 34, 26],
    [18, 10, 2, 59, 51, 43, 35],
    [62, 54, 46, 38, 30, 22, 14],
    [6, 61, 53, 45, 37, 29, 21],
    [13, 5, 60, 52, 44, 36, 28],
    [20, 12, 4, 27, 19, 11, 3]
  ]
  function Pc1At(i: nat): nat
    requires i < 56
  {
    PC1_ROWS[i / 7][i % 7]
  }
  function Pc1Entries(): seq<nat> {
    seq(56, i requires 0 <= i < 56 => Pc1At(i))
  }
  const PC1: seq<nat> := Pc1Entries()

  /** PC-2: compresses C || D (56 bits) to a 48-bit round key. */
  const PC2_ROWS: seq<seq<nat>> := [
    [13, 16, 10, 23, 0, 4, 2, 27],
    [14, 5, 20, 9, 22, 18, 11, 3],
    [25, 7, 15, 6, 26, 19, 12, 1],
    [40, 51, 30, 36, 46, 54, 29, 39],
    [50, 44, 32, 47, 43, 48, 38, 55],
    [33, 52, 45, 41, 49, 35, 28, 31]
  ]
  function Pc2At(i: nat): nat
    requires i < 48
  {
    PC2_ROWS[i / 8][i % 8]
  }
  function Pc2Entries(): seq<nat> {
    seq(48, i requires 0 <= i < 48 => Pc2At(i))
  }
  const PC2: seq<nat> := Pc2Entries()

  /** E: expands the 32-bit right half to 48 bits. */
  const E_ROWS: seq<seq<nat>> := [
    [31, 0, 1, 2, 3, 4, 3, 4],
    [5, 6, 7, 8, 7, 8, 9, 10],
    [11, 12, 11, 12, 13, 14, 15, 16],
    [15, 16, 17, 18, 19, 20, 19, 20],
    [21, 22, 23, 24, 23, 24, 25, 26],
    [27, 28, 27, 28, 29, 30, 31, 0]
  ]
  function EAt(i: nat): nat
    requires i < 48
  {
    E_ROWS[i / 8][i % 8]
  }
  function EEntries(): seq<nat> {
    seq(48, i requires 0 <= i < 48 => EAt(i))
  }
  const E: seq<nat> := EEntries()

  /** P: the permutation applied to the S-box output. */
  const P_ROWS: seq<seq<nat>> := [
    [15, 6, 19, 20, 28, 11, 27, 16],
    [0, 14, 22, 25, 4, 17, 30, 9],
    [1, 7, 23, 13, 31, 26, 2, 8],
    [18, 12, 29, 5, 21, 10, 3, 24]
  ]
  function PAt(i: nat): nat
    requires i < 32
  {
    P_ROWS[i / 8][i % 8]
  }
  function PEntries(): seq<nat> {
    seq(32, i requires 0 <= i < 32 => PAt(i))
  }
  const P: seq<nat> := PEntries()

  /** The eight S-boxes, stored transposed: `SBOX[g][middle][outer]` is the
      entry of S-box `g + 1` in row `outer` (bits 0 and 5 of the group) and
      column `middle` (bits 1 to 4). */
  const SBOX: seq<seq<seq<nat>>> := [
    [ // S1
      [14, 0, 4, 15],
      [4, 15, 1, 12],
      [13, 7, 14, 8],
      [1, 4, 8, 2],
      [2, 14, 13, 4],
      [15, 2, 6, 9],
      [11, 13, 2, 1],
      [8, 1, 11, 7],
      [3, 10, 15, 5],
      [10, 6, 12, 11],
      [6, 12, 9, 3],
      [12, 11, 7, 14],
      [5, 9, 3, 10],
      [9, 5, 10, 0],
      [0, 3, 5, 6],
      [7, 8, 0, 13]
    ],
    [ // S2
      [15, 3, 0, 13],
      [1, 13, 14, 8],
      [8, 4, 7, 10],
      [14, 7, 11, 1],
      [6, 15, 10, 3],
      [11, 2, 4, 15],
      [3, 8, 13, 4],
      [4, 14, 1, 2],
      [9, 12, 5, 11],
      [7, 0, 8, 6],
      [2, 1, 12, 7],
      [13, 10, 6, 12],
      [12, 6, 9, 0],
      [0, 9, 3, 5],
      [5, 11, 2, 14],
      [10, 5, 15, 9]
    ],
    [ // S3
      [10, 13, 13, 1],
      [0, 7, 6, 10],
      [9, 0, 4, 13],
      [14, 9, 9, 0],
      [6, 3, 8, 6],
      [3, 4, 15, 9],
      [15, 6, 3, 8],
      [5, 10, 0, 7],
      [1, 2, 11, 4],
      [13, 8, 1, 15],
      [12, 5, 2, 14],
      [7, 14, 12, 3],
      [11, 12, 5, 11],
      [4, 11, 10, 5],
      [2, 15, 14, 2],
      [8, 1, 7, 12]
    ],
    [ // S4
      [7, 13, 10, 3],
      [13, 8, 6, 15],
      [14, 11, 9, 0],
      [3, 5, 0, 6],
      [0, 6, 12, 10],
      [6, 15, 11, 1],
      [9, 0, 7, 13],
      [10, 3, 13, 8],
      [1, 4, 15, 9],
      [2, 7, 1, 4],
      [8, 2, 3, 5],
      [5, 12, 14, 11],
      [11, 1, 5, 12],
      [12, 10, 2, 7],
      [4, 14, 8, 2],
      [15, 9, 4, 14]
    ],
    [ // S5
      [2, 14, 4, 11],
      [12, 11, 2, 8],
      [4, 2, 1, 12],
      [1, 12, 11, 7],
      [7, 4, 10, 1],
      [10, 7, 13, 14],
      [11, 13, 7, 2],
      [6, 1, 8, 13],
      [8, 5, 15, 6],
      [5, 0, 9, 15],
      [3, 15, 12, 0],
      [15, 10, 5, 9],
      [13, 3, 6, 10],
      [0, 9, 3, 4],
      [14, 8, 0, 5],
      [9, 6, 14, 3]
    ],
    [ // S6
      [12, 10, 9, 4],
      [1, 15, 14, 3],
      [10, 4, 15, 2],
      [15, 2, 5, 12],
      [9, 7, 2, 9],
      [2, 12, 8, 5],
      [6, 9, 12, 15],
      [8, 5, 3, 10],
      [0, 6, 7, 11],
      [13, 1, 0, 14],
      [3, 13, 4, 1],
      [4, 14, 10, 7],
      [14, 0, 1, 6],
      [7, 11, 13, 0],
      [5, 3, 11, 8],
      [11, 8, 6, 13]
    ],
    [ // S7
      [4, 13, 1, 6],
      [11, 0, 4, 11],
      [2, 11, 11, 13],
      [14, 7, 13, 8],
      [15, 4, 12, 1],
      [0, 9, 3, 4],
      [8, 1, 7, 10],
      [13, 10, 14, 7],
      [3, 14, 10, 9],
      [12, 3, 15, 5],
      [9, 5, 6, 0],
      [7, 12, 8, 15],
      [5, 2, 0, 14],
      [10, 15, 5, 2],
      [6, 8, 9, 3],
      [1, 6, 2, 12]
    ],
    [ // S8
      [13, 1, 7, 2],
      [2, 15, 11, 1],
      [8, 13, 4, 14],
      [4, 8, 1, 7],
      [6, 10, 9, 4],
      [15, 3, 12, 10],
      [11, 7, 14, 8],
      [1, 4, 2, 13],
      [10, 12, 0, 15],
      [9, 5, 6, 12],
      [3, 6, 10, 9],
      [14, 11, 13, 0],
      [5, 0, 15, 3],
      [0, 14, 3, 5],
      [12, 9, 5, 6],
      [7, 2, 8, 11]
    ]
  ]

  /** Left-rotation amounts of the key schedule, one per round. */
  const SHIFTS: seq<nat> := [1, 1, 2, 2, 2, 2, 2, 2, 1, 2, 2, 2, 2, 2, 2, 1]

  /** Witness: where key bit `p` lands in PC-1's output (56 for the eight
      parity bits, which it drops). */
  const PC1_POSITION_ROWS: seq<seq<nat>> := [
    [7, 15, 23, 55, 51, 43, 35, 56],
    [6, 14, 22, 54, 50, 42, 34, 56],
    [5, 13, 21, 53, 49, 41, 33, 56],
    [4, 12, 20, 52, 48, 40, 32, 56],
    [3, 11, 19, 27, 47, 39, 31, 56],
    [2, 10, 18, 26, 46, 38, 30, 56],
    [1, 9, 17, 25, 45, 37, 29, 56],
    [0, 8, 16, 24, 44, 36, 28, 56]
  ]
  function Pc1PositionAt(i: nat): nat
    requires i < 64
  {
    PC1_POSITION_ROWS[i / 8][i % 8]
  }
  function Pc1PositionEntries(): seq<nat> {
    seq(64, i requires 0 <= i < 64 => Pc1PositionAt(i))
  }
  const PC1_POSITION: seq<nat> := Pc1PositionEntries()

  /** Witness: where bit `p` of C || D lands in PC-2's output (48 for the
      eight bits it drops). */
  const PC2_POSITION_ROWS: seq<seq<nat>> := [
    [4, 23, 6, 15, 5, 9, 19, 17],
    [48, 11, 2, 14, 22, 0, 8, 18],
    [1, 48, 13, 21, 10, 48, 12, 3],
    [48, 16, 20, 7, 46, 30, 26, 47],
    [34, 40, 48, 45, 27, 48, 38, 31],
    [24, 43, 48, 36, 33, 42, 28, 35],
    [37, 44, 32, 25, 41, 48, 29, 39]
  ]
  function Pc2PositionAt(i: nat): nat
    requires i < 56
  {
    PC2_POSITION_ROWS[i / 8][i % 8]
  }
  function Pc2PositionEntries(): seq<nat> {
    seq(56, i requires 0 <= i < 56 => Pc2PositionAt(i))
  }
  const PC2_POSITION: seq<nat> := Pc2PositionEntries()

  /** Witness: the inverse of P. */
  const P_INVERSE_ROWS: seq<seq<nat>> := [
    [8, 16, 22, 30, 12, 27, 1, 17],
    [23, 15, 29, 5, 25, 19, 9, 0],
    [7, 13, 24, 2, 3, 28, 10, 18],
    [31, 11, 21, 6, 4, 26, 14, 20]
  ]
  function PInverseAt(i: nat): nat
    requires i < 32
  {
    P_INVERSE_ROWS[i / 8][i % 8]
  }
  function PInverseEntries(): seq<nat> {
    seq(32, i requires 0 <= i < 32 => PInverseAt(i))
  }
  const P_INVERSE: seq<nat> := PInverseEntries()

  /** Witness: one output position of E that copies input bit `j`. */
  const E_SOURCE_ROWS: seq<seq<nat>> := [
    [1, 2, 3, 4, 5, 8, 9, 10],
    [11, 14, 15, 16, 17, 20, 21, 22],
    [23, 26, 27, 28, 29, 32, 33, 34],
    [35, 38, 39, 40, 41, 44, 45, 0]
  ]
  function ESourceAt(i: nat): nat
    requires i < 32
  {
    E_SOURCE_ROWS[i / 8][i % 8]
  }
  function ESourceEntries(): seq<nat> {
    seq(32, i requires 0 <= i < 32 => ESourceAt(i))
  }
  const E_SOURCE: seq<nat> := ESourceEntries()

  /** The sum of the first `k` rotation amounts: how far C and D have been
      rotated after round `k`. */
  function CumulativeShift(k: nat): (r: nat)
    requires k <= |SHIFTS|
    ensures r <= 2 * k
  {
    if k == 0 then 0 else CumulativeShift(k - 1) + SHIFTS[k - 1]
  }

  /** The shifts are 1 or 2 and add up to 28, so sixteen rounds rotate each
      28-bit half once all the way round. */
  lemma ShiftsTable()
    ensures |SHIFTS| == 16
    ensures forall k :: 0 <= k < 16 ==> 1 <= SHIFTS[k] <= 2
    ensures CumulativeShift(16) == 28
  {
    assert CumulativeShift(4) == 6;
    assert CumulativeShift(8) == 14;
    assert CumulativeShift(12) == 21;
  }

  /** IP^-1 undoes IP and IP undoes IP^-1. */
  lemma IpTables()
    ensures |IP| == 64 && |IPL1| == 64
    ensures forall i :: 0 <= i < 64 ==> IP[i] < 64 && IPL1[i] < 64
    ensures forall i :: 0 <= i < 64 ==> IP[IPL1[i]] == i && IPL1[IP[i]] == i
  {
    IpEntriesInRange();
    IpUndoesIpl1();
    Ipl1UndoesIp();
  }

  /** PC-1 reads 56 distinct key bits, all below 63, and leaves out exactly
      the parity bits 7, 15, ..., 63. */
  lemma Pc1Table()
    ensures |PC1| == 56
    ensures forall i :: 0 <= i < 56 ==> PC1[i] < 63 && PC1[i] % 8 != 7
    ensures forall i, j :: 0 <= i < j < 56 ==> PC1[i] != PC1[j]
    ensures forall p :: 0 <= p < 64 && p % 8 != 7 ==> PC1_POSITION[p] < 56 && PC1[PC1_POSITION[p]] == p
  {
    Pc1EntriesSkipParity();
    Pc1PositionInvertsPc1();
    Pc1PositionInRange();
    Pc1CoversKeyBits();
  }

  /** The bits of C || D that PC-2 drops. */
  predicate DroppedByPc2(p: nat) {
    p == 8 || p == 17 || p == 21 || p == 24 || p == 34 || p == 37 || p == 42 || p == 53
  }

  /** PC-2 reads 48 distinct bits: the first 24 from C (positions below 28),
      the last 24 from D, and every bit of C || D except eight. */
  lemma Pc2Table()
    ensures |PC2| == 48
    ensures forall i :: 0 <= i < 24 ==> PC2[i] < 28
    ensures forall i :: 24 <= i < 48 ==> 28 <= PC2[i] < 56
    ensures forall i, j :: 0 <= i < j < 48 ==> PC2[i] != PC2[j]
    ensures forall i :: 0 <= i < 48 ==> !DroppedByPc2(PC2[i])
    ensures forall p :: 0 <= p < 56 && !DroppedByPc2(p) ==> PC2_POSITION[p] < 48 && PC2[PC2_POSITION[p]] == p
  {
    Pc2LeftFromC();
    Pc2RightFromD();
    Pc2SkipsDropped();
    Pc2PositionInvertsPc2();
    Pc2PositionInRange();
    Pc2CoversKept();
  }

  /** E reads only bits of the 32-bit half and reads every one of them. */
  lemma ExpansionTable()
    ensures |E| == 48
    ensures forall i :: 0 <= i < 48 ==> E[i] < 32
    ensures forall j :: 0 <= j < 32 ==> E_SOURCE[j] < 48 && E[E_SOURCE[j]] == j
  {
    EEntriesInRange();
    ESourceInRange();
    ECoversHalf();
  }

  /** P is a bijection on 32 positions; P_INVERSE is its inverse. */
  lemma PermutationTable()
    ensures |P| == 32 && |P_INVERSE| == 32
    ensures forall i :: 0 <= i < 32 ==> P[i] < 32 && P_INVERSE[i] < 32
    ensures forall i :: 0 <= i < 32 ==> P[P_INVERSE[i]] == i && P_INVERSE[P[i]] == i
  {
    PEntriesInRange();
    PUndoesPInverse();
    PInverseUndoesP();
  }

  /** Every S-box entry fits in four bits. */
  lemma SboxTable()
    ensures |SBOX| == 8
    ensures forall g :: 0 <= g < 8 ==> |SBOX[g]| == 16
    ensures forall g, x :: 0 <= g < 8 && 0 <= x < 16 ==> |SBOX[g][x]| == 4
    ensures forall g, x, y :: 0 <= g < 8 && 0 <= x < 16 && 0 <= y < 4 ==> SBOX[g][x][y] < 16
  {
  }

  // Each fact below is checked entry by entry on the row accessors; the
  // summary lemmas above transfer them to the flattened tables.

  lemma IpEntriesInRange()
    ensures forall i :: 0 <= i < 64 ==> IpAt(i) < 64 && Ipl1At(i) < 64
  {
  }

  lemma IpUndoesIpl1()
    ensures forall i :: 0 <= i < 64 ==> IpAt(Ipl1At(i)) == i
  {
  }

  lemma Ipl1UndoesIp()
    ensures forall i :: 0 <= i < 64 ==> Ipl1At(IpAt(i)) == i
  {
    forall i | 0 <= i < 32
      ensures Ipl1At(IpAt(i)) == i
    {
    }
    forall i | 32 <= i < 64
      ensures Ipl1At(IpAt(i)) == i
    {
    }
  }

  lemma Pc1EntriesSkipParity()
    ensures forall i :: 0 <= i < 56 ==> Pc1At(i) < 63 && Pc1At(i) % 8 != 7
  {
  }

  lemma Pc1PositionInvertsPc1()
    ensures forall i :: 0 <= i < 56 ==> Pc1PositionAt(Pc1At(i)) == i
  {
  }

  lemma Pc1PositionInRange()
    ensures forall p :: 0 <= p < 64 && p % 8 != 7 ==> Pc1PositionAt(p) < 56
  {
  }

  lemma Pc1CoversKeyBits()
    ensures forall p :: 0 <= p < 64 && p % 8 != 7 ==> Pc1At(Pc1PositionAt(p)) == p
  {
  }

  lemma Pc2LeftFromC()
    ensures forall i :: 0 <= i < 24 ==> Pc2At(i) < 28
  {
  }

  lemma Pc2RightFromD()
    ensures forall i :: 24 <= i < 48 ==> 28 <= Pc2At(i) < 56
  {
  }

  lemma Pc2SkipsDropped()
    ensures forall i :: 0 <= i < 48 ==> !DroppedByPc2(Pc2At(i))
  {
  }

  lemma Pc2PositionInvertsPc2()
    ensures forall i :: 0 <= i < 48 ==> Pc2PositionAt(Pc2At(i)) == i
  {
  }

  lemma Pc2PositionInRange()
    ensures forall p :: 0 <= p < 56 && !DroppedByPc2(p) ==> Pc2PositionAt(p) < 48
  {
  }

  lemma Pc2CoversKept()
    ensures forall p :: 0 <= p < 56 && !DroppedByPc2(p) ==> Pc2At(Pc2PositionAt(p)) == p
  {
  }

  lemma EEntriesInRange()
    ensures forall i :: 0 <= i < 48 ==> EAt(i) < 32
  {
  }

  lemma ESourceInRange()
    ensures forall j :: 0 <= j < 32 ==> ESourceAt(j) < 48
  {
  }

  lemma ECoversHalf()
    ensures forall j :: 0 <= j < 32 ==> EAt(ESourceAt(j)) == j
  {
  }

  lemma PEntriesInRange()
    ensures forall i :: 0 <= i < 32 ==> PAt(i) < 32 && PInverseAt(i) < 32
  {
  }

  lemma PUndoesPInverse()
    ensures forall i :: 0 <= i < 32 ==> PAt(PInverseAt(i)) == i
  {
  }

  lemma PInverseUndoesP()
    ensures forall i :: 0 <= i < 32 ==> PInverseAt(PAt(i)) == i
  {
  }
}
