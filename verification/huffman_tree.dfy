/** The Huffman tree of lab06/src/main.rs and its construction `from_data`:
    the byte frequencies are tallied, one leaf is made per byte that occurs
    (in increasing byte order), and the two trees of smallest count are
    merged until one tree is left. */
module HuffmanTree {
  import opened Wrappers
  import opened Bits

  /** `Tree`; `count` is the field both variants carry, read by `count()`. */
  datatype Tree = Leaf(letter: byte, count: nat) | Node(count: nat, left: Tree, right: Tree)

  /** The bytes a tree stands for: `count` copies of the letter of every
      leaf. */
  function Bag(t: Tree): multiset<byte> {
    match t
    case Leaf(letter, count) => multiset{}[letter := count]
    case Node(_, left, right) => Bag(left) + Bag(right)
  }

  /** The letters of the leaves, once per leaf. */
  function Letters(t: Tree): multiset<byte> {
    match t
    case Leaf(letter, _) => multiset{letter}
    case Node(_, left, right) => Letters(left) + Letters(right)
  }

  /** Every count is the number of bytes below it and no leaf is empty. */
  predicate Consistent(t: Tree) {
    match t
    case Leaf(_, count) => count > 0
    case Node(count, left, right) =>
      Consistent(left) && Consistent(right) && count == left.count + right.count
  }

  lemma {:induction false} CountIsSize(t: Tree)
    requires Consistent(t)
    ensures t.count == |Bag(t)| && t.count > 0
  {
    match t
    case Leaf(_, _) =>
    case Node(_, left, right) =>
      CountIsSize(left);
      CountIsSize(right);
  }

  function ForestBag(ts: seq<Tree>): multiset<byte> {
    if ts == [] then multiset{} else ForestBag(ts[..|ts| - 1]) + Bag(ts[|ts| - 1])
  }

  function ForestLetters(ts: seq<Tree>): multiset<byte> {
    if ts == [] then multiset{} else ForestLetters(ts[..|ts| - 1]) + Letters(ts[|ts| - 1])
  }

  predicate AllConsistent(ts: seq<Tree>) {
    forall i :: 0 <= i < |ts| ==> Consistent(ts[i])
  }

  lemma {:induction false} ForestBagAppend(a: seq<Tree>, b: seq<Tree>)
    ensures ForestBag(a + b) == ForestBag(a) + ForestBag(b)
    decreases |b|
  {
    if b == [] {
      assert a + b == a;
    } else {
      assert (a + b)[..|a + b| - 1] == a + b[..|b| - 1];
      ForestBagAppend(a, b[..|b| - 1]);
    }
  }

  lemma {:induction false} ForestLettersAppend(a: seq<Tree>, b: seq<Tree>)
    ensures ForestLetters(a + b) == ForestLetters(a) + ForestLetters(b)
    decreases |b|
  {
    if b == [] {
      assert a + b == a;
    } else {
      assert (a + b)[..|a + b| - 1] == a + b[..|b| - 1];
      ForestLettersAppend(a, b[..|b| - 1]);
    }
  }

  lemma ForestSingle(t: Tree)
    ensures ForestBag([t]) == Bag(t) && ForestLetters([t]) == Letters(t)
  {
    assert [t][..0] == [];
  }

  // ----- Counting -----

  /** The alphabet table of `from_data`: entry `b` counts the occurrences of
      byte `b`. */
  function Tally(data: seq<byte>): (r: seq<nat>)
    ensures |r| == 256
    ensures forall b: byte :: r[b] == multiset(data)[b]
    decreases |data|
  {
    if data == [] then seq(256, _ => 0)
    else
      var front, x := data[..|data| - 1], data[|data| - 1];
      assert data == front + [x];
      var prev := Tally(front);
      prev[x := prev[x] + 1]
  }

  /** The leaves of `from_data`, one per byte `b' >= b` whose count is
      positive, in increasing byte order. */
  function LeavesFrom(tally: seq<nat>, b: nat): (r: seq<Tree>)
    requires |tally| == 256 && b <= 256
    ensures forall i :: 0 <= i < |r| ==> r[i].Leaf? && b <= r[i].letter
    ensures forall i :: 0 <= i < |r| ==> r[i].count == tally[r[i].letter] > 0
    ensures forall i, j :: 0 <= i < j < |r| ==> r[i].letter < r[j].letter
    decreases 256 - b
  {
    if b == 256 then []
    else if tally[b] > 0 then [Leaf(b, tally[b])] + LeavesFrom(tally, b + 1)
    else LeavesFrom(tally, b + 1)
  }

  lemma {:induction false} LeavesFromBag(tally: seq<nat>, b: nat)
    requires |tally| == 256 && b <= 256
    ensures forall x: byte :: ForestBag(LeavesFrom(tally, b))[x] == if x >= b then tally[x] else 0
    decreases 256 - b
  {
    if b < 256 {
      var here, rest := LeavesFrom(tally, b), LeavesFrom(tally, b + 1);
      LeavesFromBag(tally, b + 1);
      var restBag := ForestBag(rest);
      if tally[b] > 0 {
        var leaf := Leaf(b, tally[b]);
        assert here == [leaf] + rest;
        ForestBagAppend([leaf], rest);
        ForestSingle(leaf);
        assert ForestBag(here) == Bag(leaf) + restBag;
      } else {
        assert here == rest;
      }
      forall x: byte
        ensures ForestBag(here)[x] == if x >= b then tally[x] else 0
      {
      }
    }
  }

  lemma {:induction false} LeavesFromLetters(tally: seq<nat>, b: nat)
    requires |tally| == 256 && b <= 256
    ensures forall x: byte :: ForestLetters(LeavesFrom(tally, b))[x] == if x >= b && tally[x] > 0 then 1 else 0
    decreases 256 - b
  {
    if b < 256 {
      var here, rest := LeavesFrom(tally, b), LeavesFrom(tally, b + 1);
      LeavesFromLetters(tally, b + 1);
      var restLetters := ForestLetters(rest);
      if tally[b] > 0 {
        var leaf := Leaf(b, tally[b]);
        assert here == [leaf] + rest;
        ForestLettersAppend([leaf], rest);
        ForestSingle(leaf);
        assert ForestLetters(here) == multiset{b} + restLetters;
      } else {
        assert here == rest;
      }
      forall x: byte
        ensures ForestLetters(here)[x] == if x >= b && tally[x] > 0 then 1 else 0
      {
      }
    }
  }

  /** The forest `from_data` starts from. */
  function InitialForest(data: seq<byte>): (r: seq<Tree>)
    ensures AllConsistent(r)
  {
    LeavesFrom(Tally(data), 0)
  }

  /** The initial leaves are exactly the distinct bytes of the data, each
      once, with its number of occurrences as count. */
  lemma InitialForestBags(data: seq<byte>)
    ensures ForestBag(InitialForest(data)) == multiset(data)
    ensures forall x: byte :: ForestLetters(InitialForest(data))[x] == if x in data then 1 else 0
  {
    LeavesFromBag(Tally(data), 0);
    LeavesFromLetters(Tally(data), 0);
    var bag := ForestBag(InitialForest(data));
    assert forall x: byte :: bag[x] == multiset(data)[x];
    MultisetOfBytes(bag, multiset(data));
  }

  lemma MultisetOfBytes(a: multiset<byte>, b: multiset<byte>)
    requires forall x: byte :: a[x] == b[x]
    ensures a == b
  {
  }

  // ----- Merging -----

  /** The scan of the merge loop from position `i` on, with `m1` the index of
      the smallest count so far and `m2` that of the second smallest; a
      later tree only displaces them when its count is strictly smaller. */
  function Scan(ts: seq<Tree>, i: nat, m1: nat, m2: nat): (r: (nat, nat))
    requires m1 < i && m2 < i && m1 != m2 && i <= |ts|
    requires ts[m1].count <= ts[m2].count
    requires forall j :: 0 <= j < i && j != m1 ==> ts[m2].count <= ts[j].count
    ensures r.0 < |ts| && r.1 < |ts| && r.0 != r.1
    ensures ts[r.0].count <= ts[r.1].count
    ensures forall j :: 0 <= j < |ts| && j != r.0 ==> ts[r.1].count <= ts[j].count
    decreases |ts| - i
  {
    if i == |ts| then (m1, m2)
    else if ts[i].count < ts[m1].count then Scan(ts, i + 1, i, m1)
    else if ts[i].count < ts[m2].count then Scan(ts, i + 1, m1, i)
    else Scan(ts, i + 1, m1, m2)
  }

  /** The indices of a smallest and a second smallest tree, as the loop of
      `from_data` finds them. */
  function TwoSmallest(ts: seq<Tree>): (r: (nat, nat))
    requires |ts| >= 2
    ensures r.0 < |ts| && r.1 < |ts| && r.0 != r.1
    ensures forall j :: 0 <= j < |ts| ==> ts[r.0].count <= ts[j].count
    ensures forall j :: 0 <= j < |ts| && j != r.0 ==> ts[r.1].count <= ts[j].count
  {
    if ts[0].count > ts[1].count then Scan(ts, 2, 1, 0) else Scan(ts, 2, 0, 1)
  }

  function RemoveAt(ts: seq<Tree>, i: nat): (r: seq<Tree>)
    requires i < |ts|
    ensures |r| == |ts| - 1
    ensures forall j :: 0 <= j < |r| ==> r[j] == ts[if j < i then j else j + 1]
  {
    ts[..i] + ts[i + 1..]
  }

  /** A sequence is its part before `i`, its element at `i` and its part
      after `i`. */
  lemma SplitAt<T>(s: seq<T>, i: nat)
    requires i < |s|
    ensures s == s[..i] + [s[i]] + s[i + 1..]
  {
    assert s == s[..i] + s[i..];
    assert s[i..] == [s[i]] + s[i + 1..];
  }

  lemma RemoveAtMultiset(ts: seq<Tree>, i: nat)
    requires i < |ts|
    ensures multiset(RemoveAt(ts, i)) + multiset{ts[i]} == multiset(ts)
  {
    SplitAt(ts, i);
  }

  /** Taking a tree out of the forest takes out exactly its bytes. */
  lemma RemoveAtBag(ts: seq<Tree>, i: nat)
    requires i < |ts|
    ensures ForestBag(RemoveAt(ts, i)) + Bag(ts[i]) == ForestBag(ts)
  {
    var front, t, back := ts[..i], ts[i], ts[i + 1..];
    SplitAt(ts, i);
    ForestBagAppend(front + [t], back);
    ForestBagAppend(front, [t]);
    ForestSingle(t);
    ForestBagAppend(front, back);
    var a, x, b := ForestBag(front), Bag(t), ForestBag(back);
    assert ForestBag(ts) == a + x + b;
    assert ForestBag(RemoveAt(ts, i)) == a + b;
    assert a + b + x == a + x + b;
  }

  /** Taking a tree out of the forest takes out exactly its leaves. */
  lemma RemoveAtLetters(ts: seq<Tree>, i: nat)
    requires i < |ts|
    ensures ForestLetters(RemoveAt(ts, i)) + Letters(ts[i]) == ForestLetters(ts)
  {
    var front, t, back := ts[..i], ts[i], ts[i + 1..];
    SplitAt(ts, i);
    ForestLettersAppend(front + [t], back);
    ForestLettersAppend(front, [t]);
    ForestSingle(t);
    ForestLettersAppend(front, back);
    var a, x, b := ForestLetters(front), Letters(t), ForestLetters(back);
    assert ForestLetters(ts) == a + x + b;
    assert ForestLetters(RemoveAt(ts, i)) == a + b;
    assert a + b + x == a + x + b;
  }

  /** Taking out the trees at `hi` and then at `lo < hi` leaves the rest in
      order. */
  function RemoveTwo(ts: seq<Tree>, hi: nat, lo: nat): (r: seq<Tree>)
    requires lo < hi < |ts|
    ensures |r| == |ts| - 2
  {
    RemoveAt(RemoveAt(ts, hi), lo)
  }

  lemma RemoveTwoBag(ts: seq<Tree>, hi: nat, lo: nat)
    requires lo < hi < |ts|
    ensures ForestBag(RemoveTwo(ts, hi, lo)) + Bag(ts[lo]) + Bag(ts[hi]) == ForestBag(ts)
  {
    var once := RemoveAt(ts, hi);
    assert once[lo] == ts[lo];
    RemoveAtBag(ts, hi);
    RemoveAtBag(once, lo);
  }

  lemma RemoveTwoLetters(ts: seq<Tree>, hi: nat, lo: nat)
    requires lo < hi < |ts|
    ensures ForestLetters(RemoveTwo(ts, hi, lo)) + Letters(ts[lo]) + Letters(ts[hi]) == ForestLetters(ts)
  {
    var once := RemoveAt(ts, hi);
    assert once[lo] == ts[lo];
    RemoveAtLetters(ts, hi);
    RemoveAtLetters(once, lo);
  }

  /** The two indices the merge loop takes out, larger first: a smallest
      tree and a smallest of the others. */
  function MergePair(ts: seq<Tree>): (r: (nat, nat))
    requires |ts| >= 2
    ensures r.1 < r.0 < |ts|
    ensures forall j :: 0 <= j < |ts| && j != r.0 && j != r.1 ==>
              ts[r.0].count <= ts[j].count && ts[r.1].count <= ts[j].count
  {
    var (m1, m2) := TwoSmallest(ts);
    if m1 < m2 then (m2, m1) else (m1, m2)
  }

  /** One pass of the merge loop: the two smallest trees are taken out (the
      one at the larger index first, which becomes the left child) and a node
      holding both, with the sum of their counts, is pushed at the end. */
  function MergeStep(ts: seq<Tree>): (r: seq<Tree>)
    requires |ts| >= 2
    ensures |r| == |ts| - 1
  {
    var (hi, lo) := MergePair(ts);
    RemoveTwo(ts, hi, lo) + [Node(ts[hi].count + ts[lo].count, ts[hi], ts[lo])]
  }

  /** The merge replaces two trees by a node holding them: the other trees
      are kept and none of them has a smaller count than either child. */
  lemma MergeStepKeeps(ts: seq<Tree>)
    requires |ts| >= 2
    ensures var r := MergeStep(ts);
            var rest, node := r[..|r| - 1], r[|r| - 1];
            node.Node? && node.count == node.left.count + node.right.count &&
            multiset(rest) + multiset{node.left, node.right} == multiset(ts) &&
            forall j :: 0 <= j < |rest| ==> node.left.count <= rest[j].count && node.right.count <= rest[j].count
  {
    var (hi, lo) := MergePair(ts);
    var once := RemoveAt(ts, hi);
    assert once[lo] == ts[lo];
    var rest := RemoveAt(once, lo);
    var r := MergeStep(ts);
    assert r[..|r| - 1] == rest;
    RemoveAtMultiset(ts, hi);
    RemoveAtMultiset(once, lo);
    forall j | 0 <= j < |rest|
      ensures ts[hi].count <= rest[j].count && ts[lo].count <= rest[j].count
    {
      var k := if j < lo then j else j + 1;
      var k' := if k < hi then k else k + 1;
      assert rest[j] == ts[k'];
    }
  }

  /** The merge keeps every tree consistent. */
  lemma MergeStepConsistent(ts: seq<Tree>)
    requires |ts| >= 2 && AllConsistent(ts)
    ensures AllConsistent(MergeStep(ts))
  {
    var (hi, lo) := MergePair(ts);
    var once := RemoveAt(ts, hi);
    var rest := RemoveAt(once, lo);
    assert AllConsistent(rest);
  }

  /** The merge does not change the bytes of the forest. */
  lemma MergeStepBag(ts: seq<Tree>)
    requires |ts| >= 2
    ensures ForestBag(MergeStep(ts)) == ForestBag(ts)
  {
    var (hi, lo) := MergePair(ts);
    var rest := RemoveTwo(ts, hi, lo);
    var node := Node(ts[hi].count + ts[lo].count, ts[hi], ts[lo]);
    RemoveTwoBag(ts, hi, lo);
    ForestBagAppend(rest, [node]);
    ForestSingle(node);
    var a, x, y := ForestBag(rest), Bag(ts[hi]), Bag(ts[lo]);
    assert ForestBag(MergeStep(ts)) == a + (x + y);
    assert a + (x + y) == a + y + x;
  }

  /** The merge does not change the leaves of the forest. */
  lemma MergeStepLetters(ts: seq<Tree>)
    requires |ts| >= 2
    ensures ForestLetters(MergeStep(ts)) == ForestLetters(ts)
  {
    var (hi, lo) := MergePair(ts);
    var rest := RemoveTwo(ts, hi, lo);
    var node := Node(ts[hi].count + ts[lo].count, ts[hi], ts[lo]);
    RemoveTwoLetters(ts, hi, lo);
    ForestLettersAppend(rest, [node]);
    ForestSingle(node);
    var a, x, y := ForestLetters(rest), Letters(ts[hi]), Letters(ts[lo]);
    assert ForestLetters(MergeStep(ts)) == a + (x + y);
    assert a + (x + y) == a + y + x;
  }

  /** The merge loop of `from_data`, run until one tree is left. */
  function Build(ts: seq<Tree>): (t: Tree)
    requires |ts| >= 1 && AllConsistent(ts)
    ensures Consistent(t)
    ensures Bag(t) == ForestBag(ts) && Letters(t) == ForestLetters(ts)
    ensures |ts| >= 2 ==> t.Node?
    decreases |ts|
  {
    if |ts| == 1 then
      ForestSingle(ts[0]);
      assert ts == [ts[0]];
      ts[0]
    else
      MergeStepConsistent(ts);
      MergeStepBag(ts);
      MergeStepLetters(ts);
      Build(MergeStep(ts))
  }

  /** `from_data`; the source indexes `trees[0]`, which panics on empty
      data. */
  function FromData(data: seq<byte>): (r: Option<Tree>)
    ensures r.None? <==> data == []
  {
    if data == [] then None
    else
      InitialForestBags(data);
      assert ForestLetters(InitialForest(data))[data[0]] == 1;
      Some(Build(InitialForest(data)))
  }

  /** The built tree holds exactly the bytes of the data: its leaves are the
      distinct bytes, each once, with its number of occurrences as count, so
      the root count is the length of the data. */
  lemma FromDataContents(data: seq<byte>)
    requires data != []
    ensures var t := FromData(data).value;
            Consistent(t) && Bag(t) == multiset(data) && t.count == |data| &&
            forall x: byte :: Letters(t)[x] == if x in data then 1 else 0
  {
    InitialForestBags(data);
    CountIsSize(FromData(data).value);
  }

  /** All bytes of the data are equal to its first. */
  predicate SingleByte(data: seq<byte>) {
    forall i :: 0 <= i < |data| ==> data[i] == data[0]
  }

  /** The built tree is a single leaf exactly when the data repeats one
      byte. */
  lemma FromDataLeaf(data: seq<byte>)
    requires data != []
    ensures FromData(data).value.Leaf? <==> SingleByte(data)
  {
    var ts := InitialForest(data);
    LeafForestSize(ts);
    if SingleByte(data) {
      SingleByteLetters(data);
      assert |ts| == 1;
    } else {
      var i :| 0 <= i < |data| && data[i] != data[0];
      MixedLetters(data, i);
      assert |multiset{data[0], data[i]}| == 2;
    }
  }

  /** Data repeating one byte starts from a forest with that one letter. */
  lemma SingleByteLetters(data: seq<byte>)
    requires data != [] && SingleByte(data)
    ensures ForestLetters(InitialForest(data)) == multiset{data[0]}
  {
    InitialForestBags(data);
    var letters := ForestLetters(InitialForest(data));
    forall x: byte
      ensures letters[x] == multiset{data[0]}[x]
    {
      if x in data {
        var i :| 0 <= i < |data| && data[i] == x;
      }
    }
    MultisetOfBytes(letters, multiset{data[0]});
  }

  /** Two different bytes of the data are two letters of the initial
      forest. */
  lemma MixedLetters(data: seq<byte>, i: nat)
    requires i < |data| && data[i] != data[0]
    ensures multiset{data[0], data[i]} <= ForestLetters(InitialForest(data))
  {
    InitialForestBags(data);
    var letters := ForestLetters(InitialForest(data));
    assert letters[data[0]] == 1 && letters[data[i]] == 1;
  }

  /** A forest of leaves has one letter per tree. */
  lemma {:induction false} LeafForestSize(ts: seq<Tree>)
    requires forall i :: 0 <= i < |ts| ==> ts[i].Leaf?
    ensures |ForestLetters(ts)| == |ts|
  {
    if ts != [] {
      LeafForestSize(ts[..|ts| - 1]);
    }
  }
}
