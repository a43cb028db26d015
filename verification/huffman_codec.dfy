/** The code map, `compress` and `decomress` of lab06/src/main.rs.

    A byte is coded by the path from the root to its leaf (false = left,
    true = right). `compress` concatenates the codes, appends `n` zero bits
    with `n = 8 - (number of bits mod 8)`, so 1 <= n <= 8, then the eight
    bits of `n`, and packs the bits into bytes. `decomress` drops the last
    `8 + n` bits and walks the tree once per decoded byte. */
module HuffmanCodec {
  import opened Wrappers
  import opened Bits
  import opened HuffmanTree

  // ----- The code map -----

  /** `_to_encode_map`: the code of every leaf below `t`, each starting with
      `prefix`. A later (further right) leaf with the same letter overwrites
      an earlier one, as `HashMap::insert` does. */
  function Codes(t: Tree, prefix: seq<bool>): (m: map<byte, seq<bool>>)
    ensures forall x :: x in m ==> IsPrefix(prefix, m[x])
  {
    match t
    case Leaf(letter, _) => map[letter := prefix]
    case Node(_, left, right) => Codes(left, prefix + [false]) + Codes(right, prefix + [true])
  }

  /** `to_encode_map`: a code for exactly the letters of the leaves. */
  function EncodeMap(t: Tree): (m: map<byte, seq<bool>>)
    ensures forall x :: x in m <==> x in Letters(t)
  {
    CodesKeys(t, []);
    Codes(t, [])
  }

  predicate IsPrefix(u: seq<bool>, v: seq<bool>) {
    |u| <= |v| && v[..|u|] == u
  }

  /** Exactly the letters of the leaves get a code. */
  lemma {:induction false} CodesKeys(t: Tree, prefix: seq<bool>)
    ensures forall x :: x in Codes(t, prefix) <==> x in Letters(t)
  {
    match t
    case Leaf(_, _) =>
    case Node(_, left, right) =>
      CodesKeys(left, prefix + [false]);
      CodesKeys(right, prefix + [true]);
  }

  /** The codes below a prefix are the codes from the root with that prefix
      in front. */
  lemma CodesShift(t: Tree, prefix: seq<bool>)
    ensures forall x :: x in Codes(t, prefix) <==> x in EncodeMap(t)
    ensures forall x :: x in Codes(t, prefix) ==> Codes(t, prefix)[x] == prefix + EncodeMap(t)[x]
  {
    forall x
      ensures x in Codes(t, prefix) <==> x in EncodeMap(t)
      ensures x in Codes(t, prefix) ==> Codes(t, prefix)[x] == prefix + EncodeMap(t)[x]
    {
      CodeShift(t, prefix, x);
    }
  }

  /** `CodesShift` for one letter. */
  lemma {:induction false} CodeShift(t: Tree, prefix: seq<bool>, x: byte)
    ensures x in Codes(t, prefix) <==> x in EncodeMap(t)
    ensures x in Codes(t, prefix) ==> Codes(t, prefix)[x] == prefix + EncodeMap(t)[x]
    decreases t, 0
  {
    match t
    case Leaf(_, _) =>
    case Node(_, left, right) =>
      BranchShift(left, false, prefix, x);
      BranchShift(right, true, prefix, x);
      assert EncodeMap(t) == Codes(left, [false]) + Codes(right, [true]) by {
        assert [] + [false] == [false] && [] + [true] == [true];
      }
  }

  /** Below the branch bit `b`, a prefix in front moves to the front of the
      code. */
  lemma {:induction false} BranchShift(sub: Tree, b: bool, prefix: seq<bool>, x: byte)
    ensures x in Codes(sub, prefix + [b]) <==> x in Codes(sub, [b])
    ensures x in Codes(sub, [b]) ==> Codes(sub, prefix + [b])[x] == prefix + Codes(sub, [b])[x]
    decreases sub, 1
  {
    CodeShift(sub, prefix + [b], x);
    CodeShift(sub, [b], x);
    if x in Codes(sub, [b]) {
      var c := EncodeMap(sub)[x];
      AppendAssoc(prefix, [b], c);
    }
  }

  /** Below a node, the code of a letter is the branch bit followed by its
      code in that branch, the right branch winning for a letter found in
      both. */
  lemma EncodeMapNode(t: Tree, x: byte)
    requires t.Node? && x in EncodeMap(t)
    ensures var inRight := x in EncodeMap(t.right);
            x in EncodeMap(if inRight then t.right else t.left) &&
            EncodeMap(t)[x] == [inRight] + EncodeMap(if inRight then t.right else t.left)[x]
  {
    CodesShift(t.left, [false]);
    CodesShift(t.right, [true]);
    assert EncodeMap(t) == Codes(t.left, [false]) + Codes(t.right, [true]) by {
      assert [] + [false] == [false] && [] + [true] == [true];
    }
  }

  lemma PrefixCons(b: bool, u: seq<bool>, v: seq<bool>)
    ensures IsPrefix([b] + u, [b] + v) <==> IsPrefix(u, v)
  {
    if IsPrefix([b] + u, [b] + v) {
      assert ([b] + v)[..|u| + 1][1..] == v[..|u|];
    }
    if IsPrefix(u, v) {
      assert ([b] + v)[..|u| + 1] == [b] + v[..|u|];
    }
  }

  /** The codes are prefix-free: no code is the beginning of another, and
      below a node no code is empty. */
  lemma {:induction false} CodesPrefixFree(t: Tree)
    ensures var m := EncodeMap(t);
            forall x, y :: x in m && y in m && x != y ==> !IsPrefix(m[x], m[y])
    ensures t.Node? ==> forall x :: x in EncodeMap(t) ==> EncodeMap(t)[x] != []
  {
    match t
    case Leaf(_, _) =>
    case Node(_, left, right) =>
      CodesPrefixFree(left);
      CodesPrefixFree(right);
      var m := EncodeMap(t);
      forall x | x in m
        ensures m[x] != []
      {
        EncodeMapNode(t, x);
      }
      forall x, y | x in m && y in m && x != y
        ensures !IsPrefix(m[x], m[y])
      {
        EncodeMapNode(t, x);
        EncodeMapNode(t, y);
        assert m[x][0] == (x in EncodeMap(right)) && m[y][0] == (y in EncodeMap(right));
        if (x in EncodeMap(right)) == (y in EncodeMap(right)) {
          var sub := if x in EncodeMap(right) then right else left;
          PrefixCons(m[x][0], EncodeMap(sub)[x], EncodeMap(sub)[y]);
        }
      }
  }

  // ----- Decoding -----

  /** `_decompress`: from the root, a true bit goes right and a false bit
      left, until a leaf; running out of bits below a node is the source's
      "unexpected number of bits" panic. Gives the letter and the bits
      left. */
  function Walk(t: Tree, bits: seq<bool>): (r: Option<(byte, seq<bool>)>)
    ensures r.Some? ==> |r.value.1| <= |bits| && r.value.1 == bits[|bits| - |r.value.1|..]
    ensures r.Some? && t.Node? ==> |r.value.1| < |bits|
    ensures t.Leaf? ==> r == Some((t.letter, bits))
  {
    match t
    case Leaf(letter, _) => Some((letter, bits))
    case Node(_, left, right) =>
      if bits == [] then None
      else
        var r := Walk(if bits[0] then right else left, bits[1..]);
        assert r.Some? ==> r.value.1 == bits[1..][|bits| - 1 - |r.value.1|..];
        r
  }

  /** Walking a code, followed by anything, reads exactly that code and
      yields its letter. */
  lemma {:induction false} WalkCode(t: Tree, x: byte, rest: seq<bool>)
    requires x in EncodeMap(t)
    ensures Walk(t, EncodeMap(t)[x] + rest) == Some((x, rest))
  {
    match t
    case Leaf(_, _) =>
    case Node(_, left, right) =>
      EncodeMapNode(t, x);
      var sub := if x in EncodeMap(right) then right else left;
      var bits := EncodeMap(t)[x] + rest;
      assert bits[0] == (x in EncodeMap(right));
      assert bits[1..] == EncodeMap(sub)[x] + rest;
      WalkCode(sub, x, rest);
  }

  /** The loop of `decomress`: one walk per byte while bits remain. Below a
      leaf root a walk reads no bit, so the source loops for ever on any
      remaining bit; that, like a walk that runs out of bits, is `None`. */
  function DecodeAll(t: Tree, bits: seq<bool>): (r: Option<seq<byte>>)
    ensures t.Leaf? ==> (r.Some? <==> bits == [])
    ensures r.Some? ==> |r.value| <= |bits|
    decreases |bits|
  {
    if bits == [] then Some([])
    else
      match Walk(t, bits)
      case None => None
      case Some((x, rest)) =>
        if |rest| >= |bits| then None
        else
          match DecodeAll(t, rest)
          case None => None
          case Some(out) => Some([x] + out)
  }

  // ----- Encoding -----

  /** The code bits of `compress`; a byte without a code is the source's
      "failed to find byte" panic. */
  function EncodeBits(codes: map<byte, seq<bool>>, data: seq<byte>): (r: Option<seq<bool>>)
    ensures r.Some? <==> forall i :: 0 <= i < |data| ==> data[i] in codes
  {
    if data == [] then Some([])
    else if data[0] !in codes then None
    else
      match EncodeBits(codes, data[1..])
      case None => None
      case Some(rest) => Some(codes[data[0]] + rest)
  }

  /** The number of zero bits `compress` appends. */
  function PadCount(k: nat): (n: nat)
    ensures 1 <= n <= 8 && (k + n) % 8 == 0
  {
    DivUnique(k + (8 - k % 8), 8, k / 8 + 1, 0);
    8 - k % 8
  }

  /** The bits `compress` packs: the code bits, `n` zero bits and the eight
      bits of `n`. */
  function Pack(bits: seq<bool>): (r: seq<bool>)
    ensures |r| % 8 == 0 && |r| == |bits| + PadCount(|bits|) + 8
    ensures r[..|bits|] == bits
    ensures forall i :: |bits| <= i < |bits| + PadCount(|bits|) ==> !r[i]
    ensures BitsToNat(r[|r| - 8..]) == PadCount(|bits|)
  {
    var n := PadCount(|bits|);
    DivUnique(|bits| + n + 8, 8, (|bits| + n) / 8 + 1, 0);
    var r := bits + seq(n, _ => false) + NatToBits(n, 8);
    assert r[..|bits|] == bits;
    assert r[|r| - 8..] == NatToBits(n, 8);
    assert Pow2(8) == 256 by {
      assert Pow2(4) == 16;
    }
    BitsToNatOfNatToBits(n, 8);
    r
  }

  /** The first step of `decomress`: the last eight bits give `n`, and those
      eight bits with the `n` before them are dropped. Fewer than eight bits,
      or fewer than `8 + n`, make the source's index arithmetic underflow. */
  function Unpack(bits: seq<bool>): (r: Option<seq<bool>>)
    ensures r.None? <==> |bits| < 8 || |bits| < 8 + BitsToNat(bits[|bits| - 8..])
    ensures r.Some? ==> |r.value| == |bits| - 8 - BitsToNat(bits[|bits| - 8..])
    ensures r.Some? ==> r.value == bits[..|r.value|]
  {
    if |bits| < 8 then None
    else
      var n := BitsToNat(bits[|bits| - 8..]);
      if |bits| < 8 + n then None else Some(bits[..|bits| - 8 - n])
  }

  /** `compress`. */
  function Compress(t: Tree, data: seq<byte>): (r: Option<seq<byte>>)
    ensures r.Some? <==> forall i :: 0 <= i < |data| ==> data[i] in EncodeMap(t)
  {
    match EncodeBits(EncodeMap(t), data)
    case None => None
    case Some(bits) => Some(BitsToBytes(Pack(bits)))
  }

  /** `decomress`. Empty input underflows the source's index arithmetic;
      under a leaf root nothing but the empty result can come back; and every
      decoded byte reads at least one bit of the payload. */
  function Decompress(t: Tree, bytes: seq<byte>): (r: Option<seq<byte>>)
    ensures bytes == [] ==> r.None?
    ensures t.Leaf? && r.Some? ==> r.value == []
    ensures r.Some? && t.Node? ==> |r.value| <= 8 * |bytes| - 8
  {
    match Unpack(BytesToBits(bytes))
    case None => None
    case Some(payload) => DecodeAll(t, payload)
  }

  // ----- Round trips -----

  /** The trailer is read back: unpacking the packed bits gives the code bits
      again. */
  lemma UnpackPack(bits: seq<bool>)
    ensures Unpack(Pack(bits)) == Some(bits)
  {
  }

  /** Decoding the code bits of data gives the data back when the root is a
      node. */
  lemma {:induction false} DecodeEncode(t: Tree, data: seq<byte>)
    requires t.Node? && EncodeBits(EncodeMap(t), data).Some?
    ensures DecodeAll(t, EncodeBits(EncodeMap(t), data).value) == Some(data)
    decreases |data|
  {
    if data != [] {
      var m := EncodeMap(t);
      var rest := EncodeBits(m, data[1..]).value;
      assert EncodeBits(m, data).value == m[data[0]] + rest;
      DecodeEncode(t, data[1..]);
      DecodeCode(t, data[0], rest, data[1..]);
      assert [data[0]] + data[1..] == data;
    }
  }

  /** Below a node root, one code in front of decodable bits decodes to its
      letter in front. */
  lemma DecodeCode(t: Tree, x: byte, rest: seq<bool>, out: seq<byte>)
    requires t.Node? && x in EncodeMap(t) && DecodeAll(t, rest) == Some(out)
    ensures DecodeAll(t, EncodeMap(t)[x] + rest) == Some([x] + out)
  {
    EncodeMapNode(t, x);
    WalkCode(t, x, rest);
  }

  /** `decomress` undoes `compress` for any tree whose root is a node, when
      every byte of the data has a code. */
  lemma DecompressCompress(t: Tree, data: seq<byte>)
    requires t.Node? && Compress(t, data).Some?
    ensures Decompress(t, Compress(t, data).value) == Some(data)
  {
    var bits := EncodeBits(EncodeMap(t), data).value;
    BytesToBitsOfBitsToBytes(Pack(bits));
    UnpackPack(bits);
    DecodeEncode(t, data);
  }

  /** The tree built from the data codes every byte of it. */
  lemma FromDataCodesAll(data: seq<byte>)
    requires data != []
    ensures forall i :: 0 <= i < |data| ==> data[i] in EncodeMap(FromData(data).value)
  {
    FromDataContents(data);
    CodesKeys(FromData(data).value, []);
  }

  /** The round trip of the source's test: data with at least two distinct
      bytes comes back from `decomress` after `compress` with the tree
      `from_data` builds for it. */
  lemma RoundTrip(data: seq<byte>)
    requires data != [] && !SingleByte(data)
    ensures var t := FromData(data).value;
            Compress(t, data).Some? && Decompress(t, Compress(t, data).value) == Some(data)
  {
    FromDataCodesAll(data);
    FromDataLeaf(data);
    DecompressCompress(FromData(data).value, data);
  }

  /** The source's unit test: "hello world!\n" survives `compress` and
      `decomress` with its own tree. */
  lemma HelloWorldRoundTrip()
    ensures var msg: seq<byte> := [104, 101, 108, 108, 111, 32, 119, 111, 114, 108, 100, 33, 10];
            var t := FromData(msg).value;
            Compress(t, msg).Some? && Decompress(t, Compress(t, msg).value) == Some(msg)
  {
    var msg: seq<byte> := [104, 101, 108, 108, 111, 32, 119, 111, 114, 108, 100, 33, 10];
    assert msg[1] != msg[0];
    RoundTrip(msg);
  }

  // ----- Data with a single distinct byte -----

  /** Codes that are all empty contribute no bits. */
  lemma {:induction false} EncodeBitsEmptyCodes(codes: map<byte, seq<bool>>, data: seq<byte>)
    requires forall i :: 0 <= i < |data| ==> data[i] in codes && codes[data[i]] == []
    ensures EncodeBits(codes, data) == Some([])
    decreases |data|
  {
    if data != [] {
      EncodeBitsEmptyCodes(codes, data[1..]);
      assert codes[data[0]] + [] == [];
    }
  }

  /** The single-leaf tree of data repeating one byte gives that byte the
      empty code, so `compress` emits only the trailer (eight zero bits and
      the number 8) and `decomress` returns nothing: the data is lost. */
  lemma SingleByteLosesData(data: seq<byte>)
    requires data != [] && SingleByte(data)
    ensures var t := FromData(data).value;
            Compress(t, data) == Some([0, 8]) &&
            Decompress(t, Compress(t, data).value) == Some([]) != Some(data)
  {
    var t := FromData(data).value;
    FromDataLeaf(data);
    FromDataContents(data);
    assert Letters(t)[data[0]] == 1;
    assert t.letter == data[0];
    assert EncodeMap(t) == map[data[0] := []];
    EncodeBitsEmptyCodes(EncodeMap(t), data);
    BytesToBitsOfBitsToBytes(Pack([]));
    UnpackPack([]);
    EmptyPack();
  }

  /** The packed trailer for an empty bit string is the two bytes 0 and 8. */
  lemma EmptyPack()
    ensures BitsToBytes(Pack([])) == [0, 8]
  {
    assert Pow2(8) == 256 by {
      assert Pow2(4) == 16;
    }
    var zeros, eight := NatToBits(0, 8), NatToBits(8, 8);
    assert zeros == seq(8, _ => false);
    assert Pack([]) == zeros + eight;
    assert (zeros + eight)[..8] == zeros && (zeros + eight)[8..] == eight;
    BitsToNatOfNatToBits(0, 8);
    BitsToNatOfNatToBits(8, 8);
  }

  /** The tree `from_data` is evidently meant to return: a lone leaf at the
      root is put below a node, so that its byte is coded by one bit. The
      leaf sits on both sides, so only the tree's shape matters here: its
      letter appears twice and the code map keeps the right-hand code. */
  function FromDataFixed(data: seq<byte>): (r: Option<Tree>)
    ensures r.None? <==> data == []
    ensures r.Some? ==> r.value.Node? && forall i :: 0 <= i < |data| ==> data[i] in EncodeMap(r.value)
  {
    match FromData(data)
    case None => None
    case Some(t) =>
      FromDataCodesAll(data);
      if t.Leaf? then
        FromDataLeaf(data);
        var wrapped := Node(2 * t.count, t, t);
        CodesKeys(wrapped, []);
        Some(wrapped)
      else Some(t)
  }

  /** With the corrected tree, `decomress` undoes `compress` for all
      non-empty data. */
  lemma RoundTripFixed(data: seq<byte>)
    requires data != []
    ensures var t := FromDataFixed(data).value;
            Compress(t, data).Some? && Decompress(t, Compress(t, data).value) == Some(data)
  {
    DecompressCompress(FromDataFixed(data).value, data);
  }
}
