/** The block framing of `RsaPublic::encrypt` and `RsaPrivate::decrypt` in
    lab04v2/src/main.rs, with the modular exponentiation left abstract.

    The input is cut into chunks of `size()` bytes (the last may be shorter);
    every chunk is read as a little-endian number, mapped by the key's
    exponentiation, written back little-endian with no trailing zero bytes
    and zero-extended to at least `size()` bytes. `size()` is the bit length
    of the modulus divided by eight, rounded down. */
module ChunkFraming {
  import opened Bits
  import opened Padding

  // ----- Little-endian numbers -----

  function Pow256(k: nat): (r: nat)
    ensures r >= 1
  {
    if k == 0 then 1 else 256 * Pow256(k - 1)
  }

  /** `BigUint::from_bytes_le`. */
  function FromBytesLE(s: seq<byte>): (v: nat)
    ensures v < Pow256(|s|)
  {
    if s == [] then 0 else s[0] + 256 * FromBytesLE(s[1..])
  }

  /** `BigUint::to_bytes_le`: least significant byte first, without trailing
      zero bytes; zero is the single byte 0. */
  function ToBytesLE(v: nat): (s: seq<byte>)
    ensures |s| >= 1 && FromBytesLE(s) == v
    ensures |s| > 1 ==> s[|s| - 1] != 0
    decreases v
  {
    if v < 256 then [v] else [v % 256] + ToBytesLE(v / 256)
  }

  /** The `extend` with zeros up to `k` bytes. */
  function ZeroExtend(s: seq<byte>, k: nat): (r: seq<byte>)
    ensures |r| == if |s| < k then k else |s|
    ensures r[..|s|] == s && forall i :: |s| <= i < |r| ==> r[i] == 0
  {
    if |s| < k then s + seq(k - |s|, _ => 0) else s
  }

  /** Zero bytes at the top do not change a little-endian number. */
  lemma {:induction false} FromBytesLEZeroExtend(s: seq<byte>, k: nat)
    ensures FromBytesLE(ZeroExtend(s, k)) == FromBytesLE(s)
    decreases |s|
  {
    if |s| < k {
      var r := ZeroExtend(s, k);
      if s == [] {
        AllZero(r);
      } else {
        assert r[1..] == ZeroExtend(s[1..], k - 1);
        FromBytesLEZeroExtend(s[1..], k - 1);
      }
    }
  }

  lemma {:induction false} AllZero(s: seq<byte>)
    requires forall i :: 0 <= i < |s| ==> s[i] == 0
    ensures FromBytesLE(s) == 0
    decreases |s|
  {
    if s != [] {
      AllZero(s[1..]);
    }
  }

  lemma {:induction false} ZeroValue(s: seq<byte>)
    requires FromBytesLE(s) == 0
    ensures forall i :: 0 <= i < |s| ==> s[i] == 0
    decreases |s|
  {
    if s != [] {
      ZeroValue(s[1..]);
      forall i | 1 <= i < |s|
        ensures s[i] == 0
      {
        assert s[i] == s[1..][i - 1];
      }
    }
  }

  /** A number below `256^k` needs at most `k` bytes. */
  lemma {:induction false} ToBytesLEWidth(v: nat, k: nat)
    requires k >= 1 && v < Pow256(k)
    ensures |ToBytesLE(v)| <= k
    decreases k
  {
    if v >= 256 {
      assert k >= 2;
      assert v / 256 < Pow256(k - 1);
      ToBytesLEWidth(v / 256, k - 1);
    }
  }

  /** A chunk is recovered from its number by writing it back and
      zero-extending to the chunk's length. */
  lemma {:induction false} CanonicalChunk(s: seq<byte>)
    requires |s| >= 1
    ensures ZeroExtend(ToBytesLE(FromBytesLE(s)), |s|) == s
    decreases |s|
  {
    var v := FromBytesLE(s);
    var t := s[1..];
    if v < 256 {
      assert FromBytesLE(t) == 0;
      ZeroValue(t);
      assert ZeroExtend([v], |s|) == s;
    } else {
      assert v % 256 == s[0] && v / 256 == FromBytesLE(t) by {
        DivUnique(v, 256, FromBytesLE(t), s[0]);
      }
      CanonicalChunk(t);
      var u := ToBytesLE(FromBytesLE(t));
      ToBytesLEWidth(FromBytesLE(t), |t|);
      assert ZeroExtend([s[0]] + u, |s|) == [s[0]] + ZeroExtend(u, |t|);
      assert s == [s[0]] + t;
    }
  }

  // ----- The modulus -----

  /** `BigUint::bits`: the number of binary digits, 0 for zero. */
  function BitLength(n: nat): (b: nat)
    ensures n < Pow2(b)
    ensures n > 0 ==> b >= 1 && Pow2(b - 1) <= n
  {
    if n == 0 then 0 else 1 + BitLength(n / 2)
  }

  /** `size()`: the whole bytes of the modulus's bit length, so that a chunk
      of `size()` bytes has no more bits than the modulus. */
  function Size(n: nat): (k: nat)
    ensures 8 * k <= BitLength(n) < 8 * k + 8
    ensures Pow256(k) <= Pow2(BitLength(n))
  {
    var k := BitLength(n) / 8;
    Pow256IsPow2(k);
    Pow2Monotone(8 * k, BitLength(n));
    k
  }

  lemma {:induction false} Pow256IsPow2(k: nat)
    ensures Pow256(k) == Pow2(8 * k)
  {
    if k > 0 {
      Pow256IsPow2(k - 1);
      var p := Pow2(8 * (k - 1));
      assert Pow2(8 * k) == 256 * p by {
        assert Pow2(8 * k) == 2 * Pow2(8 * k - 1);
        assert Pow2(8 * k - 1) == 2 * Pow2(8 * k - 2);
        assert Pow2(8 * k - 2) == 2 * Pow2(8 * k - 3);
        assert Pow2(8 * k - 3) == 2 * Pow2(8 * k - 4);
        assert Pow2(8 * k - 4) == 2 * Pow2(8 * k - 5);
        assert Pow2(8 * k - 5) == 2 * Pow2(8 * k - 6);
        assert Pow2(8 * k - 6) == 2 * Pow2(8 * k - 7);
        assert Pow2(8 * k - 7) == 2 * p;
      }
    }
  }

  // ----- Framing -----

  /** The chunk loop of `encrypt` and `decrypt`: chunks of `size` bytes,
      each mapped through `g` as a little-endian number and written back
      zero-extended to `width` bytes. `data.chunks(0)` panics, hence
      `size > 0`. */
  function Frame(g: nat -> nat, data: seq<byte>, size: nat, width: nat): (r: seq<byte>)
    requires size > 0
    ensures data == [] <==> r == []
    decreases |data|
  {
    if data == [] then []
    else
      var k := if |data| < size then |data| else size;
      ZeroExtend(ToBytesLE(g(FromBytesLE(data[..k]))), width) + Frame(g, data[k..], size, width)
  }

  /** Every chunk of `data` reads as a number below `bound`. */
  predicate ChunksBelow(data: seq<byte>, size: nat, bound: nat)
    requires size > 0
    decreases |data|
  {
    data != [] ==>
      var k := if |data| < size then |data| else size;
      FromBytesLE(data[..k]) < bound && ChunksBelow(data[k..], size, bound)
  }

  /** `len` bytes are a whole number of chunks of `size` bytes. */
  predicate WholeChunks(len: nat, size: nat)
    requires size > 0
    decreases len
  {
    len == 0 || (len >= size && WholeChunks(len - size, size))
  }

  /** A length that `size` divides is a whole number of chunks. */
  lemma {:induction false} WholeChunksOfMod(len: nat, size: nat)
    requires size > 0 && len % size == 0
    ensures WholeChunks(len, size)
    decreases len
  {
    if len > 0 {
      AlignedStep(len, size);
      WholeChunksOfMod(len - size, size);
    }
  }

  /** Dropping the first chunk of whole chunks leaves whole chunks. */
  lemma AlignedStep(len: nat, size: nat)
    requires size > 0 && len > 0 && len % size == 0
    ensures len >= size && (len - size) % size == 0
  {
    var q := len / size;
    assert len == q * size;
    assert q >= 1;
    assert len - size == (q - 1) * size + 0;
    ModMultipleAdd(q - 1, size, 0);
  }

  /** A full first chunk is framed on its own. */
  lemma FrameStep(g: nat -> nat, data: seq<byte>, size: nat, width: nat)
    requires size > 0 && |data| >= size
    ensures Frame(g, data, size, width)
         == ZeroExtend(ToBytesLE(g(FromBytesLE(data[..size]))), width) + Frame(g, data[size..], size, width)
  {
  }

  /** Chunks are framed independently of each other. */
  lemma {:induction false} FrameConcat(g: nat -> nat, a: seq<byte>, b: seq<byte>, size: nat, width: nat)
    requires size > 0 && WholeChunks(|a|, size)
    ensures Frame(g, a + b, size, width) == Frame(g, a, size, width) + Frame(g, b, size, width)
    decreases |a|
  {
    if a == [] {
      assert a + b == b;
    } else {
      FrameStepAppend(g, a, b, size, width);
      FrameConcat(g, a[size..], b, size, width);
      FrameStep(g, a, size, width);
      var head := ZeroExtend(ToBytesLE(g(FromBytesLE(a[..size]))), width);
      AppendAssoc(head, Frame(g, a[size..], size, width), Frame(g, b, size, width));
    }
  }

  /** A full first chunk of `a` is framed on its own, whatever follows. */
  lemma FrameStepAppend(g: nat -> nat, a: seq<byte>, b: seq<byte>, size: nat, width: nat)
    requires size > 0 && |a| >= size
    ensures Frame(g, a + b, size, width)
         == ZeroExtend(ToBytesLE(g(FromBytesLE(a[..size]))), width) + Frame(g, a[size..] + b, size, width)
  {
    var ab := a + b;
    assert ab[..size] == a[..size];
    assert ab[size..] == a[size..] + b;
    FrameStep(g, ab, size, width);
  }

  /** One block: the chunk's number mapped by `g`, framed to `width` bytes,
      and mapped back by `h`, gives the chunk again. */
  lemma BlockRoundTrip(g: nat -> nat, h: nat -> nat, chunk: seq<byte>, width: nat)
    requires |chunk| >= 1 && width > 0
    requires g(FromBytesLE(chunk)) < Pow256(width) && h(g(FromBytesLE(chunk))) == FromBytesLE(chunk)
    ensures var enc := ZeroExtend(ToBytesLE(g(FromBytesLE(chunk))), width);
            |enc| == width && Frame(h, enc, width, |chunk|) == chunk
  {
    var v := FromBytesLE(chunk);
    var u := ToBytesLE(g(v));
    ToBytesLEWidth(g(v), width);
    var enc := ZeroExtend(u, width);
    FromBytesLEZeroExtend(u, width);
    assert FromBytesLE(enc) == g(v);
    FrameSingle(h, enc, width, |chunk|);
    CanonicalChunk(chunk);
  }

  /** A single block of exactly `width` bytes is one chunk. */
  lemma FrameSingle(h: nat -> nat, enc: seq<byte>, width: nat, size: nat)
    requires width > 0 && |enc| == width
    ensures Frame(h, enc, width, size) == ZeroExtend(ToBytesLE(h(FromBytesLE(enc))), size)
  {
    assert enc[..width] == enc && enc[width..] == [];
  }

  /** A leading block of exactly `width` bytes is framed on its own. */
  lemma FrameHead(h: nat -> nat, enc: seq<byte>, rest: seq<byte>, width: nat, size: nat)
    requires width > 0 && |enc| == width
    ensures Frame(h, enc + rest, width, size) == Frame(h, enc, width, size) + Frame(h, rest, width, size)
  {
    assert (enc + rest)[..width] == enc && (enc + rest)[width..] == rest;
    assert enc[..width] == enc && enc[width..] == [];
  }

  /** When `g` maps every chunk value to a number that fits `width` bytes
      and `h` maps it back, framing with `h` undoes framing with `g` on whole
      chunks. */
  lemma {:induction false} FrameRoundTrip(g: nat -> nat, h: nat -> nat, data: seq<byte>, size: nat, width: nat, bound: nat)
    requires size > 0 && width > 0 && WholeChunks(|data|, size)
    requires ChunksBelow(data, size, bound)
    requires forall v: nat :: v < bound ==> g(v) < Pow256(width) && h(g(v)) == v
    ensures Frame(h, Frame(g, data, size, width), width, size) == data
    decreases |data|
  {
    if data != [] {
      var chunk, tail := data[..size], data[size..];
      assert data == chunk + tail;
      var enc := ZeroExtend(ToBytesLE(g(FromBytesLE(chunk))), width);
      var rest := Frame(g, tail, size, width);
      FrameStep(g, data, size, width);
      BlockRoundTrip(g, h, chunk, width);
      FrameHead(h, enc, rest, width, size);
      FrameRoundTrip(g, h, tail, size, width, bound);
    }
  }

  // ----- The source's chunk sizes -----

  /** `RsaPublic::encrypt` with the exponentiation `g`. */
  function Encrypt(g: nat -> nat, n: nat, data: seq<byte>): (r: seq<byte>)
    requires Size(n) > 0
    ensures data == [] <==> r == []
  {
    Frame(g, data, Size(n), Size(n))
  }

  /** `RsaPrivate::decrypt` with the exponentiation `h`. */
  function Decrypt(h: nat -> nat, n: nat, data: seq<byte>): (r: seq<byte>)
    requires Size(n) > 0
    ensures data == [] <==> r == []
  {
    Frame(h, data, Size(n), Size(n))
  }

  /** The file-level round trip of the source's `Enc` and `Dec` commands for
      a key whose modulus has a whole number of bytes, as `Rsa::new`
      generates: it holds when every padded chunk reads below the modulus
      and the two exponentiations undo each other below it. */
  lemma RoundTripBelowModulus(g: nat -> nat, h: nat -> nat, n: nat, data: seq<byte>)
    requires 1 <= Size(n) <= 255 && BitLength(n) % 8 == 0
    requires forall v: nat :: v < n ==> g(v) < n && h(g(v)) == v
    requires ChunksBelow(MakeMatchSize(data, Size(n)), Size(n), n)
    ensures var dec := Decrypt(h, n, Encrypt(g, n, MakeMatchSize(data, Size(n))));
            dec != [] && dec[|dec| - 1] <= |dec| && MakeOriginalSize(dec) == data
  {
    var size := Size(n);
    var padded := MakeMatchSize(data, size);
    Pow256IsPow2(size);
    assert 8 * size == BitLength(n);
    WholeChunksOfMod(|padded|, size);
    FrameRoundTrip(g, h, padded, size, size, n);
    UnpadPad(data, size);
  }

  /** The all-ones chunk of `size()` bytes, for a modulus with a whole number
      of bytes, reads as a number that is not below the modulus: such a chunk
      cannot come back from the exponentiation modulo `n`. */
  lemma FullChunkReachesModulus(n: nat)
    requires n > 0 && BitLength(n) % 8 == 0
    ensures FromBytesLE(seq(Size(n), _ => 255)) >= n
  {
    Pow256IsPow2(Size(n));
    assert 8 * Size(n) == BitLength(n);
    AllOnes(Size(n));
  }

  lemma {:induction false} AllOnes(k: nat)
    ensures FromBytesLE(seq(k, _ => 255)) == Pow256(k) - 1
  {
    if k > 0 {
      var s: seq<byte> := seq(k, _ => 255);
      assert s[1..] == seq(k - 1, _ => 255);
      AllOnes(k - 1);
    }
  }

  /** Concretely: a one-byte key with modulus 200 frames the byte 255 as the
      number 255. */
  lemma SmallKeyChunk()
    ensures BitLength(200) == 8 && Size(200) == 1
    ensures FromBytesLE([255]) == 255 >= 200
  {
    var b := BitLength(200);
    assert Pow2(7) == 128 && Pow2(8) == 256;
    if b <= 7 {
      Pow2Monotone(b, 7);
    }
  }

  // ----- Chunk sizes that keep every chunk below the modulus -----

  /** Input chunks one bit narrower than the modulus: every chunk of
      `InSize(n)` bytes reads below `n`. */
  function InSize(n: nat): (k: nat)
    ensures n > 0 ==> Pow256(k) <= n
  {
    var k := if BitLength(n) == 0 then 0 else (BitLength(n) - 1) / 8;
    assert n > 0 ==> Pow256(k) <= n by {
      if n > 0 {
        Pow256IsPow2(k);
        Pow2Monotone(8 * k, BitLength(n) - 1);
      }
    }
    k
  }

  /** Output blocks wide enough for every number below the modulus. */
  function OutSize(n: nat): (k: nat)
    ensures n < Pow256(k)
  {
    var k := (BitLength(n) + 7) / 8;
    Pow256IsPow2(k);
    Pow2Monotone(BitLength(n), 8 * k);
    k
  }

  lemma {:induction false} Pow256Monotone(a: nat, b: nat)
    requires a <= b
    ensures Pow256(a) <= Pow256(b)
    decreases b
  {
    if a < b {
      Pow256Monotone(a, b - 1);
    }
  }

  lemma {:induction false} AllChunksBelow(data: seq<byte>, size: nat)
    requires size > 0
    ensures ChunksBelow(data, size, Pow256(size))
    decreases |data|
  {
    if data != [] {
      var k := if |data| < size then |data| else size;
      AllChunksBelow(data[k..], size);
      Pow256Monotone(k, size);
    }
  }

  /** `encrypt` with chunks of `InSize(n)` bytes and blocks of `OutSize(n)`
      bytes. */
  function EncryptFixed(g: nat -> nat, n: nat, data: seq<byte>): (r: seq<byte>)
    requires InSize(n) > 0
    ensures data == [] <==> r == []
  {
    Frame(g, data, InSize(n), OutSize(n))
  }

  /** `decrypt` reading blocks of `OutSize(n)` bytes back into chunks of
      `InSize(n)` bytes. */
  function DecryptFixed(h: nat -> nat, n: nat, data: seq<byte>): (r: seq<byte>)
    requires InSize(n) > 0
    ensures data == [] <==> r == []
  {
    Frame(h, data, OutSize(n), InSize(n))
  }

  /** With these sizes the file-level round trip needs nothing of the data:
      padding to `InSize(n)`, enciphering, deciphering and unpadding gives
      the data back whenever the exponentiations undo each other below the
      modulus. */
  lemma RoundTripFixed(g: nat -> nat, h: nat -> nat, n: nat, data: seq<byte>)
    requires 1 <= InSize(n) <= 255
    requires forall v: nat :: v < n ==> g(v) < n && h(g(v)) == v
    ensures var dec := DecryptFixed(h, n, EncryptFixed(g, n, MakeMatchSize(data, InSize(n))));
            dec != [] && dec[|dec| - 1] <= |dec| && MakeOriginalSize(dec) == data
  {
    var size := InSize(n);
    var padded := MakeMatchSize(data, size);
    AllChunksBelow(padded, size);
    ChunksBelowWeaken(padded, size, Pow256(size), n);
    WholeChunksOfMod(|padded|, size);
    FrameRoundTrip(g, h, padded, size, OutSize(n), n);
    UnpadPad(data, size);
  }

  lemma {:induction false} ChunksBelowWeaken(data: seq<byte>, size: nat, a: nat, b: nat)
    requires size > 0 && a <= b && ChunksBelow(data, size, a)
    ensures ChunksBelow(data, size, b)
    decreases |data|
  {
    if data != [] {
      var k := if |data| < size then |data| else size;
      ChunksBelowWeaken(data[k..], size, a, b);
    }
  }
}
