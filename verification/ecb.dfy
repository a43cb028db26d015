/** The electronic-codebook driver of src/main.rs (`encrypt` and `decrypt`),
    stated for any 8-byte block cipher: the message is cut into chunks of
    eight bytes, a short last chunk is completed with '.' (byte 46) before it
    is enciphered, and every chunk is processed on its own. */
module Ecb {
  import opened Bits

  /** A block function maps every 8-byte block to an 8-byte block. */
  ghost predicate IsBlockFunction(c: seq<byte> --> seq<byte>) {
    forall b :: |b| == 8 ==> c.requires(b) && |c(b)| == 8
  }

  /** `d` undoes `c` on every block. */
  ghost predicate Undoes(d: seq<byte> --> seq<byte>, c: seq<byte> --> seq<byte>)
    requires IsBlockFunction(c) && IsBlockFunction(d)
  {
    forall b :: |b| == 8 ==> d(c(b)) == b
  }

  const FILLER: byte := 46

  /** The buffer of `encrypt`: a short last chunk is completed with '.'. */
  function FillBlock(chunk: seq<byte>): (r: seq<byte>)
    requires |chunk| <= 8
    ensures |r| == 8 && r[..|chunk|] == chunk
    ensures forall i :: |chunk| <= i < 8 ==> r[i] == FILLER
  {
    chunk + seq(8 - |chunk|, _ => FILLER)
  }

  /** The plaintext that deciphering gives back: the message padded with '.'
      to a whole number of blocks (nothing is added to an aligned message). */
  function PadWithDots(data: seq<byte>): (r: seq<byte>)
    ensures |r| % 8 == 0 && |data| <= |r| < |data| + 8 && r[..|data|] == data
    ensures forall i :: |data| <= i < |r| ==> r[i] == FILLER
  {
    data + seq((8 - |data| % 8) % 8, _ => FILLER)
  }

  /** `encrypt`: every chunk of eight bytes enciphered on its own, the last
      one filled up first. */
  function Encrypt(c: seq<byte> --> seq<byte>, data: seq<byte>): (r: seq<byte>)
    requires IsBlockFunction(c)
    ensures |r| == |PadWithDots(data)|
    decreases |data|
  {
    if data == [] then []
    else if |data| < 8 then
      DotsShort(|data|);
      c(FillBlock(data))
    else
      DotsStep(|data|);
      c(data[..8]) + Encrypt(c, data[8..])
  }

  /** A short nonempty message is padded to one block. */
  lemma DotsShort(n: nat)
    requires 0 < n < 8
    ensures n + (8 - n % 8) % 8 == 8
  {
    DivUnique(n, 8, 0, n);
  }

  /** Cutting a block off the front does not change the padding. */
  lemma DotsStep(n: nat)
    requires n >= 8
    ensures n % 8 == (n - 8) % 8
  {
    DivUnique(n, 8, (n - 8) / 8 + 1, (n - 8) % 8);
  }

  /** A message of `k` blocks needs no padding. */
  lemma DotsBlocks(k: nat)
    ensures (8 * k) % 8 == 0
  {
    DivUnique(8 * k, 8, k, 0);
  }

  /** `decrypt`: every chunk of eight bytes processed on its own. A short last
      chunk makes the source panic inside `ip`, hence the requirement. */
  function Decrypt(d: seq<byte> --> seq<byte>, data: seq<byte>): (r: seq<byte>)
    requires IsBlockFunction(d) && |data| % 8 == 0
    ensures |r| == |data|
    decreases |data|
  {
    if data == [] then []
    else d(data[..8]) + Decrypt(d, data[8..])
  }

  /** Enciphering a message is enciphering its dot-padded form. */
  lemma {:induction false} EncryptPads(c: seq<byte> --> seq<byte>, data: seq<byte>)
    requires IsBlockFunction(c)
    ensures Encrypt(c, data) == Encrypt(c, PadWithDots(data))
    decreases |data|
  {
    var padded := PadWithDots(data);
    if data == [] {
      assert padded == [];
    } else if |data| < 8 {
      DotsShort(|data|);
      assert padded == FillBlock(data);
      assert padded[..8] == padded && padded[8..] == [];
    } else {
      DotsStep(|data|);
      assert padded[..8] == data[..8];
      assert padded[8..] == PadWithDots(data[8..]);
      EncryptPads(c, data[8..]);
    }
  }

  /** On whole blocks, deciphering undoes enciphering. */
  lemma {:induction false} DecryptEncryptAligned(c: seq<byte> --> seq<byte>, d: seq<byte> --> seq<byte>, data: seq<byte>)
    requires IsBlockFunction(c) && IsBlockFunction(d) && Undoes(d, c) && |data| % 8 == 0
    ensures Decrypt(d, Encrypt(c, data)) == data
    decreases |data|
  {
    if data != [] {
      DotsStep(|data|);
      var head, rest := c(data[..8]), Encrypt(c, data[8..]);
      assert Encrypt(c, data) == head + rest;
      DecryptHead(d, head, rest);
      DecryptEncryptAligned(c, d, data[8..]);
      assert data == data[..8] + data[8..];
    }
  }

  /** A leading block is deciphered on its own. */
  lemma DecryptHead(d: seq<byte> --> seq<byte>, block: seq<byte>, rest: seq<byte>)
    requires IsBlockFunction(d) && |block| == 8 && |rest| % 8 == 0
    ensures |block + rest| % 8 == 0
    ensures Decrypt(d, block + rest) == d(block) + Decrypt(d, rest)
  {
    DotsStep(|block + rest|);
    assert (block + rest)[..8] == block && (block + rest)[8..] == rest;
  }

  /** The round trip of the source's test: deciphering the ciphertext gives
      the message followed by the '.' padding of its last block. */
  lemma DecryptEncrypt(c: seq<byte> --> seq<byte>, d: seq<byte> --> seq<byte>, data: seq<byte>)
    requires IsBlockFunction(c) && IsBlockFunction(d) && Undoes(d, c)
    ensures |Encrypt(c, data)| % 8 == 0
    ensures Decrypt(d, Encrypt(c, data)) == PadWithDots(data)
  {
    EncryptPads(c, data);
    DecryptEncryptAligned(c, d, PadWithDots(data));
  }

  /** Enciphering undoes deciphering on whole blocks. */
  lemma {:induction false} EncryptDecrypt(c: seq<byte> --> seq<byte>, d: seq<byte> --> seq<byte>, data: seq<byte>)
    requires IsBlockFunction(c) && IsBlockFunction(d) && Undoes(c, d) && |data| % 8 == 0
    ensures Encrypt(c, Decrypt(d, data)) == data
    decreases |data|
  {
    if data != [] {
      DotsStep(|data|);
      var rest := Decrypt(d, data[8..]);
      var p := d(data[..8]) + rest;
      assert p[..8] == d(data[..8]) && p[8..] == rest;
      EncryptDecrypt(c, d, data[8..]);
      assert data == data[..8] + data[8..];
    }
  }

  /** A whole-block prefix is enciphered independently of what follows. */
  lemma {:induction false} EncryptConcat(c: seq<byte> --> seq<byte>, a: seq<byte>, b: seq<byte>)
    requires IsBlockFunction(c) && |a| % 8 == 0
    ensures Encrypt(c, a + b) == Encrypt(c, a) + Encrypt(c, b)
    decreases |a|
  {
    if a == [] {
      assert a + b == b;
    } else {
      assert (a + b)[..8] == a[..8];
      assert (a + b)[8..] == a[8..] + b;
      EncryptConcat(c, a[8..], b);
    }
  }

  /** Block `j` of the ciphertext is block `j` of the dot-padded message,
      enciphered on its own. */
  lemma EncryptBlockwise(c: seq<byte> --> seq<byte>, data: seq<byte>, j: nat)
    requires IsBlockFunction(c) && j < |PadWithDots(data)| / 8
    ensures |Encrypt(c, data)| == |PadWithDots(data)|
    ensures Encrypt(c, data)[8 * j..8 * j + 8] == c(PadWithDots(data)[8 * j..8 * j + 8])
  {
    EncryptPads(c, data);
    var padded := PadWithDots(data);
    EncryptBlockAt(c, padded, |padded| / 8, j);
  }

  /** Block `j` of a message of `k` whole blocks, enciphered. */
  lemma {:induction false} EncryptBlockAt(c: seq<byte> --> seq<byte>, p: seq<byte>, k: nat, j: nat)
    requires IsBlockFunction(c) && |p| == 8 * k && j < k
    ensures |Encrypt(c, p)| == |p|
    ensures Encrypt(c, p)[8 * j..8 * j + 8] == c(p[8 * j..8 * j + 8])
    decreases j
  {
    DotsBlocks(k);
    DotsStep(|p|);
    var head := c(p[..8]);
    var tail := Encrypt(c, p[8..]);
    assert Encrypt(c, p) == head + tail;
    if j > 0 {
      EncryptBlockAt(c, p[8..], k - 1, j - 1);
      assert (head + tail)[8 * j..8 * j + 8] == tail[8 * (j - 1)..8 * (j - 1) + 8];
      assert p[8 * j..8 * j + 8] == p[8..][8 * (j - 1)..8 * (j - 1) + 8];
    }
  }

  /** "hello world!\n", the message of the source's unit test. */
  const HELLO: seq<byte> := [104, 101, 108, 108, 111, 32, 119, 111, 114, 108, 100, 33, 10]

  /** The source's unit test: "hello world!\n" comes back as
      "hello world!\n...". */
  lemma HelloWorldRoundTrip(c: seq<byte> --> seq<byte>, d: seq<byte> --> seq<byte>)
    requires IsBlockFunction(c) && IsBlockFunction(d) && Undoes(d, c)
    ensures Decrypt(d, Encrypt(c, HELLO)) == HELLO + [FILLER, FILLER, FILLER]
  {
    DecryptEncrypt(c, d, HELLO);
    DivUnique(|HELLO|, 8, 1, 5);
    assert seq(3, _ => FILLER) == [FILLER, FILLER, FILLER];
  }
}
