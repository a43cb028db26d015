/** `make_match_size` and `make_original_size` of lab04v2/src/main.rs: the
    message is extended to a whole number of blocks with `r` copies of the
    byte `r`, and the padding is removed again by reading its length from the
    last byte. */
module Padding {
  import opened Bits

  /** The number of bytes `make_match_size` appends: 1 to `target`, never
      0. */
  function PadLength(len: nat, target: nat): (r: nat)
    requires target > 0
    ensures 1 <= r <= target && (len + r) % target == 0
  {
    var q := len / target;
    assert len + (target - len % target) == (q + 1) * target + 0;
    ModMultipleAdd(q + 1, target, 0);
    target - len % target
  }

  /** `make_match_size`. The source panics when `target` is 0 (remainder by
      zero) or when the pad length does not fit a byte (`try_into` of a value
      above 255). */
  function MakeMatchSize(data: seq<byte>, target: nat): (r: seq<byte>)
    requires target > 0 && PadLength(|data|, target) <= 255
    ensures |r| % target == 0 && |data| < |r| <= |data| + target
    ensures r[..|data|] == data
    ensures forall i :: |data| <= i < |r| ==> r[i] == |r| - |data|
  {
    var n := PadLength(|data|, target);
    data + seq(n, _ => n as byte)
  }

  /** `make_original_size`: drops as many trailing bytes as the last byte
      says. The source panics on empty data (`last().unwrap()`) and when the
      last byte exceeds the length (subtraction overflow). */
  function MakeOriginalSize(data: seq<byte>): (r: seq<byte>)
    requires data != [] && data[|data| - 1] <= |data|
    ensures |r| == |data| - data[|data| - 1] && r == data[..|r|]
  {
    data[..|data| - data[|data| - 1]]
  }

  /** A padded message: a whole number of blocks ending in `r` copies of the
      byte `r`, with `1 <= r <= target`. */
  predicate IsPadded(data: seq<byte>, target: nat) {
    && target > 0
    && |data| % target == 0
    && data != []
    && 1 <= data[|data| - 1] <= target
    && data[|data| - 1] <= |data|
    && forall i :: |data| - data[|data| - 1] <= i < |data| ==> data[i] == data[|data| - 1]
  }

  /** Any block size from 1 to 255 can be used: padding always fits a
      byte. */
  lemma PadFits(len: nat, target: nat)
    requires 1 <= target <= 255
    ensures PadLength(len, target) <= 255
  {
  }

  /** Padding produces a padded message. */
  lemma MakeMatchSizePads(data: seq<byte>, target: nat)
    requires target > 0 && PadLength(|data|, target) <= 255
    ensures IsPadded(MakeMatchSize(data, target), target)
  {
  }

  /** The round trip of the source's test: removing the padding gives the
      message back, for every block size from 1 to 255. */
  lemma UnpadPad(data: seq<byte>, target: nat)
    requires 1 <= target <= 255
    ensures var padded := MakeMatchSize(data, target);
            padded[|padded| - 1] <= |padded| && MakeOriginalSize(padded) == data
  {
    var padded := MakeMatchSize(data, target);
    assert padded[|padded| - 1] == |padded| - |data|;
  }

  /** Conversely, a padded message is padded again exactly as it was after
      its padding is removed. */
  lemma PadUnpad(data: seq<byte>, target: nat)
    requires IsPadded(data, target)
    ensures var body := MakeOriginalSize(data);
            PadLength(|body|, target) <= 255 && MakeMatchSize(body, target) == data
  {
    var r := data[|data| - 1];
    var body := MakeOriginalSize(data);
    var k := |data| / target;
    assert |data| == k * target + 0;
    assert k >= 1;
    assert |body| == (k - 1) * target + (target - r);
    ModMultipleAdd(k - 1, target, target - r);
    if r == target {
      ModMultipleAdd(1, target, 0);
      assert (target - r) % target == 0;
    } else {
      DivUnique(target - r, target, 0, target - r);
    }
    assert PadLength(|body|, target) == r;
    var again := MakeMatchSize(body, target);
    assert |again| == |data|;
    forall i | 0 <= i < |data|
      ensures again[i] == data[i]
    {
      if i < |body| {
        assert again[i] == body[i];
      }
    }
  }

  lemma ModMultipleAdd(q: nat, d: nat, x: nat)
    requires d > 0
    ensures (q * d + x) % d == x % d
  {
    var a := x / d;
    var b := x % d;
    assert q * d + x == (q + a) * d + b;
    DivUnique(q * d + x, d, q + a, b);
  }
}
