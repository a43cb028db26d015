/** The rotor machine of lab02/src/enigma.rs over an alphabet of 256 symbols.

    A rotor holds a wiring `straight` (a permutation of 0..len), its inverse
    table `backward` and a position. A symbol goes through every rotor
    forward, through an involutive reflector, and back through the rotors in
    reverse order; after that the rotors step like an odometer. The random
    choices of the constructors are parameters here. */
module Enigma {
  import opened Wrappers
  import opened Bits

  // ----- Permutations and rotors -----

  /** `s` lists each of 0..n exactly once, as a shuffle of `(0..n)` does. */
  predicate IsPermutation(s: seq<nat>, n: nat) {
    && |s| == n
    && (forall i :: 0 <= i < n ==> s[i] < n)
    && (forall i, j :: 0 <= i < j < n ==> s[i] != s[j])
    && (forall y :: 0 <= y < n ==> y in s)
  }

  datatype Rotor = Rotor(len: nat, pos: nat, straight: seq<nat>, backward: seq<nat>)

  /** A rotor as the source keeps it: a non-empty alphabet, a position inside
      it, a permutation and the table the build loop computes from it. */
  predicate ValidRotor(r: Rotor) {
    && r.len > 0
    && r.pos < r.len
    && IsPermutation(r.straight, r.len)
    && |r.backward| == r.len
    && forall i :: 0 <= i < r.len ==> r.backward[r.straight[i]] == i
  }

  /** The build loop of `Rotor::from_seed`: `backward[straight[i]] := i` for
      every `i` in turn, starting from a table of zeros. */
  method BuildBackward(straight: seq<nat>) returns (backward: seq<nat>)
    requires IsPermutation(straight, |straight|)
    ensures |backward| == |straight|
    ensures forall i :: 0 <= i < |straight| ==> backward[straight[i]] == i
    ensures forall y :: 0 <= y < |straight| ==> backward[y] < |straight| && straight[backward[y]] == y
  {
    var n := |straight|;
    backward := seq(n, _ => 0);
    var i := 0;
    while i < n
      invariant 0 <= i <= n && |backward| == n
      invariant forall k :: 0 <= k < i ==> backward[straight[k]] == k
    {
      backward := backward[straight[i] := i];
      i := i + 1;
    }
    forall y | 0 <= y < n
      ensures backward[y] < n && straight[backward[y]] == y
    {
      assert y in straight;
      var k :| 0 <= k < n && straight[k] == y;
    }
  }

  /** `Rotor::from_seed` with the shuffled wiring given: position 0 and the
      inverse table. */
  method NewRotor(straight: seq<nat>) returns (r: Rotor)
    requires |straight| > 0 && IsPermutation(straight, |straight|)
    ensures ValidRotor(r) && r.pos == 0 && r.len == |straight| && r.straight == straight
  {
    var backward := BuildBackward(straight);
    r := Rotor(|straight|, 0, straight, backward);
  }

  /** The inverse table inverts the wiring from the other side too. */
  lemma BackwardInverts(r: Rotor)
    requires ValidRotor(r)
    ensures forall y :: 0 <= y < r.len ==> r.backward[y] < r.len && r.straight[r.backward[y]] == y
  {
    forall y | 0 <= y < r.len
      ensures r.backward[y] < r.len && r.straight[r.backward[y]] == y
    {
      assert y in r.straight;
      var k :| 0 <= k < r.len && r.straight[k] == y;
    }
  }

  /** `rotate`: one step forward, reporting whether the rotor wrapped to 0. */
  function Rotate(r: Rotor): (res: (Rotor, bool))
    requires ValidRotor(r)
    ensures ValidRotor(res.0)
    ensures res.0 == r.(pos := res.0.pos)
    ensures res.1 <==> r.pos == r.len - 1
    ensures res.0.pos == if res.1 then 0 else r.pos + 1
  {
    var pos := (r.pos + 1) % r.len;
    (r.(pos := pos), pos == 0)
  }

  lemma ModBelowTwice(a: int, n: int)
    requires n > 0 && 0 <= a < 2 * n
    ensures a % n == if a < n then a else a - n
  {
    if a >= n {
      assert a == (a - n) + n * 1;
    }
  }

  /** `_rotated`: the contact a symbol meets at the current position. */
  function Rotated(r: Rotor, x: nat): (y: nat)
    requires ValidRotor(r)
    ensures y < r.len
    ensures x < r.len ==> y == if r.pos + x < r.len then r.pos + x else r.pos + x - r.len
  {
    var y := (r.pos + x) % r.len;
    assert x < r.len ==> y == if r.pos + x < r.len then r.pos + x else r.pos + x - r.len by {
      if x < r.len { ModBelowTwice(r.pos + x, r.len); }
    }
    y
  }

  /** `_unrotated`: the symbol a contact stands for at the current
      position. */
  function Unrotated(r: Rotor, x: nat): (y: nat)
    requires ValidRotor(r)
    ensures y < r.len
    ensures x < r.len ==> y == if r.pos <= x then x - r.pos else x + r.len - r.pos
  {
    var y := (x + r.len - r.pos) % r.len;
    assert x < r.len ==> y == if r.pos <= x then x - r.pos else x + r.len - r.pos by {
      if x < r.len { ModBelowTwice(x + r.len - r.pos, r.len); }
    }
    y
  }

  /** `_rotated` and `_unrotated` undo each other on the alphabet. */
  lemma RotatedUnrotated(r: Rotor, x: nat)
    requires ValidRotor(r) && x < r.len
    ensures Rotated(r, Unrotated(r, x)) == x
    ensures Unrotated(r, Rotated(r, x)) == x
  {
  }

  /** `get_straight`. */
  function GetStraight(r: Rotor, x: nat): (y: nat)
    requires ValidRotor(r)
    ensures y < r.len
  {
    Unrotated(r, r.straight[Rotated(r, x)])
  }

  /** `get_backward`. */
  function GetBackward(r: Rotor, x: nat): (y: nat)
    requires ValidRotor(r)
    ensures y < r.len
  {
    BackwardInverts(r);
    Unrotated(r, r.backward[Rotated(r, x)])
  }

  /** At any position, `get_backward` undoes `get_straight` on the
      alphabet. */
  lemma BackwardStraight(r: Rotor, x: nat)
    requires ValidRotor(r) && x < r.len
    ensures GetBackward(r, GetStraight(r, x)) == x
  {
    var c := Rotated(r, x);
    var s := r.straight[c];
    RotatedUnrotated(r, s);
    assert Rotated(r, GetStraight(r, x)) == s;
    assert r.backward[s] == c;
    RotatedUnrotated(r, x);
  }

  /** At any position, `get_straight` undoes `get_backward` on the
      alphabet. */
  lemma StraightBackward(r: Rotor, x: nat)
    requires ValidRotor(r) && x < r.len
    ensures GetStraight(r, GetBackward(r, x)) == x
  {
    BackwardInverts(r);
    var c := Rotated(r, x);
    var b := r.backward[c];
    RotatedUnrotated(r, b);
    assert Rotated(r, GetBackward(r, x)) == b;
    assert r.straight[b] == c;
    RotatedUnrotated(r, x);
  }

  // ----- The reflector -----

  /** Every entry is a symbol and reflecting twice gives the symbol back. */
  predicate IsInvolution(t: seq<nat>, n: nat) {
    && |t| == n
    && (forall x :: 0 <= x < n ==> t[x] < n)
    && (forall x :: 0 <= x < n ==> t[t[x]] == x)
  }

  /** The table during the pairing loop: `n` marks an unpaired symbol, and a
      paired symbol's partner is paired back to it. */
  predicate PartialInvolution(t: seq<nat>, n: nat) {
    && |t| == n
    && forall x :: 0 <= x < n && t[x] != n ==> t[x] < n && t[t[x]] == x
  }

  /** The pairing loop of `Reflector::from_seed` from symbol `i` on, with the
      outcomes of `gen_range(i..len)` given as `draws` (the value `d` stands
      for `i + d % (len - i)`). A draw that hits `stable` or a paired symbol
      is rejected and the next one taken; when the draws run out the source
      would still be drawing, and the result is `None`. */
  function Pairing(n: nat, stable: nat, i: nat, t: seq<nat>, draws: seq<nat>): (r: Option<seq<nat>>)
    requires i <= n && stable <= n && PartialInvolution(t, n)
    requires forall k :: 0 <= k < i ==> t[k] != n
    requires stable < n ==> t[stable] == (if stable < i then stable else n)
    ensures r.Some? ==> IsInvolution(r.value, n)
    ensures r.Some? && stable < n ==> r.value[stable] == stable
    decreases n - i, |draws|
  {
    if i == n then Some(t)
    else if t[i] != n then Pairing(n, stable, i + 1, t, draws)
    else if i == stable then Pairing(n, stable, i + 1, t[i := stable], draws)
    else if draws == [] then None
    else
      var j := i + draws[0] % (n - i);
      if j == stable || t[j] != n then Pairing(n, stable, i, t, draws[1..])
      else Pairing(n, stable, i + 1, t[i := j][j := i], draws[1..])
  }

  /** `Reflector::from_seed`: for an odd alphabet the symbol `stableDraw`
      (a draw of `gen_range(0..len)`) reflects to itself, for an even one no
      symbol is reserved. */
  function NewReflector(n: nat, stableDraw: nat, draws: seq<nat>): (r: Option<seq<nat>>)
    ensures r.Some? ==> IsInvolution(r.value, n)
    ensures r.Some? && n % 2 == 1 ==> r.value[stableDraw % n] == stableDraw % n
  {
    var stable := if n % 2 == 0 then n else stableDraw % n;
    Pairing(n, stable, 0, seq(n, _ => n), draws)
  }

  /** A draw equal to the current symbol pairs it with itself, so even an
      even alphabet can get fixed points. */
  lemma EvenReflectorFixedPoints()
    ensures NewReflector(2, 0, [0, 0]) == Some([0, 1])
  {
    var t0: seq<nat> := seq(2, _ => 2);
    assert t0 == [2, 2];
    assert t0[0 := 0][0 := 0] == [0, 2];
    assert [0, 2][1 := 1][1 := 1] == [0, 1];
  }

  /** `get_reflect`. */
  function GetReflect(t: seq<nat>, x: nat): (y: nat)
    requires IsInvolution(t, |t|) && x < |t|
    ensures y < |t| && t[y] == x
  {
    t[x]
  }

  // ----- The machine -----

  const ALPHABET: nat := 256

  datatype Machine = Machine(rotors: seq<Rotor>, reflector: seq<nat>)

  /** Every rotor is valid on the 256-symbol alphabet of `Enigma::from_seed`
      and the reflector is an involution on it. */
  predicate ValidMachine(m: Machine) {
    ValidRotors(m.rotors) && IsInvolution(m.reflector, ALPHABET)
  }

  predicate ValidRotors(rs: seq<Rotor>) {
    forall k :: 0 <= k < |rs| ==> ValidRotor(rs[k]) && rs[k].len == ALPHABET
  }

  /** The first loop of `_process_one`: through the rotors in order. */
  function Forward(rs: seq<Rotor>, x: nat): (y: nat)
    requires ValidRotors(rs) && x < ALPHABET
    ensures y < ALPHABET
  {
    if rs == [] then x else Forward(rs[1..], GetStraight(rs[0], x))
  }

  /** The last loop of `_process_one`: back through the rotors in reverse
      order, rotor 0 last. */
  function Backward(rs: seq<Rotor>, x: nat): (y: nat)
    requires ValidRotors(rs) && x < ALPHABET
    ensures y < ALPHABET
  {
    if rs == [] then x else GetBackward(rs[0], Backward(rs[1..], x))
  }

  /** Going back through the rotors undoes going forward, and conversely. */
  lemma {:induction false} BackwardForward(rs: seq<Rotor>, x: nat)
    requires ValidRotors(rs) && x < ALPHABET
    ensures Backward(rs, Forward(rs, x)) == x
    ensures Forward(rs, Backward(rs, x)) == x
  {
    if rs != [] {
      var y := GetStraight(rs[0], x);
      BackwardForward(rs[1..], y);
      BackwardStraight(rs[0], x);
      var z := Backward(rs[1..], x);
      BackwardForward(rs[1..], x);
      StraightBackward(rs[0], z);
    }
  }

  /** The wiring of `_process_one` at the current rotor positions. */
  function Wire(m: Machine, x: nat): (y: nat)
    requires ValidMachine(m) && x < ALPHABET
    ensures y < ALPHABET
  {
    Backward(m.rotors, GetReflect(m.reflector, Forward(m.rotors, x)))
  }

  /** At fixed positions the wiring is an involution. */
  lemma WireInvolution(m: Machine, x: nat)
    requires ValidMachine(m) && x < ALPHABET
    ensures Wire(m, Wire(m, x)) == x
  {
    var f := Forward(m.rotors, x);
    var g := GetReflect(m.reflector, f);
    BackwardForward(m.rotors, g);
    BackwardForward(m.rotors, x);
  }

  /** The stepping loop of `_process_one`: rotor 0 steps, and each further
      rotor steps when the one before it wrapped. */
  function Step(rs: seq<Rotor>): (r: seq<Rotor>)
    requires ValidRotors(rs)
    ensures |r| == |rs| && ValidRotors(r)
    ensures forall k :: 0 <= k < |rs| ==> r[k] == rs[k].(pos := r[k].pos)
  {
    if rs == [] then []
    else
      var (r0, wrapped) := Rotate(rs[0]);
      [r0] + if wrapped then Step(rs[1..]) else rs[1..]
  }

  /** Every rotor before `k` is at its last position. */
  predicate AllAtLast(rs: seq<Rotor>, k: nat)
    requires k <= |rs|
  {
    forall j :: 0 <= j < k ==> rs[j].pos == rs[j].len - 1
  }

  lemma AllAtLastTail(rs: seq<Rotor>, k: nat)
    requires 0 < k <= |rs|
    ensures AllAtLast(rs, k) <==> rs[0].pos == rs[0].len - 1 && AllAtLast(rs[1..], k - 1)
  {
    if rs[0].pos == rs[0].len - 1 && AllAtLast(rs[1..], k - 1) {
      forall j | 0 <= j < k
        ensures rs[j].pos == rs[j].len - 1
      {
        if j > 0 {
          assert rs[j] == rs[1..][j - 1];
        }
      }
    }
  }

  /** Rotor `k` steps exactly when every rotor before it was at its last
      position. */
  lemma {:induction false} StepAdvances(rs: seq<Rotor>, k: nat)
    requires ValidRotors(rs) && k < |rs|
    ensures Step(rs)[k].pos ==
            if AllAtLast(rs, k) then (rs[k].pos + 1) % rs[k].len else rs[k].pos
  {
    if k > 0 {
      AllAtLastTail(rs, k);
      var rest := rs[1..];
      assert rs[k] == rest[k - 1];
      if Rotate(rs[0]).1 {
        StepAdvances(rest, k - 1);
        assert Step(rs)[k] == Step(rest)[k - 1];
      } else {
        assert Step(rs)[k] == rest[k - 1];
      }
    }
  }

  /** The positions read as a number, rotor 0 the least significant digit. */
  function Odometer(rs: seq<Rotor>): nat {
    if rs == [] then 0 else rs[0].pos + rs[0].len * Odometer(rs[1..])
  }

  /** The number of distinct rotor positions. */
  function Capacity(rs: seq<Rotor>): nat {
    if rs == [] then 1 else rs[0].len * Capacity(rs[1..])
  }

  lemma {:induction false} OdometerBelowCapacity(rs: seq<Rotor>)
    requires ValidRotors(rs)
    ensures Odometer(rs) < Capacity(rs)
  {
    if rs != [] {
      OdometerBelowCapacity(rs[1..]);
      var len, v, c := rs[0].len, Odometer(rs[1..]), Capacity(rs[1..]);
      assert len * v <= len * (c - 1) by {
        MulMonotone(v, c - 1, len);
      }
    }
  }

  /** Stepping counts the odometer up by one, wrapping after its capacity. */
  lemma {:induction false} StepCounts(rs: seq<Rotor>)
    requires ValidRotors(rs)
    ensures Odometer(Step(rs)) == if Odometer(rs) + 1 == Capacity(rs) then 0 else Odometer(rs) + 1
  {
    OdometerBelowCapacity(rs);
    if rs != [] {
      var rest := rs[1..];
      var len, v, c := rs[0].len, Odometer(rest), Capacity(rest);
      OdometerBelowCapacity(rest);
      var stepped := Step(rs);
      if Rotate(rs[0]).1 {
        StepCounts(rest);
        assert stepped[1..] == Step(rest);
        if v + 1 == c {
          assert Odometer(rs) + 1 == len * c;
        } else {
          assert Odometer(stepped) == len * (v + 1);
          assert len * (v + 1) < len * c by {
            MulMonotone(v + 1, c - 1, len);
          }
        }
      } else {
        assert stepped[1..] == rest;
        assert len * v <= len * (c - 1) by {
          MulMonotone(v, c - 1, len);
        }
      }
    }
  }

  /** `_process_one`: the wired symbol at the current positions, then one
      step. */
  function ProcessOne(m: Machine, x: nat): (res: (Machine, nat))
    requires ValidMachine(m) && x < ALPHABET
    ensures ValidMachine(res.0) && res.1 < ALPHABET
    ensures res.0.reflector == m.reflector && res.0.rotors == Step(m.rotors)
  {
    (m.(rotors := Step(m.rotors)), Wire(m, x))
  }

  /** `run`: every byte processed in turn; the outputs fit a byte because the
      alphabet has 256 symbols. Returns the final machine and the output. */
  function Run(m: Machine, input: seq<byte>): (res: (Machine, seq<byte>))
    requires ValidMachine(m)
    ensures ValidMachine(res.0) && |res.1| == |input|
    decreases |input|
  {
    if input == [] then (m, [])
    else
      var (next, y) := ProcessOne(m, input[0]);
      var (last, out) := Run(next, input[1..]);
      (last, [y as byte] + out)
  }

  /** Two rotor lists with the same lengths have the same capacity. */
  lemma {:induction false} SameLensCapacity(a: seq<Rotor>, b: seq<Rotor>)
    requires |a| == |b| && forall k :: 0 <= k < |a| ==> a[k].len == b[k].len
    ensures Capacity(a) == Capacity(b)
  {
    if a != [] {
      SameLensCapacity(a[1..], b[1..]);
    }
  }

  /** Counting one up with wrap-around, then `k` more modulo `c`, is
      counting `k + 1` up modulo `c`. */
  lemma WrapThenAdd(o: nat, c: nat, k: nat, n: nat, stepped: nat, last: nat)
    requires o < c && n == k + 1
    requires stepped == (if o + 1 == c then 0 else o + 1)
    requires last == (stepped + k) % c
    ensures last == (o + n) % c
  {
    if o + 1 == c {
      assert o + n == (k / c + 1) * c + k % c;
      DivUnique(o + n, c, k / c + 1, k % c);
    }
  }

  /** The rotors stepped `n` times. */
  function StepTimes(rs: seq<Rotor>, n: nat): (r: seq<Rotor>)
    requires ValidRotors(rs)
    ensures |r| == |rs| && ValidRotors(r)
    decreases n
  {
    if n == 0 then rs else StepTimes(Step(rs), n - 1)
  }

  /** Stepping `n` times counts the odometer up by `n`, wrapping after the
      capacity. */
  lemma {:induction false} StepTimesCounts(rs: seq<Rotor>, n: nat)
    requires ValidRotors(rs)
    ensures Capacity(rs) > 0
    ensures Odometer(StepTimes(rs, n)) == (Odometer(rs) + n) % Capacity(rs)
    decreases n
  {
    var o, c := Odometer(rs), Capacity(rs);
    OdometerBelowCapacity(rs);
    if n == 0 {
      DivUnique(o, c, 0, o);
    } else {
      var next := Step(rs);
      assert StepTimes(rs, n) == StepTimes(next, n - 1);
      StepTimesCounts(next, n - 1);
      StepCounts(rs);
      SameLensCapacity(next, rs);
      WrapThenAdd(o, c, n - 1, n, Odometer(next), Odometer(StepTimes(next, n - 1)));
    }
  }

  /** After a run the rotors have stepped once per input symbol. */
  lemma {:induction false} RunSteps(m: Machine, input: seq<byte>)
    requires ValidMachine(m)
    ensures Run(m, input).0.rotors == StepTimes(m.rotors, |input|)
    decreases |input|
  {
    if input != [] {
      RunSteps(ProcessOne(m, input[0]).0, input[1..]);
      RunStateCons(m, input);
    }
  }

  /** A run counts the odometer up by the input length, wrapping after the
      capacity. */
  lemma {:induction false} RunOdometer(m: Machine, input: seq<byte>)
    requires ValidMachine(m)
    ensures Capacity(m.rotors) > 0
    ensures Odometer(Run(m, input).0.rotors) == (Odometer(m.rotors) + |input|) % Capacity(m.rotors)
  {
    RunSteps(m, input);
    StepTimesCounts(m.rotors, |input|);
  }

  /** The machine after a run is the stepped machine after the rest. */
  lemma RunStateCons(m: Machine, input: seq<byte>)
    requires ValidMachine(m) && input != []
    ensures Run(m, input).0 == Run(ProcessOne(m, input[0]).0, input[1..]).0
  {
  }

  /** The machine's state after a run depends only on the input length. */
  lemma {:induction false} RunState(m: Machine, a: seq<byte>, b: seq<byte>)
    requires ValidMachine(m) && |a| == |b|
    ensures Run(m, a).0 == Run(m, b).0
    decreases |a|
  {
    if a != [] {
      RunState(ProcessOne(m, a[0]).0, a[1..], b[1..]);
    }
  }

  /** The machine is self-reciprocal: a second machine in the same initial
      state turns the output back into the input. */
  lemma {:induction false} RunTwice(m: Machine, input: seq<byte>)
    requires ValidMachine(m)
    ensures Run(m, Run(m, input).1).1 == input
    decreases |input|
  {
    if input != [] {
      var x := input[0];
      var next := ProcessOne(m, x).0;
      var out := Run(m, input).1;
      RunCons(m, input);
      RunCons(m, out);
      WireInvolution(m, x);
      RunTwice(next, input[1..]);
      assert input == [x] + input[1..];
    }
  }

  /** The first byte is wired by the machine as it is, the rest by the
      stepped machine. */
  lemma RunCons(m: Machine, input: seq<byte>)
    requires ValidMachine(m) && input != []
    ensures Run(m, input).1 == [Wire(m, input[0]) as byte] + Run(ProcessOne(m, input[0]).0, input[1..]).1
  {
  }
}
