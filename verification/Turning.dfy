/** Low-resolution turning: turns rounded to a byte for a demo, the rounding error carried over. */
module Turning {
  import opened Common
  import D = Demo

  /** The turn asked for, with the error of earlier turns, as a `short`. */
  function Desired(turn: int16, carry: int16): int16 {
    ToInt16(turn + carry)
  }

  /** Rounded to the nearest multiple of 256: the low byte masked off and the rest read as a `short`. */
  function Rounded(desired: int16): int16 {
    ToInt16(desired + 128 - (desired + 128) % 256)
  }

  function CarryAfter(desired: int16): int16 {
    ToInt16(desired - Rounded(desired))
  }

  /** Equal as angles. */
  predicate SameAngle(a: int, b: int) {
    (a - b) % 0x1_0000 == 0
  }

  lemma RoundingError(desired: int16)
    ensures Rounded(desired) % 256 == 0
    ensures -128 <= CarryAfter(desired) <= 127
    ensures SameAngle(Rounded(desired) + CarryAfter(desired), desired)
  {
    var q := (desired + 128) / 256;
    assert desired + 128 - (desired + 128) % 256 == 256 * q && -128 <= q <= 128;
    assert Rounded(desired) == 256 * (if q < 128 then q else q - 256);
  }

  lemma DesiredIs(turn: int16, carry: int16)
    ensures SameAngle(Desired(turn, carry), turn + carry)
  {
  }

  lemma Congruent(a: int, b: int, c: int)
    requires SameAngle(a, b) && SameAngle(b, c)
    ensures SameAngle(a, c)
  {
  }

  /** The turn and the carry of one tic. */
  lemma TurnConserves(turn: int16, carry: int16, desired: int16)
    requires desired == Desired(turn, carry)
    ensures SameAngle(Rounded(desired) + CarryAfter(desired), turn + carry)
  {
    RoundingError(desired);
    DesiredIs(turn, carry);
    Congruent(Rounded(desired) + CarryAfter(desired), desired, turn + carry);
  }

  class Turner {
    // a static of G_BuildTiccmd, never reset
    var carry: int16

    constructor ()
      ensures carry == 0
    {
      carry := 0;
    }

    /** The low-resolution block of G_BuildTiccmd. */
    method Turn(angleturn: int16) returns (turn: int16)
      modifies this
      ensures turn == Rounded(Desired(angleturn, old(carry)))
      ensures carry == CarryAfter(Desired(angleturn, old(carry)))
      ensures turn % 256 == 0 && -128 <= carry <= 127
      ensures SameAngle(turn + carry, angleturn + old(carry))
    {
      var desired_angleturn := Desired(angleturn, carry);
      turn := Rounded(desired_angleturn);
      carry := CarryAfter(desired_angleturn);
      RoundingError(desired_angleturn);
      TurnConserves(angleturn, old(carry), desired_angleturn);
    }
  }

  // ----- runs

  /** The turns emitted for a run of requests. */
  function Emitted(requests: seq<int16>, carry: int16): seq<int16>
    decreases |requests|
  {
    if requests == [] then []
    else
      var d := Desired(requests[0], carry);
      [Rounded(d)] + Emitted(requests[1..], CarryAfter(d))
  }

  function FinalCarry(requests: seq<int16>, carry: int16): int16
    decreases |requests|
  {
    if requests == [] then carry else FinalCarry(requests[1..], CarryAfter(Desired(requests[0], carry)))
  }

  function Sum(xs: seq<int16>): int {
    if xs == [] then 0 else xs[0] + Sum(xs[1..])
  }

  lemma Chain(first: int, c: int, wanted: int, rest: int, wantedRest: int)
    requires SameAngle(first + c, wanted) && SameAngle(rest, wantedRest + c)
    ensures SameAngle(first + rest, wantedRest + wanted)
  {
  }

  /** No turning is lost or made up: over any run the turns emitted and the final carry add up to the
      turns requested and the first carry, as angles; and the error never exceeds half a step. */
  lemma {:induction false} TurningConserved(requests: seq<int16>, carry: int16)
    ensures SameAngle(Sum(Emitted(requests, carry)) + FinalCarry(requests, carry), Sum(requests) + carry)
    ensures requests != [] ==> -128 <= FinalCarry(requests, carry) <= 127
    decreases |requests|
  {
    if requests != [] {
      var d := Desired(requests[0], carry);
      var c := CarryAfter(d);
      var rest := Emitted(requests[1..], c);
      RoundingError(d);
      TurningConserved(requests[1..], c);
      assert Emitted(requests, carry)[1..] == rest;
      assert Sum(Emitted(requests, carry)) == Rounded(d) + Sum(rest);
      TurnConserves(requests[0], carry, d);
      Chain(Rounded(d), c, requests[0] + carry, Sum(rest) + FinalCarry(requests[1..], c), Sum(requests[1..]));
    }
  }

  /** A short demo keeps every low-resolution turn exactly. */
  lemma {:induction false} LowResIsLossless(requests: seq<int16>, carry: int16, k: nat, forward: int8, side: int8,
                                            buttons: byte)
    requires k < |requests|
    ensures |Emitted(requests, carry)| == |requests|
    ensures var m := D.Move(forward, side, Emitted(requests, carry)[k], buttons); D.Kept(m, false) == m
    decreases |requests|
  {
    var d := Desired(requests[0], carry);
    RoundingError(d);
    D.LosslessIff(D.Move(forward, side, Rounded(d), buttons), false);
    if |requests| > 1 {
      LowResIsLossless(requests[1..], CarryAfter(d), if k == 0 then 0 else k - 1, forward, side, buttons);
    }
  }
}
