/**
 * The die (TrivialPursuit/Dice.py): a two-state machine on `roll`. While the
 * die shows 0 a click on it is accepted and stores a value in 1..6; any other
 * click returns 0 and changes nothing; `reset` re-arms it. The random value and
 * the pixel test `rect.collidepoint(pos)` are inputs.
 */
module DiceState {

  /** What one click does: the new `roll` and the value `clicked` returns. */
  function Step(roll: int, hit: bool, value: int): (r: (int, int))
    requires 1 <= value <= 6
    ensures r.1 != 0 <==> roll == 0 && hit
    ensures r.1 != 0 ==> r.0 == r.1 == value && 1 <= r.1 <= 6
    ensures r.1 == 0 ==> r.0 == roll
  {
    if roll == 0 && hit then (value, value) else (roll, 0)
  }

  /** One click of a sequence: whether the pixel test hit, and the value `randint(1, 6)` would give. */
  datatype Click = Click(hit: bool, value: int)

  predicate ValidClicks(clicks: seq<Click>) {
    forall k :: 0 <= k < |clicks| ==> 1 <= clicks[k].value <= 6
  }

  /** The number of clicks in `clicks` that the die accepts, starting from `roll`. */
  function Accepted(roll: int, clicks: seq<Click>): nat
    requires ValidClicks(clicks)
    decreases |clicks|
  {
    if clicks == [] then 0
    else
      var s := Step(roll, clicks[0].hit, clicks[0].value);
      (if s.1 != 0 then 1 else 0) + Accepted(s.0, clicks[1..])
  }

  /** Without a reset in between, at most one roll is accepted, and none once the die shows a value. */
  lemma {:induction false} AtMostOneRollPerReset(roll: int, clicks: seq<Click>)
    requires 0 <= roll <= 6
    requires ValidClicks(clicks)
    ensures Accepted(roll, clicks) <= (if roll == 0 then 1 else 0)
    decreases |clicks|
  {
    if clicks != [] {
      var s := Step(roll, clicks[0].hit, clicks[0].value);
      assert ValidClicks(clicks[1..]);
      AtMostOneRollPerReset(s.0, clicks[1..]);
    }
  }

  /** From a re-armed die, exactly one roll is accepted iff some click hits; from a
      die showing a value, none is. */
  lemma {:induction false} AcceptedExactly(roll: int, clicks: seq<Click>)
    requires 0 <= roll <= 6
    requires ValidClicks(clicks)
    ensures roll != 0 ==> Accepted(roll, clicks) == 0
    ensures roll == 0 ==> (Accepted(roll, clicks) == 1 <==> exists k :: 0 <= k < |clicks| && clicks[k].hit)
    decreases |clicks|
  {
    if clicks != [] {
      var s := Step(roll, clicks[0].hit, clicks[0].value);
      assert ValidClicks(clicks[1..]);
      AcceptedExactly(s.0, clicks[1..]);
      if roll == 0 && !clicks[0].hit && exists k :: 0 <= k < |clicks| && clicks[k].hit {
        var k :| 0 <= k < |clicks| && clicks[k].hit;
        assert clicks[1..][k - 1].hit;
      }
      if roll == 0 && !clicks[0].hit && exists k :: 0 <= k < |clicks[1..]| && clicks[1..][k].hit {
        var k :| 0 <= k < |clicks[1..]| && clicks[1..][k].hit;
        assert clicks[k + 1].hit;
      }
    }
  }

  class Dice {
    var roll: int

    ghost predicate Valid()
      reads this
    {
      0 <= roll <= 6
    }

    constructor ()
      ensures Valid()
      ensures roll == 0
    {
      roll := 0;
    }

    /** `clicked`: `hit` is the pixel test, `value` the random roll. */
    method Clicked(hit: bool, value: int) returns (r: int)
      requires Valid()
      requires 1 <= value <= 6
      modifies this`roll
      ensures Valid()
      ensures old(roll) == 0 && hit ==> roll == value && r == value
      ensures !(old(roll) == 0 && hit) ==> roll == old(roll) && r == 0
      ensures r != 0 <==> old(roll) == 0 && hit
      ensures (roll, r) == Step(old(roll), hit, value)
    {
      var wasClicked := roll == 0 && hit;
      if wasClicked {
        roll := value;
        return roll;
      }
      return 0;
    }

    /** `reset`: back to 0, so that the next hit is accepted again. */
    method Reset()
      modifies this`roll
      ensures Valid()
      ensures roll == 0
      ensures forall v :: 1 <= v <= 6 ==> Step(roll, true, v).1 == v
    {
      roll := 0;
    }
  }
}
