/** The pure rules behind one movement tick of the snake: how the tail records
    the previous head, how the latched flags move the head, and when the round
    ends. */
module SnakeRules {
  import opened Grid
  import opened Keys

  /** The tail after recording `head` in front of it and dropping the last entry
      when the result would be longer than `length` (`unshift`, then one `pop`). */
  function Shifted(tail: seq<Pos>, head: Pos, length: nat): (r: seq<Pos>)
    ensures |r| == if |tail| + 1 > length then |tail| else |tail| + 1
    ensures length >= 1 ==> r[0] == head
    ensures forall i :: 1 <= i < |r| ==> r[i] == tail[i - 1]
    ensures |tail| <= length ==> |r| <= length
  {
    var t := [head] + tail;
    if |t| > length then t[..|t| - 1] else t
  }

  function Unit(flag: bool): int {
    if flag then 1 else 0
  }

  /** The head after applying, one after the other, the step of every set flag. */
  function Step(p: Pos, k: Flags): Pos
    requires WellFormed(k)
  {
    Pos(p.x - Unit(k[ArrowLeft]) + Unit(k[ArrowRight]),
        p.y - Unit(k[ArrowUp]) + Unit(k[ArrowDown]))
  }

  /** The neighbouring cell one unit step away in direction `a` (screen
      coordinates: up decreases y). */
  function Neighbour(p: Pos, a: Arrow): Pos {
    match a
    case ArrowUp => Pos(p.x, p.y - 1)
    case ArrowDown => Pos(p.x, p.y + 1)
    case ArrowLeft => Pos(p.x - 1, p.y)
    case ArrowRight => Pos(p.x + 1, p.y)
  }

  /** The new head ends the round: outside the field, or on a tail segment. */
  predicate Collision(head: Pos, tail: seq<Pos>, cols: nat, rows: nat) {
    !InBounds(head, cols, rows) || head in tail
  }

  /** With exactly one flag latched the head moves one cell in that direction and
      keeps its other coordinate. */
  lemma StepIsUnitMove(p: Pos, k: Flags, a: Arrow)
    requires WellFormed(k) && AtMostOne(k) && k[a]
    ensures Step(p, k) == Neighbour(p, a)
  {
  }

  /** With no flag latched the head stays where it is. */
  lemma StepWithoutDirection(p: Pos, k: Flags)
    requires WellFormed(k) && NoneHeld(k)
    ensures Step(p, k) == p
  {
  }

  /** A move with no direction latched always ends the round: the unmoved head
      meets the previous head that was just recorded at the front of the tail. */
  lemma NoDirectionEndsRound(p: Pos, tail: seq<Pos>, length: nat, k: Flags, cols: nat, rows: nat)
    requires WellFormed(k) && NoneHeld(k) && length >= 1
    ensures Collision(Step(p, k), Shifted(tail, p, length), cols, rows)
  {
  }

  /** A step off any of the four edges ends the round, whatever the tail holds. */
  lemma EdgeStepEndsRound(p: Pos, a: Arrow, tail: seq<Pos>, cols: nat, rows: nat)
    requires InBounds(p, cols, rows)
    requires (a == ArrowLeft && p.x == 0) || (a == ArrowRight && p.x == cols - 1) ||
             (a == ArrowUp && p.y == 0) || (a == ArrowDown && p.y == rows - 1)
    ensures Collision(Neighbour(p, a), tail, cols, rows)
  {
  }

  /** The first tick of a round, from the starting layout with the up arrow held:
      the recorded tail repeats the start cell, and the round goes on exactly when
      the field has at least 11 columns and 15 rows. */
  lemma FirstTick(cols: nat, rows: nat)
    ensures Shifted([Pos(10, 15), Pos(10, 16), Pos(10, 17)], Pos(10, 15), 3)
         == [Pos(10, 15), Pos(10, 15), Pos(10, 16)]
    ensures Step(Pos(10, 15), Only(ArrowUp)) == Pos(10, 14)
    ensures !Collision(Pos(10, 14), [Pos(10, 15), Pos(10, 15), Pos(10, 16)], cols, rows)
        <==> cols >= 11 && rows >= 15
  {
  }

  /** A tick to the left from (5, 5) with a two-entry tail on a 10 by 10 field:
      the tail gains the old head without losing an entry, since it was shorter
      than the length 3. */
  lemma LeftTickExample()
    ensures Shifted([Pos(6, 5), Pos(7, 5)], Pos(5, 5), 3) == [Pos(5, 5), Pos(6, 5), Pos(7, 5)]
    ensures Step(Pos(5, 5), Only(ArrowLeft)) == Pos(4, 5)
    ensures !Collision(Pos(4, 5), [Pos(5, 5), Pos(6, 5), Pos(7, 5)], Cells(250), Cells(250))
  {
  }

  /** The reversal guard only looks at the arrow held at the moment of the press:
      after a tick in direction `a` from `p`, pressing a perpendicular arrow and
      then the reverse of `a` before the next tick latches the reverse, and that
      next tick brings the head back onto `p`, the segment behind it. */
  lemma {:induction false} TwoPressReversal(p: Pos, tail: seq<Pos>, length: nat, a: Arrow, b: Arrow, cols: nat, rows: nat)
    requires length >= 2
    requires b != a && b != Opposite(a)
    ensures Latch(Latch(Only(a), b), Opposite(a)) == Only(Opposite(a))
    ensures Collision(Step(Neighbour(p, a), Only(Opposite(a))),
                      Shifted(Shifted(tail, p, length), Neighbour(p, a), length), cols, rows)
  {
    LatchWhileHolding(a, b);
    LatchWhileHolding(b, Opposite(a));
    var q := Neighbour(p, a);
    StepIsUnitMove(q, Only(Opposite(a)), Opposite(a));
    assert Neighbour(q, Opposite(a)) == p;
    var once := Shifted(tail, p, length);
    assert once[0] == p;
    assert Shifted(once, q, length)[1] == p;
  }
}
