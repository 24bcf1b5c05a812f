/** The per-frame apple check. The frame walks the apple list with `forEach`,
    whose index range is fixed before the first visit; an apple on the head is
    removed with `splice(index, 1)` and a new one is pushed at the end, so the
    list keeps its length, the apple that shifts into the visited index is not
    looked at in that frame, and a pushed apple can be reached by a later index. */
module Apples {
  import opened Grid

  /** What one frame leaves behind: the apple list and the number of apples eaten. */
  datatype Eaten = Eaten(apples: seq<Pos>, count: nat)

  /** The frame's walk from index `k` on. `spawn` supplies, in order, the positions
      of the apples pushed to replace eaten ones. */
  function EatFrom(apples: seq<Pos>, head: Pos, spawn: seq<Pos>, k: nat): (r: Eaten)
    requires |spawn| >= |apples| - k
    decreases |apples| - k
  {
    if k >= |apples| then Eaten(apples, 0)
    else if apples[k] == head then
      var r := EatFrom(apples[..k] + apples[k + 1..] + [spawn[0]], head, spawn[1..], k + 1);
      Eaten(r.apples, r.count + 1)
    else
      EatFrom(apples, head, spawn, k + 1)
  }

  /** The whole frame. */
  function Eat(apples: seq<Pos>, head: Pos, spawn: seq<Pos>): Eaten
    requires |spawn| >= |apples|
  {
    EatFrom(apples, head, spawn, 0)
  }

  /** The apples not lying on the head, in their order. */
  function Uneaten(s: seq<Pos>, head: Pos): (r: seq<Pos>)
    ensures |r| <= |s|
    ensures forall p :: p in r ==> p in s && p != head
  {
    if s == [] then []
    else if s[0] == head then Uneaten(s[1..], head)
    else [s[0]] + Uneaten(s[1..], head)
  }

  lemma {:induction false} UneatenAppend(s: seq<Pos>, t: seq<Pos>, head: Pos)
    ensures Uneaten(s + t, head) == Uneaten(s, head) + Uneaten(t, head)
  {
    if s == [] {
      assert s + t == t;
    } else {
      assert (s + t)[1..] == s[1..] + t;
      UneatenAppend(s[1..], t, head);
    }
  }

  /** Each eaten apple is replaced by one pushed apple, so the list keeps its size,
      and no more apples are eaten than indices remain to visit. */
  lemma {:induction false} EatKeepsSize(apples: seq<Pos>, head: Pos, spawn: seq<Pos>, k: nat)
    requires |spawn| >= |apples| - k
    ensures |EatFrom(apples, head, spawn, k).apples| == |apples|
    ensures k <= |apples| ==> EatFrom(apples, head, spawn, k).count <= |apples| - k
    ensures k > |apples| ==> EatFrom(apples, head, spawn, k).count == 0
    decreases |apples| - k
  {
    if k >= |apples| {
    } else if apples[k] == head {
      EatKeepsSize(apples[..k] + apples[k + 1..] + [spawn[0]], head, spawn[1..], k + 1);
    } else {
      EatKeepsSize(apples, head, spawn, k + 1);
    }
  }

  /** Only apples on the head are removed, and apples are only appended: the apples
      away from the head, old ones followed by the pushed ones, keep their order. */
  lemma {:induction false} EatKeepsOrder(apples: seq<Pos>, head: Pos, spawn: seq<Pos>, k: nat)
    requires |spawn| >= |apples| - k
    ensures EatFrom(apples, head, spawn, k).count <= |spawn|
    ensures Uneaten(EatFrom(apples, head, spawn, k).apples, head)
         == Uneaten(apples + spawn[..EatFrom(apples, head, spawn, k).count], head)
    decreases |apples| - k
  {
    EatKeepsSize(apples, head, spawn, k);
    var r := EatFrom(apples, head, spawn, k);
    if k >= |apples| {
      assert apples + spawn[..0] == apples;
    } else if apples[k] == head {
      var next := apples[..k] + apples[k + 1..] + [spawn[0]];
      var r' := EatFrom(next, head, spawn[1..], k + 1);
      EatKeepsOrder(next, head, spawn[1..], k + 1);
      var rest := spawn[1..][..r'.count];
      assert spawn[..r.count] == [spawn[0]] + rest;
      assert apples == apples[..k] + [apples[k]] + apples[k + 1..];
      calc {
        Uneaten(apples + spawn[..r.count], head);
        { assert apples + spawn[..r.count] == apples[..k] + ([apples[k]] + (apples[k + 1..] + ([spawn[0]] + rest))); }
        Uneaten(apples[..k] + ([apples[k]] + (apples[k + 1..] + ([spawn[0]] + rest))), head);
        { UneatenAppend(apples[..k], [apples[k]] + (apples[k + 1..] + ([spawn[0]] + rest)), head);
          UneatenAppend([apples[k]], apples[k + 1..] + ([spawn[0]] + rest), head);
          assert Uneaten([apples[k]], head) == []; }
        Uneaten(apples[..k], head) + Uneaten(apples[k + 1..] + ([spawn[0]] + rest), head);
        { UneatenAppend(apples[..k], apples[k + 1..] + ([spawn[0]] + rest), head); }
        Uneaten(apples[..k] + (apples[k + 1..] + ([spawn[0]] + rest)), head);
        { assert apples[..k] + (apples[k + 1..] + ([spawn[0]] + rest)) == next + rest; }
        Uneaten(next + rest, head);
      }
    } else {
      EatKeepsOrder(apples, head, spawn, k + 1);
    }
  }

  /** A frame eats at least one apple exactly when some apple from the visited
      index on lies on the head: the first such apple is always reached. */
  lemma {:induction false} EatsSomeIff(apples: seq<Pos>, head: Pos, spawn: seq<Pos>, k: nat)
    requires k <= |apples| && |spawn| >= |apples| - k
    ensures EatFrom(apples, head, spawn, k).count > 0 <==> head in apples[k..]
    decreases |apples| - k
  {
    if k == |apples| {
    } else if apples[k] == head {
    } else {
      EatsSomeIff(apples, head, spawn, k + 1);
      assert apples[k..] == [apples[k]] + apples[k + 1..];
    }
  }

  /** Two apples on the head next to each other: the second one shifts into the
      index just visited and is not eaten in this frame. */
  lemma AdjacentApplesSkipped()
    ensures Eat([Pos(3, 3), Pos(3, 3), Pos(0, 0), Pos(1, 1), Pos(2, 2)], Pos(3, 3),
                [Pos(4, 4), Pos(4, 4), Pos(4, 4), Pos(4, 4), Pos(4, 4)])
         == Eaten([Pos(3, 3), Pos(0, 0), Pos(1, 1), Pos(2, 2), Pos(4, 4)], 1)
  {
    var after := [Pos(3, 3), Pos(0, 0), Pos(1, 1), Pos(2, 2), Pos(4, 4)];
    var spare := [Pos(4, 4), Pos(4, 4), Pos(4, 4), Pos(4, 4)];
    assert EatFrom(after, Pos(3, 3), spare, 1) == Eaten(after, 0) by {
      assert EatFrom(after, Pos(3, 3), spare, 4) == Eaten(after, 0);
      assert EatFrom(after, Pos(3, 3), spare, 3) == Eaten(after, 0);
      assert EatFrom(after, Pos(3, 3), spare, 2) == Eaten(after, 0);
    }
    var before := [Pos(3, 3), Pos(3, 3), Pos(0, 0), Pos(1, 1), Pos(2, 2)];
    var spawn := [Pos(4, 4)] + spare;
    assert before[..0] + before[1..] + [spawn[0]] == after;
    assert spawn[1..] == spare;
  }

  /** An apple pushed onto the head's cell after a removal is reached at the last
      index and eaten in the same frame. */
  lemma PushedAppleEatenSameFrame()
    ensures Eat([Pos(3, 3), Pos(0, 0), Pos(1, 1), Pos(2, 2), Pos(5, 5)], Pos(3, 3),
                [Pos(3, 3), Pos(4, 4), Pos(4, 4), Pos(4, 4), Pos(4, 4)])
         == Eaten([Pos(0, 0), Pos(1, 1), Pos(2, 2), Pos(5, 5), Pos(4, 4)], 2)
  {
    var shifted := [Pos(0, 0), Pos(1, 1), Pos(2, 2), Pos(5, 5), Pos(3, 3)];
    var after := [Pos(0, 0), Pos(1, 1), Pos(2, 2), Pos(5, 5), Pos(4, 4)];
    var spare := [Pos(4, 4), Pos(4, 4), Pos(4, 4), Pos(4, 4)];
    assert EatFrom(shifted, Pos(3, 3), spare, 1) == Eaten(after, 1) by {
      assert EatFrom(after, Pos(3, 3), spare[1..], 5) == Eaten(after, 0);
      assert EatFrom(shifted, Pos(3, 3), spare, 4) == Eaten(after, 1);
      assert EatFrom(shifted, Pos(3, 3), spare, 3) == Eaten(after, 1);
      assert EatFrom(shifted, Pos(3, 3), spare, 2) == Eaten(after, 1);
      assert shifted[..4] + shifted[5..] + [spare[0]] == after;
    }
    var before := [Pos(3, 3), Pos(0, 0), Pos(1, 1), Pos(2, 2), Pos(5, 5)];
    var spawn := [Pos(3, 3)] + spare;
    assert before[..0] + before[1..] + [spawn[0]] == shifted;
    assert spawn[1..] == spare;
  }
}
