/**
 The elimination game of joesph.c: walking round a ring, every step-th node is
 unlinked until one is left. The list head sits in the ring but is not counted.
 */
module Josephus {
  import opened Arith
  import opened Ring

  const SIZE_MAX_PLUS_1: nat := 0x1_0000_0000_0000_0000

  // ---------- the game, and who wins it ----------

  /** The game on a circle: drop number `step`, go on behind it. */
  ghost function Survivor<T>(circle: seq<T>, step: nat): T
    requires circle != [] && step > 0
    decreases |circle|
  {
    if |circle| == 1 then circle[0]
    else
      var k := (step - 1) % |circle|;
      Survivor(circle[k + 1..] + circle[..k], step)
  }

  /** Where the survivor of `m` stands, counted from the first. */
  ghost function J(m: nat, step: nat): (j: nat)
    requires m > 0
    ensures j < m
  {
    if m == 1 then 0 else (J(m - 1, step) + step) % m
  }

  /** What stands at place `j` of the circle that begins behind place `k` and leaves that out. */
  lemma BehindDropped<T>(circle: seq<T>, k: nat, j: nat)
    requires k < |circle| && j + 1 < |circle|
    ensures var i := k + 1 + j;
            (circle[k + 1..] + circle[..k])[j] == circle[if i < |circle| then i else i - |circle|]
  {
  }

  /** Counting on from the place behind the dropped one. */
  lemma PlaceBehindDropped(m: nat, step: nat)
    requires m > 1 && step > 0
    ensures var k, j := (step - 1) % m, J(m - 1, step);
            J(m, step) == if k + 1 + j < m then k + 1 + j else k + 1 + j - m
  {
    var k, j := (step - 1) % m, J(m - 1, step);
    assert J(m, step) == ((step - 1) + (j + 1)) % m;
    hide *;
    ModAdd(step - 1, j + 1, m);
    ModSmall(k + (j + 1), m);
  }

  /** The recurrence names the survivor of the game. */
  lemma {:induction false} SurvivorAt<T>(circle: seq<T>, step: nat)
    requires circle != [] && step > 0
    ensures Survivor(circle, step) == circle[J(|circle|, step)]
    decreases |circle|
  {
    var m := |circle|;
    if m > 1 {
      var k := (step - 1) % m;
      var rest := circle[k + 1..] + circle[..k];
      assert Survivor(circle, step) == Survivor(rest, step);
      hide *;
      SurvivorAt(rest, step);
      PlaceBehindDropped(m, step);
      BehindDropped(circle, k, J(m - 1, step));
    }
  }

  lemma JNext(n: nat, step: nat, j: nat)
    requires n > 1 && J(n - 1, step) == j && j + step < 2 * n
    ensures J(n, step) == if j + step < n then j + step else j + step - n
  {
    ModSmall(j + step, n);
  }

  /** The closed form for every second: of 2^m + l the one at 2 l is left. */
  lemma {:induction false} EverySecond(m: nat, l: nat)
    requires l < Pow2(m)
    ensures J(Pow2(m) + l, 2) == 2 * l
    decreases m, l
  {
    hide J;
    if l > 0 {
      EverySecond(m, l - 1);
      JNext(Pow2(m) + l, 2, 2 * (l - 1));
    } else if m > 0 {
      EverySecond(m - 1, Pow2(m - 1) - 1);
      assert Pow2(m) == 2 * Pow2(m - 1);
      JNext(Pow2(m), 2, Pow2(m) - 2);
    } else {
      JOfOne(2);
    }
  }

  lemma JOfOne(step: nat)
    ensures J(1, step) == 0
  {
  }

  // ---------- one walk along the ring ----------

  datatype Walk<T> = Walk(ring: seq<T>, counted: nat)

  /** From ring place `t` to the end: every step-th place is dropped. `c` nodes have been counted since the last. */
  ghost function Sweep<T>(r: seq<T>, t: nat, c: nat, step: nat): (w: Walk<T>)
    requires 0 < t <= |r| && c < step
    ensures 0 < |w.ring| <= |r| && w.ring[0] == r[0] && w.counted < step
    decreases |r| - t
  {
    if t == |r| then Walk(r, c)
    else if c + 1 == step then Sweep(r[..t] + r[t + 1..], t, 0, step)
    else Sweep(r, t + 1, c + 1, step)
  }

  /** Where the survivor stands when place `t` is the next to be counted. */
  ghost function SurvivorPlace(size: nat, t: nat, c: nat, step: nat): (p: nat)
    requires size > 1
    ensures 0 < p < size
  {
    1 + (t - 1 + J(size - 1, step) - c) % (size - 1)
  }

  /** In front of the dropped place the survivor stays where it is, behind it moves up by one. */
  lemma PlaceAfterDrop(m: nat, t: nat, step: nat)
    requires m > 1 && 0 < t <= m && step > 0
    ensures var x, y := SurvivorPlace(m, t, 0, step), SurvivorPlace(m + 1, t, step - 1, step);
            y == if x < t then x else x + 1
  {
    var j := J(m - 1, step);
    assert J(m, step) == (j + step) % m;
    ModAdd(j + step, t - step, m);
    ModSmall(t + j, m);
    ModSmall(t - 1 + j, m - 1);
    assert t - 1 + (j + step) % m - (step - 1) == (j + step) % m + (t - step);
  }

  /** Dropping a node leaves the survivor who it was. */
  lemma {:induction false} DropKeepsSurvivor<T>(r: seq<T>, t: nat, step: nat)
    requires 0 < t < |r| && |r| > 2 && step > 0
    ensures var s := r[..t] + r[t + 1..];
            s[SurvivorPlace(|s|, t, 0, step)] == r[SurvivorPlace(|r|, t, step - 1, step)]
  {
    hide *;
    PlaceAfterDrop(|r| - 1, t, step);
  }

  lemma {:induction false} SweepKeepsSurvivor<T>(r: seq<T>, t: nat, c: nat, step: nat)
    requires step >= 2 && 0 < t <= |r| && |r| >= 2 && c < step
    requires |r| == 2 && t == 1 ==> c == 0
    ensures var w := Sweep(r, t, c, step);
            && |w.ring| >= 2
            && w.ring[SurvivorPlace(|w.ring|, 1, w.counted, step)] == r[SurvivorPlace(|r|, t, c, step)]
            && (|w.ring| < |r| || (w.ring == r && w.counted == c + |r| - t))
    decreases |r| - t
  {
    if t == |r| {
      assert Sweep(r, t, c, step) == Walk(r, c);
      hide *;
      PlaceAtEnd(|r|, c, step);
    } else if c + 1 == step {
      var s := r[..t] + r[t + 1..];
      assert Sweep(r, t, c, step) == Sweep(s, t, 0, step);
      hide *;
      DropKeepsSurvivor(r, t, step);
      SweepKeepsSurvivor(s, t, 0, step);
    } else {
      assert Sweep(r, t, c, step) == Sweep(r, t + 1, c + 1, step);
      assert SurvivorPlace(|r|, t, c, step) == SurvivorPlace(|r|, t + 1, c + 1, step);
      hide *;
      SweepKeepsSurvivor(r, t + 1, c + 1, step);
    }
  }

  lemma PlaceAtEnd(size: nat, c: nat, step: nat)
    requires size > 1
    ensures SurvivorPlace(size, size, c, step) == SurvivorPlace(size, 1, c, step)
  {
    var x, m := J(size - 1, step) - c, size - 1;
    ModShift(x, m);
    assert SurvivorPlace(size, size, c, step) == 1 + (x + m) % m;
  }

  /** With step 1 a walk drops everything in front of it. */
  lemma {:induction false} SweepByOne<T>(r: seq<T>, t: nat)
    requires 0 < t <= |r|
    ensures Sweep(r, t, 0, 1) == Walk(r[..t], 0)
    decreases |r| - t
  {
    if t < |r| {
      SweepByOne(r[..t] + r[t + 1..], t);
      assert (r[..t] + r[t + 1..])[..t] == r[..t];
    } else {
      assert r[..t] == r;
    }
  }

  // ---------- joesph_loop ----------

  lemma CountOne(n: nat, step: nat)
    requires step > 0
    ensures (n + 1) % step == if n % step + 1 == step then 0 else n % step + 1
  {
    ModAdd(n, 1, step);
    ModSmall(n % step + 1, step);
  }

  /** joesph.c:25-36, the inner walk: from the node behind `from` to the list head. */
  method WalkOn<T>(head: ListHead<T>, from: ListHead<T>, n0: nat, step: nat, ghost ring: seq<ListHead<T>>, ghost p: nat)
    returns (cur: ListHead<T>, n: nat, ghost r: seq<ListHead<T>>)
    requires IsRing(ring) && head == ring[0] && p < |ring| && from == ring[p] && step > 0
    modifies ring
    ensures IsRing(r) && cur == head == r[0]
    ensures Walk(r, n % step) == Sweep(ring, p + 1, n0 % step, step)
    ensures forall i :: 0 <= i < |r| ==> r[i] in ring
  {
    hide IsRing, Sweep;
    RingDistinct(ring);
    r, n := ring, n0;
    ghost var t: nat := p + 1;
    Neighbours(r, p);
    cur := from.next;
    while cur != head
      invariant IsRing(r) && 0 < t <= |r| && head == r[0]
      invariant cur == if t < |r| then r[t] else head
      invariant Sweep(r, t, n % step, step) == Sweep(ring, p + 1, n0 % step, step)
      invariant forall i :: 0 <= i < |r| ==> r[i] in ring
      decreases |r| - t
    {
      CountOne(n, step);
      SweepStep(r, t, n % step, step);
      Neighbours(r, t);
      n := n + 1;
      if n % step == 0 {
        Neighbours(r, 0);
        assert r[t - 1] in ring;
        assert t + 1 < |r| ==> r[t + 1] in ring;
        ListDel(cur, r, t);
        r := r[..t] + r[t + 1..];
      } else {
        t := t + 1;
      }
      cur := cur.next;
    }
    Neighbours(r, 0);
    SweepStep(r, t, n % step, step);
  }

  lemma SweepStep<T>(r: seq<T>, t: nat, c: nat, step: nat)
    requires 0 < t <= |r| && c < step
    ensures t == |r| ==> Sweep(r, t, c, step) == Walk(r, c)
    ensures t < |r| && c + 1 == step ==> Sweep(r, t, c, step) == Sweep(r[..t] + r[t + 1..], t, 0, step)
    ensures t < |r| && c + 1 < step ==> Sweep(r, t, c, step) == Sweep(r, t + 1, c + 1, step)
  {
  }

  /** The offset the search for the starting node ends at: a start of 0 or past the end runs into the list head. */
  ghost function StartOffset(n: nat, start: nat): nat {
    if 1 <= start <= n then start - 1 else 0
  }

  /** joesph.c:13-20: finds the node in front of number `start`; the counter is unsigned and wraps. */
  method FindStart<T>(head: ListHead<T>, start0: nat, ghost ring: seq<ListHead<T>>) returns (cur: ListHead<T>, ghost p: nat)
    requires IsRing(ring) && head == ring[0] && 1 < |ring| <= SIZE_MAX_PLUS_1
    requires start0 < SIZE_MAX_PLUS_1
    ensures cur == if 1 <= start0 < |ring| then ring[start0 - 1] else ring[|ring| - 1]
    ensures p < |ring| && cur == ring[p]
    ensures if 1 <= start0 < |ring| then p == start0 - 1 else p == |ring| - 1
  {
    hide IsRing;
    var start := start0;
    Neighbours(ring, 0);
    cur := head.next;
    ghost var k := 1;
    while cur != head
      invariant 0 < k <= |ring| && cur == if k < |ring| then ring[k] else head
      invariant start == (start0 + SIZE_MAX_PLUS_1 - (k - 1)) % SIZE_MAX_PLUS_1
      invariant start0 >= k || start0 == 0
      decreases |ring| - k
    {
      start := (start + SIZE_MAX_PLUS_1 - 1) % SIZE_MAX_PLUS_1;
      if start == 0 {
        break;
      }
      Neighbours(ring, k);
      cur := cur.next;
      k := k + 1;
    }
    if k < |ring| { Neighbours(ring, k); }
    Neighbours(ring, 0);
    cur := cur.prev;
    p := k - 1;
  }

  /** The circle as the game meets it, beginning with the starting node. */
  ghost function Turned<T>(s: seq<T>, e: nat): seq<T>
    requires e <= |s|
  {
    s[e..] + s[..e]
  }

  /** Whether a game with these parameters ends with one node: a walk with step 1 may drop the last one too. */
  predicate EndsWithOne(n: nat, start: nat, step: nat) {
    step >= 2 || n == 1 || start == 2
  }

  /** The survivor the game asks for. */
  ghost function Winner<T>(ring: seq<T>, start: nat, step: nat): T
    requires |ring| > 1 && step > 0
  {
    Survivor(Turned(ring[1..], StartOffset(|ring| - 1, start)), step)
  }

  /** The closed form: index (e + J(n)) mod n, e the offset of the starting node. */
  lemma {:induction false} WinnerAt<T>(ring: seq<T>, start: nat, step: nat)
    requires |ring| > 1 && step > 0
    ensures var n := |ring| - 1;
            Winner(ring, start, step) == ring[1 + (StartOffset(n, start) + J(n, step)) % n]
  {
    var n, e := |ring| - 1, StartOffset(|ring| - 1, start);
    SurvivorAt(Turned(ring[1..], e), step);
    ModSmall(e + J(n, step), n);
  }

  /** With step 1 the last of the circle is the survivor. */
  lemma {:induction false} JByOne(m: nat)
    requires m > 0
    ensures J(m, 1) == m - 1
  {
    if m > 1 {
      JByOne(m - 1);
      ModSmall(m - 1, m);
    }
  }

  /** What is known between two walks when the step is at least 2. */
  ghost predicate OnCourse<T>(ring: seq<T>, r: seq<T>, p: nat, c: nat, start: nat, step: nat)
    requires |ring| > 1 && step > 0
  {
    && |r| >= 2 && p < |r| && c < step
    && r[SurvivorPlace(|r|, p + 1, c, step)] == Winner(ring, start, step)
  }

  /** What is known between two walks when the step is 1. */
  ghost predicate OnCourseByOne<T>(ring: seq<T>, r: seq<T>, p: nat, p0: nat)
    requires p0 < |ring|
  {
    || (p == p0 && r == ring)
    || (p == 0 && |ring| > 2 && (r == ring[..p0 + 1] || (r == ring[..1] && p0 != 1)))
  }

  lemma {:induction false} CourseStart<T>(ring: seq<T>, p: nat, start: nat, step: nat)
    requires |ring| > 1 && step > 0
    requires if 1 <= start < |ring| then p == start - 1 else p == |ring| - 1
    ensures OnCourse(ring, ring, p, 0, start, step)
  {
    WinnerAt(ring, start, step);
    ModShift(J(|ring| - 1, step), |ring| - 1);
  }

  lemma CourseStepByOne<T>(ring: seq<T>, r: seq<T>, p: nat, p0: nat)
    requires |r| > 2 && p0 < |ring| && OnCourseByOne(ring, r, p, p0)
    ensures p < |r|
    ensures var w := Sweep(r, p + 1, 0, 1);
            && OnCourseByOne(ring, w.ring, 0, p0) && w.counted == 0
            && (|w.ring| < |r| || p > 0)
  {
    SweepByOne(r, p + 1);
  }

  /** The end of the game in both cases. */
  lemma CourseEnd<T>(ring: seq<T>, r: seq<T>, p: nat, p0: nat, c: nat, start: nat, step: nat)
    requires |ring| > 1 && step > 0 && 0 < |r| <= 2 && r[0] == ring[0] && p0 < |ring|
    requires if 1 <= start < |ring| then p0 == start - 1 else p0 == |ring| - 1
    requires if step >= 2 then OnCourse(ring, r, p, c, start, step) else OnCourseByOne(ring, r, p, p0)
    ensures r == if EndsWithOne(|ring| - 1, start, step) then [ring[0], Winner(ring, start, step)] else [ring[0]]
  {
    if step >= 2 {
      assert r == [r[0], r[1]];
    } else {
      WinnerAt(ring, start, step);
      JByOne(|ring| - 1);
      if EndsWithOne(|ring| - 1, start, step) {
        var n, e := |ring| - 1, StartOffset(|ring| - 1, start);
        ModSmall(e + n - 1, n);
        assert r == [ring[0], ring[1]];
      }
    }
  }

  lemma ByOneStart<T>(ring: seq<T>, p0: nat)
    requires p0 < |ring|
    ensures OnCourseByOne(ring, ring, p0, p0)
  {
  }

  /**
   joesph.c:11-45. `last` is the node behind the list head at the end, whose
   entry the source prints. One node is left, and the right one, exactly when
   `EndsWithOne`; otherwise the walk empties the list and `last` is the head.
   */
  method JosephusLoop<T>(head: ListHead<T>, start: nat, step: nat, ghost ring: seq<ListHead<T>>)
    returns (last: ListHead<T>, ghost r: seq<ListHead<T>>)
    requires IsRing(ring) && head == ring[0] && 1 < |ring| <= SIZE_MAX_PLUS_1
    requires start < SIZE_MAX_PLUS_1 && step > 0
    modifies ring
    ensures IsRing(r)
    ensures r == if EndsWithOne(|ring| - 1, start, step) then [head, Winner(ring, start, step)] else [head]
    ensures last == r[|r| - 1]
  {
    hide IsRing, Sweep, SurvivorPlace, Survivor, Winner, J, EndsWithOne, OnCourseByOne, Turned, StartOffset;
    r := ring;
    var n: nat := 0;
    var cur, p0 := FindStart(head, start, ring);
    ghost var p: nat := p0;
    CourseStart(ring, p, start, step);
    ByOneStart(ring, p0);
    ModSmall(0, step);
    TwoOn(r);
    while head.next.next != head
      invariant IsRing(r) && 0 < |r| && head == r[0] && p < |r| && cur == r[p]
      invariant forall i :: 0 <= i < |r| ==> r[i] in ring
      invariant step >= 2 ==> OnCourse(ring, r, p, n % step, start, step)
      invariant step == 1 ==> OnCourseByOne(ring, r, p, p0) && n % step == 0
      decreases |r|, step - n % step, p
    {
      TwoOn(r);
      if step >= 2 { SweepKeepsSurvivor(r, p + 1, n % step, step); } else { CourseStepByOne(ring, r, p, p0); }
      cur, n, r := WalkOn(head, cur, n, step, r, p);
      p := 0;
      ModSmall(0, step);
    }
    TwoOn(r);
    CourseEnd(ring, r, p, p0, n % step, start, step);
    Neighbours(r, 0);
    last := head.next;
  }
}
