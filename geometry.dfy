/** Angle model of the timeline ring: where every dot sits relative to the
    active dot. Angles are counted in steps of 360/n degrees, so that the
    dot `j` steps after the active one lies `j * (360/n)` degrees away. */
module Geometry {
  import opened Arith

  datatype Option<T> = None | Some(value: T)

  /** One entry of the list that `getDotsDegrees` returns: the dot's index
      and its offset from the active dot, in steps of 360/n degrees. */
  datatype Dot = Dot(index: int, steps: int)

  /** The list `[0, 1, ..., n-1]`. */
  function Range(n: nat): (r: seq<int>)
  {
    seq(n, i => i)
  }

  /** The list of dots rotated to start at the active dot `a`, each entry
      numbered with its position in the rotated list. */
  function DotsDegrees(a: int, n: nat): (r: seq<Dot>)
    requires 0 <= a <= n
  {
    var dots := Range(n);
    var rotated := dots[a..] + dots[..a];
    seq(|rotated|, j requires 0 <= j < |rotated| => Dot(rotated[j], j))
  }

  /** `getDotsDegrees`: push 0..n-1, rotate with slice/concat, number with map. */
  method GetDotsDegrees(a: int, n: nat) returns (r: seq<Dot>)
    requires 0 <= a <= n
    ensures r == DotsDegrees(a, n)
  {
    var dots: seq<int> := [];
    for i := 0 to n
      invariant |dots| == i
      invariant forall k :: 0 <= k < i ==> dots[k] == k
    {
      dots := dots + [i];
    }
    assert dots == Range(n);
    var rotated := dots[a..n] + dots[..a];
    r := seq(|rotated|, j requires 0 <= j < |rotated| => Dot(rotated[j], j));
  }

  /** Entry `j` of the rotated list is dot `(a + j) mod n`, `j` steps from the active dot. */
  lemma DotsDegreesAt(a: int, n: nat, j: int)
    requires 0 <= a <= n && 0 <= j < n
    ensures |DotsDegrees(a, n)| == n
    ensures DotsDegrees(a, n)[j] == Dot((a + j) % n, j)
  {
    var dots := Range(n);
    var rotated := dots[a..] + dots[..a];
    assert |rotated| == n;
    ModInRange(a + j, n);
    if a + j < n {
      assert rotated[j] == dots[a..][j] == a + j;
    } else {
      assert rotated[j] == dots[..a][j - (n - a)] == a + j - n;
    }
  }

  /** How far dot `t` is from the active dot `a`, in steps: `(t - a) mod n`. */
  function Offset(a: int, t: int, n: nat): (k: int)
    requires 0 <= a <= n && 0 <= t < n
    ensures 0 <= k < n
  {
    if t >= a then t - a else t - a + n
  }

  /** The offset is the remainder of `t - a` modulo n, and stepping that far
      from `a` (modulo n) lands on `t`. */
  lemma OffsetIsMod(a: int, t: int, n: nat)
    requires 0 <= a <= n && 0 <= t < n
    ensures Offset(a, t, n) == (t - a) % n
    ensures (a + Offset(a, t, n)) % n == t
  {
    ModInRange(t - a, n);
    ModInRange(a + Offset(a, t, n), n);
  }

  /** The list has n entries: the active dot first at offset 0, every index in
      [0, n), offsets strictly increasing and below a full turn. */
  lemma DotsDegreesShape(a: int, n: nat)
    requires 0 <= a < n
    ensures |DotsDegrees(a, n)| == n
    ensures DotsDegrees(a, n)[0] == Dot(a, 0)
    ensures forall j :: 0 <= j < n ==> 0 <= DotsDegrees(a, n)[j].index < n
    ensures forall j :: 0 <= j < n ==> DotsDegrees(a, n)[j].steps == j
  {
    DotsDegreesAt(a, n, 0);
    forall j | 0 <= j < n
      ensures 0 <= DotsDegrees(a, n)[j].index < n && DotsDegrees(a, n)[j].steps == j
    {
      DotsDegreesAt(a, n, j);
    }
  }

  /** Every index of [0, n) appears exactly once: dot `t` sits at position
      `Offset(a, t, n)`, and no two positions hold the same dot. */
  lemma DotsDegreesPermutation(a: int, n: nat)
    requires 0 <= a < n
    ensures |DotsDegrees(a, n)| == n
    ensures forall t :: 0 <= t < n ==> DotsDegrees(a, n)[Offset(a, t, n)] == Dot(t, Offset(a, t, n))
    ensures forall j, k :: 0 <= j < k < n ==> DotsDegrees(a, n)[j].index != DotsDegrees(a, n)[k].index
  {
    var r := DotsDegrees(a, n);
    DotsDegreesAt(a, n, 0);
    forall t | 0 <= t < n
      ensures r[Offset(a, t, n)] == Dot(t, Offset(a, t, n))
    {
      OffsetIsMod(a, t, n);
      DotsDegreesAt(a, n, Offset(a, t, n));
    }
    forall j, k | 0 <= j < k < n
      ensures r[j].index != r[k].index
    {
      DotsDegreesAt(a, n, j);
      DotsDegreesAt(a, n, k);
      ModDistinct(a + j, a + k, n);
    }
  }

  /** Two numbers in [0, 2n) less than n apart have different remainders. */
  lemma ModDistinct(x: int, y: int, n: nat)
    requires 0 <= x < y < x + n && y < 2 * n
    ensures x % n != y % n
  {
    ModInRange(x, n);
    ModInRange(y, n);
  }

  /** `Array.prototype.find` on the dots: the first entry with the given index. */
  function Find(dots: seq<Dot>, t: int): (r: Option<Dot>)
    ensures r.Some? ==> r.value in dots && r.value.index == t
    ensures r.None? <==> forall d :: d in dots ==> d.index != t
  {
    if dots == [] then None
    else if dots[0].index == t then Some(dots[0])
    else Find(dots[1..], t)
  }

  /** Find returns the first match. */
  lemma {:induction false} FindFirst(dots: seq<Dot>, t: int, j: int)
    requires 0 <= j < |dots| && dots[j].index == t
    requires forall i :: 0 <= i < j ==> dots[i].index != t
    ensures Find(dots, t) == Some(dots[j])
  {
    if j > 0 {
      FindFirst(dots[1..], t, j - 1);
    }
  }

  /** Looking up dot `t` in the list for active dot `a` yields offset `(t - a) mod n`;
      an index outside [0, n) is not found. */
  lemma FindOffset(a: int, n: nat, t: int)
    requires 0 <= a < n
    ensures 0 <= t < n ==> Find(DotsDegrees(a, n), t) == Some(Dot(t, Offset(a, t, n)))
    ensures !(0 <= t < n) ==> Find(DotsDegrees(a, n), t) == None
  {
    var r := DotsDegrees(a, n);
    DotsDegreesShape(a, n);
    if 0 <= t < n {
      DotsDegreesPermutation(a, n);
      FindFirst(r, t, Offset(a, t, n));
    } else {
      forall d | d in r
        ensures d.index != t
      {
        var j :| 0 <= j < n && r[j] == d;
      }
    }
  }
}
