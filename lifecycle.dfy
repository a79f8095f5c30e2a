/** One lifetime of the component as React drives it: the first render, the
    layout effect, the first run of the selection effects, a run of user
    inputs (each change of the active dot re-renders and re-runs the effects
    after the previous run's cleanup), and the unmount cleanups. */
module Lifecycle {
  import opened Geometry
  import opened Planner
  import opened Timeline

  /** What the user does: click dot `index`, or press the prev or next button. */
  datatype Input = Select(index: int) | Prev | Next

  /** Every dot click names a dot of the ring. */
  predicate InRange(n: nat, inputs: seq<Input>)
  {
    forall i :: 0 <= i < |inputs| ==> (inputs[i].Select? ==> 0 <= inputs[i].index < n)
  }

  /** The dot an input asks for while `a` is active; a press on a disabled
      button (prev at the first dot, next at the last) asks for `a` itself. */
  function Resolve(a: int, n: nat, input: Input): (t: int)
    requires 0 <= a < n
    requires input.Select? ==> 0 <= input.index < n
    ensures 0 <= t < n
    ensures input.Prev? ==> (t == a <==> a == 0)
    ensures input.Next? ==> (t == a <==> a == n - 1)
  {
    match input
    case Select(index) => index
    case Prev => if a > 0 then a - 1 else a
    case Next => if a < n - 1 then a + 1 else a
  }

  /** The dots a run of inputs selects, one after the other, starting from `a`. */
  function Targets(n: nat, a: int, inputs: seq<Input>): (r: seq<int>)
    requires 0 <= a < n && InRange(n, inputs)
    ensures |r| == |inputs| && forall j :: 0 <= j < |r| ==> 0 <= r[j] < n
    decreases |inputs|
  {
    if inputs == [] then []
    else
      var t := Resolve(a, n, inputs[0]);
      assert InRange(n, inputs[1..]) by {
        forall i | 0 <= i < |inputs[1..]|
          ensures inputs[1..][i].Select? ==> 0 <= inputs[1..][i].index < n
        {
          assert inputs[1..][i] == inputs[i + 1];
        }
      }
      [t] + Targets(n, t, inputs[1..])
  }

  /** Dot clicks only: the dots selected are exactly the dots clicked. */
  lemma {:induction false} ClicksAreTargets(n: nat, a: int, clicks: seq<int>)
    requires 0 <= a < n
    requires forall i :: 0 <= i < |clicks| ==> 0 <= clicks[i] < n
    ensures InRange(n, seq(|clicks|, i requires 0 <= i < |clicks| => Select(clicks[i])))
    ensures Targets(n, a, seq(|clicks|, i requires 0 <= i < |clicks| => Select(clicks[i]))) == clicks
    decreases |clicks|
  {
    var inputs := seq(|clicks|, i requires 0 <= i < |clicks| => Select(clicks[i]));
    if clicks != [] {
      var rest := clicks[1..];
      var restInputs := seq(|rest|, i requires 0 <= i < |rest| => Select(rest[i]));
      assert inputs[1..] == restInputs;
      ClicksAreTargets(n, clicks[0], rest);
      assert Targets(n, a, inputs) == [clicks[0]] + Targets(n, clicks[0], restInputs);
    }
  }

  /** How many of the selections change the active dot, starting from dot `a`. */
  function Changes(a: int, targets: seq<int>): (k: nat)
    decreases |targets|
  {
    if targets == [] then 0
    else (if targets[0] != a then 1 else 0) + Changes(targets[0], targets[1..])
  }

  /** One input to the mounted component: a dot click or a button press. The
      ring turns to the dot the input asks for; when the active dot changed, the
      year spans show its entry and the list fades in once more, and otherwise
      the spans and the pending fade are left alone. */
  method Apply(ring: Ring, input: Input)
    requires ring.Valid() && ring.mounted && ring.renderCount == 1
    requires input.Select? ==> 0 <= input.index < ring.n
    modifies ring`activeIndex, ring`circleRot, ring.dotRot, ring`firstYearText, ring`lastYearText
    modifies ring`renderCount, ring`fadeLive, ring`fadesIssued, ring`fadesKilled
    ensures ring.Valid() && ring.mounted && ring.renderCount == 1
    ensures ring.activeIndex == Resolve(old(ring.activeIndex), ring.n, input)
    ensures ring.circleRot == old(ring.circleRot) + Turn(old(ring.activeIndex), ring.activeIndex, ring.n)
    ensures ring.fadesIssued == old(ring.fadesIssued) + (if ring.activeIndex != old(ring.activeIndex) then 1 else 0)
    ensures ring.activeIndex != old(ring.activeIndex) ==> ring.ShowsActiveYears() && ring.fadeLive
    ensures ring.activeIndex == old(ring.activeIndex) ==>
      ring.firstYearText == old(ring.firstYearText) && ring.lastYearText == old(ring.lastYearText) &&
      ring.fadeLive == old(ring.fadeLive) && ring.fadesKilled == old(ring.fadesKilled)
  {
    match input
    case Select(k) => ring.Click(k);
    case Prev => ring.PressPrev();
    case Next => ring.PressNext();
  }

  /** Peeling the first input off a run: it selects `Resolve(a, n, inputs[0])`,
      and the rest of the run continues from there. */
  lemma RunStep(n: nat, a: int, c: int, c': int, inputs: seq<Input>)
    requires 0 <= a < n && InRange(n, inputs) && inputs != []
    requires c' == c + Turn(a, Resolve(a, n, inputs[0]), n)
    ensures InRange(n, inputs[1..])
    ensures var t := Resolve(a, n, inputs[0]);
      Replay(n, a, c, Targets(n, a, inputs)) == Replay(n, t, c', Targets(n, t, inputs[1..])) &&
      Changes(a, Targets(n, a, inputs)) == (if t != a then 1 else 0) + Changes(t, Targets(n, t, inputs[1..]))
  {
    var t := Resolve(a, n, inputs[0]);
    var rest := Targets(n, t, inputs[1..]);
    assert Targets(n, a, inputs) == [t] + rest;
    assert ([t] + rest)[0] == t && ([t] + rest)[1..] == rest;
  }

  /** A run of inputs to the mounted component, one after the other: the ring
      ends where `Replay` of the selected dots puts it, the year spans still
      show the active entry, and one fade-in is issued per input that changed
      the active dot; a fade is pending afterwards if one was before or any
      input issued one. */
  method Run(ring: Ring, inputs: seq<Input>)
    requires ring.Valid() && ring.mounted && ring.renderCount == 1 && InRange(ring.n, inputs)
    requires ring.ShowsActiveYears()
    modifies ring`activeIndex, ring`circleRot, ring.dotRot, ring`firstYearText, ring`lastYearText
    modifies ring`renderCount, ring`fadeLive, ring`fadesIssued, ring`fadesKilled
    ensures ring.Valid() && ring.mounted && ring.renderCount == 1 && ring.ShowsActiveYears()
    ensures ring.fadeLive == (old(ring.fadeLive) || ring.fadesIssued > old(ring.fadesIssued))
    ensures (ring.activeIndex, ring.circleRot)
      == Replay(ring.n, old(ring.activeIndex), old(ring.circleRot), Targets(ring.n, old(ring.activeIndex), inputs))
    ensures ring.fadesIssued
      == old(ring.fadesIssued) + Changes(old(ring.activeIndex), Targets(ring.n, old(ring.activeIndex), inputs))
  {
    var n := ring.n;
    ghost var targets := Targets(n, ring.activeIndex, inputs);
    ghost var replayed := Replay(n, ring.activeIndex, ring.circleRot, targets);
    ghost var changes := ring.fadesIssued + Changes(ring.activeIndex, targets);
    ghost var live0, issued0 := ring.fadeLive, ring.fadesIssued;
    var i := 0;
    while i < |inputs|
      invariant 0 <= i <= |inputs|
      invariant ring.Valid() && ring.mounted && ring.n == n && ring.renderCount == 1
      invariant ring.ShowsActiveYears()
      invariant ring.fadesIssued >= issued0 && ring.fadeLive == (live0 || ring.fadesIssued > issued0)
      invariant InRange(n, inputs[i..])
      invariant replayed == Replay(n, ring.activeIndex, ring.circleRot, Targets(n, ring.activeIndex, inputs[i..]))
      invariant changes == ring.fadesIssued + Changes(ring.activeIndex, Targets(n, ring.activeIndex, inputs[i..]))
    {
      ghost var before, c0 := ring.activeIndex, ring.circleRot;
      assert inputs[i..][0] == inputs[i] && inputs[i..][1..] == inputs[i + 1..];
      Apply(ring, inputs[i]);
      RunStep(n, before, c0, ring.circleRot, inputs[i..]);
      i := i + 1;
    }
    assert inputs[i..] == [];
  }

  /** Mount, feed the given inputs, unmount. The ring ends turned so that the
      active dot (the last one selected) sits at the reference axis; the list
      fades in once per input that changed the active dot and never on the
      first render; the year spans show the active entry's years; and after
      unmounting every dot container exactly cancels the circle's rotation. */
  method Session(entries: seq<Entry>, inputs: seq<Input>)
    returns (active: int, circle: int, fades: nat, firstYear: Option<int>, lastYear: Option<int>, containers: seq<int>)
    requires |entries| >= 1
    requires InRange(|entries|, inputs)
    ensures (active, circle) == Replay(|entries|, 0, 0, Targets(|entries|, 0, inputs))
    ensures 0 <= active < |entries| && (circle + active) % |entries| == 0
    ensures inputs != [] ==> active == Targets(|entries|, 0, inputs)[|inputs| - 1]
    ensures fades == Changes(0, Targets(|entries|, 0, inputs))
    ensures firstYear == Some(entries[active].startYear) && lastYear == Some(entries[active].endYear)
    ensures |containers| == |entries| && forall i :: 0 <= i < |entries| ==> containers[i] == -circle
  {
    ghost var targets := Targets(|entries|, 0, inputs);
    ReplayAligned(|entries|, 0, 0, targets);
    var ring := new Ring(entries);
    ring.Mount();
    Run(ring, inputs);
    active, circle, fades := ring.activeIndex, ring.circleRot, ring.fadesIssued;
    firstYear, lastYear := ring.firstYearText, ring.lastYearText;
    ring.Unmount();
    containers := ring.dotRot[..];
  }
}
