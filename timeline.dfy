/** The `Timeline` component's state and the operations that change it: the
    ring's rotation, each dot container's counter-rotation, the active dot,
    the displayed years and the one-shot counter of the list fade. Rotations
    are in steps of 360/n degrees. */
module Timeline {
  import opened Geometry
  import opened Planner

  datatype Event = Event(year: int, description: string)

  /** One category on the ring, with its year range and its events. */
  datatype Entry = Entry(category: string, startYear: int, endYear: int, events: seq<Event>)

  class Ring {
    const data: seq<Entry>
    const n: nat
    /** The rotation of each dot container, in steps. */
    const dotRot: array<int>
    var activeIndex: int
    /** The rotation of the circle element, in steps. */
    var circleRot: int
    /** Whether the layout effect has run and its cleanup has not. */
    var mounted: bool
    /** The numbers the two year spans show; None before the layout effect seeds them. */
    var firstYearText: Option<int>
    var lastYearText: Option<int>
    var renderCount: int
    /** Whether a list fade-in is pending, with a cleanup that will kill it. */
    var fadeLive: bool
    var fadesIssued: nat
    var fadesKilled: nat

    /** The active dot, placed at `activeIndex` steps, is turned to the reference axis. */
    ghost predicate Aligned()
      reads this
    {
      n > 0 && (circleRot + activeIndex) % n == 0
    }

    /** Every label stands upright: the dot's placement (i steps), the circle's
        turn and the container's counter-turn cancel out. */
    ghost predicate Upright()
      reads this, dotRot
    {
      forall i :: 0 <= i < dotRot.Length ==> i + circleRot + dotRot[i] == 0
    }

    /** Every container exactly cancels the circle's turn, as before the
        layout effect pre-rotates the dots. */
    ghost predicate AtRest()
      reads this, dotRot
    {
      forall i :: 0 <= i < dotRot.Length ==> circleRot + dotRot[i] == 0
    }

    /** The two year spans show the active entry's first and last year. */
    ghost predicate ShowsActiveYears()
      reads this
    {
      0 <= activeIndex < |data| &&
      firstYearText == Some(data[activeIndex].startYear) && lastYearText == Some(data[activeIndex].endYear)
    }

    ghost predicate Valid()
      reads this, dotRot
    {
      n == |data| && n >= 1 && dotRot.Length == n &&
      0 <= activeIndex < n && Aligned() &&
      (if mounted then Upright() else AtRest()) &&
      0 <= renderCount <= 1 &&
      (fadeLive ==> renderCount == 1) &&
      fadesIssued == fadesKilled + (if fadeLive then 1 else 0)
    }

    /** The component's first render: `useState(0)`, `useRef(0)`, nothing rotated. */
    constructor (entries: seq<Entry>)
      requires |entries| >= 1
      ensures Valid() && fresh(dotRot)
      ensures data == entries && activeIndex == 0 && circleRot == 0 && !mounted
      ensures forall i :: 0 <= i < n ==> dotRot[i] == 0
      ensures firstYearText == None && lastYearText == None
      ensures renderCount == 0 && !fadeLive && fadesIssued == 0 && fadesKilled == 0
    {
      data := entries;
      n := |entries|;
      dotRot := new int[|entries|](_ => 0);
      activeIndex := 0;
      circleRot := 0;
      mounted := false;
      firstYearText, lastYearText := None, None;
      renderCount := 0;
      fadeLive := false;
      fadesIssued, fadesKilled := 0, 0;
    }

    /** The layout effect: turns dot i (for i >= 1) back by i steps so that its
        label is upright, and seeds the year spans from the active entry. */
    method Init()
      requires Valid() && !mounted
      modifies this`mounted, this`firstYearText, this`lastYearText, dotRot
      ensures Valid() && mounted && Upright()
      ensures forall i :: 0 <= i < n ==> dotRot[i] == old(dotRot[i]) - i
      ensures firstYearText == Some(data[activeIndex].startYear)
      ensures lastYearText == Some(data[activeIndex].endYear)
    {
      for i := 1 to n
        invariant forall k :: 0 <= k < i ==> dotRot[k] == old(dotRot[k]) - k
        invariant forall k :: i <= k < n ==> dotRot[k] == old(dotRot[k])
      {
        dotRot[i] := dotRot[i] - i;
      }
      firstYearText := Some(data[activeIndex].startYear);
      lastYearText := Some(data[activeIndex].endYear);
      mounted := true;
    }

    /** The layout effect's cleanup: turns dot i (for i >= 1) forward by i steps,
        exactly undoing what `Init` did. */
    method Teardown()
      requires Valid() && mounted
      modifies this`mounted, dotRot
      ensures Valid() && !mounted && AtRest()
      ensures forall i :: 0 <= i < n ==> dotRot[i] == old(dotRot[i]) + i
    {
      for i := 1 to n
        invariant forall k :: 0 <= k < i ==> dotRot[k] == old(dotRot[k]) + k
        invariant forall k :: i <= k < n ==> dotRot[k] == old(dotRot[k])
      {
        dotRot[i] := dotRot[i] + i;
      }
      mounted := false;
    }

    /** `rotateCircle`: the circle turns by `+v` (clockwise flag) or `-v`, and
        every dot container by the opposite amount. */
    method RotateCircle(clockwise: bool, rotateValue: int)
      modifies this`circleRot, dotRot
      ensures circleRot == old(circleRot) + (if clockwise then rotateValue else -rotateValue)
      ensures forall i :: 0 <= i < dotRot.Length ==>
        dotRot[i] == old(dotRot[i]) - (if clockwise then rotateValue else -rotateValue)
      ensures forall i :: 0 <= i < dotRot.Length ==> circleRot + dotRot[i] == old(circleRot + dotRot[i])
    {
      if clockwise {
        circleRot := circleRot + rotateValue;
        forall i | 0 <= i < dotRot.Length {
          dotRot[i] := dotRot[i] - rotateValue;
        }
      } else {
        circleRot := circleRot - rotateValue;
        forall i | 0 <= i < dotRot.Length {
          dotRot[i] := dotRot[i] + rotateValue;
        }
      }
    }

    /** `setActiveDot`: nothing for the active dot; otherwise the target's offset
        is looked up in the dot list of the CURRENT active dot, the ring turned
        the short way round, and only then the active dot changed. */
    method SetActiveDot(index: int)
      requires Valid() && 0 <= index < n
      modifies this`activeIndex, this`circleRot, dotRot
      ensures Valid()
      ensures activeIndex == index
      ensures circleRot == old(circleRot) + Turn(old(activeIndex), index, n)
      ensures forall i :: 0 <= i < n ==>
        dotRot[i] == old(dotRot[i]) - Turn(old(activeIndex), index, n)
      ensures forall i :: 0 <= i < n ==> circleRot + dotRot[i] == old(circleRot + dotRot[i])
      ensures index == old(activeIndex) ==> circleRot == old(circleRot) && dotRot[..] == old(dotRot[..])
    {
      if index == activeIndex {
        return;
      }
      ghost var previous, c0 := activeIndex, circleRot;
      assert (c0 + previous) % n == 0;
      var clockwise, rotateValue := PlanTurn(activeIndex, index, n);
      RotateCircle(clockwise, rotateValue);
      activeIndex := index;
      SelectionKeepsAligned(c0, previous, index, n);
      assert circleRot + activeIndex == c0 + Turn(previous, index, n) + index;
    }

    /** A click on dot `index` of the mounted component: `setActiveDot`, then,
        only if the active dot changed, the re-render runs the effects that
        depend on `activeIndex` (after the previous run's cleanup). A click on
        the active dot returns early, so nothing re-renders. */
    method Click(index: int)
      requires Valid() && mounted && renderCount == 1 && 0 <= index < n
      modifies this`activeIndex, this`circleRot, dotRot, this`firstYearText, this`lastYearText
      modifies this`renderCount, this`fadeLive, this`fadesIssued, this`fadesKilled
      ensures Valid() && mounted && renderCount == 1
      ensures activeIndex == index
      ensures circleRot == old(circleRot) + Turn(old(activeIndex), index, n)
      ensures forall i :: 0 <= i < n ==> circleRot + dotRot[i] == old(circleRot + dotRot[i])
      ensures index != old(activeIndex) ==>
        firstYearText == Some(data[index].startYear) && lastYearText == Some(data[index].endYear) &&
        fadeLive && fadesIssued == old(fadesIssued) + 1 &&
        fadesKilled == old(fadesKilled) + (if old(fadeLive) then 1 else 0)
      ensures index == old(activeIndex) ==>
        firstYearText == old(firstYearText) && lastYearText == old(lastYearText) &&
        fadeLive == old(fadeLive) && fadesIssued == old(fadesIssued) && fadesKilled == old(fadesKilled)
    {
      var before := activeIndex;
      SetActiveDot(index);
      if index != before {
        var _, _, _ := OnActiveChanged();
      }
    }

    /** `showPrev`; its button is disabled at the first dot. Going back one dot
        is a turn of one step forward, or one step back when there are only two dots. */
    method ShowPrev()
      requires Valid() && activeIndex > 0
      modifies this`activeIndex, this`circleRot, dotRot
      ensures Valid()
      ensures activeIndex == old(activeIndex) - 1
      ensures circleRot == old(circleRot) + (if n > 2 then 1 else -1)
      ensures forall i :: 0 <= i < n ==> circleRot + dotRot[i] == old(circleRot + dotRot[i])
    {
      SetActiveDot(activeIndex - 1);
    }

    /** `showNext`; its button is disabled at the last dot. Going forward one
        dot is a turn of one step back. */
    method ShowNext()
      requires Valid() && activeIndex < n - 1
      modifies this`activeIndex, this`circleRot, dotRot
      ensures Valid()
      ensures activeIndex == old(activeIndex) + 1
      ensures circleRot == old(circleRot) - 1
      ensures forall i :: 0 <= i < n ==> circleRot + dotRot[i] == old(circleRot + dotRot[i])
    {
      SetActiveDot(activeIndex + 1);
    }

    /** A press on the prev button: disabled, so nothing happens, at the first
        dot; otherwise `showPrev`, and the re-render runs the effects that
        depend on `activeIndex`. */
    method PressPrev()
      requires Valid() && mounted && renderCount == 1
      modifies this`activeIndex, this`circleRot, dotRot, this`firstYearText, this`lastYearText
      modifies this`renderCount, this`fadeLive, this`fadesIssued, this`fadesKilled
      ensures Valid() && mounted && renderCount == 1
      ensures forall i :: 0 <= i < n ==> circleRot + dotRot[i] == old(circleRot + dotRot[i])
      ensures old(activeIndex) == 0 ==>
        activeIndex == 0 && circleRot == old(circleRot) && dotRot[..] == old(dotRot[..]) &&
        firstYearText == old(firstYearText) && lastYearText == old(lastYearText) &&
        fadeLive == old(fadeLive) && fadesIssued == old(fadesIssued) && fadesKilled == old(fadesKilled)
      ensures old(activeIndex) > 0 ==>
        activeIndex == old(activeIndex) - 1 && circleRot == old(circleRot) + (if n > 2 then 1 else -1) &&
        firstYearText == Some(data[activeIndex].startYear) && lastYearText == Some(data[activeIndex].endYear) &&
        fadeLive && fadesIssued == old(fadesIssued) + 1 &&
        fadesKilled == old(fadesKilled) + (if old(fadeLive) then 1 else 0)
    {
      if activeIndex == 0 {
        return;
      }
      ShowPrev();
      var _, _, _ := OnActiveChanged();
    }

    /** A press on the next button: disabled, so nothing happens, at the last
        dot; otherwise `showNext`, and the re-render runs the effects that
        depend on `activeIndex`. */
    method PressNext()
      requires Valid() && mounted && renderCount == 1
      modifies this`activeIndex, this`circleRot, dotRot, this`firstYearText, this`lastYearText
      modifies this`renderCount, this`fadeLive, this`fadesIssued, this`fadesKilled
      ensures Valid() && mounted && renderCount == 1
      ensures forall i :: 0 <= i < n ==> circleRot + dotRot[i] == old(circleRot + dotRot[i])
      ensures old(activeIndex) == n - 1 ==>
        activeIndex == n - 1 && circleRot == old(circleRot) && dotRot[..] == old(dotRot[..]) &&
        firstYearText == old(firstYearText) && lastYearText == old(lastYearText) &&
        fadeLive == old(fadeLive) && fadesIssued == old(fadesIssued) && fadesKilled == old(fadesKilled)
      ensures old(activeIndex) < n - 1 ==>
        activeIndex == old(activeIndex) + 1 && circleRot == old(circleRot) - 1 &&
        firstYearText == Some(data[activeIndex].startYear) && lastYearText == Some(data[activeIndex].endYear) &&
        fadeLive && fadesIssued == old(fadesIssued) + 1 &&
        fadesKilled == old(fadesKilled) + (if old(fadeLive) then 1 else 0)
    {
      if activeIndex == n - 1 {
        return;
      }
      ShowNext();
      var _, _, _ := OnActiveChanged();
    }

    /** The cleanup of the list-fade effect: kills the pending fade-in, if any. */
    method KillListFade()
      requires Valid()
      modifies this`fadeLive, this`fadesKilled
      ensures Valid() && !fadeLive
      ensures fadesKilled == old(fadesKilled) + (if old(fadeLive) then 1 else 0)
    {
      if fadeLive {
        fadeLive := false;
        fadesKilled := fadesKilled + 1;
      }
    }

    /** The two effects that depend on `activeIndex`, run after each render in
        which it changed (and after the first), following the previous run's
        cleanup. A year counter is tweened only when its span shows another
        number, and it ends on the target year (snapped to whole numbers). The
        list fades in on every run but the first, which only bumps `renderCount`. */
    method OnActiveChanged() returns (firstCounter: bool, lastCounter: bool, faded: bool)
      requires Valid()
      modifies this`firstYearText, this`lastYearText, this`renderCount
      modifies this`fadeLive, this`fadesIssued, this`fadesKilled
      ensures Valid()
      ensures firstCounter <==> old(firstYearText) != Some(data[activeIndex].startYear)
      ensures lastCounter <==> old(lastYearText) != Some(data[activeIndex].endYear)
      ensures firstYearText == Some(data[activeIndex].startYear)
      ensures lastYearText == Some(data[activeIndex].endYear)
      ensures faded <==> old(renderCount) != 0
      ensures renderCount == 1 && fadeLive == faded
      ensures fadesKilled == old(fadesKilled) + (if old(fadeLive) then 1 else 0)
      ensures fadesIssued == old(fadesIssued) + (if faded then 1 else 0)
    {
      KillListFade();

      var firstYear := data[activeIndex].startYear;
      var lastYear := data[activeIndex].endYear;
      firstCounter := firstYearText != Some(firstYear);
      if firstCounter {
        firstYearText := Some(firstYear);
      }
      lastCounter := lastYearText != Some(lastYear);
      if lastCounter {
        lastYearText := Some(lastYear);
      }

      if renderCount == 0 {
        renderCount := renderCount + 1;
        faded := false;
        return;
      }
      faded := true;
      fadeLive := true;
      fadesIssued := fadesIssued + 1;
    }

    /** The mount commit: the layout effect, then the first run of the effects
        that depend on `activeIndex`, which issues no fade. */
    method Mount()
      requires Valid() && !mounted && renderCount == 0 && !fadeLive
      modifies this`mounted, this`firstYearText, this`lastYearText, dotRot
      modifies this`renderCount, this`fadeLive, this`fadesIssued, this`fadesKilled
      ensures Valid() && mounted && renderCount == 1 && !fadeLive
      ensures fadesIssued == old(fadesIssued) && fadesKilled == old(fadesKilled)
      ensures forall i :: 0 <= i < n ==> dotRot[i] == old(dotRot[i]) - i
      ensures firstYearText == Some(data[activeIndex].startYear)
      ensures lastYearText == Some(data[activeIndex].endYear)
    {
      Init();
      var _, _, faded := OnActiveChanged();
    }

    /** The unmount: React runs the layout effect's cleanup, then the list-fade
        effect's cleanup. Every container again cancels the circle's turn. */
    method Unmount()
      requires Valid() && mounted
      modifies this`mounted, dotRot, this`fadeLive, this`fadesKilled
      ensures Valid() && !mounted && AtRest() && !fadeLive
      ensures forall i :: 0 <= i < n ==> dotRot[i] == old(dotRot[i]) + i
      ensures fadesKilled == old(fadesKilled) + (if old(fadeLive) then 1 else 0)
    {
      Teardown();
      KillListFade();
    }
  }
}
