/** The two time predicates of scheduler/evaluator.py: `_times_overlap` and
    `_is_caregiver_available`. */
module TimeRules {
  import opened Models

  /** `_times_overlap`: the ranges start1..end1 and start2..end2 intersect. */
  predicate TimesOverlap(start1: Time, end1: Time, start2: Time, end2: Time)
  {
    start1 < end2 && start2 < end1
  }

  /** Minute m lies in the half-open range [start, end). */
  predicate Covers(m: int, start: Time, end: Time)
  {
    start <= m < end
  }

  /** Two non-empty ranges overlap exactly when some minute lies in both. */
  lemma OverlapIsSharedMinute(start1: Time, end1: Time, start2: Time, end2: Time)
    requires start1 < end1 && start2 < end2
    ensures TimesOverlap(start1, end1, start2, end2) <==>
            exists m :: Covers(m, start1, end1) && Covers(m, start2, end2)
  {
    if TimesOverlap(start1, end1, start2, end2) {
      var m := if start1 < start2 then start2 else start1;
      assert Covers(m, start1, end1) && Covers(m, start2, end2);
    }
  }

  lemma OverlapIsSymmetric(start1: Time, end1: Time, start2: Time, end2: Time)
    ensures TimesOverlap(start1, end1, start2, end2) == TimesOverlap(start2, end2, start1, end1)
  {
  }

  /** A range that ends where the other starts does not overlap it, either way round. */
  lemma TouchingRangesDoNotOverlap(start1: Time, end1: Time, start2: Time, end2: Time)
    requires end1 == start2
    ensures !TimesOverlap(start1, end1, start2, end2) && !TimesOverlap(start2, end2, start1, end1)
  {
  }

  /** A non-empty range overlaps every range that contains it. */
  lemma ContainedRangeOverlaps(start1: Time, end1: Time, start2: Time, end2: Time)
    requires start1 < end1 && start2 <= start1 && end1 <= end2
    ensures TimesOverlap(start1, end1, start2, end2) && TimesOverlap(start2, end2, start1, end1)
  {
  }

  /** The overlap cases of scheduler/tests/test_models.py, against the base 10:00-12:00. */
  lemma OverlapTestVectors()
    ensures TimesOverlap(600, 720, 540, 660) && TimesOverlap(540, 660, 600, 720)    // 09:00-11:00
    ensures TimesOverlap(600, 720, 660, 780) && TimesOverlap(660, 780, 600, 720)    // 11:00-13:00
    ensures TimesOverlap(600, 720, 540, 780) && TimesOverlap(540, 780, 600, 720)    // 09:00-13:00
    ensures !TimesOverlap(600, 720, 780, 840) && !TimesOverlap(780, 840, 600, 720)  // 13:00-14:00
    ensures !TimesOverlap(600, 720, 720, 780) && !TimesOverlap(720, 780, 600, 720)  // 12:00-13:00
  {
  }

  /** Window k is the first of the list that falls on the given day. */
  predicate FirstOnDay(windows: seq<Availability>, day: string, k: int)
  {
    0 <= k < |windows| && windows[k].day == day &&
    forall j :: 0 <= j < k ==> windows[j].day != day
  }

  /** The verdict of `_is_caregiver_available` for the given windows: the
      first window on the visit's day decides, by overlap with the visit. */
  predicate Available(windows: seq<Availability>, visit: Visit)
    decreases |windows|
  {
    if windows == [] then false
    else if windows[0].day == visit.day then
      TimesOverlap(windows[0].start, windows[0].end, visit.start, visit.end)
    else Available(windows[1..], visit)
  }

  /** Without a window on the visit's day the caregiver is not available. */
  lemma {:induction false} UnavailableWithoutWindowOnDay(windows: seq<Availability>, visit: Visit)
    requires forall j :: 0 <= j < |windows| ==> windows[j].day != visit.day
    ensures !Available(windows, visit)
    decreases |windows|
  {
    if windows != [] {
      UnavailableWithoutWindowOnDay(windows[1..], visit);
    }
  }

  /** Otherwise the first window on that day decides alone. */
  lemma {:induction false} FirstWindowOnDayDecides(windows: seq<Availability>, visit: Visit, k: int)
    requires FirstOnDay(windows, visit.day, k)
    ensures Available(windows, visit) == TimesOverlap(windows[k].start, windows[k].end, visit.start, visit.end)
    decreases |windows|
  {
    if k > 0 {
      FirstWindowOnDayDecides(windows[1..], visit, k - 1);
    }
  }

  /** Windows after the first one on the visit's day never change the verdict. */
  lemma LaterWindowsIgnored(windows: seq<Availability>, more: seq<Availability>, visit: Visit, k: int)
    requires FirstOnDay(windows, visit.day, k)
    ensures Available(windows + more, visit) == Available(windows, visit)
  {
    var all := windows + more;
    assert FirstOnDay(all, visit.day, k) by {
      assert all[k] == windows[k];
      forall j | 0 <= j < k ensures all[j].day != visit.day {
        assert all[j] == windows[j];
      }
    }
    FirstWindowOnDayDecides(all, visit, k);
    FirstWindowOnDayDecides(windows, visit, k);
  }

  /** The check is overlap, not containment: a 09:00-17:00 window makes the
      caregiver available for a 16:00-18:00 visit; and a second window on the
      same day is never consulted. */
  lemma AvailabilityExamples()
    ensures var visit := Visit("v", "MONDAY", 960, 1080, "c", "s", "n");
            Available([Availability("MONDAY", 540, 1020)], visit)
    ensures var visit := Visit("v", "MONDAY", 900, 960, "c", "s", "n");
            !Available([Availability("MONDAY", 480, 600), Availability("MONDAY", 840, 1080)], visit)
  {
  }

  /** `_is_caregiver_available(caregiver, visit)`: scan the windows and return
      at the first one on the visit's day. */
  method IsCaregiverAvailable(caregiver: Caregiver, visit: Visit) returns (available: bool)
    ensures available == Available(caregiver.availability, visit)
    ensures available <==> exists k ::
              && FirstOnDay(caregiver.availability, visit.day, k)
              && TimesOverlap(caregiver.availability[k].start, caregiver.availability[k].end, visit.start, visit.end)
  {
    var windows := caregiver.availability;
    for i := 0 to |windows|
      invariant Available(windows, visit) == Available(windows[i..], visit)
      invariant forall j :: 0 <= j < i ==> windows[j].day != visit.day
    {
      var window := windows[i];
      if window.day == visit.day {
        assert FirstOnDay(windows, visit.day, i);
        FirstWindowOnDayDecides(windows, visit, i);
        return TimesOverlap(window.start, window.end, visit.start, visit.end);
      }
      assert windows[i..][1..] == windows[i + 1..];
    }
    UnavailableWithoutWindowOnDay(windows, visit);
    return false;
  }
}
