/** The accounting of restarts: src/sessionorc/agent_common.py's _recent, _reported, _slices, _new_done, _counted
    and _restart_reading. Instants are microseconds; what a record writes is whole seconds. */
module Restarts {
  import opened Common

  const SECOND: int := 1_000_000
  const RESTART_WINDOW_SECONDS: int := 7200
  const RESTART_EARLY: int := 30 * 60 * SECOND
  const RESTART_CEILING: nat := 3

  datatype Work = Work(ref: string, pr: Option<int>, slice: bool)

  datatype Why = Wanted | Fill | Person | Other(name: string)

  /** One restart: `at` in seconds, None where it cannot be read; an entry without `done` or `left` has none. */
  datatype Restart = Restart(at: Option<int>, why: Why, failed: bool, done: seq<Work>, left: seq<string>)

  datatype Status = Claimed | Done | Dropped

  datatype Slice = Slice(pr: Option<int>, at: int, declared: bool)

  /** One reference of a run's report. */
  datatype Progress = Progress(ref: string, status: Status, pr: Option<int>, declared: bool, at: int,
                               slices: seq<Slice>)

  /** What is read of a session's record; `started` is its `created`, where that can be read. */
  datatype Session = Session(created: int, started: Option<int>, progress: seq<Progress>, restarts: seq<Restart>)

  // ----- the readings -----

  /** Inside the window before `now`; an instant that cannot be read never is. */
  predicate Recent(at: Option<int>, now: int) {
    at.Some? && now - at.value * SECOND < RESTART_WINDOW_SECONDS * SECOND
  }

  function RecentOnes(restarts: seq<Restart>, now: int): seq<Restart> {
    Filter(restarts, (r: Restart) => Recent(r.at, now))
  }

  /** The same reference and pull request; a work with no pull request matches on its reference. */
  predicate Matches(held: Work, d: Work) {
    held.ref == d.ref && (d.pr.None? || held.pr == d.pr)
  }

  predicate Holds(earlier: seq<Restart>, d: Work) {
    exists i, k | 0 <= i < |earlier| && 0 <= k < |earlier[i].done| :: Matches(earlier[i].done[k], d)
  }

  /** The work none of the earlier restarts holds. */
  function NewDone(done: seq<Work>, earlier: seq<Restart>): seq<Work> {
    Filter(done, d => !Holds(earlier, d))
  }

  /** A claim's slices written since the run began. */
  function SlicesOf(created: int, declaredOnly: bool): Progress -> seq<Work> {
    (e: Progress) =>
      Collect(e.slices, (x: Slice) =>
        if x.at >= created && (!declaredOnly || x.declared) then [Work(e.ref, x.pr, true)] else [])
  }

  function Slices(s: Session, declaredOnly: bool): seq<Work> {
    Collect(s.progress, SlicesOf(s.created, declaredOnly))
  }

  function DoneOf(created: int, declaredOnly: bool): Progress -> seq<Work> {
    (e: Progress) =>
      if e.status == Done && e.at >= created && (!declaredOnly || e.declared) then [Work(e.ref, e.pr, false)] else []
  }

  function DoneEntries(s: Session, declaredOnly: bool): seq<Work> {
    Collect(s.progress, DoneOf(s.created, declaredOnly))
  }

  function ReportedDone(s: Session): seq<Work> {
    DoneEntries(s, false) + Slices(s, false)
  }

  function Refs(done: seq<Work>): set<string> {
    set d | d in done :: d.ref
  }

  /** The references moved on by a new slice. */
  function Moved(s: Session, now: int): set<string> {
    var slices := Filter(ReportedDone(s), (d: Work) => d.slice);
    Refs(NewDone(slices, RecentOnes(s.restarts, now)))
  }

  function ClaimLeft(moved: set<string>): Progress -> seq<string> {
    (e: Progress) => if e.status == Claimed && e.declared && e.ref !in moved then [e.ref] else []
  }

  /** The claims declared and neither finished nor moved on by a new slice. */
  function ReportedLeft(s: Session, now: int): seq<string> {
    Collect(s.progress, ClaimLeft(Moved(s, now)))
  }

  /** What both of the last two restarts left. */
  function BothLeft(restarts: seq<Restart>): string -> bool {
    ref =>
      var n := |restarts|;
      n >= 2 && ref in restarts[n-2].left && ref in restarts[n-1].left
  }

  /** What decided a declared restart. */
  datatype Word =
    | RepeatsDone(ref: string)
    | RepeatsLeft(ref: string)
    | NothingDone
    | NotEarly(carried: seq<Work>)
    | NoWord

  datatype Reading = Reading(early: bool, repeat: Option<string>, word: Word)

  function RestartReading(s: Session, now: int): Reading {
    var carried := NewDone(ReportedDone(s), RecentOnes(s.restarts, now));
    var said := DoneEntries(s, true) + Slices(s, true);
    var left := ReportedLeft(s, now);
    var thrice := IndexFrom(left, BothLeft(s.restarts), 0);
    var inside := s.started.Some? && now - s.started.value < RESTART_EARLY;
    if said != [] && carried == [] then Reading(true, Some(said[0].ref), RepeatsDone(said[0].ref))
    else if thrice < |left| then Reading(true, Some(left[thrice]), RepeatsLeft(left[thrice]))
    else if inside && carried == [] then Reading(true, None, NothingDone)
    else if inside then Reading(false, None, NotEarly(carried))
    else Reading(false, None, NoWord)
  }

  // ----- what counts -----

  /** A wanted restart that went through and carried work no restart in the window before its own held. */
  predicate CarriedNewWork(restarts: seq<Restart>, i: nat)
    requires i < |restarts|
  {
    var r := restarts[i];
    && r.why == Wanted && !r.failed && r.at.Some?
    && NewDone(r.done, RecentOnes(restarts[..i], r.at.value * SECOND)) != []
  }

  /** Whether a restart counts, by itself and the ones before it; the window is another matter. */
  predicate Countable(restarts: seq<Restart>, i: nat, fills: bool)
    requires i < |restarts|
  {
    var r := restarts[i];
    && !(r.why == Fill && !fills) && r.why != Person
    && !CarriedNewWork(restarts, i)
  }

  /** The restarts that count toward the ceiling now, in their order. */
  function CountedIn(restarts: seq<Restart>, n: nat, now: int, fills: bool): seq<Restart>
    requires n <= |restarts|
  {
    if n == 0 then []
    else
      CountedIn(restarts, n - 1, now, fills)
      + if Recent(restarts[n-1].at, now) && Countable(restarts, n - 1, fills) then [restarts[n-1]] else []
  }

  method Counted(restarts: seq<Restart>, now: int, fills: bool) returns (out: seq<Restart>)
    ensures out == CountedIn(restarts, |restarts|, now, fills)
  {
    out := [];
    for i := 0 to |restarts|
      invariant out == CountedIn(restarts, i, now, fills)
    {
      var r := restarts[i];
      if !Recent(r.at, now) || (r.why == Fill && !fills) {
        continue;
      }
      if r.why == Person {
        continue;
      }
      if r.why == Wanted && !r.failed {
        if NewDone(r.done, RecentOnes(restarts[..i], r.at.value * SECOND)) != [] {
          continue;
        }
      }
      out := out + [r];
    }
  }

  // ----- counting does not look ahead -----

  /** Whether a restart counts is settled when it is written: nothing appended after changes it. */
  lemma CountingIsSettled(restarts: seq<Restart>, more: seq<Restart>, i: nat, fills: bool)
    requires i < |restarts|
    ensures Countable(restarts + more, i, fills) <==> Countable(restarts, i, fills)
  {
    assert (restarts + more)[..i] == restarts[..i];
  }

  lemma {:induction false} CountedAppend(restarts: seq<Restart>, more: seq<Restart>, n: nat, now: int, fills: bool)
    requires n <= |restarts|
    ensures CountedIn(restarts + more, n, now, fills) == CountedIn(restarts, n, now, fills)
  {
    if n > 0 {
      CountedAppend(restarts, more, n - 1, now, fills);
      CountingIsSettled(restarts, more, n - 1, fills);
    }
  }

  ghost function Below(n: nat, p: nat -> bool): set<nat> {
    set i: nat | i < n && p(i)
  }

  lemma BelowStep(n: nat, p: nat -> bool)
    ensures Below(n + 1, p) == Below(n, p) + if p(n) then {n} else {}
    ensures |Below(n + 1, p)| == |Below(n, p)| + if p(n) then 1 else 0
  {
    assert Below(n + 1, p) == Below(n, p) + if p(n) then {n} else {};
  }

  /** The restart at a place counts now. */
  ghost function CountsNow(restarts: seq<Restart>, now: int, fills: bool): nat -> bool {
    (i: nat) => i < |restarts| && Recent(restarts[i].at, now) && Countable(restarts, i, fills)
  }

  /** The places of the restarts that count now. */
  ghost function CountedPlaces(restarts: seq<Restart>, now: int, fills: bool): set<nat> {
    Below(|restarts|, CountsNow(restarts, now, fills))
  }

  lemma {:induction false} CountedSize(restarts: seq<Restart>, n: nat, now: int, fills: bool)
    requires n <= |restarts|
    ensures |CountedIn(restarts, n, now, fills)| == |Below(n, CountsNow(restarts, now, fills))|
  {
    if n > 0 {
      CountedSize(restarts, n - 1, now, fills);
      BelowStep(n - 1, CountsNow(restarts, now, fills));
    }
  }

  /** A restart left out stays left out: later, and whatever is appended. */
  lemma LeftOutStaysOut(restarts: seq<Restart>, more: seq<Restart>, now: int, later: int, fills: bool, i: nat)
    requires i < |restarts| && now <= later && i !in CountedPlaces(restarts, now, fills)
    ensures i !in CountedPlaces(restarts + more, later, fills)
  {
    CountingIsSettled(restarts, more, i, fills);
  }

  // ----- the declaration and the ceiling agree -----

  /** Whole seconds: what is in the window of a later restart's second was in the window at any instant before
      that second was over. */
  lemma StillRecent(at: Option<int>, now: int, later: int)
    requires Recent(at, later * SECOND) && now < (later + 1) * SECOND
    ensures Recent(at, now)
  {
  }

  lemma HeldByRecent(restarts: seq<Restart>, now: int, d: Work)
    ensures Holds(RecentOnes(restarts, now), d) <==>
            exists i, k | 0 <= i < |restarts| && 0 <= k < |restarts[i].done| ::
              Recent(restarts[i].at, now) && Matches(restarts[i].done[k], d)
  {
    var p := (r: Restart) => Recent(r.at, now);
    FilterMembers(restarts, p);
    var kept := Filter(restarts, p);
    if Holds(kept, d) {
      var i, k :| 0 <= i < |kept| && 0 <= k < |kept[i].done| && Matches(kept[i].done[k], d);
      assert kept[i] in kept;
      var j :| 0 <= j < |restarts| && restarts[j] == kept[i];
      assert Recent(restarts[j].at, now) && Matches(restarts[j].done[k], d);
    }
    if i, k :| 0 <= i < |restarts| && 0 <= k < |restarts[i].done|
               && Recent(restarts[i].at, now) && Matches(restarts[i].done[k], d) {
      assert restarts[i] in kept;
      var j :| 0 <= j < |kept| && kept[j] == restarts[i];
      assert Matches(kept[j].done[k], d);
    }
  }

  /** What is new at the declaration is new at the restart's own second, unless a restart between the two holds it. */
  lemma NewStaysNew(before: seq<Restart>, between: seq<Restart>, now: int, at: int, d: Work)
    requires now < (at + 1) * SECOND && !Holds(RecentOnes(before, now), d)
    requires !Holds(RecentOnes(between, at * SECOND), d)
    ensures !Holds(RecentOnes(before + between, at * SECOND), d)
  {
    var all := before + between;
    HeldByRecent(before, now, d);
    HeldByRecent(between, at * SECOND, d);
    HeldByRecent(all, at * SECOND, d);
    if i, k :| 0 <= i < |all| && 0 <= k < |all[i].done|
               && Recent(all[i].at, at * SECOND) && Matches(all[i].done[k], d) {
      StillRecent(all[i].at, now, at);
    }
  }

  /** The place a restart takes, and the list it is written into. */
  lemma WrittenAt(before: seq<Restart>, r: Restart, more: seq<Restart>)
    ensures (before + [r] + more)[..|before|] == before && (before + [r] + more)[|before|] == r
  {
  }

  /** A wanted restart that went through counts, whatever is appended and as long as it is in the window, exactly when
      the restarts before it that are in its own window hold every work it carried. */
  lemma CountsIffAllHeld(before: seq<Restart>, r: Restart, more: seq<Restart>, later: int, fills: bool)
    requires r.why == Wanted && !r.failed && r.at.Some?
    ensures |before| in CountedPlaces(before + [r] + more, later, fills) <==>
            && Recent(r.at, later)
            && forall d | d in r.done :: Holds(RecentOnes(before, r.at.value * SECOND), d)
  {
    WrittenAt(before, r, more);
    var carried := NewDone(r.done, RecentOnes(before, r.at.value * SECOND));
    FilterMembers(r.done, d => !Holds(RecentOnes(before, r.at.value * SECOND), d));
    assert carried != [] ==> carried[0] in carried;
  }

  /** The same, with every part written out: in the two hours, each work it carried is in some earlier entry of the two
      hours before it, under the same reference and, where it has a pull request, the same one. */
  lemma WantedCountsIff(before: seq<Restart>, r: Restart, more: seq<Restart>, later: int, fills: bool)
    requires r.why == Wanted && !r.failed && r.at.Some?
    ensures |before| in CountedPlaces(before + [r] + more, later, fills) <==>
            && later < (r.at.value + 7200) * 1_000_000
            && forall d | d in r.done :: exists i, k | 0 <= i < |before| && 0 <= k < |before[i].done| ::
                 && before[i].at.Some? && r.at.value < before[i].at.value + 7200
                 && before[i].done[k].ref == d.ref && (d.pr.None? || before[i].done[k].pr == d.pr)
  {
    CountsIffAllHeld(before, r, more, later, fills);
    forall d | d in r.done
      ensures Holds(RecentOnes(before, r.at.value * SECOND), d) <==>
              exists i, k | 0 <= i < |before| && 0 <= k < |before[i].done| ::
                && before[i].at.Some? && r.at.value < before[i].at.value + 7200
                && before[i].done[k].ref == d.ref && (d.pr.None? || before[i].done[k].pr == d.pr)
    {
      HeldByRecent(before, r.at.value * SECOND, d);
    }
  }

  /** A crash, a lost session, or a replay that failed counts for its two hours, whatever it carried; a person's
      restart never does; a seat's fill does where fills are asked for. */
  lemma OthersCountByKind(before: seq<Restart>, r: Restart, more: seq<Restart>, later: int, fills: bool)
    ensures var counts := |before| in CountedPlaces(before + [r] + more, later, fills);
            var inTwoHours := r.at.Some? && later < (r.at.value + 7200) * 1_000_000;
            match r.why
            case Other(_) => counts <==> inTwoHours
            case Wanted => r.failed ==> (counts <==> inTwoHours)
            case Person => !counts
            case Fill => counts <==> inTwoHours && fills
  {
    WrittenAt(before, r, more);
  }

  /** Three crashes, or replays that failed, within two hours reach the ceiling, whatever else there is. */
  lemma ThreeCrashesReachCeiling(restarts: seq<Restart>, i: nat, j: nat, k: nat, now: int, fills: bool)
    requires i < j < k < |restarts|
    requires forall n | n in {i, j, k} ::
               && (restarts[n].why.Other? || (restarts[n].why == Wanted && restarts[n].failed))
               && restarts[n].at.Some? && now < (restarts[n].at.value + 7200) * 1_000_000
    ensures |CountedIn(restarts, |restarts|, now, fills)| >= 3
  {
    forall n | n in {i, j, k} ensures n in CountedPlaces(restarts, now, fills) {
      OthersCountByKind(restarts[..n], restarts[n], restarts[n+1..], now, fills);
      assert restarts == restarts[..n] + [restarts[n]] + restarts[n+1..];
    }
    CountedSize(restarts, |restarts|, now, fills);
    assert |{i, j, k}| == 3;
    SubsetSize({i, j, k}, CountedPlaces(restarts, now, fills));
  }

  /** If a declared restart finds new work at `now`, and some of that no restart written since and still in the window
      holds, then the restart it leads to, written in that second or later with what the run reported, counts toward
      no ceiling, then or ever after. */
  lemma DeclaredIsLeftOut(s: Session, now: int, between: seq<Restart>, r: Restart, more: seq<Restart>,
                          later: int, fills: bool, d: Work)
    requires d in NewDone(ReportedDone(s), RecentOnes(s.restarts, now))
    requires r.why == Wanted && !r.failed && r.at.Some? && now < (r.at.value + 1) * SECOND
    requires !Holds(RecentOnes(between, r.at.value * SECOND), d)
    requires forall x | x in ReportedDone(s) :: x in r.done
    ensures |s.restarts| + |between| !in CountedPlaces(s.restarts + between + [r] + more, later, fills)
  {
    FilterMember(ReportedDone(s), x => !Holds(RecentOnes(s.restarts, now), x), d);
    NewStaysNew(s.restarts, between, now, r.at.value, d);
    CountsIffAllHeld(s.restarts + between, r, more, later, fills);
  }

  /** A restart read as not early is such a one. */
  lemma NotEarlyIsLeftOut(s: Session, now: int, between: seq<Restart>, r: Restart, more: seq<Restart>,
                          later: int, fills: bool, d: Work)
    requires RestartReading(s, now).word.NotEarly? && d in RestartReading(s, now).word.carried
    requires r.why == Wanted && !r.failed && r.at.Some? && now < (r.at.value + 1) * SECOND
    requires !Holds(RecentOnes(between, r.at.value * SECOND), d)
    requires forall x | x in ReportedDone(s) :: x in r.done
    ensures |s.restarts| + |between| !in CountedPlaces(s.restarts + between + [r] + more, later, fills)
  {
    DeclaredIsLeftOut(s, now, between, r, more, later, fills, d);
  }

  /** The promise fails after a replay that failed: its entry holds the run's work, so within the window of that entry
      the replay that then goes through carries nothing new, and counts. */
  lemma AfterAFailedReplayItCounts(before: seq<Restart>, failed: Restart, r: Restart, more: seq<Restart>, later: int,
                                   fills: bool)
    requires failed in before && forall d | d in r.done :: d in failed.done
    requires r.why == Wanted && !r.failed && r.at.Some? && Recent(failed.at, r.at.value * SECOND)
    requires Recent(r.at, later)
    ensures |before| in CountedPlaces(before + [r] + more, later, fills)
  {
    var i :| 0 <= i < |before| && before[i] == failed;
    forall d | d in r.done ensures Holds(RecentOnes(before, r.at.value * SECOND), d) {
      HeldByRecent(before, r.at.value * SECOND, d);
      var k :| 0 <= k < |failed.done| && failed.done[k] == d;
      assert Recent(before[i].at, r.at.value * SECOND) && Matches(before[i].done[k], d);
    }
    CountsIffAllHeld(before, r, more, later, fills);
  }

  /** Such a run: read as not early, its replay fails at second 1000 and goes through at second 1010. */
  lemma NotEarlyAndYetCounted() returns (s: Session, now: int, failed: Restart, r: Restart)
    ensures RestartReading(s, now).word.NotEarly?
    ensures failed.why == r.why == Wanted && failed.failed && !r.failed
    ensures failed.done == r.done == ReportedDone(s)
    ensures failed.at == Some(1000) && r.at == Some(1010) && now == 900 * SECOND
    ensures |s.restarts| + 1 in CountedPlaces(s.restarts + [failed] + [r] + [], 1010 * SECOND, true)
  {
    var report := Progress("TD-1", Done, Some(1), true, 600 * SECOND, []);
    s, now := Session(0, Some(0), [report], []), 900 * SECOND;
    var done := [Work("TD-1", Some(1), false)];
    OneReport(s, report);
    failed := Restart(Some(1000), Wanted, true, done, []);
    r := Restart(Some(1010), Wanted, false, done, []);
    AfterAFailedReplayItCounts([failed], failed, r, [], 1010 * SECOND, true);
    assert s.restarts + [failed] == [failed];
  }

  lemma OneReport(s: Session, report: Progress)
    requires s.progress == [report] && s.restarts == [] && s.created == 0 && s.started == Some(0)
    requires report == Progress("TD-1", Done, Some(1), true, 600 * SECOND, [])
    ensures ReportedDone(s) == [Work("TD-1", Some(1), false)]
    ensures RestartReading(s, 900 * SECOND).word.NotEarly?
  {
    var d := Work("TD-1", Some(1), false);
    CollectOne(report, DoneOf(0, false));
    CollectOne(report, SlicesOf(0, false));
    assert ReportedDone(s) == [d];
    assert RecentOnes([], 900 * SECOND) == [];
    FilterMember([d], x => !Holds([], x), d);
    assert d in NewDone(ReportedDone(s), RecentOnes(s.restarts, 900 * SECOND));
  }

  // ----- the ceiling over whole runs -----

  /** The restart, if it counts, was written when fewer than the ceiling counted; `checked` is the instant of that
      count, before the restart's own second was over. */
  ghost predicate KeptAt(restarts: seq<Restart>, checked: int, fills: bool, i: nat)
    requires i < |restarts|
  {
    restarts[i].at.Some? && Countable(restarts, i, fills) ==>
      && checked < (restarts[i].at.value + 1) * SECOND
      && |CountedIn(restarts[..i], i, checked, fills)| < RESTART_CEILING
  }

  ghost predicate KeptBelowCeiling(restarts: seq<Restart>, checked: seq<int>, fills: bool) {
    && |checked| == |restarts|
    && forall i {:trigger KeptAt(restarts, checked[i], fills, i)} | 0 <= i < |restarts| ::
         KeptAt(restarts, checked[i], fills, i)
  }

  /** The restart at a place is countable, and of the window that starts at second `from`. */
  ghost function OfWindow(restarts: seq<Restart>, from: int, fills: bool): nat -> bool {
    (i: nat) => i < |restarts| && restarts[i].at.Some?
         && from <= restarts[i].at.value < from + RESTART_WINDOW_SECONDS && Countable(restarts, i, fills)
  }

  /** No two hours of any run hold more than three counted restarts. */
  lemma {:induction false} CeilingHolds(restarts: seq<Restart>, checked: seq<int>, n: nat, from: int, fills: bool)
    requires KeptBelowCeiling(restarts, checked, fills) && n <= |restarts|
    ensures |Below(n, OfWindow(restarts, from, fills))| <= 3
  {
    if n > 0 {
      BelowStep(n - 1, OfWindow(restarts, from, fills));
      CeilingHolds(restarts, checked, n - 1, from, fills);
      if OfWindow(restarts, from, fills)(n - 1) {
        WindowIsCounted(restarts, checked, n - 1, from, fills);
      }
    }
  }

  /** When a restart of the window was written, the window's earlier ones counted. */
  lemma WindowIsCounted(restarts: seq<Restart>, checked: seq<int>, i: nat, from: int, fills: bool)
    requires KeptBelowCeiling(restarts, checked, fills) && i < |restarts| && OfWindow(restarts, from, fills)(i)
    ensures |Below(i, OfWindow(restarts, from, fills))| < RESTART_CEILING
  {
    var front := restarts[..i];
    assert KeptAt(restarts, checked[i], fills, i);
    CountedSize(front, i, checked[i], fills);
    forall j | j in Below(i, OfWindow(restarts, from, fills)) ensures CountsNow(front, checked[i], fills)(j) {
      assert restarts == front + restarts[i..];
      CountingIsSettled(front, restarts[i..], j, fills);
    }
    SubsetSize(Below(i, OfWindow(restarts, from, fills)), Below(i, CountsNow(front, checked[i], fills)));
  }

  lemma {:induction false} SubsetSize(a: set<nat>, b: set<nat>)
    requires a <= b
    ensures |a| <= |b|
  {
    if a != {} {
      var x :| x in a;
      SubsetSize(a - {x}, b - {x});
    }
  }
}
