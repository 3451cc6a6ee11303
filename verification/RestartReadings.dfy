/** What a declared restart is read as, said of the record alone: src/sessionorc/agent_common.py's _reported, _slices
    and _restart_reading. */
module RestartReadings {
  import opened Common
  import opened Restarts

  // ----- what a run reported -----

  lemma {:induction false} CollectMember<A(!new), B>(s: seq<A>, f: A -> seq<B>, x: B)
    ensures x in Collect(s, f) <==> exists a :: a in s && x in f(a)
  {
    if s != [] {
      CollectMember(s[1..], f, x);
      assert forall a :: a in s <==> a == s[0] || a in s[1..];
    }
  }

  /** The first of what is collected that satisfies `p` is of the first element that gives one. */
  lemma {:induction false} CollectFirst<A, B>(s: seq<A>, f: A -> seq<B>, p: B -> bool, k: nat) returns (i: nat)
    requires k < |Collect(s, f)| && p(Collect(s, f)[k])
    requires forall j | 0 <= j < k :: !p(Collect(s, f)[j])
    ensures i < |s| && Collect(s, f)[k] in f(s[i])
    ensures forall j | 0 <= j < i :: forall x | x in f(s[j]) :: !p(x)
  {
    var head, rest := f(s[0]), Collect(s[1..], f);
    assert Collect(s, f) == head + rest;
    if k < |head| {
      i := 0;
      assert head[k] == Collect(s, f)[k];
    } else {
      forall x | x in head ensures !p(x) {
        var j :| 0 <= j < |head| && head[j] == x;
        assert Collect(s, f)[j] == x;
      }
      assert forall j | 0 <= j < k - |head| :: rest[j] == Collect(s, f)[|head|+j];
      var n := CollectFirst(s[1..], f, p, k - |head|);
      i := n + 1;
      forall j | 0 <= j < i ensures forall x | x in f(s[j]) :: !p(x) {
        if j > 0 {
          assert s[j] == s[1..][j-1];
        }
      }
    }
  }

  /** A reference reported finished in this run, or a slice of it written in this run. */
  ghost predicate Reports(s: Session, d: Work, declaredOnly: bool) {
    exists e :: e in s.progress && e.ref == d.ref && ReportedBy(s, e, d, declaredOnly)
  }

  ghost predicate ReportedBy(s: Session, e: Progress, d: Work, declaredOnly: bool) {
    if d.slice then
      exists x :: x in e.slices && x.pr == d.pr && x.at >= s.created && (declaredOnly ==> x.declared)
    else
      e.status == Done && e.pr == d.pr && e.at >= s.created && (declaredOnly ==> e.declared)
  }

  lemma SlicesOfMember(created: int, declaredOnly: bool, e: Progress, d: Work)
    ensures d in SlicesOf(created, declaredOnly)(e) <==>
            && d.slice && d.ref == e.ref
            && exists x :: x in e.slices && x.pr == d.pr && x.at >= created && (declaredOnly ==> x.declared)
  {
    var of := (x: Slice) => if x.at >= created && (!declaredOnly || x.declared) then [Work(e.ref, x.pr, true)] else [];
    CollectMember(e.slices, of, d);
    assert SlicesOf(created, declaredOnly)(e) == Collect(e.slices, of);
  }

  lemma ReportedIff(s: Session, d: Work, declaredOnly: bool)
    ensures d in DoneEntries(s, declaredOnly) + Slices(s, declaredOnly) <==> Reports(s, d, declaredOnly)
  {
    CollectMember(s.progress, DoneOf(s.created, declaredOnly), d);
    CollectMember(s.progress, SlicesOf(s.created, declaredOnly), d);
    forall e | e in s.progress
      ensures d in DoneOf(s.created, declaredOnly)(e) || d in SlicesOf(s.created, declaredOnly)(e) <==>
              e.ref == d.ref && ReportedBy(s, e, d, declaredOnly)
    {
      SlicesOfMember(s.created, declaredOnly, e, d);
    }
  }

  // ----- what of it is new -----

  /** A restart of the two hours before `now` holds the work. */
  ghost predicate HeldInWindow(s: Session, now: int, d: Work) {
    exists i, k | 0 <= i < |s.restarts| && 0 <= k < |s.restarts[i].done| ::
      && s.restarts[i].at.Some? && now < (s.restarts[i].at.value + 7200) * 1_000_000
      && s.restarts[i].done[k].ref == d.ref && (d.pr.None? || s.restarts[i].done[k].pr == d.pr)
  }

  ghost predicate NewWork(s: Session, now: int, d: Work) {
    Reports(s, d, false) && !HeldInWindow(s, now, d)
  }

  ghost predicate AnyNew(s: Session, now: int) {
    exists d :: NewWork(s, now, d)
  }

  lemma CarriedIff(s: Session, now: int, d: Work)
    ensures d in NewDone(ReportedDone(s), RecentOnes(s.restarts, now)) <==> NewWork(s, now, d)
  {
    HeldByRecent(s.restarts, now, d);
    ReportedIff(s, d, false);
    FilterMember(ReportedDone(s), x => !Holds(RecentOnes(s.restarts, now), x), d);
  }

  lemma CarriesAny(s: Session, now: int)
    ensures NewDone(ReportedDone(s), RecentOnes(s.restarts, now)) != [] <==> AnyNew(s, now)
  {
    var carried := NewDone(ReportedDone(s), RecentOnes(s.restarts, now));
    if carried != [] {
      CarriedIff(s, now, carried[0]);
    }
    if d :| NewWork(s, now, d) {
      CarriedIff(s, now, d);
    }
  }

  // ----- what it leaves -----

  /** A claim the run declared and neither finished nor moved on by a slice that is new. */
  ghost predicate Leaves(s: Session, now: int, ref: string) {
    && (exists e :: e in s.progress && e.ref == ref && e.status == Claimed && e.declared)
    && !exists d :: NewWork(s, now, d) && d.slice && d.ref == ref
  }

  lemma NewSlices(s: Session, now: int, d: Work)
    ensures d in NewDone(Filter(ReportedDone(s), (x: Work) => x.slice), RecentOnes(s.restarts, now)) <==>
            NewWork(s, now, d) && d.slice
  {
    var slices := Filter(ReportedDone(s), (x: Work) => x.slice);
    FilterMember(ReportedDone(s), (x: Work) => x.slice, d);
    FilterMember(slices, x => !Holds(RecentOnes(s.restarts, now), x), d);
    FilterMember(ReportedDone(s), x => !Holds(RecentOnes(s.restarts, now), x), d);
    CarriedIff(s, now, d);
  }

  lemma LeftIff(s: Session, now: int, ref: string)
    ensures ref in ReportedLeft(s, now) <==> Leaves(s, now, ref)
  {
    forall d
      ensures d in NewDone(Filter(ReportedDone(s), (x: Work) => x.slice), RecentOnes(s.restarts, now)) <==>
              NewWork(s, now, d) && d.slice
    {
      NewSlices(s, now, d);
    }
    CollectMember(s.progress, ClaimLeft(Moved(s, now)), ref);
  }

  // ----- the reading -----

  /** The third run to leave a claim: the last two restarts left it too. */
  ghost predicate LeftThrice(s: Session, now: int, ref: string) {
    var n := |s.restarts|;
    Leaves(s, now, ref) && n >= 2 && ref in s.restarts[n-2].left && ref in s.restarts[n-1].left
  }

  /** The run declared work done, and none of what it reported is new. */
  ghost predicate RepeatsWork(s: Session, now: int) {
    (exists d :: Reports(s, d, true)) && !AnyNew(s, now)
  }

  ghost predicate Young(s: Session, now: int) {
    s.started.Some? && now < s.started.value + 1_800_000_000
  }

  /** What the reading is, case by case. */
  ghost predicate Says(s: Session, now: int, r: Reading) {
    match r.word
    case RepeatsDone(ref) =>
      r.early && r.repeat == Some(ref) && RepeatsWork(s, now) && exists d :: Reports(s, d, true) && d.ref == ref
    case RepeatsLeft(ref) =>
      r.early && r.repeat == Some(ref) && !RepeatsWork(s, now) && LeftThrice(s, now, ref)
    case NothingDone =>
      r.early && r.repeat == None && NoRepeat(s, now) && Young(s, now) && !AnyNew(s, now)
    case NotEarly(carried) =>
      && !r.early && r.repeat == None && NoRepeat(s, now) && Young(s, now)
      && AnyNew(s, now) && forall d :: d in carried <==> NewWork(s, now, d)
    case NoWord =>
      !r.early && r.repeat == None && NoRepeat(s, now) && !Young(s, now)
  }

  ghost predicate NoRepeat(s: Session, now: int) {
    !RepeatsWork(s, now) && forall ref :: !LeftThrice(s, now, ref)
  }

  lemma SaidIff(s: Session)
    ensures DoneEntries(s, true) + Slices(s, true) != [] <==> exists d :: Reports(s, d, true)
    ensures var said := DoneEntries(s, true) + Slices(s, true); said != [] ==> Reports(s, said[0], true)
  {
    var said := DoneEntries(s, true) + Slices(s, true);
    if said != [] {
      ReportedIff(s, said[0], true);
    }
    if d :| Reports(s, d, true) {
      ReportedIff(s, d, true);
    }
  }

  lemma ThriceIff(s: Session, now: int, ref: string)
    ensures var n := |s.restarts|;
            LeftThrice(s, now, ref) <==>
            ref in ReportedLeft(s, now) && n >= 2 && ref in s.restarts[n-2].left && ref in s.restarts[n-1].left
  {
    LeftIff(s, now, ref);
  }

  /** A restart declared now is read as the record says. */
  lemma ReadingSays(s: Session, now: int)
    ensures Says(s, now, RestartReading(s, now))
  {
    SaidIff(s);
    CarriesAny(s, now);
    forall d ensures d in NewDone(ReportedDone(s), RecentOnes(s.restarts, now)) <==> NewWork(s, now, d) {
      CarriedIff(s, now, d);
    }
    forall ref
      ensures var n := |s.restarts|;
              LeftThrice(s, now, ref) <==>
              ref in ReportedLeft(s, now) && n >= 2 && ref in s.restarts[n-2].left && ref in s.restarts[n-1].left
    {
      ThriceIff(s, now, ref);
    }
  }

  /** It is early exactly when nothing of it is new and the run declared work or is young, or it is the third run to
      leave a claim; and those of an earlier run's work or claim alone are repeats. */
  lemma EarlyIff(s: Session, now: int)
    ensures var r := RestartReading(s, now);
            var thrice := exists ref :: LeftThrice(s, now, ref);
            && (r.early <==> RepeatsWork(s, now) || thrice || (Young(s, now) && !AnyNew(s, now)))
            && (r.repeat.Some? <==> RepeatsWork(s, now) || thrice)
  {
    ReadingSays(s, now);
  }

  // ----- which reference a repeat names -----

  predicate DeclaresDone(s: Session, e: Progress) {
    e.status == Done && e.declared && e.at >= s.created
  }

  predicate Claims(e: Progress) {
    e.status == Claimed && e.declared
  }

  lemma DeclaresOne(s: Session, e: Progress)
    ensures DoneOf(s.created, true)(e) == if DeclaresDone(s, e) then [Work(e.ref, e.pr, false)] else []
  {
  }

  lemma FirstDone(s: Session) returns (i: nat)
    requires exists e :: e in s.progress && DeclaresDone(s, e)
    ensures DoneEntries(s, true) != []
    ensures i < |s.progress| && DeclaresDone(s, s.progress[i])
    ensures DoneEntries(s, true)[0].ref == s.progress[i].ref
    ensures forall j | 0 <= j < i :: !DeclaresDone(s, s.progress[j])
  {
    var of := DoneOf(s.created, true);
    var e :| e in s.progress && DeclaresDone(s, e);
    DeclaresOne(s, e);
    CollectMember(s.progress, of, Work(e.ref, e.pr, false));
    i := CollectFirst(s.progress, of, (d: Work) => true, 0);
    DeclaresOne(s, s.progress[i]);
    forall j | 0 <= j < i ensures !DeclaresDone(s, s.progress[j]) {
      var e := s.progress[j];
      DeclaresOne(s, e);
      assert DeclaresDone(s, e) ==> Work(e.ref, e.pr, false) in of(e);
    }
  }

  lemma SaidFirst(s: Session, now: int)
    requires RestartReading(s, now).word.RepeatsDone? && DoneEntries(s, true) != []
    ensures RestartReading(s, now).word.ref == DoneEntries(s, true)[0].ref
  {
  }

  /** A repeat of work names the first reference declared done, if there is one, and not a slice's. */
  lemma RepeatNamesFirstDone(s: Session, now: int)
    requires RestartReading(s, now).word.RepeatsDone? && exists e :: e in s.progress && DeclaresDone(s, e)
    ensures exists i :: 0 <= i < |s.progress| && DeclaresDone(s, s.progress[i])
                        && s.progress[i].ref == RestartReading(s, now).word.ref
                        && forall j | 0 <= j < i :: !DeclaresDone(s, s.progress[j])
  {
    var i := FirstDone(s);
    SaidFirst(s, now);
  }

  /** The first claim that both restarts left too, of those not moved on. */
  lemma FirstLeft(progress: seq<Progress>, moved: set<string>, both: string -> bool, k: nat) returns (i: nat)
    requires k < |Collect(progress, ClaimLeft(moved))| && both(Collect(progress, ClaimLeft(moved))[k])
    requires forall j | 0 <= j < k :: !both(Collect(progress, ClaimLeft(moved))[j])
    ensures i < |progress| && Claims(progress[i]) && progress[i].ref == Collect(progress, ClaimLeft(moved))[k]
    ensures forall j | 0 <= j < i && Claims(progress[j]) && progress[j].ref !in moved :: !both(progress[j].ref)
  {
    i := CollectFirst(progress, ClaimLeft(moved), both, k);
    forall j | 0 <= j < i && Claims(progress[j]) && progress[j].ref !in moved ensures !both(progress[j].ref) {
      assert progress[j].ref in ClaimLeft(moved)(progress[j]);
    }
  }

  lemma LeftNamed(s: Session, now: int) returns (k: nat)
    requires RestartReading(s, now).word.RepeatsLeft?
    ensures k < |ReportedLeft(s, now)| && ReportedLeft(s, now)[k] == RestartReading(s, now).word.ref
    ensures BothLeft(s.restarts)(ReportedLeft(s, now)[k])
    ensures forall j | 0 <= j < k :: !BothLeft(s.restarts)(ReportedLeft(s, now)[j])
  {
    k := IndexFrom(ReportedLeft(s, now), BothLeft(s.restarts), 0);
  }

  /** A claim left three runs running is the first such that the run holds. */
  lemma RepeatNamesFirstLeft(s: Session, now: int)
    requires RestartReading(s, now).word.RepeatsLeft?
    ensures exists i :: 0 <= i < |s.progress| && Claims(s.progress[i])
                        && s.progress[i].ref == RestartReading(s, now).word.ref
                        && forall j | 0 <= j < i && Claims(s.progress[j]) :: !LeftThrice(s, now, s.progress[j].ref)
  {
    var k := LeftNamed(s, now);
    var i := FirstLeft(s.progress, Moved(s, now), BothLeft(s.restarts), k);
    forall j | 0 <= j < i && Claims(s.progress[j]) ensures !LeftThrice(s, now, s.progress[j].ref) {
      NotMoved(s, now, s.progress[j].ref);
    }
  }

  lemma NotMoved(s: Session, now: int, ref: string)
    ensures Leaves(s, now, ref) ==> ref !in Moved(s, now)
  {
    if ref in Moved(s, now) {
      var d :| d in NewDone(Filter(ReportedDone(s), (d: Work) => d.slice), RecentOnes(s.restarts, now))
               && d.ref == ref;
      NewSlices(s, now, d);
    }
  }
}
