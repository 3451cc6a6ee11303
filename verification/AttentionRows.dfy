/** What a tick remembers is what is showing and since when, and what an ending writes: its word is spent once, it is
    counted once, and it pushes nothing else about. */
module AttentionRows {
  import opened Common
  import opened AttentionTrail
  import opened AttentionLaws

  // ----- the rows now showing -----

  /** The row the first `n` records of a graph show under a key. */
  function ShownUpTo(graph: seq<Session>, n: nat, key: Key): Row
    requires n <= |graph|
  {
    if n == 0 then NOTHING
    else if graph[n-1].address == key.sid then Showing(graph[n-1], key.slot)
    else ShownUpTo(graph, n - 1, key)
  }

  function Shown(graph: seq<Session>, key: Key): Row {
    ShownUpTo(graph, |graph|, key)
  }

  /** A row goes on while its kind does, and otherwise is the one showing. */
  ghost predicate Follows(was: map<Key, Row>, now: map<Key, Row>, key: Key, shows: Row) {
    && (key in now <==> shows.kind != "")
    && (key in now && key in was && was[key].kind == shows.kind ==> now[key] == was[key])
    && (key in now && !(key in was && was[key].kind == shows.kind) ==> now[key] == shows)
  }

  ghost predicate Same(was: map<Key, Row>, now: map<Key, Row>, key: Key) {
    (key in was <==> key in now) && (key in was ==> now[key] == was[key])
  }

  lemma CompareFollows(w: World, b: Book, s: Session, slot: Slot, now: int, key: Key)
    requires Sound(b) && IsRecord(s) && slot != Both
    ensures var a := Compare(w, b, s, slot, now).attention;
            if key == Key(s.address, slot) then Follows(b.attention, a, key, Showing(s, slot))
            else Same(b.attention, a, key)
  {
    var own := Key(s.address, slot);
    if own in b.attention {
      var was := b.attention[own];
      AppendKeeps(w, b, s, was.kind, was.since, now, "", was.text, EndedBy(s, slot, was.kind));
    }
  }

  function CompareTwo(w: World, b: Book, s: Session, now: int): Book {
    Compare(w, Compare(w, b, s, State, now), s, Alarm, now)
  }

  lemma TwoFollow(w: World, b: Book, s: Session, now: int, key: Key)
    requires Sound(b) && IsRecord(s) && key.slot != Both
    ensures Sound(CompareTwo(w, b, s, now))
    ensures var a := CompareTwo(w, b, s, now).attention;
            if key.sid == s.address then Follows(b.attention, a, key, Showing(s, key.slot))
            else Same(b.attention, a, key)
  {
    var mid := Compare(w, b, s, State, now);
    CompareKeeps(w, b, s, State, now);
    CompareKeeps(w, mid, s, Alarm, now);
    CompareFollows(w, b, s, State, now, key);
    CompareFollows(w, mid, s, Alarm, now, key);
    SameFollows(b.attention, mid.attention, CompareTwo(w, b, s, now).attention, key, Showing(s, key.slot));
  }

  lemma SameFollows(a: map<Key, Row>, b: map<Key, Row>, c: map<Key, Row>, key: Key, shows: Row)
    ensures Same(a, b, key) && Follows(b, c, key, shows) ==> Follows(a, c, key, shows)
    ensures Follows(a, b, key, shows) && Same(b, c, key) ==> Follows(a, c, key, shows)
    ensures Same(a, b, key) && Same(b, c, key) ==> Same(a, c, key)
  {
  }

  predicate Among(graph: seq<Session>, n: nat, sid: string)
    requires n <= |graph|
  {
    exists i :: 0 <= i < n && graph[i].address == sid
  }

  lemma {:induction false} CompareUpToFollows(w: World, b: Book, graph: seq<Session>, n: nat, now: int, key: Key)
    requires Sound(b) && IsGraph(graph) && n <= |graph| && key.slot != Both
    ensures Sound(CompareUpTo(w, b, graph, n, now))
    ensures var a := CompareUpTo(w, b, graph, n, now).attention;
            if Among(graph, n, key.sid) then Follows(b.attention, a, key, ShownUpTo(graph, n, key))
            else Same(b.attention, a, key)
  {
    if n > 0 {
      CompareUpToFollows(w, b, graph, n - 1, now, key);
      var mid, s := CompareUpTo(w, b, graph, n - 1, now), graph[n-1];
      TwoFollow(w, mid, s, now, key);
      AmongOneMore(graph, n, key.sid);
      assert CompareTwo(w, mid, s, now) == CompareUpTo(w, b, graph, n, now);
      SameFollows(b.attention, mid.attention, CompareUpTo(w, b, graph, n, now).attention, key,
                  ShownUpTo(graph, n, key));
    }
  }

  lemma AmongOneMore(graph: seq<Session>, n: nat, sid: string)
    requires IsGraph(graph) && 0 < n <= |graph|
    ensures Among(graph, n, sid) <==> graph[n-1].address == sid || Among(graph, n - 1, sid)
    ensures !(graph[n-1].address == sid && Among(graph, n - 1, sid))
  {
  }

  lemma {:induction false} NotAmongShowsNothing(graph: seq<Session>, n: nat, key: Key)
    requires n <= |graph| && !Among(graph, n, key.sid)
    ensures ShownUpTo(graph, n, key) == NOTHING
  {
    if n > 0 {
      assert graph[n-1].address != key.sid;
      assert !Among(graph, n - 1, key.sid);
      NotAmongShowsNothing(graph, n - 1, key);
    }
  }

  /** A tick remembers exactly the rows the graph shows; one already showing is left as it was. */
  lemma TickFollows(w: World, b: Book, graph: seq<Session>, now: int, key: Key)
    requires Sound(b) && IsGraph(graph) && key.slot != Both
    ensures Follows(b.attention, Tick(w, b, graph, now).attention, key, Shown(graph, key))
  {
    CompareUpToFollows(w, b, graph, |graph|, now, key);
    if Among(graph, |graph|, key.sid) {
      var i :| 0 <= i < |graph| && graph[i].address == key.sid;
      assert graph[i] in graph;
      assert InGraph(graph, key.sid);
    } else {
      NotAmongShowsNothing(graph, |graph|, key);
      assert !InGraph(graph, key.sid);
    }
  }

  lemma {:induction false} ShownOf(graph: seq<Session>, n: nat, i: nat, slot: Slot)
    requires IsGraph(graph) && i < n <= |graph|
    ensures ShownUpTo(graph, n, Key(graph[i].address, slot)) == Showing(graph[i], slot)
  {
    if i < n - 1 {
      assert graph[i].address != graph[n-1].address;
      ShownOf(graph, n - 1, i, slot);
    }
  }

  /** A record of the graph: its state row is remembered exactly when it has a kind, its alarm row exactly when it is
      alarmed; and a row that begins, since when, and what it says, as the record has them then. */
  lemma RowsOfRecord(w: World, b: Book, graph: seq<Session>, now: int, i: nat)
    requires Sound(b) && IsGraph(graph) && i < |graph|
    ensures var s, a := graph[i], Tick(w, b, graph, now).attention;
            var own, alarm := Key(s.address, State), Key(s.address, Alarm);
            && (own in a <==> s.kind != "")
            && (own in a && !(own in b.attention && b.attention[own].kind == s.kind) ==>
                  a[own] == Row(s.kind, s.since, s.pending))
            && (alarm in a <==> s.alarmed)
            && (alarm in a && !(alarm in b.attention && b.attention[alarm].kind == "alarm") ==>
                  a[alarm] == Row("alarm", if s.alarmSince == "" then s.since else s.alarmSince, s.alarmWords))
  {
    var s := graph[i];
    ShownOf(graph, |graph|, i, State);
    ShownOf(graph, |graph|, i, Alarm);
    TickFollows(w, b, graph, now, Key(s.address, State));
    TickFollows(w, b, graph, now, Key(s.address, Alarm));
  }

  // ----- unbroken runs -----

  /** What ends a record's rows between ticks. */
  predicate Breaks(e: Event, sid: string) {
    (e.Left? && e.s.address == sid) || (e.Scrubbed? && e.sid == sid) || e.Restarted?
  }

  /** The kind a row has been showing since the last tick, or none. */
  function Live(events: seq<Event>, n: nat, key: Key): string
    requires n <= |events|
  {
    if n == 0 || Breaks(events[n-1], key.sid) then ""
    else if events[n-1].Ticked? then Shown(events[n-1].graph, key).kind
    else Live(events, n - 1, key)
  }

  /** The tick at which the row now showing began to. */
  function Start(events: seq<Event>, n: nat, key: Key): nat
    requires n <= |events| && Live(events, n, key) != ""
  {
    if events[n-1].Ticked? && Live(events, n - 1, key) != Live(events, n, key) then n - 1
    else Start(events, n - 1, key)
  }

  /** From that tick on every tick has shown that kind, with no break; and just before it, it was not showing. */
  lemma {:induction false} StartIsTheStart(events: seq<Event>, n: nat, key: Key)
    requires n <= |events| && Live(events, n, key) != ""
    ensures var j, kind := Start(events, n, key), Live(events, n, key);
            && j < n && events[j].Ticked? && Live(events, j, key) != kind
            && forall i | j <= i < n :: !Breaks(events[i], key.sid)
                                        && (events[i].Ticked? ==> Shown(events[i].graph, key).kind == kind)
  {
    if !(events[n-1].Ticked? && Live(events, n - 1, key) != Live(events, n, key)) {
      StartIsTheStart(events, n - 1, key);
    }
  }

  lemma BreakClears(w: World, b: Book, e: Event, key: Key)
    requires Sound(b) && IsEvent(e) && Breaks(e, key.sid)
    ensures key !in After(w, b, e).attention
  {
    if e.Left? && key in b.attention {
      assert Fits(key, b.attention[key]);
      assert key in {Key(e.s.address, State), Key(e.s.address, Alarm)};
    }
  }

  lemma OthersLeave(w: World, b: Book, e: Event, key: Key)
    requires Sound(b) && IsEvent(e) && !e.Ticked? && !Breaks(e, key.sid)
    ensures Same(b.attention, After(w, b, e).attention, key)
  {
    if e.Left? {
      assert key !in {Key(e.s.address, State), Key(e.s.address, Alarm)};
    }
  }

  /** A row remembered is the one its run began with. */
  ghost predicate Remembers(m: map<Key, Row>, events: seq<Event>, n: nat, key: Key)
    requires n <= |events|
  {
    && (key in m <==> Live(events, n, key) != "")
    && (key in m ==> var j := Start(events, n, key);
                     j < n && events[j].Ticked? && m[key] == Shown(events[j].graph, key)
                     && m[key].kind == Live(events, n, key))
  }

  lemma TickRemembers(was: map<Key, Row>, m: map<Key, Row>, events: seq<Event>, n: nat, key: Key)
    requires n < |events| && events[n].Ticked? && Remembers(was, events, n, key)
    requires Follows(was, m, key, Shown(events[n].graph, key))
    ensures Remembers(m, events, n + 1, key)
  {
  }

  lemma BreakRemembers(m: map<Key, Row>, events: seq<Event>, n: nat, key: Key)
    requires n < |events| && Breaks(events[n], key.sid) && key !in m
    ensures Remembers(m, events, n + 1, key)
  {
  }

  lemma OthersRemember(was: map<Key, Row>, m: map<Key, Row>, events: seq<Event>, n: nat, key: Key)
    requires n < |events| && !Breaks(events[n], key.sid) && !events[n].Ticked?
    requires Remembers(was, events, n, key) && Same(was, m, key)
    ensures Remembers(m, events, n + 1, key)
  {
  }

  lemma EventRemembers(w: World, b: Book, events: seq<Event>, n: nat, key: Key)
    requires n < |events| && Sound(b) && IsEvent(events[n]) && key.slot != Both
    requires Remembers(b.attention, events, n, key)
    ensures Remembers(After(w, b, events[n]).attention, events, n + 1, key)
  {
    var e := events[n];
    var m := After(w, b, e).attention;
    if Breaks(e, key.sid) {
      BreakClears(w, b, e, key);
      BreakRemembers(m, events, n, key);
    } else if e.Ticked? {
      TickFollows(w, b, e.graph, e.now, key);
      TickRemembers(b.attention, m, events, n, key);
    } else {
      OthersLeave(w, b, e, key);
      OthersRemember(b.attention, m, events, n, key);
    }
  }

  ghost function Remembering(events: seq<Event>, key: Key): (Book, nat) -> bool {
    (b: Book, i: nat) => i <= |events| && Sound(b) && Remembers(b.attention, events, i, key)
  }

  lemma StepRemembers(w: World, events: seq<Event>, key: Key, b: Book, i: nat)
    requires AreEvents(events) && i < |events| && key.slot != Both && Remembering(events, key)(b, i)
    ensures Remembering(events, key)(After(w, b, events[i]), i + 1)
  {
    assert events[i] in events;
    EventKeeps(w, b, events[i]);
    EventRemembers(w, b, events, i, key);
  }

  lemma StartRemembers(events: seq<Event>, key: Key)
    ensures Remembering(events, key)(EMPTY, 0)
  {
    assert Sound(EMPTY) && Live(events, 0, key) == "";
  }

  /** Whatever has happened, the rows remembered are exactly those showing, each as it was when it began to. */
  lemma RowsAreUnbrokenRuns(w: World, events: seq<Event>, n: nat, key: Key)
    requires AreEvents(events) && n <= |events| && key.slot != Both
    ensures Remembers(Run(w, events, n).attention, events, n, key)
  {
    var step := (b: Book, e: Event) => After(w, b, e);
    forall b: Book, i: nat | i < |events| && Remembering(events, key)(b, i)
      ensures Remembering(events, key)(step(b, events[i]), i + 1)
    {
      StepRemembers(w, events, key, b, i);
    }
    StartRemembers(events, key);
    FoldKeeps(step, EMPTY, events, n, Remembering(events, key));
  }

  // ----- what an ending writes -----

  /** The endings of one sort are one entry, which has been counted once more: it was there, and every other entry
      stays where it is; or it is new and in front, and the rest stay in order but for the one cut. */
  ghost predicate CountsOnce(was: seq<Entry>, now: seq<Entry>, sid: string, kind: string, how: string, last: int) {
    var i := Find(now, sid, kind, how);
    && i < |now| && now[i].last == last
    && if i < |was| && SameEnding(was[i], sid, kind, how)
       then now == was[i := was[i].(count := was[i].count + 1, last := last)]
       else i == 0 && now[0].count == 1 && now[1..] == (if |was| < KEEP then was else was[..KEEP-1])
            && forall e | e in was :: !SameEnding(e, sid, kind, how)
  }

  lemma AgainCounts(trail: seq<Entry>, sid: string, kind: string, how: string, now: int)
    requires Find(trail, sid, kind, how) < |trail|
    ensures var i := Find(trail, sid, kind, how);
            CountsOnce(trail, trail[i := Again(trail[i], now)], sid, kind, how, Seconds(now))
  {
    var i := Find(trail, sid, kind, how);
    var all := trail[i := Again(trail[i], now)];
    assert SameEnding(all[i], sid, kind, how);
    assert forall k | 0 <= k < i :: all[k] == trail[k];
    assert Find(all, sid, kind, how) == i;
  }

  lemma NewestCountsOnce(e: Entry, trail: seq<Entry>)
    requires |trail| <= KEEP && e.count == 1
    requires Find(trail, e.sid, e.kind, e.how) == |trail|
    ensures CountsOnce(trail, Newest(e, trail), e.sid, e.kind, e.how, e.last)
  {
    var all := Newest(e, trail);
    assert SameEnding(all[0], e.sid, e.kind, e.how);
    assert Find(all, e.sid, e.kind, e.how) == 0;
    assert forall i | 0 <= i < |trail| :: !SameEnding(trail[i], e.sid, e.kind, e.how);
    assert all[1..] == if |trail| < KEEP then trail else trail[..KEEP-1];
  }

  /** An ending that is not too short is counted once, under its word, and moves nothing else about. */
  lemma AppendWrites(w: World, b: Book, s: Session, kind: string, since: string, now: int, how: string, text: string,
                     ended: string)
    requires |b.trail| <= KEEP
    ensures var a := Append(w, b, s, kind, since, now, how, text, ended);
            var h := How(b.words, s, SlotOf(kind), how, ended);
            if TooShort(w, h, since, now) then a.trail == b.trail
            else CountsOnce(b.trail, a.trail, s.address, kind, h, Seconds(now))
  {
    var slot := SlotOf(kind);
    var left := b.(words := if how == "" then b.words - {Key(s.address, slot)} else b.words);
    WrittenWrites(w, left, s, kind, since, now, How(b.words, s, slot, how, ended), text);
  }

  lemma WrittenWrites(w: World, b: Book, s: Session, kind: string, since: string, now: int, h: string, text: string)
    requires |b.trail| <= KEEP
    ensures var a := Written(w, b, s, kind, since, now, h, text);
            if TooShort(w, h, since, now) then a.trail == b.trail
            else CountsOnce(b.trail, a.trail, s.address, kind, h, Seconds(now))
  {
    if !TooShort(w, h, since, now) {
      if Find(b.trail, s.address, kind, h) < |b.trail| {
        AgainCounts(b.trail, s.address, kind, h, now);
      } else {
        NewestCountsOnce(Written(w, b, s, kind, since, now, h, text).trail[0], b.trail);
      }
    }
  }

  /** A row's own word is spent by the ending it is written with: the next ending of that row goes by the record's
      word, then by what the record says. The record's word stands. */
  lemma WordIsSpentOnce(w: World, b: Book, s: Session, slot: Slot, now: int, next: Session, ended: string)
    requires Sound(b) && IsRecord(s) && slot != Both && next.address == s.address
    requires Key(s.address, slot) in b.attention && Showing(s, slot).kind != b.attention[Key(s.address, slot)].kind
    ensures var a := Compare(w, b, s, slot, now);
            && a.words == b.words - {Key(s.address, slot)}
            && How(a.words, next, slot, "", ended) ==
               Or(Or(Or(WordFor(b.words, Key(s.address, Both)), if next.superseded then "resumed" else ""), ended),
                  "resolved")
  {
    var key := Key(s.address, slot);
    assert Fits(key, b.attention[key]);
    var a := Compare(w, b, s, slot, now);
    assert key !in a.words;
  }

  /** A leaving record's rows go, its snoozes with them, and no other's; its words are read and not spent. */
  lemma LeavingTakesItsRows(w: World, b: Book, s: Session, how: string, now: int, alarmFirst: bool)
    requires Sound(b) && IsRecord(s) && how != ""
    ensures var a := Gone(w, b, s, how, now, alarmFirst);
            && a.attention == (map k | k in b.attention && k.sid != s.address :: b.attention[k])
            && a.snoozed == (map k | k in b.snoozed && k.0 != s.id && k.0 != s.address :: b.snoozed[k])
            && a.words == b.words
  {
    RowsOf(b.attention, s.address);
  }

  lemma RowsOf(m: map<Key, Row>, sid: string)
    requires RowsFit(m)
    ensures m - {Key(sid, State), Key(sid, Alarm)} == map k | k in m && k.sid != sid :: m[k]
  {
    assert forall k | k in m && k.sid == sid :: Fits(k, m[k]) && k in {Key(sid, State), Key(sid, Alarm)};
  }

  // ----- a word and the record it was left for -----

  /** The word left for a record's row: its own, else the record's. */
  function WordLeft(words: map<Key, string>, sid: string, slot: Slot): string {
    Or(WordFor(words, Key(sid, slot)), WordFor(words, Key(sid, Both)))
  }

  /** What the record itself says ended a row. */
  function OwnWord(s: Session, slot: Slot, ended: string): string {
    How(map[], s, slot, "", ended)
  }

  /** A row ends by what its record says exactly when no word is left for it, or the word is the same. */
  lemma EndsByOwnWordIff(words: map<Key, string>, s: Session, slot: Slot, ended: string)
    ensures How(words, s, slot, "", ended) == OwnWord(s, slot, ended) <==>
            WordLeft(words, s.address, slot) == "" || WordLeft(words, s.address, slot) == OwnWord(s, slot, ended)
  {
  }

  /** What is scrubbed of an id is every row and every word of it, and nothing of another. */
  lemma ScrubForgets(b: Book, next: Session, slot: Slot, ended: string)
    ensures var a := Scrub(b, next.address);
            && a.words == (map k | k in b.words && k.sid != next.address :: b.words[k])
            && a.attention == (map k | k in b.attention && k.sid != next.address :: b.attention[k])
            && How(a.words, next, slot, "", ended) == OwnWord(next, slot, ended)
  {
    EndsByOwnWordIff(Scrub(b, next.address).words, next, slot, ended);
  }

  /** A record that leaves and is scrubbed, as a forget and a name that is taken do, leaves no row and no word: the
      next record of its id ends every row by what that record says. Nothing of another record goes. */
  lemma ScrubbedLeavesNoWord(w: World, b: Book, s: Session, how: string, now: int, alarmFirst: bool, next: Session,
                             slot: Slot, ended: string)
    requires Sound(b) && IsRecord(s) && how != "" && next.address == s.address
    ensures var a := Scrub(Gone(w, b, s, how, now, alarmFirst), s.address);
            && a.words == (map k | k in b.words && k.sid != s.address :: b.words[k])
            && a.attention == (map k | k in b.attention && k.sid != s.address :: b.attention[k])
            && How(a.words, next, slot, "", ended) == OwnWord(next, slot, ended)
  {
    LeavingTakesItsRows(w, b, s, how, now, alarmFirst);
    var gone := Gone(w, b, s, how, now, alarmFirst);
    ScrubForgets(gone, next, slot, ended);
    ScrubbedTwice(b.attention, gone.attention, s.address);
  }

  lemma ScrubbedTwice(m: map<Key, Row>, once: map<Key, Row>, sid: string)
    requires once == map k | k in m && k.sid != sid :: m[k]
    ensures once == map k | k in once && k.sid != sid :: once[k]
  {
  }

  lemma CompareSpendsItsOwn(w: World, b: Book, s: Session, slot: Slot, now: int, key: Key)
    requires key.sid != s.address
    ensures var a := Compare(w, b, s, slot, now).words;
            (key in a <==> key in b.words) && (key in a ==> a[key] == b.words[key])
  {
  }

  lemma {:induction false} AbsentKeepsWords(w: World, b: Book, graph: seq<Session>, n: nat, now: int, key: Key)
    requires n <= |graph| && !InGraph(graph, key.sid)
    ensures var a := CompareUpTo(w, b, graph, n, now).words;
            (key in a <==> key in b.words) && (key in a ==> a[key] == b.words[key])
  {
    if n > 0 {
      var s, mid := graph[n-1], CompareUpTo(w, b, graph, n - 1, now);
      assert s in graph;
      AbsentKeepsWords(w, b, graph, n - 1, now, key);
      CompareSpendsItsOwn(w, mid, s, State, now, key);
      CompareSpendsItsOwn(w, Compare(w, mid, s, State, now), s, Alarm, now, key);
    }
  }

  /** A record that is in the graph no more, and was neither left nor scrubbed, as one that its node forgot: its rows go
      at the next tick and its words stay, so a row of the next record of its id ends by what that record says exactly
      when no word was left for it, or the same one. */
  lemma ForgottenLeavesItsWords(w: World, b: Book, graph: seq<Session>, now: int, next: Session, slot: Slot,
                                ended: string)
    requires !InGraph(graph, next.address)
    ensures var a, was := Tick(w, b, graph, now), WordLeft(b.words, next.address, slot);
            && (forall k | k in a.attention :: k.sid != next.address)
            && WordLeft(a.words, next.address, slot) == was
            && (How(a.words, next, slot, "", ended) == OwnWord(next, slot, ended) <==>
                was == "" || was == OwnWord(next, slot, ended))
  {
    var a := Tick(w, b, graph, now);
    AbsentKeepsWords(w, b, graph, |graph|, now, Key(next.address, slot));
    AbsentKeepsWords(w, b, graph, |graph|, now, Key(next.address, Both));
    EndsByOwnWordIff(a.words, next, slot, ended);
  }

  /** One record alone, with a state row and no alarm. */
  predicate ShowsState(s: Session, sid: string, kind: string) {
    s.address == sid && s.kind == kind && !s.alarmed && IsRecord(s)
  }

  lemma OneInGraph(s: Session)
    ensures InGraph([s], s.address) && forall sid :: InGraph([s], sid) <==> sid == s.address
  {
    assert s in [s];
  }

  lemma TickOfOne(w: World, b: Book, s: Session, now: int)
    ensures CompareUpTo(w, b, [s], 1, now) == CompareTwo(w, b, s, now)
    ensures Tick(w, b, [s], now).words == CompareTwo(w, b, s, now).words
    ensures Tick(w, b, [s], now).trail == CompareTwo(w, b, s, now).trail
  {
    assert CompareUpTo(w, b, [s], 0, now) == b;
  }

  /** The first tick of a record that shows a row it was not showing remembers it, and spends no word. */
  lemma RowBegins(w: World, b: Book, s: Session, now: int, kind: string)
    requires Sound(b) && ShowsState(s, s.address, kind) && kind != ""
    requires forall k | k in b.attention :: k.sid != s.address
    ensures var a := Tick(w, b, [s], now);
            && a.words == b.words && Key(s.address, Alarm) !in a.attention
            && Key(s.address, State) in a.attention && a.attention[Key(s.address, State)] == Showing(s, State)
  {
    TickOfOne(w, b, s, now);
    OneInGraph(s);
    var mid := Compare(w, b, s, State, now);
    assert mid == SetRow(b, Key(s.address, State), Showing(s, State));
    assert Compare(w, mid, s, Alarm, now) == mid;
  }

  /** The tick at which that row no longer shows writes its ending. */
  lemma RowEnds(w: World, b: Book, s: Session, now: int, was: Row)
    requires Sound(b) && ShowsState(s, s.address, "") && Key(s.address, Alarm) !in b.attention
    requires Key(s.address, State) in b.attention && b.attention[Key(s.address, State)] == was
    ensures Tick(w, b, [s], now).trail ==
            Append(w, b, s, was.kind, was.since, now, "", was.text, EndedBy(s, State, was.kind)).trail
  {
    TickOfOne(w, b, s, now);
    assert Fits(Key(s.address, State), was);
    var end := Append(w, b, s, was.kind, was.since, now, "", was.text, EndedBy(s, State, was.kind));
    var mid := Compare(w, b, s, State, now);
    assert mid == ClearRow(end, Key(s.address, State));
    assert Compare(w, mid, s, Alarm, now) == mid;
  }

  /** The trail says of the next record's row what was said of the old one's. */
  lemma ForgottenWordIsWritten(w: World, b: Book, how: string, t: int, s: Session, next: Session, u: int, v: int)
    requires Sound(b) && ShowsState(s, s.address, s.kind) && s.kind != "" && ShowsState(next, s.address, "")
    requires Key(s.address, State) in b.words && b.words[Key(s.address, State)] == how && how != ""
    requires !TooShort(w, how, s.since, v)
    ensures var a := Tick(w, Tick(w, Tick(w, b, [], t), [s], u), [next], v);
            exists e :: e in a.trail && SameEnding(e, s.address, s.kind, how) && e.last == Seconds(v)
  {
    assert !InGraph([], s.address);
    ForgottenLeavesItsWords(w, b, [], t, s, State, "");
    AbsentKeepsWords(w, b, [], 0, t, Key(s.address, State));
    var gone := Tick(w, b, [], t);
    TickKeeps(w, b, [], t);
    RowBegins(w, gone, s, u, s.kind);
    var shown := Tick(w, gone, [s], u);
    TickKeeps(w, gone, [s], u);
    RowEnds(w, shown, next, v, Showing(s, State));
    AppendWrites(w, shown, next, s.kind, s.since, v, "", s.pending, EndedBy(next, State, s.kind));
    var trail := Tick(w, shown, [next], v).trail;
    var i := Find(trail, s.address, s.kind, how);
    assert trail[i] in trail && SameEnding(trail[i], s.address, s.kind, how);
  }

  lemma RunTicks(w: World, events: seq<Event>, n: nat)
    requires n < |events| && events[n].Ticked?
    ensures Run(w, events, n + 1) == Tick(w, Run(w, events, n), events[n].graph, events[n].now)
  {
  }

  lemma RunSays(w: World, events: seq<Event>, n: nat)
    requires n < |events| && events[n].Said?
    ensures Run(w, events, n + 1).words ==
            Run(w, events, n).words[Key(events[n].sid, events[n].slot) := events[n].how]
  {
  }

  /** A word said of a record's state row, the record gone at the next tick, and then one of its address that shows a
      row of its own and stops. */
  ghost predicate IsForgotten(events: seq<Event>, n: nat, s: Session, next: Session, how: string) {
    && n + 4 <= |events| && AreEvents(events)
    && events[n] == Said(s.address, State, how) && how != ""
    && events[n+1].Ticked? && events[n+1].graph == []
    && events[n+2].Ticked? && events[n+2].graph == [s] && ShowsState(s, s.address, s.kind) && s.kind != ""
    && events[n+3].Ticked? && events[n+3].graph == [next] && ShowsState(next, s.address, "")
  }

  /** In any run, the row of a later record is written as ended by the word said of the forgotten one. */
  lemma ForgottenRunWrites(w: World, events: seq<Event>, n: nat, s: Session, next: Session, how: string)
    requires IsForgotten(events, n, s, next, how) && !TooShort(w, how, s.since, events[n+3].now)
    ensures exists e :: e in Run(w, events, n + 4).trail && SameEnding(e, s.address, s.kind, how)
                        && e.last == Seconds(events[n+3].now)
  {
    EveryRunIsSound(w, events, n + 1);
    RunSays(w, events, n);
    RunTicks(w, events, n + 1);
    RunTicks(w, events, n + 2);
    RunTicks(w, events, n + 3);
    ForgottenWordIsWritten(w, Run(w, events, n + 1), how, events[n+1].now, s, next, events[n+2].now, events[n+3].now);
  }

  /** A node's session that asks, is allowed, and is forgotten before the next tick; the next one of its address asks
      too, and is never answered. */
  function Asks(): Session {
    Session("a", "a@b", "a", "", "needs-you", "permission", "", "?", false, "", "", false, "", None)
  }

  function Rests(): Session {
    Asks().(state := "working", kind := "")
  }

  function AllowedEvents(): seq<Event> {
    [Ticked([Asks()], 0), Said("a@b", State, "allowed by you"), Ticked([], 1_000_000),
     Ticked([Asks()], 3_000_000), Ticked([Rests()], 4_000_000)]
  }

  lemma AllowedIsForgotten()
    ensures IsForgotten(AllowedEvents(), 1, Asks(), Rests(), "allowed by you")
  {
    var events := AllowedEvents();
    assert IsGraph([Asks()]) && IsGraph([]) && IsGraph([Rests()]);
    assert AreEvents(events);
  }

  lemma AllowingIsByYou()
    ensures ByYou("allowed by you")
  {
    assert "allowed by you"[8..] == "by you";
  }

  /** Its row is written as ended by the person's allowing. */
  lemma AllowedThoughNeverAnswered(w: World)
    ensures exists e :: e in Run(w, AllowedEvents(), 5).trail
                        && SameEnding(e, "a@b", "permission", "allowed by you") && e.last == 4
  {
    AllowedIsForgotten();
    AllowingIsByYou();
    assert AllowedEvents()[4].now == 4_000_000;
    ForgottenRunWrites(w, AllowedEvents(), 1, Asks(), Rests(), "allowed by you");
  }
}
