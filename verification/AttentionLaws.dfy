/** What the attention trail keeps whatever happens, in any order: it is bounded, no ending has two entries, every row
    that began is accounted for, and what is remembered is what is showing, since it began to. */
module AttentionLaws {
  import opened Common
  import opened AttentionTrail

  // ----- counting -----

  lemma {:induction false} CountsAppend(a: seq<Entry>, b: seq<Entry>)
    ensures Counts(a + b) == Counts(a) + Counts(b)
  {
    if a == [] {
      assert a + b == b;
    } else {
      CountsAppend(a[1..], b);
      assert (a + b)[1..] == a[1..] + b && (a + b)[0] == a[0];
    }
  }

  lemma CountsOne(e: Entry)
    ensures Counts([e]) == if e.sid != "" then e.count else 0
  {
    assert [e][1..] == [];
  }

  lemma CountsNewest(e: Entry, trail: seq<Entry>)
    ensures Counts(Newest(e, trail)) + Cut(e, trail) == Counts([e]) + Counts(trail)
  {
    CountsAppend([e], trail);
    if |trail| >= KEEP {
      var all := [e] + trail;
      CountsAppend(all[..KEEP], all[KEEP..]);
      assert all[..KEEP] + all[KEEP..] == all;
    }
  }

  lemma CountsAgain(trail: seq<Entry>, i: nat, now: int)
    requires i < |trail| && trail[i].sid != ""
    ensures Counts(trail[i := Again(trail[i], now)]) == Counts(trail) + 1
  {
    var e, rest := trail[i], trail[i+1..];
    var was, bumped := trail[..i] + [e], trail[..i] + [Again(e, now)];
    assert trail == was + rest && trail[i := Again(e, now)] == bumped + rest;
    CountsAppend(was, rest);
    CountsAppend(bumped, rest);
    CountsAppend(trail[..i], [e]);
    CountsAppend(trail[..i], [Again(e, now)]);
    CountsOne(e);
    CountsOne(Again(e, now));
  }

  // ----- what every event keeps -----

  /** Rows that began and are nowhere. */
  function Lost(b: Book): int {
    b.tally.begun - |b.attention| - Counts(b.trail) - b.tally.floored - b.tally.cut - b.tally.dropped - b.tally.unseen
  }

  /** Two entries of one ending of one record. */
  predicate Twins(d: Entry, e: Entry) {
    d.sid != "" && SameEnding(e, d.sid, d.kind, d.how)
  }

  ghost predicate NoTwins(trail: seq<Entry>) {
    forall i, j {:trigger Twins(trail[i], trail[j])} | 0 <= i < |trail| && 0 <= j < |trail| && i != j ::
      !Twins(trail[i], trail[j])
  }

  predicate Fits(k: Key, row: Row) {
    row.kind != "" && k.sid != "" && k.slot != Both && k.slot == SlotOf(row.kind)
  }

  ghost predicate RowsFit(m: map<Key, Row>) {
    forall k | k in m :: Fits(k, m[k])
  }

  ghost predicate Bounded(trail: seq<Entry>) {
    |trail| <= KEEP && NoTwins(trail)
  }

  ghost predicate Shape(b: Book) {
    Bounded(b.trail) && RowsFit(b.attention)
  }

  ghost predicate Sound(b: Book) {
    Shape(b) && Lost(b) == 0
  }

  /** An ending is written or floored, and is one row fewer to account for. */
  lemma WrittenKeeps(w: World, b: Book, s: Session, kind: string, since: string, now: int, h: string, text: string)
    requires Bounded(b.trail) && s.address != ""
    ensures var a := Written(w, b, s, kind, since, now, h, text);
            Bounded(a.trail) && Lost(a) == Lost(b) - 1
  {
    var i := Find(b.trail, s.address, kind, h);
    var a := Written(w, b, s, kind, since, now, h, text);
    if !TooShort(w, h, since, now) {
      if i < |b.trail| {
        CountsAgain(b.trail, i, now);
        AgainHasNoTwin(b.trail, i, now);
      } else {
        var e := a.trail[0];
        NewestCounts(e, b.trail);
        NewestHasNoTwin(e, b.trail);
      }
    }
  }

  lemma AppendKeeps(w: World, b: Book, s: Session, kind: string, since: string, now: int, how: string, text: string,
                    ended: string)
    requires Shape(b) && s.address != ""
    ensures var a := Append(w, b, s, kind, since, now, how, text, ended);
            Shape(a) && Lost(a) == Lost(b) - 1
  {
    var slot := SlotOf(kind);
    WrittenKeeps(w, b.(words := if how == "" then b.words - {Key(s.address, slot)} else b.words), s, kind, since, now,
                 How(b.words, s, slot, how, ended), text);
  }

  lemma NewestCounts(e: Entry, trail: seq<Entry>)
    ensures Counts(Newest(e, trail)) + Cut(e, trail) == Counts(trail) + if e.sid != "" then e.count else 0
    ensures |Newest(e, trail)| <= KEEP && Newest(e, trail)[0] == e
  {
    CountsNewest(e, trail);
    CountsOne(e);
  }

  lemma AgainHasNoTwin(trail: seq<Entry>, i: nat, now: int)
    requires NoTwins(trail) && i < |trail|
    ensures NoTwins(trail[i := Again(trail[i], now)])
  {
    var all := trail[i := Again(trail[i], now)];
    forall j, k | 0 <= j < |all| && 0 <= k < |all| && j != k ensures !Twins(all[j], all[k]) {
      assert !Twins(trail[j], trail[k]);
    }
  }

  lemma NewestHasNoTwin(e: Entry, trail: seq<Entry>)
    requires NoTwins(trail)
    requires e.sid != "" ==> Find(trail, e.sid, e.kind, e.how) == |trail|
    ensures NoTwins(Newest(e, trail))
  {
    var all := Newest(e, trail);
    assert all[0] == e && forall j | 1 <= j < |all| :: all[j] == trail[j-1];
    assert e.sid != "" ==> forall j | 0 <= j < |trail| :: !SameEnding(trail[j], e.sid, e.kind, e.how);
    forall j, k | 0 <= j < |all| && 0 <= k < |all| && j != k ensures !Twins(all[j], all[k]) {
      if j > 0 && k > 0 {
        assert !Twins(trail[j-1], trail[k-1]);
      }
    }
  }

  lemma MapSizes(m: map<Key, Row>, key: Key, row: Row)
    ensures |m[key := row]| == if key in m then |m| else |m| + 1
    ensures |m - {key}| == if key in m then |m| - 1 else |m|
  {
    assert m[key := row].Keys == m.Keys + {key} && (m - {key}).Keys == m.Keys - {key};
    assert |m[key := row]| == |m[key := row].Keys| && |m - {key}| == |(m - {key}).Keys| && |m| == |m.Keys|;
  }

  /** A row that takes another's place, or goes, is one that still has to be accounted for. */
  lemma RowChanges(b: Book, key: Key, row: Row)
    requires Shape(b)
    ensures Shape(ClearRow(b, key)) && Lost(ClearRow(b, key)) == Lost(b) + if key in b.attention then 1 else 0
    ensures Fits(key, row) ==> Shape(SetRow(b, key, row))
    ensures Lost(SetRow(b, key, row)) == Lost(b) + if key in b.attention then 1 else 0
  {
    MapSizes(b.attention, key, row);
    RowsStillFit(b.attention, key, row);
  }

  lemma RowsStillFit(m: map<Key, Row>, key: Key, row: Row)
    requires RowsFit(m)
    ensures RowsFit(m - {key})
    ensures Fits(key, row) ==> RowsFit(m[key := row])
  {
  }

  lemma CompareKeeps(w: World, b: Book, s: Session, slot: Slot, now: int)
    requires Sound(b) && IsRecord(s) && slot != Both
    ensures Sound(Compare(w, b, s, slot, now))
  {
    var key, shows := Key(s.address, slot), Showing(s, slot);
    assert shows.kind != "" ==> Fits(key, shows);
    if key in b.attention {
      var was := b.attention[key];
      assert Fits(key, was);
      AppendKeeps(w, b, s, was.kind, was.since, now, "", was.text, EndedBy(s, slot, was.kind));
      RowChanges(Append(w, b, s, was.kind, was.since, now, "", was.text, EndedBy(s, slot, was.kind)), key, shows);
    } else {
      RowChanges(b, key, shows);
    }
  }

  lemma {:induction false} CompareUpToKeeps(w: World, b: Book, graph: seq<Session>, n: nat, now: int)
    requires Sound(b) && IsGraph(graph) && n <= |graph|
    ensures Sound(CompareUpTo(w, b, graph, n, now))
  {
    if n > 0 {
      CompareUpToKeeps(w, b, graph, n - 1, now);
      var at := CompareUpTo(w, b, graph, n - 1, now);
      CompareKeeps(w, at, graph[n-1], State, now);
      CompareKeeps(w, Compare(w, at, graph[n-1], State, now), graph[n-1], Alarm, now);
    }
  }

  lemma GoneRowKeeps(w: World, b: Book, s: Session, slot: Slot, how: string, now: int)
    requires Sound(b) && s.address != ""
    ensures Sound(GoneRow(w, b, s, slot, how, now))
  {
    var key := Key(s.address, slot);
    if key in b.attention {
      var was := b.attention[key];
      RowChanges(b, key, was);
      var word := Or(Or(WordFor(b.words, key), WordFor(b.words, Key(s.address, Both))), how);
      AppendKeeps(w, ClearRow(b, key), s, was.kind, was.since, now, word, was.text, "");
    }
  }

  lemma DropKeeps(b: Book, keep: Entry -> bool)
    requires Sound(b)
    ensures Sound(Drop(b, keep))
  {
    FilterCounts(b.trail, keep);
    FilterHasNoTwins(b.trail, keep);
  }

  lemma {:induction false} FilterHasNoTwins(trail: seq<Entry>, keep: Entry -> bool)
    requires NoTwins(trail)
    ensures NoTwins(Filter(trail, keep))
  {
    if trail != [] {
      var rest := trail[1..];
      assert forall i, j | 0 <= i < |rest| && 0 <= j < |rest| && i != j ::
          Twins(rest[i], rest[j]) ==> Twins(trail[i+1], trail[j+1]);
      FilterHasNoTwins(rest, keep);
      var kept := Filter(rest, keep);
      FilterMembers(rest, keep);
      forall i | 0 <= i < |kept| ensures !Twins(trail[0], kept[i]) && !Twins(kept[i], trail[0]) {
        assert kept[i] in rest;
        var j :| 0 <= j < |rest| && rest[j] == kept[i];
        assert !Twins(trail[0], trail[j+1]) && !Twins(trail[j+1], trail[0]);
      }
      var all := [trail[0]] + kept;
      forall i, j | 0 <= i < |all| && 0 <= j < |all| && i != j ensures !Twins(all[i], all[j]) {
        assert i > 0 && j > 0 ==> !Twins(kept[i-1], kept[j-1]);
      }
    }
  }

  lemma TickKeeps(w: World, b: Book, graph: seq<Session>, now: int)
    requires Sound(b) && IsGraph(graph)
    ensures Sound(Tick(w, b, graph, now))
  {
    CompareUpToKeeps(w, b, graph, |graph|, now);
    OnlyGraphKeeps(CompareUpTo(w, b, graph, |graph|, now), graph);
  }

  lemma OnlyGraphKeeps(b: Book, graph: seq<Session>)
    requires Sound(b)
    ensures Sound(OnlyGraph(b, graph))
  {
  }

  lemma GoneKeeps(w: World, b: Book, s: Session, how: string, now: int, alarmFirst: bool)
    requires Sound(b) && IsRecord(s)
    ensures Sound(Gone(w, b, s, how, now, alarmFirst))
  {
    var one, two := if alarmFirst then Alarm else State, if alarmFirst then State else Alarm;
    GoneRowKeeps(w, b, s, one, how, now);
    GoneRowKeeps(w, GoneRow(w, b, s, one, how, now), s, two, how, now);
  }

  lemma ScrubKeeps(b: Book, sid: string)
    requires Sound(b)
    ensures Sound(Scrub(b, sid))
  {
  }

  lemma ReplyKeeps(w: World, b: Book, repo: string, head: string, who: string, reply: string, how: string, now: int)
    requires Sound(b)
    ensures Sound(Reply(w, b, repo, head, who, reply, how, now))
  {
    var e := Reply(w, b, repo, head, who, reply, how, now).trail[0];
    NewestCounts(e, b.trail);
    NewestHasNoTwin(e, b.trail);
  }

  lemma OthersKeep(b: Book, key: Key, how: string, id: string, kind: string, until: string)
    requires Sound(b)
    ensures Sound(Say(b, key, how)) && Sound(Snooze(b, id, kind, until)) && Sound(Restart(b))
  {
  }

  lemma EventKeeps(w: World, b: Book, e: Event)
    requires Sound(b) && IsEvent(e)
    ensures Sound(After(w, b, e))
  {
    match e
    case Ticked(graph, now) => TickKeeps(w, b, graph, now);
    case Left(s, how, now, alarmFirst) => GoneKeeps(w, b, s, how, now, alarmFirst);
    case Said(sid, slot, how) => OthersKeep(b, Key(sid, slot), how, "", "", "");
    case Scrubbed(sid) => ScrubKeeps(b, sid);
    case Replied(repo, head, who, reply, how, now) => ReplyKeeps(w, b, repo, head, who, reply, how, now);
    case Dismissed(ids) => DropKeeps(b, Undismissed(ids));
    case Pruned(retention, now) => DropKeeps(b, Fresh(retention, now));
    case Snoozed(id, kind, until) => OthersKeep(b, Key("", Both), "", id, kind, until);
    case Restarted => OthersKeep(b, Key("", Both), "", "", "", "");
  }

  /** In every reachable state: at most KEEP entries, no two of one record's same ending, and every row that began is
      showing, counted, floored, cut, dropped, or went with its record unannounced. */
  lemma EveryRunIsSound(w: World, events: seq<Event>, n: nat)
    requires AreEvents(events) && n <= |events|
    ensures Sound(Run(w, events, n))
  {
    var inv := (b: Book, i: nat) => Sound(b);
    var step := (b: Book, e: Event) => After(w, b, e);
    forall b: Book, i: nat | i < |events| && inv(b, i) ensures inv(step(b, events[i]), i + 1) {
      assert events[i] in events;
      EventKeeps(w, b, events[i]);
    }
    FoldKeeps(step, EMPTY, events, n, inv);
  }
}
