/** What one ending writes, said of the words and the trail themselves: src/sessionorc/agent_attention.py's
    _trail_append, and _ended_by of src/sessionorc/agent_common.py. */
module AttentionEndings {
  import opened Common
  import opened AttentionTrail

  /** What a record says ended a row, word by word. */
  lemma EndedBySays(s: Session, slot: Slot, was: string, word: string)
    requires word == EndedBy(s, slot, was)
    ensures word == "the session was closed" <==> slot == State && s.state == "closed"
    ensures word == "the session exited" <==> slot == State && s.state == "exited" && was != "unpushed"
    ensures word == "pushed" <==>
            && slot == State && s.state != "closed" && was == "unpushed"
            && s.git.Some? && !s.git.value.dirty && !s.git.value.unpushed
    ensures word == "answered in the terminal" <==>
            slot == State && s.state !in {"closed", "exited", "needs-you"} && was in {"permission", "question", "needs"}
    ensures word == "the limit reset" <==> slot == State && s.state !in {"closed", "exited"} && was == "limited"
    ensures word in {"the session was closed", "the session exited", "pushed", "answered in the terminal",
                     "the limit reset", ""}
  {
  }

  /** The word an ending goes under: the one given, else the row's own, else the record's, else that it was resumed,
      else what the record says, else that it was resolved. */
  predicate IsWord(words: map<Key, string>, s: Session, kind: string, how: string, ended: string, h: string) {
    var own, all := Key(s.address, if kind == "alarm" then Alarm else State), Key(s.address, Both);
    if how != "" then h == how
    else if own in words && words[own] != "" then h == words[own]
    else if all in words && words[all] != "" then h == words[all]
    else if s.superseded then h == "resumed"
    else if ended != "" then h == ended
    else h == "resolved"
  }

  lemma HowIsWord(words: map<Key, string>, s: Session, kind: string, how: string, ended: string, h: string)
    ensures IsWord(words, s, kind, how, ended, h) <==> h == How(words, s, SlotOf(kind), how, ended)
  {
  }

  /** The row is news: a person ended it, or it stood five seconds, or nobody can tell since when. */
  ghost predicate IsNews(w: World, h: string, since: string, now: int) {
    || (exists front: string :: h == front + "by you")
    || since == "" || w.parse(since).None? || w.parse(since).value + 5_000_000 <= now
  }

  lemma NewsIff(w: World, h: string, since: string, now: int)
    ensures IsNews(w, h, since, now) <==> !TooShort(w, h, since, now)
  {
    if |h| >= 6 {
      assert h == h[..|h|-6] + h[|h|-6..];
    }
    if front: string :| h == front + "by you" {
      assert h[|h|-6..] == "by you";
    }
  }

  /** The place of the first entry of that record, kind and word. */
  predicate IsEntryOf(trail: seq<Entry>, i: nat, sid: string, kind: string, h: string) {
    && i < |trail| && trail[i].sid == sid && trail[i].kind == kind && trail[i].how == h
    && forall j | 0 <= j < i :: !(trail[j].sid == sid && trail[j].kind == kind && trail[j].how == h)
  }

  /** An entry of one ending alone. */
  predicate IsNewEntry(e: Entry, w: World, s: Session, kind: string, since: string, now: int, h: string,
                       text: string) {
    && e.sid == s.address && e.name == s.name && e.team == s.team && e.kind == kind && e.since == since && e.how == h
    && e.count == 1 && e.first == e.last == now / 1_000_000
    && var whole := w.clean(if text != "" then text else s.doing);
       e.text == if |whole| <= 200 then whole else whole[..200]
  }

  ghost predicate IsTrailAfter(was: seq<Entry>, trail: seq<Entry>, w: World, s: Session, kind: string, since: string,
                               now: int, h: string, text: string) {
    if exists i: nat :: IsEntryOf(was, i, s.address, kind, h) then
      exists i: nat :: IsEntryOf(was, i, s.address, kind, h)
                       && trail == was[i := was[i].(count := was[i].count + 1, last := now / 1_000_000)]
    else
      && trail != [] && IsNewEntry(trail[0], w, s, kind, since, now, h, text)
      && trail[1..] == if |was| < 100 then was else was[..99]
  }

  lemma FoundAgain(was: seq<Entry>, i: nat, w: World, s: Session, kind: string, since: string, now: int, h: string,
                   text: string)
    requires i == Find(was, s.address, kind, h) < |was|
    ensures IsTrailAfter(was, was[i := Again(was[i], now)], w, s, kind, since, now, h, text)
  {
    assert SameEnding(was[i], s.address, kind, h);
    assert forall j | 0 <= j < i :: !SameEnding(was[j], s.address, kind, h);
    assert IsEntryOf(was, i, s.address, kind, h);
  }

  lemma NewInFront(was: seq<Entry>, e: Entry, w: World, s: Session, kind: string, since: string, now: int, h: string,
                   text: string)
    requires |was| <= 100 && Find(was, s.address, kind, h) == |was| && IsNewEntry(e, w, s, kind, since, now, h, text)
    ensures IsTrailAfter(was, Newest(e, was), w, s, kind, since, now, h, text)
  {
    assert forall j | 0 <= j < |was| :: !SameEnding(was[j], s.address, kind, h);
    var all := [e] + was;
    assert all[1..] == was;
    assert |was| == 100 ==> all[..100][1..] == was[..99];
  }

  /** News is written, and nothing else is: on the entry of that record, kind and word, once more and at that second;
      or, where there is none, as an entry in front, the hundredth going. */
  lemma EndingIsWritten(w: World, b: Book, s: Session, kind: string, since: string, now: int, how: string,
                        text: string, ended: string, h: string)
    requires |b.trail| <= 100 && IsWord(b.words, s, kind, how, ended, h)
    ensures var trail := Append(w, b, s, kind, since, now, how, text, ended).trail;
            if IsNews(w, h, since, now) then IsTrailAfter(b.trail, trail, w, s, kind, since, now, h, text)
            else trail == b.trail
  {
    HowIsWord(b.words, s, kind, how, ended, h);
    NewsIff(w, h, since, now);
    var left := b.(words := if how == "" then b.words - {Key(s.address, SlotOf(kind))} else b.words);
    WrittenIsAfter(w, left, s, kind, since, now, h, text);
  }

  lemma WrittenIsAfter(w: World, b: Book, s: Session, kind: string, since: string, now: int, h: string, text: string)
    requires |b.trail| <= 100
    ensures var trail := Written(w, b, s, kind, since, now, h, text).trail;
            if TooShort(w, h, since, now) then trail == b.trail
            else IsTrailAfter(b.trail, trail, w, s, kind, since, now, h, text)
  {
    var i := Find(b.trail, s.address, kind, h);
    if i < |b.trail| {
      FoundAgain(b.trail, i, w, s, kind, since, now, h, text);
    } else {
      var e := Entry(w.ids(b.minted), s.address, s.name, s.team, kind, Cleaned(w, Or(text, s.doing)), since, h, 1,
                     Seconds(now), Seconds(now));
      NewInFront(b.trail, e, w, s, kind, since, now, h, text);
    }
  }

  /** An ending that is news leaves an entry of its record, kind and word, last at its second; any other leaves the
      trail as it was. */
  lemma NewsIsThere(w: World, b: Book, s: Session, kind: string, since: string, now: int, how: string, text: string,
                    ended: string, h: string)
    requires |b.trail| <= 100 && IsWord(b.words, s, kind, how, ended, h)
    ensures var trail := Append(w, b, s, kind, since, now, how, text, ended).trail;
            if (exists front: string :: h == front + "by you") || since == "" || w.parse(since).None?
               || w.parse(since).value + 5_000_000 <= now
            then exists i :: 0 <= i < |trail| && trail[i].sid == s.address && trail[i].kind == kind
                             && trail[i].how == h && trail[i].last == now / 1_000_000
            else trail == b.trail
  {
    EndingIsWritten(w, b, s, kind, since, now, how, text, ended, h);
    var trail := Append(w, b, s, kind, since, now, how, text, ended).trail;
    if IsNews(w, h, since, now) {
      AfterIsThere(b.trail, trail, w, s, kind, since, now, h, text);
    }
  }

  lemma AfterIsThere(was: seq<Entry>, trail: seq<Entry>, w: World, s: Session, kind: string, since: string, now: int,
                     h: string, text: string)
    requires IsTrailAfter(was, trail, w, s, kind, since, now, h, text)
    ensures exists i :: 0 <= i < |trail| && trail[i].sid == s.address && trail[i].kind == kind
                        && trail[i].how == h && trail[i].last == now / 1_000_000
  {
    if i: nat :| IsEntryOf(was, i, s.address, kind, h) && trail == was[i := was[i].(count := was[i].count + 1,
                                                                                   last := now / 1_000_000)] {
      assert trail[i].how == h;
    } else {
      assert trail[0].how == h;
    }
  }

  /** A leaving record's row goes under the word left for it, else the record's, else the word of the leaving. */
  predicate IsLeavingWord(words: map<Key, string>, s: Session, slot: Slot, how: string, h: string) {
    var own, all := Key(s.address, slot), Key(s.address, Both);
    if own in words && words[own] != "" then h == words[own]
    else if all in words && words[all] != "" then h == words[all]
    else h == how
  }

  lemma LeavingIsWritten(w: World, b: Book, s: Session, slot: Slot, how: string, now: int, h: string)
    requires Key(s.address, slot) in b.attention && |b.trail| <= 100
    requires how != "" && IsLeavingWord(b.words, s, slot, how, h)
    ensures var row, trail := b.attention[Key(s.address, slot)], GoneRow(w, b, s, slot, how, now).trail;
            if IsNews(w, h, row.since, now) then
              IsTrailAfter(b.trail, trail, w, s, row.kind, row.since, now, h, row.text)
            else trail == b.trail
  {
    var row := b.attention[Key(s.address, slot)];
    EndingIsWritten(w, ClearRow(b, Key(s.address, slot)), s, row.kind, row.since, now, h, row.text, "", h);
  }

  /** A board reply is an entry of no record, in front, whatever else the trail holds: the reply's own words. */
  lemma ReplyIsWritten(w: World, b: Book, repo: string, head: string, who: string, reply: string, how: string, now: int)
    requires |b.trail| <= 100
    ensures var trail := After(w, b, Replied(repo, head, who, reply, how, now)).trail;
            && trail != [] && trail[1..] == (if |b.trail| < 100 then b.trail else b.trail[..99])
            && trail[0].sid == "" && trail[0].name == repo && trail[0].team == "" && trail[0].kind == "board reply"
            && trail[0].how == how && trail[0].count == 1 && trail[0].first == trail[0].last == now / 1_000_000
            && trail[0].since == w.stamp(now / 1_000_000)
            && var whole := w.clean(head + " \U{2014} " + who + ": " + reply);
               trail[0].text == if |whole| <= 200 then whole else whole[..200]
  {
    var all := [ReplyEntry(w, b.minted, repo, head, who, reply, how, now)] + b.trail;
    assert all[1..] == b.trail;
    assert |b.trail| == 100 ==> all[..100][1..] == b.trail[..99];
  }

  // ----- entries going -----

  /** Dismissing takes out the entries of those ids alone. */
  lemma DismissedGo(w: World, b: Book, ids: set<string>, e: Entry)
    ensures e in After(w, b, Dismissed(ids)).trail <==> e in b.trail && e.id !in ids
  {
    FilterMember(b.trail, Undismissed(ids), e);
  }

  /** The sweep takes out the entries whose last time is the retention ago, and none where there is no retention. */
  lemma OldOnesGo(w: World, b: Book, retention: Option<int>, now: int, e: Entry)
    ensures e in After(w, b, Pruned(retention, now)).trail <==>
            e in b.trail && (retention.None? || now - e.last * 1_000_000 < retention.value)
  {
    FilterMember(b.trail, Fresh(retention, now), e);
  }
}
