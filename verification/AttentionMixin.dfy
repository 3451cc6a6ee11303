/** src/sessionorc/agent_attention.py's AttentionMixin: what the agent holds between ticks, updated in place, and each
    method's effect on it as AttentionTrail says. */
module AttentionMixin {
  import opened AttentionTrail

  class Mixin {
    const w: World
    var attention: map<Key, Row>
    var words: map<Key, string>
    var trail: seq<Entry>
    var snoozed: map<(string, string), string>
    var minted: nat
    ghost var tally: Tally

    ghost function Held(): Book
      reads this
    {
      Book(attention, words, trail, snoozed, minted, tally)
    }

    /** An agent that has just started, with the trail and the snoozes that the one before it stored. */
    constructor (w: World, trail: seq<Entry>, snoozed: map<(string, string), string>, minted: nat, ghost before: Book)
      requires before.trail == trail && before.snoozed == snoozed && before.minted == minted
      ensures Held() == Restart(before) && this.w == w
    {
      this.w := w;
      this.attention, this.words := map[], map[];
      this.trail, this.snoozed := trail, snoozed;
      this.minted := minted;
      this.tally := before.tally.(unseen := before.tally.unseen + |before.attention|);
    }

    /** The word an ending is written with; the row's own is taken out, where none was given. */
    method TakeWord(s: Session, slot: Slot, how: string, ended: string) returns (h: string)
      requires slot != Both
      modifies this`words
      ensures h == How(old(words), s, slot, how, ended)
      ensures words == if how == "" then old(words) - {Key(s.address, slot)} else old(words)
    {
      h := how;
      if h == "" {
        h := WordFor(words, Key(s.address, slot));
        words := words - {Key(s.address, slot)};
        if h == "" {
          h := WordFor(words, Key(s.address, Both));
        }
      }
      if h == "" && s.superseded {
        h := "resumed";
      }
      if h == "" {
        h := ended;
      }
      if h == "" {
        h := "resolved";
      }
    }

    /** A new entry goes in front, and what is past the cap goes. */
    method InsertFront(e: Entry)
      modifies this`trail, this`minted, this`tally
      ensures trail == Newest(e, old(trail)) && minted == old(minted) + 1
      ensures tally == old(tally).(cut := old(tally).cut + Cut(e, old(trail)))
    {
      tally := tally.(cut := tally.cut + Cut(e, trail));
      trail := [e] + trail;
      minted := minted + 1;
      if |trail| > KEEP {
        trail := trail[..KEEP];
      }
    }

    /** The entry an ending already has is counted up in place. */
    method CountAgain(sid: string, kind: string, how: string, now: int) returns (found: bool)
      modifies this`trail
      ensures var i := Find(old(trail), sid, kind, how);
              && found == (i < |old(trail)|)
              && trail == if found then old(trail)[i := Again(old(trail)[i], now)] else old(trail)
    {
      var i := 0;
      while i < |trail|
        invariant i <= |trail| && trail == old(trail)
        invariant forall j | 0 <= j < i :: !SameEnding(trail[j], sid, kind, how)
      {
        if SameEnding(trail[i], sid, kind, how) {
          trail := trail[i := Again(trail[i], now)];
          return true;
        }
        i := i + 1;
      }
      return false;
    }

    method TrailAppend(s: Session, kind: string, since: string, now: int, how: string, text: string, ended: string)
      modifies this
      ensures Held() == Append(w, old(Held()), s, kind, since, now, how, text, ended)
    {
      var h := TakeWord(s, SlotOf(kind), how, ended);
      if TooShort(w, h, since, now) {
        tally := tally.(floored := tally.floored + 1);
        return;
      }
      var found := CountAgain(s.address, kind, h, now);
      if !found {
        InsertFront(Entry(w.ids(minted), s.address, s.name, s.team, kind, Cleaned(w, Or(text, s.doing)), since, h, 1,
                          Seconds(now), Seconds(now)));
      }
    }

    method TrailReply(repo: string, head: string, who: string, reply: string, how: string, now: int)
      modifies this
      ensures Held() == Reply(w, old(Held()), repo, head, who, reply, how, now)
    {
      InsertFront(ReplyEntry(w, minted, repo, head, who, reply, how, now));
    }

    /** One row of one record, compared with the one it was showing. */
    method NoteRow(s: Session, slot: Slot, now: int)
      modifies this
      ensures Held() == Compare(w, old(Held()), s, slot, now)
    {
      var key, shows := Key(s.address, slot), Showing(s, slot);
      var was := if key in attention then attention[key] else NOTHING;
      if shows.kind == was.kind {
        return;
      }
      if was.kind != "" {
        TrailAppend(s, was.kind, was.since, now, "", was.text, EndedBy(s, slot, was.kind));
      }
      if shows.kind != "" {
        attention := attention[key := shows];
        tally := tally.(begun := tally.begun + 1);
      } else {
        attention := attention - {key};
      }
    }

    /** The rows of records no longer in the graph. */
    method DropGone(graph: seq<Session>)
      modifies this`attention, this`tally
      ensures Held() == OnlyGraph(old(Held()), graph)
    {
      ghost var before := attention;
      var gone := set k | k in attention && !InGraph(graph, k.sid);
      while gone != {}
        invariant forall k :: k in gone <==> k in attention && !InGraph(graph, k.sid)
        invariant forall k | k in attention :: k in before && attention[k] == before[k]
        invariant forall k | k in before && InGraph(graph, k.sid) :: k in attention
        invariant tally == old(tally)
        decreases |gone|
      {
        var key :| key in gone;
        attention := attention - {key};
        gone := gone - {key};
      }
      assert attention == map k | k in before && InGraph(graph, k.sid) :: before[k];
      KeysShrink(before, attention);
      tally := tally.(unseen := tally.unseen + |before| - |attention|);
    }

    method NoteAttention(graph: seq<Session>, now: int)
      modifies this
      ensures Held() == Tick(w, old(Held()), graph, now)
    {
      var n := 0;
      while n < |graph|
        invariant n <= |graph| && Held() == CompareUpTo(w, old(Held()), graph, n, now)
      {
        NoteRow(graph[n], State, now);
        NoteRow(graph[n], Alarm, now);
        n := n + 1;
      }
      DropGone(graph);
    }

    /** A leaving record's rows, in the order they began, and then its snoozes. */
    method AttentionGone(s: Session, how: string, now: int, alarmFirst: bool)
      modifies this
      ensures Held() == Gone(w, old(Held()), s, how, now, alarmFirst)
    {
      var slots := if alarmFirst then [Alarm, State] else [State, Alarm];
      ghost var states := [Held()];
      var n := 0;
      while n < 2
        invariant n <= 2 && |states| == n + 1 && states[0] == old(Held()) && Held() == states[n]
        invariant forall i | 0 <= i < n :: states[i+1] == GoneRow(w, states[i], s, slots[i], how, now)
      {
        var key := Key(s.address, slots[n]);
        if key in attention {
          var was := attention[key];
          attention := attention - {key};
          var word := Or(Or(WordFor(words, key), WordFor(words, Key(s.address, Both))), how);
          TrailAppend(s, was.kind, was.since, now, word, was.text, "");
        }
        states := states + [Held()];
        n := n + 1;
      }
      assert states[1] == GoneRow(w, states[0], s, slots[0], how, now);
      assert states[2] == GoneRow(w, states[1], s, slots[1], how, now);
      snoozed := map k | k in snoozed && k.0 != s.id && k.0 != s.address :: snoozed[k];
    }

    method AttentionEnded(sid: string, how: string, slot: Slot)
      modifies this`words
      ensures words == old(words)[Key(sid, slot) := how]
      ensures Held() == After(w, old(Held()), Said(sid, slot, how))
    {
      words := words[Key(sid, slot) := how];
    }
  }
}
