/** How each row of the Inbox ended, and who ended it: src/sessionorc/agent_attention.py, as functions over what the
    agent remembers between ticks. The methods that update it in place are in AttentionMixin. */
module AttentionTrail {
  import opened Common

  const KEEP: nat := 100 // entries kept, newest first
  const FLOOR: int := 5_000_000 // microseconds: a shorter row leaves nothing unless a person ended it
  const CAP: nat := 200 // characters of an entry's text

  /** A record's two rows; a word may also be left for both. */
  datatype Slot = State | Alarm | Both

  datatype Key = Key(sid: string, slot: Slot)

  /** What a row shows: no kind is no row. */
  datatype Row = Row(kind: string, since: string, text: string)

  const NOTHING := Row("", "", "")

  datatype Git = Git(dirty: bool, unpushed: bool)

  /** A record as a tick finds it; `address` is its key in the graph, `kind` its state row's. */
  datatype Session = Session(id: string, address: string, name: string, team: string, state: string, kind: string,
                             since: string, pending: string, alarmed: bool, alarmSince: string, alarmWords: string,
                             superseded: bool, doing: string, git: Option<Git>)

  /** A trail entry: an ending, or with no `sid` a board reply. */
  datatype Entry = Entry(id: string, sid: string, name: string, team: string, kind: string, text: string,
                         since: string, how: string, count: nat, first: int, last: int)

  /** Where every row that ever began has gone. */
  datatype Tally = Tally(begun: nat, unseen: nat, floored: nat, cut: nat, dropped: nat)

  datatype Book = Book(attention: map<Key, Row>, words: map<Key, string>, trail: seq<Entry>,
                       snoozed: map<(string, string), string>, minted: nat, tally: Tally)

  /** How a time is read, where it can be, and written; how text is cleaned; and the ids that are drawn. */
  datatype World = World(parse: string -> Option<int>, stamp: int -> string, clean: string -> string,
                         ids: nat -> string)

  const EMPTY := Book(map[], map[], [], map[], 0, Tally(0, 0, 0, 0, 0))

  // ----- one ending -----

  function Showing(s: Session, slot: Slot): Row {
    match slot
    case State => Row(s.kind, s.since, s.pending)
    case Alarm => Row(if s.alarmed then "alarm" else "", if s.alarmSince != "" then s.alarmSince else s.since,
                      s.alarmWords)
    case Both => NOTHING
  }

  function EndedBy(s: Session, slot: Slot, was: string): string {
    if slot != State then ""
    else if s.state == "closed" then "the session was closed"
    else if s.state == "exited" && was != "unpushed" then "the session exited"
    else if was == "unpushed" then
      if s.git.Some? && !s.git.value.dirty && !s.git.value.unpushed then "pushed" else ""
    else if was in ["permission", "question", "needs"] then
      if s.state != "needs-you" then "answered in the terminal" else ""
    else if was == "limited" then "the limit reset"
    else ""
  }

  function SlotOf(kind: string): Slot {
    if kind == "alarm" then Alarm else State
  }

  function WordFor(words: map<Key, string>, k: Key): string {
    if k in words then words[k] else ""
  }

  function Or(a: string, b: string): string {
    if a != "" then a else b
  }

  /** The word the ending is written with: the caller's, the row's own, the record's, and then what the record says. */
  function How(words: map<Key, string>, s: Session, slot: Slot, how: string, ended: string): (h: string)
    ensures h != ""
  {
    var said := Or(Or(how, WordFor(words, Key(s.address, slot))), WordFor(words, Key(s.address, Both)));
    Or(Or(Or(said, if s.superseded then "resumed" else ""), ended), "resolved")
  }

  predicate ByYou(how: string) {
    |how| >= 6 && how[|how| - 6..] == "by you"
  }

  predicate TooShort(w: World, how: string, since: string, now: int) {
    !ByYou(how) && since != "" && w.parse(since).Some? && now - w.parse(since).value < FLOOR
  }

  predicate SameEnding(e: Entry, sid: string, kind: string, how: string) {
    e.sid == sid && e.kind == kind && e.how == how
  }

  function Find(trail: seq<Entry>, sid: string, kind: string, how: string): (i: nat)
    ensures i <= |trail|
  {
    IndexFrom(trail, e => SameEnding(e, sid, kind, how), 0)
  }

  function Seconds(now: int): int {
    now / 1_000_000
  }

  /** The endings the entries stand for; a board reply stands for none. */
  function Counts(trail: seq<Entry>): nat {
    if trail == [] then 0 else (if trail[0].sid != "" then trail[0].count else 0) + Counts(trail[1..])
  }

  function Newest(e: Entry, trail: seq<Entry>): seq<Entry> {
    if |trail| < KEEP then [e] + trail else ([e] + trail)[..KEEP]
  }

  function Cut(e: Entry, trail: seq<Entry>): nat {
    if |trail| < KEEP then 0 else Counts(([e] + trail)[KEEP..])
  }

  function Again(e: Entry, now: int): Entry {
    e.(count := e.count + 1, last := Seconds(now))
  }

  /** An entry's text, cleaned and cut. */
  function Cleaned(w: World, text: string): (t: string)
    ensures |t| <= CAP
  {
    var cleaned := w.clean(text);
    if |cleaned| > CAP then cleaned[..CAP] else cleaned
  }

  /** An ending under the word `h`, coalesced. */
  function Written(w: World, b: Book, s: Session, kind: string, since: string, now: int, h: string,
                   text: string): (a: Book)
    ensures a.attention == b.attention && a.words == b.words && a.snoozed == b.snoozed
  {
    if TooShort(w, h, since, now) then b.(tally := b.tally.(floored := b.tally.floored + 1))
    else
      var i := Find(b.trail, s.address, kind, h);
      if i < |b.trail| then b.(trail := b.trail[i := Again(b.trail[i], now)])
      else
        var e := Entry(w.ids(b.minted), s.address, s.name, s.team, kind, Cleaned(w, Or(text, s.doing)), since, h,
                       1, Seconds(now), Seconds(now));
        b.(trail := Newest(e, b.trail), minted := b.minted + 1,
           tally := b.tally.(cut := b.tally.cut + Cut(e, b.trail)))
  }

  /** One ending: its word, taken out where none was given, and the entry. */
  function Append(w: World, b: Book, s: Session, kind: string, since: string, now: int, how: string, text: string,
                  ended: string): (a: Book)
    ensures a.attention == b.attention && a.snoozed == b.snoozed
    ensures a.words == if how == "" then b.words - {Key(s.address, SlotOf(kind))} else b.words
  {
    var slot := SlotOf(kind);
    Written(w, b.(words := if how == "" then b.words - {Key(s.address, slot)} else b.words), s, kind, since, now,
            How(b.words, s, slot, how, ended), text)
  }

  // ----- a tick -----

  function SetRow(b: Book, key: Key, row: Row): Book {
    b.(attention := b.attention[key := row], tally := b.tally.(begun := b.tally.begun + 1))
  }

  function ClearRow(b: Book, key: Key): Book {
    b.(attention := b.attention - {key})
  }

  /** One row compared with the one it was showing. */
  function Compare(w: World, b: Book, s: Session, slot: Slot, now: int): Book {
    var key := Key(s.address, slot);
    var was := if key in b.attention then b.attention[key] else NOTHING;
    var shows := Showing(s, slot);
    if shows.kind == was.kind then b
    else
      var b := if was.kind == "" then b
               else Append(w, b, s, was.kind, was.since, now, "", was.text, EndedBy(s, slot, was.kind));
      if shows.kind == "" then ClearRow(b, key) else SetRow(b, key, shows)
  }

  function CompareUpTo(w: World, b: Book, graph: seq<Session>, n: nat, now: int): Book
    requires n <= |graph|
  {
    if n == 0 then b
    else Compare(w, Compare(w, CompareUpTo(w, b, graph, n - 1, now), graph[n-1], State, now), graph[n-1], Alarm, now)
  }

  predicate InGraph(graph: seq<Session>, sid: string) {
    exists s :: s in graph && s.address == sid
  }

  /** Rows of records that left the graph unannounced go without a word. */
  function OnlyGraph(b: Book, graph: seq<Session>): Book {
    var left := map k | k in b.attention && InGraph(graph, k.sid) :: b.attention[k];
    KeysShrink(b.attention, left);
    b.(attention := left, tally := b.tally.(unseen := b.tally.unseen + |b.attention| - |left|))
  }

  lemma KeysShrink(m: map<Key, Row>, left: map<Key, Row>)
    requires left.Keys <= m.Keys
    ensures |left| <= |m|
  {
    assert |m.Keys - left.Keys| == |m.Keys| - |left.Keys|;
    assert |m| == |m.Keys| && |left| == |left.Keys|;
  }

  function Tick(w: World, b: Book, graph: seq<Session>, now: int): Book {
    OnlyGraph(CompareUpTo(w, b, graph, |graph|, now), graph)
  }

  // ----- a record leaving, and the rest -----

  /** A leaving record's row, ended by the word left for it. */
  function GoneRow(w: World, b: Book, s: Session, slot: Slot, how: string, now: int): (a: Book)
    ensures a.attention == b.attention - {Key(s.address, slot)} && a.snoozed == b.snoozed
    ensures how != "" ==> a.words == b.words
  {
    var key := Key(s.address, slot);
    if key !in b.attention then b
    else
      var was := b.attention[key];
      var word := Or(Or(WordFor(b.words, key), WordFor(b.words, Key(s.address, Both))), how);
      Append(w, ClearRow(b, key), s, was.kind, was.since, now, word, was.text, "")
  }

  function Gone(w: World, b: Book, s: Session, how: string, now: int, alarmFirst: bool): (a: Book)
    ensures a.attention == b.attention - {Key(s.address, State), Key(s.address, Alarm)}
    ensures a.snoozed == map k | k in b.snoozed && k.0 != s.id && k.0 != s.address :: b.snoozed[k]
    ensures how != "" ==> a.words == b.words
  {
    var one, two := if alarmFirst then Alarm else State, if alarmFirst then State else Alarm;
    var b := GoneRow(w, GoneRow(w, b, s, one, how, now), s, two, how, now);
    b.(snoozed := map k | k in b.snoozed && k.0 != s.id && k.0 != s.address :: b.snoozed[k])
  }

  /** _scrub: nothing of an id is kept for the next record of that id. */
  function Scrub(b: Book, sid: string): Book {
    var left := map k | k in b.attention && k.sid != sid :: b.attention[k];
    KeysShrink(b.attention, left);
    b.(words := map k | k in b.words && k.sid != sid :: b.words[k], attention := left,
       tally := b.tally.(unseen := b.tally.unseen + |b.attention| - |left|))
  }

  /** A board reply's entry: who replied what to what. */
  function ReplyEntry(w: World, minted: nat, repo: string, head: string, who: string, reply: string, how: string,
                      now: int): Entry {
    Entry(w.ids(minted), "", repo, "", "board reply", Cleaned(w, head + " \U{2014} " + who + ": " + reply),
          w.stamp(Seconds(now)), how, 1, Seconds(now), Seconds(now))
  }

  function Reply(w: World, b: Book, repo: string, head: string, who: string, reply: string, how: string,
                 now: int): Book {
    var e := ReplyEntry(w, b.minted, repo, head, who, reply, how, now);
    b.(trail := Newest(e, b.trail), minted := b.minted + 1, tally := b.tally.(cut := b.tally.cut + Cut(e, b.trail)))
  }

  /** Entries dismissed, or past the retention window. */
  function Drop(b: Book, keep: Entry -> bool): Book {
    var left := Filter(b.trail, keep);
    FilterCounts(b.trail, keep);
    b.(trail := left, tally := b.tally.(dropped := b.tally.dropped + Counts(b.trail) - Counts(left)))
  }

  lemma {:induction false} FilterCounts(trail: seq<Entry>, keep: Entry -> bool)
    ensures Counts(Filter(trail, keep)) <= Counts(trail)
    ensures |Filter(trail, keep)| <= |trail|
  {
    if trail != [] {
      FilterCounts(trail[1..], keep);
      var rest := Filter(trail[1..], keep);
      assert ([trail[0]] + rest)[1..] == rest;
    }
  }

  datatype Event =
    | Ticked(graph: seq<Session>, now: int)
    | Left(s: Session, how: string, now: int, alarmFirst: bool)
    | Said(sid: string, slot: Slot, how: string)
    | Scrubbed(sid: string)
    | Replied(repo: string, head: string, who: string, reply: string, how: string, now: int)
    | Dismissed(ids: set<string>)
    | Pruned(retention: Option<int>, now: int)
    | Snoozed(id: string, kind: string, until: string)
    | Restarted

  /** A graph's records have keys of their own, and no state row is of kind `alarm`. */
  predicate IsGraph(graph: seq<Session>) {
    && (forall i | 0 <= i < |graph| :: IsRecord(graph[i]))
    && forall i, j | 0 <= i < j < |graph| :: graph[i].address != graph[j].address
  }

  predicate IsRecord(s: Session) {
    s.address != "" && s.kind != "alarm"
  }

  predicate IsEvent(e: Event) {
    && (e.Ticked? ==> IsGraph(e.graph))
    && (e.Left? ==> IsRecord(e.s))
  }

  function Undismissed(ids: set<string>): Entry -> bool {
    (e: Entry) => e.id !in ids
  }

  function Fresh(retention: Option<int>, now: int): Entry -> bool {
    (e: Entry) => retention.None? || now < e.last * 1_000_000 + retention.value
  }

  /** A start keeps the trail and the snoozes, which are stored, and nothing else. */
  function Restart(b: Book): Book {
    b.(attention := map[], words := map[], tally := b.tally.(unseen := b.tally.unseen + |b.attention|))
  }

  function Snooze(b: Book, id: string, kind: string, until: string): Book {
    b.(snoozed := if until != "" then b.snoozed[(id, kind) := until] else b.snoozed - {(id, kind)})
  }

  function Say(b: Book, key: Key, how: string): Book {
    b.(words := b.words[key := how])
  }

  function After(w: World, b: Book, e: Event): Book {
    match e
    case Ticked(graph, now) => Tick(w, b, graph, now)
    case Left(s, how, now, alarmFirst) => Gone(w, b, s, how, now, alarmFirst)
    case Said(sid, slot, how) => Say(b, Key(sid, slot), how)
    case Scrubbed(sid) => Scrub(b, sid)
    case Replied(repo, head, who, reply, how, now) => Reply(w, b, repo, head, who, reply, how, now)
    case Dismissed(ids) => Drop(b, Undismissed(ids))
    case Pruned(retention, now) => Drop(b, Fresh(retention, now))
    case Snoozed(id, kind, until) => Snooze(b, id, kind, until)
    case Restarted => Restart(b)
  }

  function Run(w: World, events: seq<Event>, n: nat): Book
    requires n <= |events|
  {
    Fold((b: Book, e: Event) => After(w, b, e), EMPTY, events, n)
  }

  ghost predicate AreEvents(events: seq<Event>) {
    forall e | e in events :: IsEvent(e)
  }
}
