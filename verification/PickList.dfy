/** scripts/ledgerboard.py's pickable: every live entry with its key, card and derived pickable, in pick order. */
module PickList {
  import opened Common
  import opened Keys
  import opened TextLines
  import opened Ledger
  import opened Cards
  import opened CardOrders
  import opened PickOrder
  import opened ImplicitKeys
  import RL = RankLines
  import RF = RankFile
  import IO = RankFileIO

  /** What keeps an entry from being picked, as its record lists it. */
  datatype Blocker = StillOpen(item: Item) | ToDecide(who: string) | Unread(text: string)

  /** `crossRepo` is each other repo's entry it names, with the answer there was. */
  datatype Record = Record(entry: LedgerEntry, key: string, card: string, pickable: bool, blockedBy: seq<Blocker>,
                           crossRepo: seq<(string, State)>)

  // ----- keys -----

  /** The rank file's keys, by number: of two ids of one number, the first line's. */
  ghost predicate IsLined(lined: map<nat, string>, text: string) {
    forall n: nat :: HoldsNum(lined, RF.Reading(Split(text)), n)
  }

  /** Its line's key, else its implicit key. */
  function EntryKey(e: LedgerEntry, lined: map<nat, string>, repo: string): string {
    if e.Num() in lined then lined[e.Num()] else ImplicitKey(e.priority, e.kind, e.id, repo)
  }

  /** The first entry of an id. */
  function FirstEntry(live: seq<LedgerEntry>, t: string): Option<LedgerEntry> {
    if live == [] then None
    else
      var before := FirstEntry(live[..|live|-1], t);
      if before.Some? || live[|live|-1].id != t then before else Some(live[|live|-1])
  }

  /** Of a repeated id, the first entry's key. */
  ghost predicate AreKeys(keys: map<string, string>, live: seq<LedgerEntry>, lined: map<nat, string>, repo: string) {
    forall t :: AreKeysAt(keys, live, lined, repo, t)
  }

  ghost predicate AreKeysAt(keys: map<string, string>, live: seq<LedgerEntry>, lined: map<nat, string>, repo: string,
                            t: string) {
    match FirstEntry(live, t)
    case Some(e) => t in keys && keys[t] == EntryKey(e, lined, repo)
    case None => t !in keys
  }

  lemma {:induction false} FirstEntryIs(live: seq<LedgerEntry>, t: string)
    ensures match FirstEntry(live, t)
            case Some(e) => e in live && e.id == t
            case None => t !in IdsOf(live)
  {
    if live != [] {
      var n := |live| - 1;
      FirstEntryIs(live[..n], t);
      assert IdsOf(live) == IdsOf(live[..n]) + [live[n].id];
    }
  }

  ghost predicate HoldsNum(lined: map<nat, string>, items: seq<RL.Entry>, n: nat) {
    match RF.First(items, RF.ByNum(n))
    case Some(e) => n in lined && lined[n] == e.key
    case None => n !in lined
  }

  lemma LinedStep(lined: map<nat, string>, items: seq<RL.Entry>, i: nat, n: nat)
    requires i < |items| && HoldsNum(lined, items[..i], n) && HoldsNum(lined, items[..i], RL.Num(items[i].id))
    ensures var m := RL.Num(items[i].id);
            HoldsNum(if m in lined then lined else lined[m := items[i].key], items[..i+1], n)
  {
    assert items[..i+1] == items[..i] + [items[i]];
    RF.FirstAppend(items[..i], [items[i]], RF.ByNum(n));
    assert [items[i]][1..] == [];
  }

  method LinesByNumber(text: string, items: seq<RL.Entry>) returns (lined: map<nat, string>)
    requires items == RF.Items(RF.Reading(Split(text)))
    ensures IsLined(lined, text)
  {
    lined := map[];
    for i := 0 to |items|
      invariant forall n: nat :: HoldsNum(lined, items[..i], n)
    {
      var m, before := RL.Num(items[i].id), lined;
      if m !in lined {
        lined := lined[m := items[i].key];
      }
      ghost var longer := items[..i+1];
      forall n: nat ensures HoldsNum(lined, longer, n) {
        LinedStep(before, items, i, n);
      }
    }
    assert items[..|items|] == items;
    forall n: nat ensures HoldsNum(lined, RF.Reading(Split(text)), n) {
      RF.FirstItem(RF.Reading(Split(text)), RF.ByNum(n));
      assert HoldsNum(lined, items, n);
    }
  }

  lemma KeysStep(keys: map<string, string>, live: seq<LedgerEntry>, lined: map<nat, string>, repo: string, i: nat)
    requires i < |live| && AreKeys(keys, live[..i], lined, repo)
    ensures var e := live[i];
            AreKeys(if e.id in keys then keys else keys[e.id := EntryKey(e, lined, repo)], live[..i+1], lined, repo)
  {
    assert live[..i+1][..i] == live[..i];
    var e := live[i];
    var next := if e.id in keys then keys else keys[e.id := EntryKey(e, lined, repo)];
    var longer := live[..i+1];
    forall t ensures AreKeysAt(next, longer, lined, repo, t) {
      assert AreKeysAt(keys, live[..i], lined, repo, t);
      assert AreKeysAt(keys, live[..i], lined, repo, e.id);
    }
  }

  method KeysOf(live: seq<LedgerEntry>, lined: map<nat, string>, repo: string) returns (keys: map<string, string>)
    ensures AreKeys(keys, live, lined, repo)
  {
    keys := map[];
    for i := 0 to |live|
      invariant AreKeys(keys, live[..i], lined, repo)
    {
      KeysStep(keys, live, lined, repo, i);
      if live[i].id !in keys {
        keys := keys[live[i].id := EntryKey(live[i], lined, repo)];
      }
    }
    assert live[..|live|] == live;
  }

  // ----- sorting -----

  lemma PlaceLessTransitive(a: Place, b: Place, c: Place)
    requires PlaceLess(a, b) && PlaceLess(b, c)
    ensures PlaceLess(a, c)
  {
    if KeyLess(a.card, b.card) && KeyLess(b.card, c.card) {
      LessTransitive(KeyOrder(a.card), KeyOrder(b.card), KeyOrder(c.card));
    }
  }

  lemma PlaceTotal(a: Place, b: Place)
    ensures PlaceLess(a, b) || a == b || PlaceLess(b, a)
    ensures !(PlaceLess(a, b) && PlaceLess(b, a)) && !PlaceLess(a, a)
  {
    LessTotal(KeyOrder(a.card), KeyOrder(b.card));
    LessIrreflexive(KeyOrder(a.card));
    if KeyOrder(a.card) == KeyOrder(b.card) {
      KeyOrderInjective(a.card, b.card);
    } else if KeyLess(a.card, b.card) {
      LessAsymmetric(KeyOrder(a.card), KeyOrder(b.card));
    } else {
      LessAsymmetric(KeyOrder(b.card), KeyOrder(a.card));
    }
  }

  ghost predicate InPlaces(s: seq<Record>, places: map<string, Place>) {
    forall r | r in s :: r.entry.id in places
  }

  ghost predicate SortedByPlace(s: seq<Record>, places: map<string, Place>)
    requires InPlaces(s, places)
  {
    forall i, j | 0 <= i < j < |s| :: !PlaceLess(places[s[j].entry.id], places[s[i].entry.id])
  }

  /** Python's stable sort by place. */
  function SortByPlace(s: seq<Record>, places: map<string, Place>): (t: seq<Record>)
    requires InPlaces(s, places)
    ensures multiset(t) == multiset(s) && InPlaces(t, places) && SortedByPlace(t, places)
  {
    if s == [] then []
    else
      assert s == [s[0]] + s[1..];
      InsertByPlace(s[0], SortByPlace(s[1..], places), places)
  }

  function InsertByPlace(r: Record, s: seq<Record>, places: map<string, Place>): (t: seq<Record>)
    requires r.entry.id in places && InPlaces(s, places) && SortedByPlace(s, places)
    ensures multiset(t) == multiset([r] + s) && InPlaces(t, places) && SortedByPlace(t, places)
  {
    if s == [] || !PlaceLess(places[s[0].entry.id], places[r.entry.id]) then
      InsertedFirst(r, s, places);
      [r] + s
    else
      InsertedLater(r, s, places, InsertByPlace(r, s[1..], places));
      [s[0]] + InsertByPlace(r, s[1..], places)
  }

  lemma InsertedFirst(r: Record, s: seq<Record>, places: map<string, Place>)
    requires r.entry.id in places && InPlaces(s, places) && SortedByPlace(s, places)
    requires s == [] || !PlaceLess(places[s[0].entry.id], places[r.entry.id])
    ensures InPlaces([r] + s, places) && SortedByPlace([r] + s, places)
  {
    forall j | 0 <= j < |s| ensures !PlaceLess(places[s[j].entry.id], places[r.entry.id]) {
      var a, b, c := places[s[j].entry.id], places[r.entry.id], places[s[0].entry.id];
      PlaceTotal(c, b);
      if PlaceLess(a, b) && PlaceLess(b, c) {
        PlaceLessTransitive(a, b, c);
      }
    }
  }

  lemma InsertedLater(r: Record, s: seq<Record>, places: map<string, Place>, t: seq<Record>)
    requires r.entry.id in places && InPlaces(s, places) && SortedByPlace(s, places) && s != []
    requires PlaceLess(places[s[0].entry.id], places[r.entry.id])
    requires multiset(t) == multiset([r] + s[1..]) && InPlaces(t, places) && SortedByPlace(t, places)
    ensures InPlaces([s[0]] + t, places) && SortedByPlace([s[0]] + t, places)
    ensures multiset([s[0]] + t) == multiset([r] + s)
  {
    assert s == [s[0]] + s[1..];
    PlaceTotal(places[s[0].entry.id], places[r.entry.id]);
    forall j | 0 <= j < |t| ensures !PlaceLess(places[t[j].entry.id], places[s[0].entry.id]) {
      assert t[j] in multiset([r] + s[1..]);
    }
  }

  // ----- blockers -----

  /** The answer for another repo's entry; with no resolver, or none from it, unresolved. */
  function Answer(name: string, resolved: map<string, State>): State {
    if name in resolved then resolved[name] else Unresolved
  }

  /** The names of a field that are not done. */
  function OpenOf(live: set<nat>, archived: set<nat>, resolved: map<string, State>): Item -> seq<Blocker> {
    (item: Item) => if IsDone(item, live, archived, resolved) then [] else [StillOpen(item)]
  }

  function AnswersOf(resolved: map<string, State>): Item -> seq<(string, State)> {
    (item: Item) => if item.Cross? then [(item.name, Answer(item.name, resolved))] else []
  }

  /** The open blockers: the names not done, who is to decide, and what cannot be read, in that order. */
  function BlockersOf(e: LedgerEntry, live: set<nat>, archived: set<nat>, resolved: map<string, State>): seq<Blocker> {
    match e.blocked
    case None => []
    case Some(b) => Collect(b.items, OpenOf(live, archived, resolved)) + Collect(b.decisions, who => [ToDecide(who)])
                    + Collect(b.unreadable, text => [Unread(text)])
  }

  lemma {:induction false} CollectIsEmpty<A, B>(s: seq<A>, f: A -> seq<B>)
    ensures Collect(s, f) == [] <==> forall x | x in s :: f(x) == []
  {
    if s != [] {
      CollectIsEmpty(s[1..], f);
      assert forall x :: x in s <==> x == s[0] || x in s[1..];
    }
  }

  /** An entry is pickable exactly when it has no open blocker. */
  lemma PickableIffUnblocked(e: LedgerEntry, live: set<nat>, archived: set<nat>, resolved: map<string, State>)
    ensures IsPickable(e, live, archived, resolved) <==> BlockersOf(e, live, archived, resolved) == []
  {
    if e.blocked.Some? {
      var b := e.blocked.value;
      CollectIsEmpty(b.items, OpenOf(live, archived, resolved));
      assert b.decisions != [] ==> Collect(b.decisions, who => [ToDecide(who)]) != [];
      assert b.unreadable != [] ==> Collect(b.unreadable, text => [Unread(text)]) != [];
    }
  }

  /** One name of a field: another repo's entry by its answer, a local one by its number. */
  method ReadItem(item: Item, live: set<nat>, archived: set<nat>, resolved: map<string, State>)
    returns (open: seq<Blocker>, answers: seq<(string, State)>)
    ensures open == OpenOf(live, archived, resolved)(item) && answers == AnswersOf(resolved)(item)
  {
    open, answers := [], [];
    match item {
      case Cross(name) =>
        var state := Answer(name, resolved);
        answers := [(name, state)];
        if state != Archived {
          open := [StillOpen(item)];
        }
      case Local(id) =>
        var n := RL.Num(id);
        if n in live {
          open := [StillOpen(item)];
        } else if n !in archived {
          open := [StillOpen(item)];
        }
    }
  }

  /** An entry's field read name by name. */
  method ReadBlocked(e: LedgerEntry, live: set<nat>, archived: set<nat>, resolved: map<string, State>)
    returns (blockers: seq<Blocker>, answers: seq<(string, State)>)
    ensures blockers == BlockersOf(e, live, archived, resolved)
    ensures answers == Collect(e.Names(), AnswersOf(resolved))
  {
    blockers, answers := [], [];
    if e.blocked.Some? {
      var items := e.blocked.value.items;
      for i := 0 to |items|
        invariant blockers == Collect(items[..i], OpenOf(live, archived, resolved))
        invariant answers == Collect(items[..i], AnswersOf(resolved))
      {
        var open, more := ReadItem(items[i], live, archived, resolved);
        CollectStep(items, i, OpenOf(live, archived, resolved));
        CollectStep(items, i, AnswersOf(resolved));
        blockers, answers := blockers + open, answers + more;
      }
      assert items[..|items|] == items;
      blockers := blockers + Collect(e.blocked.value.decisions, who => [ToDecide(who)])
                  + Collect(e.blocked.value.unreadable, text => [Unread(text)]);
    }
  }

  lemma CollectStep<A, B>(s: seq<A>, i: nat, f: A -> seq<B>)
    requires i < |s|
    ensures Collect(s[..i+1], f) == Collect(s[..i], f) + f(s[i])
  {
    assert s[..i+1] == s[..i] + [s[i]];
    CollectAppend(s[..i], [s[i]], f);
    CollectOne(s[i], f);
  }

  // ----- the list -----

  /** The rank file's keys, the entries' keys and their places, as pickable derives them. */
  ghost predicate IsRanked(live: seq<LedgerEntry>, text: string, repo: string, lined: map<nat, string>,
                           keys: map<string, string>, cards: seq<Card>, places: map<string, Place>) {
    IsLined(lined, text) && AreKeys(keys, live, lined, repo) && ArePlaces(live, keys, lined, cards, places)
  }

  function EntriesOf(s: seq<Record>): seq<LedgerEntry> {
    seq(|s|, i requires 0 <= i < |s| => s[i].entry)
  }

  /** The record says of its entry its key, its card's key, what still blocks it, the answers of other repos, and
      whether it is pickable. */
  ghost predicate IsRecordOf(r: Record, live: seq<LedgerEntry>, archived: set<nat>, resolved: map<string, State>,
                             keys: map<string, string>, places: map<string, Place>) {
    && r.entry.id in keys && r.key == keys[r.entry.id]
    && r.entry.id in places && r.card == places[r.entry.id].card
    && r.pickable == IsPickable(r.entry, Nums(live), archived, resolved)
    && r.blockedBy == BlockersOf(r.entry, Nums(live), archived, resolved)
    && r.crossRepo == Collect(r.entry.Names(), AnswersOf(resolved))
  }

  method Pickable(live: seq<LedgerEntry>, archived: set<nat>, resolved: map<string, State>, text: string, repo: string)
    returns (entries: seq<Record>, ghost lined: map<nat, string>, ghost keys: map<string, string>,
             ghost cards: seq<Card>, ghost places: map<string, Place>)
    ensures IsRanked(live, text, repo, lined, keys, cards, places)
    ensures IsPickOrder(EntriesOf(entries), live, places)
    ensures forall r | r in entries :: IsRecordOf(r, live, archived, resolved, keys, places)
  {
    var _, items, _ := IO.Rank(text);
    var byNum := LinesByNumber(text, items);
    var byId := KeysOf(live, byNum, repo);
    AllKeyed(byId, live, byNum, repo);
    var order;
    order, cards := CardOrder(live, byId, byNum);
    lined, keys, places := byNum, byId, order;
    var nums := set e | e in live :: e.Num();
    var pick, blocked := [], [];
    for i := 0 to |live|
      invariant multiset(EntriesOf(pick + blocked)) == multiset(live[..i])
      invariant forall r | r in pick + blocked :: IsRecordOf(r, live, archived, resolved, keys, places)
    {
      var e := live[i];
      IdIn(live, e);
      var blockers, answers := ReadBlocked(e, nums, archived, resolved);
      PickableIffUnblocked(e, nums, archived, resolved);
      var r := Record(e, byId[e.id], order[e.id].card, blockers == [], blockers, answers);
      assert live[..i+1] == live[..i] + [e];
      ghost var before := pick + blocked;
      if r.pickable {
        pick := pick + [r];
      } else {
        blocked := blocked + [r];
      }
      OneMoreRecord(before, pick + blocked, r);
    }
    assert live[..|live|] == live;
    entries := SortByPlace(pick + blocked, order);
    SameRecords(pick + blocked, entries);
    SortedEntries(entries, order);
  }

  lemma AllKeyed(keys: map<string, string>, live: seq<LedgerEntry>, lined: map<nat, string>, repo: string)
    requires AreKeys(keys, live, lined, repo)
    ensures Keyed(keys, IdsOf(live))
  {
    forall t | t in IdsOf(live) ensures t in keys {
      FirstEntryIs(live, t);
      assert AreKeysAt(keys, live, lined, repo, t);
    }
  }

  lemma WithoutOne(t: seq<Record>, j: nat)
    requires j < |t|
    ensures multiset(t[..j] + t[j+1..]) == multiset(t) - multiset{t[j]}
    ensures multiset(EntriesOf(t)) == multiset(EntriesOf(t[..j] + t[j+1..])) + multiset{t[j].entry}
  {
    var a, b := t[..j], t[j+1..];
    assert t == a + [t[j]] + b;
    assert EntriesOf(t) == EntriesOf(a) + [t[j].entry] + EntriesOf(b);
    assert EntriesOf(a + b) == EntriesOf(a) + EntriesOf(b);
  }

  lemma Head(s: seq<Record>)
    requires s != []
    ensures multiset(s[1..]) == multiset(s) - multiset{s[0]}
    ensures multiset(EntriesOf(s)) == multiset(EntriesOf(s[1..])) + multiset{s[0].entry}
  {
    WithoutOne(s, 0);
    assert s[..0] + s[1..] == s[1..];
  }

  lemma IndexIn(t: seq<Record>, r: Record) returns (j: nat)
    requires multiset(t)[r] > 0
    ensures j < |t| && t[j] == r
  {
    assert r in t;
    j :| j < |t| && t[j] == r;
  }

  lemma {:induction false} EntriesMultiset(s: seq<Record>, t: seq<Record>)
    requires multiset(s) == multiset(t)
    ensures multiset(EntriesOf(s)) == multiset(EntriesOf(t))
    decreases |s|
  {
    if s == [] {
      assert |t| == |multiset(t)| == 0;
    } else {
      Head(s);
      assert s[0] in multiset(s);
      var j := IndexIn(t, s[0]);
      WithoutOne(t, j);
      EntriesMultiset(s[1..], t[..j] + t[j+1..]);
    }
  }

  lemma OneMoreRecord(before: seq<Record>, after: seq<Record>, r: Record)
    requires multiset(after) == multiset(before) + multiset{r}
    ensures multiset(EntriesOf(after)) == multiset(EntriesOf(before)) + multiset{r.entry}
    ensures forall x :: x in after <==> x in before || x == r
  {
    EntriesMultiset(after, before + [r]);
    assert EntriesOf(before + [r]) == EntriesOf(before) + [r.entry];
    forall x ensures x in after <==> x in before || x == r {
      assert x in after <==> x in multiset(after);
    }
  }

  lemma SameRecords(s: seq<Record>, t: seq<Record>)
    requires multiset(s) == multiset(t)
    ensures multiset(EntriesOf(s)) == multiset(EntriesOf(t)) && forall r :: r in s <==> r in t
  {
    EntriesMultiset(s, t);
    forall r ensures r in s <==> r in t {
      assert r in s <==> r in multiset(s);
    }
  }

  lemma SortedEntries(s: seq<Record>, places: map<string, Place>)
    requires InPlaces(s, places) && SortedByPlace(s, places)
    ensures var order := EntriesOf(s);
            && (forall e | e in order :: e.id in places)
            && forall i, j | 0 <= i < j < |order| :: !PlaceLess(places[order[j].id], places[order[i].id])
  {
    forall e | e in EntriesOf(s) ensures e.id in places {
      var i :| 0 <= i < |s| && EntriesOf(s)[i] == e;
      assert s[i] in s;
    }
  }
}
