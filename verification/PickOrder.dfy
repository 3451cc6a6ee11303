/** What is workable, and in what order: scripts/ledgerboard.py's pickable, and what its order promises. */
module PickOrder {
  import opened Common
  import opened Keys
  import opened RankLines
  import opened Ledger
  import opened Cards
  import opened GreedyOrder
  import opened CardOrders
  import UF = UnionFind

  // ----- pickable -----

  /** What the resolver answers for another repo's entry; no resolver, or no answer, is unresolved. */
  datatype State = Open | Archived | Unresolved

  function Nums(ents: seq<LedgerEntry>): set<nat> {
    set e | e in ents :: e.Num()
  }

  /** The name no longer blocks: the entry is archived, here or in its repo. */
  predicate IsDone(item: Item, live: set<nat>, archived: set<nat>, resolved: map<string, State>) {
    match item
    case Local(id) => Num(id) !in live && Num(id) in archived
    case Cross(name) => name in resolved && resolved[name] == Archived
  }

  /** Derived, never written: no Blocked by field, or every name done and no decision nor unreadable item. */
  predicate IsPickable(e: LedgerEntry, live: set<nat>, archived: set<nat>, resolved: map<string, State>) {
    e.blocked.Some? ==>
      && (forall item | item in e.blocked.value.items :: IsDone(item, live, archived, resolved))
      && e.blocked.value.decisions == [] && e.blocked.value.unreadable == []
  }

  // ----- the order -----

  predicate PlaceLess(a: Place, b: Place) {
    || KeyLess(a.card, b.card)
    || (a.card == b.card && (a.low < b.low || (a.low == b.low && a.pos < b.pos)))
  }

  ghost predicate DistinctNums(ents: seq<LedgerEntry>) {
    forall i, j | 0 <= i < j < |ents| :: ents[i].Num() != ents[j].Num()
  }

  /** `order` holds the live entries, each once, and sorts them by their places. */
  ghost predicate IsPickOrder(order: seq<LedgerEntry>, live: seq<LedgerEntry>, places: map<string, Place>) {
    && multiset(order) == multiset(live)
    && (forall e | e in order :: e.id in places)
    && forall i, j | 0 <= i < j < |order| :: !PlaceLess(places[order[j].id], places[order[i].id])
  }

  lemma SameEntries(order: seq<LedgerEntry>, live: seq<LedgerEntry>)
    requires multiset(order) == multiset(live)
    ensures forall e :: e in order <==> e in live
    ensures Nums(order) == Nums(live)
  {
    forall e ensures e in order <==> e in live {
      assert e in order <==> e in multiset(order);
      assert e in live <==> e in multiset(live);
    }
  }

  lemma {:induction false} PermutedNums(order: seq<LedgerEntry>, live: seq<LedgerEntry>)
    requires multiset(order) == multiset(live) && DistinctNums(live)
    ensures DistinctNums(order)
  {
    SameEntries(order, live);
    forall i, j | 0 <= i < j < |order| ensures order[i].Num() != order[j].Num() {
      if order[i].Num() == order[j].Num() {
        OneOfNum(live, order[i], order[j]);
        Twice(order, i, j);
        OnceOnly(live, order[i]);
      }
    }
  }

  lemma OneOfNum(live: seq<LedgerEntry>, e: LedgerEntry, f: LedgerEntry)
    requires DistinctNums(live) && e in live && f in live && e.Num() == f.Num()
    ensures e == f
  {
  }

  lemma Twice(s: seq<LedgerEntry>, i: nat, j: nat)
    requires i < j < |s| && s[i] == s[j]
    ensures multiset(s)[s[i]] >= 2
  {
    assert s == s[..j] + s[j..];
    assert s[i] in s[..j] && s[j] in s[j..];
  }

  lemma {:induction false} OnceOnly(s: seq<LedgerEntry>, e: LedgerEntry)
    requires DistinctNums(s)
    ensures multiset(s)[e] <= 1
  {
    if s != [] {
      OnceOnly(s[1..], e);
      assert s == [s[0]] + s[1..];
      if s[0] == e {
        assert e !in s[1..];
      }
    }
  }

  lemma OneId(live: seq<LedgerEntry>, e: LedgerEntry, f: LedgerEntry)
    requires DistinctNums(live) && e in live && f in live && e.id == f.id
    ensures e == f
  {
  }

  lemma IdIn(live: seq<LedgerEntry>, e: LedgerEntry)
    requires e in live
    ensures e.id in IdsOf(live)
  {
    var i :| 0 <= i < |live| && live[i] == e;
    assert IdsOf(live)[i] == e.id;
  }

  lemma EntryOf(live: seq<LedgerEntry>, t: string) returns (e: LedgerEntry)
    requires t in IdsOf(live)
    ensures e in live && e.id == t
  {
    var i :| 0 <= i < |live| && IdsOf(live)[i] == t;
    e := live[i];
  }

  lemma NamesOfEntry(live: seq<LedgerEntry>, e: LedgerEntry)
    requires DistinctNums(live) && e in live
    ensures NamesOf(live, e.id) == e.Names()
  {
    IdIn(live, e);
    LastOfPresent(live, e.id);
    OneId(live, e, LastOf(live, e.id).value);
  }

  // ----- cards stay together -----

  /** Where an entry stands is its card's key and lowest number, and its own place in the card. */
  lemma PlaceOf(live: seq<LedgerEntry>, keys: map<string, string>, lined: map<nat, string>, cards: seq<Card>,
                places: map<string, Place>, c: Card)
    returns (s: seq<string>, card: string, low: nat)
    requires ArePlaces(live, keys, lined, cards, places) && c in cards
    ensures Keyed(keys, c.ids) && IsCardOrder(live, keys, lined, c.ids, s, card, low)
    ensures Stands(s, card, low, places)
    ensures forall t :: t in s <==> t in c.ids
  {
    s, card, low :| IsCardOrder(live, keys, lined, c.ids, s, card, low) && Stands(s, card, low, places);
    OrderOfCard(live, keys, lined, c.ids, s, card, low);
  }

  /** Two entries have one card key and lowest number exactly when they are on one card. */
  lemma OneLowPerCard(live: seq<LedgerEntry>, keys: map<string, string>, lined: map<nat, string>, cards: seq<Card>,
                      places: map<string, Place>, x: string, y: string)
    requires ArePlaces(live, keys, lined, cards, places) && DistinctNums(live)
    requires x in IdsOf(live) && y in IdsOf(live)
    ensures SameCard(live, x, y) <==> places[x].low == places[y].low
    ensures SameCard(live, x, y) ==> places[x].card == places[y].card
  {
    var c := OnSomeCard(live, cards, x);
    var d := OnSomeCard(live, cards, y);
    CardsPartition(live, cards);
    var s, k, m := PlaceOf(live, keys, lined, cards, places, c);
    var t, l, n := PlaceOf(live, keys, lined, cards, places, d);
    var p :| 0 <= p < |s| && s[p] == x;
    var q :| 0 <= q < |t| && t[q] == y;
    if y in c.ids {
      var r :| 0 <= r < |s| && s[r] == y;
    } else if m == n {
      var u :| u in c.ids && Num(u) == m;
      var v :| v in d.ids && Num(v) == n;
      CardMembers(live, cards, c);
      CardMembers(live, cards, d);
      var e := EntryOf(live, u);
      var f := EntryOf(live, v);
      OneOfNum(live, e, f);
    }
  }

  /** With distinct numbers, a card's entries stand together: nothing of another card is between two of one. */
  lemma CardsAreContiguous(order: seq<LedgerEntry>, live: seq<LedgerEntry>, keys: map<string, string>,
                           lined: map<nat, string>, cards: seq<Card>, places: map<string, Place>,
                           i: nat, j: nat, k: nat)
    requires ArePlaces(live, keys, lined, cards, places) && DistinctNums(live)
    requires IsPickOrder(order, live, places) && i < j < k < |order|
    requires SameCard(live, order[i].id, order[k].id)
    ensures SameCard(live, order[i].id, order[j].id)
  {
    SameEntries(order, live);
    IdIn(live, order[i]);
    IdIn(live, order[j]);
    IdIn(live, order[k]);
    OneLowPerCard(live, keys, lined, cards, places, order[i].id, order[k].id);
    OneLowPerCard(live, keys, lined, cards, places, order[i].id, order[j].id);
    var a, b, c := places[order[i].id], places[order[j].id], places[order[k].id];
    if a.card != b.card {
      LessTotal(KeyOrder(a.card), KeyOrder(b.card));
      if KeyOrder(a.card) == KeyOrder(b.card) {
        KeyOrderInjective(a.card, b.card);
      }
    }
  }

  // ----- blockers come first -----

  /** A member that is on no cycle of its card's blockers, and behind none, stands after all its blockers. */
  lemma BlockersStandFirst(live: seq<LedgerEntry>, keys: map<string, string>, lined: map<nat, string>,
                           cards: seq<Card>, places: map<string, Place>, c: Card, t: string, b: string)
    requires ArePlaces(live, keys, lined, cards, places) && c in cards
    requires t in c.ids && b in Blockers(live, c.ids, t)
    requires !IsStuck(t, Members(c.ids), Deps(live, c.ids))
    ensures b in c.ids && t in places && b in places
    ensures places[b].card == places[t].card && places[b].low == places[t].low && places[b].pos < places[t].pos
  {
    BlockersAreMembers(live, c.ids, t);
    var s, card, low := PlaceOf(live, keys, lined, cards, places, c);
    var i, j := UnstuckPlaces(s, Members(c.ids), Deps(live, c.ids), Ranks(keys, c.ids), t, b);
  }

  /** On a card without a cycle the order is the least, by key then number, of those that keep blockers first. */
  lemma CardOrderIsLeast(live: seq<LedgerEntry>, keys: map<string, string>, lined: map<nat, string>,
                         cards: seq<Card>, places: map<string, Place>, c: Card, t: seq<string>)
    returns (s: seq<string>)
    requires ArePlaces(live, keys, lined, cards, places) && DistinctNums(live) && c in cards
    requires IsAcyclic(Members(c.ids), Deps(live, c.ids))
    requires IsOrderOf(t, Members(c.ids)) && Respects(t, Members(c.ids), Deps(live, c.ids))
    ensures |s| == |t| && forall p | 0 <= p < |s| :: s[p] in places && places[s[p]].pos == p
    ensures IsOrderOf(s, Members(c.ids)) && Respects(s, Members(c.ids), Deps(live, c.ids))
    ensures Keyed(keys, c.ids) && NotAbove(s, t, Ranks(keys, c.ids))
  {
    var card, low;
    s, card, low := PlaceOf(live, keys, lined, cards, places, c);
    NoTiesOnCard(live, keys, cards, c);
    AcyclicRespects(s, Members(c.ids), Deps(live, c.ids), Ranks(keys, c.ids));
    GreedyIsLeast(s, t, Members(c.ids), Deps(live, c.ids), Ranks(keys, c.ids));
    DistinctFits(s, Members(t));
    DistinctFits(t, Members(s));
    DistinctLength(s);
    DistinctLength(t);
  }

  /** Inside a card, of two entries the one that stands later, if all its blockers stood before the other, has not the
      lower key, nor at one key the lower number. */
  lemma MembersByKeyThenNumber(live: seq<LedgerEntry>, keys: map<string, string>, lined: map<nat, string>,
                               cards: seq<Card>, places: map<string, Place>, c: Card, x: string, y: string)
    requires ArePlaces(live, keys, lined, cards, places) && c in cards && x in c.ids && y in c.ids
    requires x in places && y in places && places[x].pos < places[y].pos
    requires forall b | b in Blockers(live, c.ids, y) :: b in places && places[b].pos < places[x].pos
    ensures x in keys && y in keys && !KeyLess(keys[y], keys[x])
    ensures keys[x] == keys[y] ==> Num(x) <= Num(y)
  {
    var s, card, low := PlaceOf(live, keys, lined, cards, places, c);
    StandsByKey(live, keys, lined, c.ids, s, card, low, places, x, y);
  }

  lemma StandsByKey(live: seq<LedgerEntry>, keys: map<string, string>, lined: map<nat, string>, ids: seq<string>,
                    s: seq<string>, card: string, low: nat, places: map<string, Place>, x: string, y: string)
    requires Keyed(keys, ids) && IsCardOrder(live, keys, lined, ids, s, card, low) && Stands(s, card, low, places)
    requires (forall t :: t in s <==> t in ids) && x in ids && y in ids
    requires x in places && y in places && places[x].pos < places[y].pos
    requires forall b | b in Blockers(live, ids, y) :: b in places && places[b].pos < places[x].pos
    ensures !KeyLess(keys[y], keys[x])
    ensures keys[x] == keys[y] ==> Num(x) <= Num(y)
  {
    var i, j := PositionOf(s, card, low, places, x), PositionOf(s, card, low, places, y);
    BlockersAreMembers(live, ids, y);
    forall b | b in Blockers(live, ids, y) ensures b in s[..i] {
      var k := PositionOf(s, card, low, places, b);
      assert s[..i][k] == b;
    }
    ChosenByKey(live, keys, lined, ids, s, card, low, i, j);
  }

  function PositionOf(s: seq<string>, card: string, low: nat, places: map<string, Place>, x: string): (i: nat)
    requires Stands(s, card, low, places) && x in s
    ensures i < |s| && s[i] == x && x in places && places[x] == Place(card, low, i)
  {
    IndexFrom(s, y => y == x, 0)
  }

  lemma ChosenByKey(live: seq<LedgerEntry>, keys: map<string, string>, lined: map<nat, string>, ids: seq<string>,
                    s: seq<string>, card: string, low: nat, i: nat, j: nat)
    requires Keyed(keys, ids) && IsCardOrder(live, keys, lined, ids, s, card, low) && i < j < |s|
    requires (forall t :: t in s <==> t in ids) && forall b | b in Blockers(live, ids, s[j]) :: b in s[..i]
    ensures !KeyLess(keys[s[j]], keys[s[i]])
    ensures keys[s[i]] == keys[s[j]] ==> Num(s[i]) <= Num(s[j])
  {
    assert s[i] in s && s[j] in s;
    GreedyTakesLeast(s, Members(ids), Deps(live, ids), Ranks(keys, ids), i, j);
    RankIsKeyThenNumber(keys, s[j], s[i]);
  }

  lemma RankIsKeyThenNumber(keys: map<string, string>, x: string, y: string)
    requires x in keys && y in keys
    ensures RankLess(RankOf(keys, x), RankOf(keys, y)) <==>
            KeyLess(keys[x], keys[y]) || (keys[x] == keys[y] && Num(x) < Num(y))
  {
    if KeyOrder(keys[x]) == KeyOrder(keys[y]) {
      KeyOrderInjective(keys[x], keys[y]);
    }
    LessIrreflexive(KeyOrder(keys[x]));
    LessOfOne(Num(x), Num(y));
  }

  lemma LessOfOne(m: int, n: int)
    ensures Less([m], [n]) <==> m < n
  {
    LessIrreflexive([m][1..]);
    assert [m][1..] == [n][1..];
  }

  /** Of two cards the one that stands later has not the lower key, nor at one key the lower lowest number; and on one
      card entries stand in the order of their places. */
  lemma CardsByKeyThenNumber(order: seq<LedgerEntry>, live: seq<LedgerEntry>, keys: map<string, string>,
                             lined: map<nat, string>, cards: seq<Card>, places: map<string, Place>, i: nat, j: nat)
    requires ArePlaces(live, keys, lined, cards, places) && DistinctNums(live)
    requires IsPickOrder(order, live, places) && i < j < |order|
    ensures var a, b := places[order[i].id], places[order[j].id];
            && !KeyLess(b.card, a.card)
            && (SameCard(live, order[i].id, order[j].id) ==> a.pos < b.pos)
            && (a.card == b.card && !SameCard(live, order[i].id, order[j].id) ==> a.low < b.low)
  {
    SameEntries(order, live);
    PermutedNums(order, live);
    IdIn(live, order[i]);
    IdIn(live, order[j]);
    OneLowPerCard(live, keys, lined, cards, places, order[i].id, order[j].id);
    var a, b := places[order[i].id], places[order[j].id];
    if SameCard(live, order[i].id, order[j].id) {
      var c := OnSomeCard(live, cards, order[i].id);
      OneCard(live, cards, c, order[i].id, order[j].id);
      PositionsDiffer(live, keys, lined, cards, places, c, order[i].id, order[j].id);
    }
  }

  lemma PositionsDiffer(live: seq<LedgerEntry>, keys: map<string, string>, lined: map<nat, string>, cards: seq<Card>,
                        places: map<string, Place>, c: Card, x: string, y: string)
    requires ArePlaces(live, keys, lined, cards, places) && c in cards && x in c.ids && y in c.ids && x != y
    ensures x in places && y in places && places[x].pos != places[y].pos
  {
    var s, card, low := PlaceOf(live, keys, lined, cards, places, c);
    var i, j := PositionOf(s, card, low, places, x), PositionOf(s, card, low, places, y);
  }

  lemma {:induction false} DistinctLength(s: seq<string>)
    requires Distinct(s)
    ensures |Members(s)| == |s|
  {
    if s != [] {
      DistinctLength(s[1..]);
      assert Members(s) == {s[0]} + Members(s[1..]);
    }
  }

  lemma NoTiesOnCard(live: seq<LedgerEntry>, keys: map<string, string>, cards: seq<Card>, c: Card)
    requires AreCards(live, cards) && c in cards && Keyed(keys, c.ids) && DistinctNums(live)
    ensures NoTies(Members(c.ids), Ranks(keys, c.ids))
  {
    CardMembers(live, cards, c);
    forall x, y | x in Members(c.ids) && y in Members(c.ids) && RankOf(keys, x) == RankOf(keys, y) ensures x == y {
      var e := EntryOf(live, x);
      var f := EntryOf(live, y);
      assert RankOf(keys, x).minor[0] == RankOf(keys, y).minor[0];
      OneOfNum(live, e, f);
    }
  }

  // ----- the order is a schedule -----

  /** The live entries an entry names; its own number is its own. */
  ghost function WaitsOn(live: seq<LedgerEntry>, t: string): set<string> {
    set u | u in IdsOf(live) && exists b :: Local(b) in NamesOf(live, t) && Num(b) == Num(u)
  }

  ghost function Waits(live: seq<LedgerEntry>): map<string, set<string>> {
    map t | t in IdsOf(live) :: WaitsOn(live, t)
  }

  /** Every name can come to be done: archived already, or live here; nothing waits on a decision or cannot be
      read; and no entry waits, through others, on itself. */
  ghost predicate IsSchedulable(live: seq<LedgerEntry>, archived: set<nat>, resolved: map<string, State>) {
    && (forall e | e in live && e.blocked.Some? ::
          && (forall item | item in e.blocked.value.items ::
                match item
                case Local(b) => Num(b) in Nums(live) || Num(b) in archived
                case Cross(name) => name in resolved && resolved[name] == Archived)
          && e.blocked.value.decisions == [] && e.blocked.value.unreadable == [])
    && IsAcyclic(Members(IdsOf(live)), Waits(live))
  }

  /** Taking the entries in order and archiving each, every one is pickable when it is reached. */
  ghost predicate Drains(order: seq<LedgerEntry>, archived: set<nat>, resolved: map<string, State>) {
    forall k | 0 <= k < |order| ::
      IsPickable(order[k], Nums(order[k..]), archived + Nums(order[..k]), resolved)
  }

  /** An entry and the live entry it names are on one card. */
  lemma NamedOnOneCard(live: seq<LedgerEntry>, e: LedgerEntry, f: LedgerEntry, b: string)
    requires DistinctNums(live) && e in live && f in live && Local(b) in e.Names() && Num(b) == f.Num() != e.Num()
    ensures SameCard(live, e.id, f.id)
  {
    var ids, edges := IdsOf(live), Edges(IdsOf(live), live);
    PresentIsTheOne(live, f);
    assert Target(ids, e, Local(b)) == Some(f.id);
    EdgeMember(ids, live, (f.id, e.id));
    assert UF.Adjacent(edges, e.id, f.id);
    UF.ConnectedToItself(edges, e.id);
    UF.WalkOn(edges, e.id, e.id, f.id);
  }

  /** The live entry named is among the blockers on its card. */
  lemma NamedIsBlocker(live: seq<LedgerEntry>, cards: seq<Card>, c: Card, e: LedgerEntry, f: LedgerEntry, b: string)
    requires AreCards(live, cards) && c in cards && DistinctNums(live)
    requires e in live && f in live && e.id in c.ids && Local(b) in e.Names() && Num(b) == f.Num() != e.Num()
    ensures f.id in Blockers(live, c.ids, e.id)
  {
    NamedOnOneCard(live, e, f, b);
    IdIn(live, f);
    OneCard(live, cards, c, e.id, f.id);
    MemberIsTheOne(live, cards, c, f);
    NamesOfEntry(live, e);
    assert MemberOf(c.ids, Num(b)) != Some(e.id);
  }

  lemma MemberIsTheOne(live: seq<LedgerEntry>, cards: seq<Card>, c: Card, f: LedgerEntry)
    requires AreCards(live, cards) && c in cards && DistinctNums(live) && f in live && f.id in c.ids
    ensures MemberOf(c.ids, f.Num()) == Some(f.id)
  {
    MemberIs(c.ids, f.Num());
    CardMembers(live, cards, c);
    var g := EntryOf(live, MemberOf(c.ids, f.Num()).value);
    OneOfNum(live, f, g);
  }

  lemma PresentIsTheOne(live: seq<LedgerEntry>, f: LedgerEntry)
    requires DistinctNums(live) && f in live
    ensures Present(IdsOf(live), f.Num()) == Some(f.id)
  {
    IdIn(live, f);
    PresentIsId(IdsOf(live), f.Num());
    var g := EntryOf(live, Present(IdsOf(live), f.Num()).value);
    OneOfNum(live, f, g);
  }

  lemma BlockerIsNamed(live: seq<LedgerEntry>, cards: seq<Card>, c: Card, x: string, y: string)
    requires AreCards(live, cards) && c in cards && x in c.ids && y in Blockers(live, c.ids, x)
    ensures y in WaitsOn(live, x)
  {
    CardMembers(live, cards, c);
    BlockersAreMembers(live, c.ids, x);
    var b :| b in NamesOf(live, x) && b.Local? && MemberOf(c.ids, Num(b.id)) == Some(y);
    MemberIs(c.ids, Num(b.id));
    assert Local(b.id) in NamesOf(live, x);
  }

  /** A cycle among a card's members is a cycle of the ledger. */
  lemma CardKnotIsKnot(live: seq<LedgerEntry>, cards: seq<Card>, c: Card, k: set<string>)
    requires AreCards(live, cards) && c in cards
    requires k <= Members(c.ids) && IsKnot(k, Deps(live, c.ids))
    ensures !IsAcyclic(Members(IdsOf(live)), Waits(live))
  {
    CardMembers(live, cards, c);
    forall x | x in k ensures Deps(live, c.ids)[x] <= Waits(live)[x] {
      forall y | y in Blockers(live, c.ids, x) ensures y in WaitsOn(live, x) {
        BlockerIsNamed(live, cards, c, x, y);
      }
    }
    KnotInMore(k, Members(IdsOf(live)), Deps(live, c.ids), Waits(live));
  }

  lemma NumsAt(order: seq<LedgerEntry>, i: nat)
    requires i < |order|
    ensures forall k | 0 <= k <= i :: order[i].Num() in Nums(order[k..])
    ensures forall k | i < k <= |order| :: order[i].Num() in Nums(order[..k])
  {
    forall k | 0 <= k <= i ensures order[i].Num() in Nums(order[k..]) {
      assert order[k..][i-k] == order[i];
    }
    forall k | i < k <= |order| ensures order[i].Num() in Nums(order[..k]) {
      assert order[..k][i] == order[i];
    }
  }

  lemma NumsSplit(order: seq<LedgerEntry>, i: nat, k: nat)
    requires DistinctNums(order) && i < k <= |order|
    ensures order[i].Num() !in Nums(order[k..])
  {
    forall e | e in order[k..] ensures e.Num() != order[i].Num() {
      var j :| 0 <= j < |order[k..]| && order[k..][j] == e;
      assert order[k + j] == e;
    }
  }

  lemma NumsWithin(order: seq<LedgerEntry>, k: nat)
    requires k <= |order|
    ensures Nums(order[k..]) <= Nums(order) && Nums(order[..k]) <= Nums(order)
    ensures Nums(order) == Nums(order[..k]) + Nums(order[k..])
  {
    assert order == order[..k] + order[k..];
    assert forall e :: e in order <==> e in order[..k] || e in order[k..];
  }

  /** A name that can come to be done is done when its entry is reached: the entry named came before. */
  lemma DoneWhenReached(order: seq<LedgerEntry>, live: seq<LedgerEntry>, keys: map<string, string>,
                        lined: map<nat, string>, cards: seq<Card>, places: map<string, Place>,
                        archived: set<nat>, resolved: map<string, State>, k: nat, item: Item)
    requires ArePlaces(live, keys, lined, cards, places) && DistinctNums(live) && IsPickOrder(order, live, places)
    requires IsSchedulable(live, archived, resolved) && k < |order| && item in order[k].Names()
    ensures IsDone(item, Nums(order[k..]), archived + Nums(order[..k]), resolved)
  {
    var e := order[k];
    SameEntries(order, live);
    PermutedNums(order, live);
    NumsWithin(order, k);
    if item.Local? && Num(item.id) in Nums(live) {
      var i := ReachedBefore(order, live, keys, lined, cards, places, k, item.id);
      NumsSplit(order, i, k);
      NumsAt(order, i);
    }
  }

  /** In an acyclic ledger the live entry named stands earlier in the order. */
  lemma ReachedBefore(order: seq<LedgerEntry>, live: seq<LedgerEntry>, keys: map<string, string>,
                      lined: map<nat, string>, cards: seq<Card>, places: map<string, Place>, k: nat, b: string)
    returns (i: nat)
    requires ArePlaces(live, keys, lined, cards, places) && DistinctNums(live) && IsPickOrder(order, live, places)
    requires IsAcyclic(Members(IdsOf(live)), Waits(live)) && k < |order|
    requires Local(b) in order[k].Names() && Num(b) in Nums(live)
    ensures i < k && order[i].Num() == Num(b)
  {
    var e := order[k];
    SameEntries(order, live);
    var f :| f in live && f.Num() == Num(b);
    if f.Num() == e.Num() {
      SelfNamedIsKnot(live, e, b);
    }
    IdIn(live, e);
    var c := OnSomeCard(live, cards, e.id);
    NamedIsBlocker(live, cards, c, e, f, b);
    if IsStuck(e.id, Members(c.ids), Deps(live, c.ids)) {
      var knot :| knot <= Members(c.ids) && IsKnot(knot, Deps(live, c.ids)) && e.id in knot;
      CardKnotIsKnot(live, cards, c, knot);
    }
    BlockersStandFirst(live, keys, lined, cards, places, c, e.id, f.id);
    i :| i < |order| && order[i] == f;
    LessIrreflexive(KeyOrder(places[f.id].card));
    assert k < i ==> !PlaceLess(places[order[i].id], places[order[k].id]);
  }

  lemma SelfNamedIsKnot(live: seq<LedgerEntry>, e: LedgerEntry, b: string)
    requires DistinctNums(live) && e in live && Local(b) in e.Names() && Num(b) == e.Num()
    ensures !IsAcyclic(Members(IdsOf(live)), Waits(live))
  {
    IdIn(live, e);
    NamesOfEntry(live, e);
    assert e.id in Waits(live)[e.id] * {e.id};
    assert HeldBack(e.id, {e.id}, Waits(live));
    assert IsKnot({e.id}, Waits(live));
  }

  lemma DrainedNameIsBefore(order: seq<LedgerEntry>, live: seq<LedgerEntry>, archived: set<nat>,
                            resolved: map<string, State>, i: nat, u: string)
    requires multiset(order) == multiset(live) && DistinctNums(live) && Drains(order, archived, resolved)
    requires i < |order| && u in WaitsOn(live, order[i].id)
    ensures u in IdsOf(order)[..i]
  {
    SameEntries(order, live);
    var e := order[i];
    NamesOfEntry(live, e);
    var b :| Local(b) in e.Names() && Num(b) == Num(u);
    assert IsPickable(e, Nums(order[i..]), archived + Nums(order[..i]), resolved);
    assert IsDone(Local(b), Nums(order[i..]), archived + Nums(order[..i]), resolved);
    var f := EntryOf(live, u);
    var j :| 0 <= j < |order| && order[j] == f;
    NumsAt(order, j);
    assert j < i;
    assert IdsOf(order)[..i][j] == u;
  }

  /** An order that drains shows that no entry waits on itself. */
  lemma DrainedIsAcyclic(order: seq<LedgerEntry>, live: seq<LedgerEntry>, archived: set<nat>,
                         resolved: map<string, State>)
    requires multiset(order) == multiset(live) && DistinctNums(live) && Drains(order, archived, resolved)
    ensures IsAcyclic(Members(IdsOf(live)), Waits(live))
  {
    var s := IdsOf(order);
    SameEntries(order, live);
    PermutedNums(order, live);
    SameIds(order, live);
    forall i, u | 0 <= i < |s| && u in Waits(live)[s[i]] && u in Members(IdsOf(live)) ensures u in s[..i] {
      DrainedNameIsBefore(order, live, archived, resolved, i, u);
    }
    RespectedIsAcyclic(s, Members(IdsOf(live)), Waits(live));
  }

  lemma SameIds(order: seq<LedgerEntry>, live: seq<LedgerEntry>)
    requires multiset(order) == multiset(live) && DistinctNums(order)
    ensures IsOrderOf(IdsOf(order), Members(IdsOf(live)))
  {
    SameEntries(order, live);
    forall t ensures t in IdsOf(order) <==> t in IdsOf(live) {
      if t in IdsOf(order) {
        IdIn(live, EntryWithId(order, t));
      }
      if t in IdsOf(live) {
        IdIn(order, EntryWithId(live, t));
      }
    }
  }

  ghost function EntryWithId(ents: seq<LedgerEntry>, t: string): (e: LedgerEntry)
    requires t in IdsOf(ents)
    ensures e in ents && e.id == t
  {
    ents[IndexFrom(IdsOf(ents), u => u == t, 0)]
  }

  /** An order that drains shows that the ledger can be drained: nothing an entry names can stand for ever. */
  lemma DrainedIsSchedulable(order: seq<LedgerEntry>, live: seq<LedgerEntry>, archived: set<nat>,
                             resolved: map<string, State>)
    requires multiset(order) == multiset(live) && DistinctNums(live) && Drains(order, archived, resolved)
    ensures IsSchedulable(live, archived, resolved)
  {
    SameEntries(order, live);
    DrainedIsAcyclic(order, live, archived, resolved);
    forall e, item | e in live && item in e.Names()
      ensures item.Local? ==> Num(item.id) in Nums(live) || Num(item.id) in archived
      ensures item.Cross? ==> item.name in resolved && resolved[item.name] == Archived
    {
      var k :| 0 <= k < |order| && order[k] == e;
      assert IsPickable(order[k], Nums(order[k..]), archived + Nums(order[..k]), resolved);
      NumsWithin(order, k);
    }
    forall e | e in live && e.blocked.Some?
      ensures e.blocked.value.decisions == [] && e.blocked.value.unreadable == []
    {
      var k :| 0 <= k < |order| && order[k] == e;
      assert IsPickable(order[k], Nums(order[k..]), archived + Nums(order[..k]), resolved);
    }
  }

  /** The pick order is an executable schedule exactly when there can be one: taking the entries in order and
      archiving each, every one is pickable when reached, if and only if every name is local and known or
      archived elsewhere, nothing waits on a decision or cannot be read, and no entry waits on itself. */
  lemma DrainsIffSchedulable(order: seq<LedgerEntry>, live: seq<LedgerEntry>, keys: map<string, string>,
                             lined: map<nat, string>, cards: seq<Card>, places: map<string, Place>,
                             archived: set<nat>, resolved: map<string, State>)
    requires ArePlaces(live, keys, lined, cards, places) && DistinctNums(live) && IsPickOrder(order, live, places)
    ensures Drains(order, archived, resolved) <==> IsSchedulable(live, archived, resolved)
  {
    SameEntries(order, live);
    if IsSchedulable(live, archived, resolved) {
      forall k | 0 <= k < |order|
        ensures IsPickable(order[k], Nums(order[k..]), archived + Nums(order[..k]), resolved)
      {
        forall item | item in order[k].Names()
          ensures IsDone(item, Nums(order[k..]), archived + Nums(order[..k]), resolved)
        {
          DoneWhenReached(order, live, keys, lined, cards, places, archived, resolved, k, item);
        }
      }
    }
    if Drains(order, archived, resolved) {
      DrainedIsSchedulable(order, live, archived, resolved);
    }
  }

  /** If the entries can be drained in any order at all, the pick order drains them. */
  lemma DrainsIfAnyOrderDoes(other: seq<LedgerEntry>, order: seq<LedgerEntry>, live: seq<LedgerEntry>,
                             keys: map<string, string>, lined: map<nat, string>, cards: seq<Card>,
                             places: map<string, Place>, archived: set<nat>, resolved: map<string, State>)
    requires ArePlaces(live, keys, lined, cards, places) && DistinctNums(live) && IsPickOrder(order, live, places)
    requires multiset(other) == multiset(live) && Drains(other, archived, resolved)
    ensures Drains(order, archived, resolved)
  {
    DrainedIsSchedulable(other, live, archived, resolved);
    DrainsIffSchedulable(order, live, keys, lined, cards, places, archived, resolved);
  }
}
