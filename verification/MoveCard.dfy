/** What the rank is for: writing a midpoint of two neighbours' keys on a card's line moves that card between
    them, and moves nothing else. */
module MoveCard {
  import opened Common
  import opened Keys
  import opened TextLines
  import opened Ledger
  import opened Cards
  import opened CardOrders
  import opened PickOrder
  import opened PickList
  import G = GreedyOrder
  import M = Midpoints
  import RL = RankLines
  import RF = RankFile
  import RFL = RankFileLaws
  import IO = RankFileIO

  /** The line written: the entry's one key. */
  function OneLine(t: string, k: string): seq<RF.Update> {
    [(t, Some(k))]
  }

  // ----- what the new line changes -----

  /** The file's lines of `t`'s number are `t`'s own. */
  ghost predicate OwnsItsNumber(text: string, t: string) {
    forall e | e in RF.Reading(Split(text)) && RL.Num(e.id) == RL.Num(t) :: e.id == t
  }

  lemma LinedAfter(text: string, t: string, k: string, lined: map<nat, string>, lined': map<nat, string>)
    requires IsPlain(text) && RL.IsId(t) && IsKey(k) && OwnsItsNumber(text, t)
    requires IsLined(lined, text) && IsLined(lined', RF.Written(text, OneLine(t, k)))
    ensures RL.Num(t) in lined' && lined'[RL.Num(t)] == k
    ensures forall n: nat | n != RL.Num(t) :: n in lined <==> n in lined'
    ensures forall n: nat | n != RL.Num(t) && n in lined :: lined'[n] == lined[n]
  {
    var us, out := OneLine(t, k), RF.Written(text, OneLine(t, k));
    assert (t, Some(k)) in us && RF.Ids(us) == {t};
    assert RF.NoNewline(us) by {
      forall u | u in us ensures u == (t, Some(k)) {}
    }
    forall n: nat ensures HoldsNum(lined', RF.Reading(Split(out)), n) && HoldsNum(lined, RF.Reading(Split(text)), n) {}
    RFL.UpdateIsRead(text, us, RF.ByNum(RL.Num(t)), Some(RL.Entry(t, k)));
    assert HoldsNum(lined', RF.Reading(Split(out)), RL.Num(t));
    forall n: nat | n != RL.Num(t)
      ensures n in lined <==> n in lined'
      ensures n in lined ==> lined'[n] == lined[n]
    {
      RFL.OthersReadAsBefore(text, us, RF.ByNum(n));
      assert HoldsNum(lined', RF.Reading(Split(out)), n) && HoldsNum(lined, RF.Reading(Split(text)), n);
    }
  }

  /** Only the entry of that number changes its key. */
  lemma KeysAfter(live: seq<LedgerEntry>, repo: string, t: string, k: string, lined: map<nat, string>,
                  lined': map<nat, string>, keys: map<string, string>, keys': map<string, string>, u: string)
    requires AreKeys(keys, live, lined, repo) && AreKeys(keys', live, lined', repo) && u in IdsOf(live)
    requires RL.Num(t) in lined' && lined'[RL.Num(t)] == k
    requires forall n: nat | n != RL.Num(t) :: n in lined <==> n in lined'
    requires forall n: nat | n != RL.Num(t) && n in lined :: lined'[n] == lined[n]
    ensures u in keys && u in keys' && keys'[u] == if RL.Num(u) == RL.Num(t) then k else keys[u]
  {
    FirstEntryIs(live, u);
    assert AreKeysAt(keys, live, lined, repo, u) && AreKeysAt(keys', live, lined', repo, u);
  }

  // ----- the cards stay -----

  lemma CardsUnique(live: seq<LedgerEntry>, a: seq<Card>, b: seq<Card>)
    requires AreCards(live, a) && AreCards(live, b)
    ensures a == b
  {
    assert |a| == |Heads(a)| == |Heads(b)| == |b|;
    forall i | 0 <= i < |a| ensures a[i] == b[i] {
      assert a[i] in a && b[i] in b;
      assert Heads(a)[i] == a[i].ids[0] && Heads(b)[i] == b[i].ids[0];
      FilterAgree(Dedup(IdsOf(live)), y => SameCard(live, a[i].ids[0], y), y => SameCard(live, b[i].ids[0], y));
    }
  }

  lemma OneCardKey(k: string, l: string, ids: seq<string>, keys: map<string, string>, keys': map<string, string>,
                   lined: map<nat, string>, lined': map<nat, string>)
    requires Keyed(keys, ids) && Keyed(keys', ids) && forall t | t in ids :: keys[t] == keys'[t]
    requires forall t | t in ids :: RL.Num(t) in lined <==> RL.Num(t) in lined'
    requires IsCardKey(k, ids, keys, lined) && IsCardKey(l, ids, keys', lined')
    ensures k == l
  {
    LessTotal(KeyOrder(k), KeyOrder(l));
    if KeyOrder(k) == KeyOrder(l) {
      KeyOrderInjective(k, l);
    }
  }

  /** The members have the same keys, and the same of them have lines. */
  ghost predicate Agree(ids: seq<string>, keys: map<string, string>, keys': map<string, string>,
                        lined: map<nat, string>, lined': map<nat, string>) {
    && Keyed(keys, ids) && Keyed(keys', ids)
    && (forall t | t in ids :: keys[t] == keys'[t])
    && forall t | t in ids :: RL.Num(t) in lined <==> RL.Num(t) in lined'
  }

  /** A card whose members keep their keys keeps its places. */
  lemma CardKeepsPlaces(live: seq<LedgerEntry>, cards: seq<Card>, d: Card, keys: map<string, string>,
                        keys': map<string, string>, lined: map<nat, string>, lined': map<nat, string>,
                        places: map<string, Place>, places': map<string, Place>, x: string)
    requires ArePlaces(live, keys, lined, cards, places) && ArePlaces(live, keys', lined', cards, places')
    requires DistinctNums(live) && d in cards && x in d.ids && Agree(d.ids, keys, keys', lined, lined')
    ensures x in places && x in places' && places[x] == places'[x]
  {
    var s, card, low := PlaceOf(live, keys, lined, cards, places, d);
    var s', card', low' := PlaceOf(live, keys', lined', cards, places', d);
    OneOrder(live, cards, d, keys, keys', lined, lined', s, s', card, card', low, low');
    StandsOnce(s, card, low, places, places', x);
  }

  lemma StandsOnce(s: seq<string>, card: string, low: nat, places: map<string, Place>, places': map<string, Place>,
                   x: string)
    requires Stands(s, card, low, places) && Stands(s, card, low, places') && x in s
    ensures x in places && x in places' && places[x] == places'[x]
  {
    var p :| 0 <= p < |s| && s[p] == x;
  }

  lemma OneGreedy(live: seq<LedgerEntry>, cards: seq<Card>, d: Card, keys: map<string, string>,
                  keys': map<string, string>, s: seq<string>, s': seq<string>)
    requires AreCards(live, cards) && DistinctNums(live) && d in cards && Keyed(keys, d.ids) && Keyed(keys', d.ids)
    requires forall t | t in d.ids :: keys[t] == keys'[t]
    requires G.IsGreedy(s, G.Members(d.ids), Deps(live, d.ids), Ranks(keys, d.ids))
    requires G.IsGreedy(s', G.Members(d.ids), Deps(live, d.ids), Ranks(keys', d.ids))
    ensures s == s'
  {
    assert Ranks(keys, d.ids) == Ranks(keys', d.ids);
    NoTiesOnCard(live, keys, cards, d);
    G.GreedyIsUnique(s, s', G.Members(d.ids), Deps(live, d.ids), Ranks(keys, d.ids));
  }

  lemma OneOrder(live: seq<LedgerEntry>, cards: seq<Card>, d: Card, keys: map<string, string>,
                 keys': map<string, string>, lined: map<nat, string>, lined': map<nat, string>,
                 s: seq<string>, s': seq<string>, card: string, card': string, low: nat, low': nat)
    requires AreCards(live, cards) && DistinctNums(live) && d in cards && Agree(d.ids, keys, keys', lined, lined')
    requires IsCardOrder(live, keys, lined, d.ids, s, card, low)
    requires IsCardOrder(live, keys', lined', d.ids, s', card', low')
    ensures s == s' && card == card' && low == low'
  {
    OneGreedy(live, cards, d, keys, keys', s, s');
    OneCardKey(card, card', d.ids, keys, keys', lined, lined');
    OneLowest(low, low', d.ids);
  }

  lemma OneLowest(m: nat, n: nat, ids: seq<string>)
    requires IsLowest(m, ids) && IsLowest(n, ids)
    ensures m == n
  {
    var t :| t in ids && RL.Num(t) == m;
    var u :| u in ids && RL.Num(u) == n;
  }

  /** The moved card's key is the line's, and its lowest number is what it was. */
  lemma MovedKey(live: seq<LedgerEntry>, cards: seq<Card>, c: Card, keys': map<string, string>,
                 lined': map<nat, string>, places': map<string, Place>, t: string, k: string, x: string)
    requires ArePlaces(live, keys', lined', cards, places') && c in cards && t in c.ids && x in c.ids
    requires RL.Num(t) in lined' && forall u | u in c.ids && u != t :: RL.Num(u) !in lined'
    requires t in keys' && keys'[t] == k
    ensures x in places' && places'[x].card == k
  {
    var s, card, low := PlaceOf(live, keys', lined', cards, places', c);
    assert HasLine(lined')(t);
    var p :| 0 <= p < |s| && s[p] == x;
  }

  // ----- the move -----

  /** No card but `c` stands between the neighbours' keys: each is at or before `a`, or at or after `b`. */
  ghost predicate AreNeighbours(cards: seq<Card>, c: Card, places: map<string, Place>,
                                a: Option<string>, b: Option<string>) {
    forall d | d in cards && d != c && d.ids != [] && d.ids[0] in places ::
      AtOrBefore(places[d.ids[0]].card, a) || AtOrAfter(places[d.ids[0]].card, b)
  }

  predicate AtOrBefore(key: string, a: Option<string>) {
    a.Some? && !KeyLess(a.value, key)
  }

  predicate AtOrAfter(key: string, b: Option<string>) {
    b.Some? && !KeyLess(key, b.value)
  }

  /** A key between the neighbours' is above all at or before the one, and below all at or after the other. */
  lemma BetweenNeighbours(key: string, a: Option<string>, b: Option<string>, k: string)
    requires M.Above(a, k) && M.Below(k, b)
    ensures AtOrBefore(key, a) ==> KeyLess(key, k)
    ensures AtOrAfter(key, b) ==> KeyLess(k, key)
  {
    if AtOrBefore(key, a) {
      LessTotal(KeyOrder(key), KeyOrder(a.value));
      if KeyLess(key, a.value) {
        LessTransitive(KeyOrder(key), KeyOrder(a.value), KeyOrder(k));
      }
    }
    if AtOrAfter(key, b) {
      LessTotal(KeyOrder(key), KeyOrder(b.value));
      if KeyLess(b.value, key) {
        LessTransitive(KeyOrder(k), KeyOrder(b.value), KeyOrder(key));
      }
    }
  }

  /** The entries that are not on the card. */
  function NotOn(c: Card): LedgerEntry -> bool {
    (e: LedgerEntry) => e.id !in c.ids
  }

  ghost predicate IsSorted(s: seq<LedgerEntry>, places: map<string, Place>) {
    && (forall e | e in s :: e.id in places)
    && forall i, j | 0 <= i < j < |s| :: !PlaceLess(places[s[j].id], places[s[i].id])
  }

  ghost predicate NoTwoAtOnePlace(s: seq<LedgerEntry>, places: map<string, Place>) {
    forall e, f | e in s && f in s && e.id in places && f.id in places && places[e.id] == places[f.id] :: e == f
  }

  lemma OneFirst(s: seq<LedgerEntry>, t: seq<LedgerEntry>, places: map<string, Place>)
    requires multiset(s) == multiset(t) && s != [] && t != []
    requires IsSorted(s, places) && IsSorted(t, places) && NoTwoAtOnePlace(s, places)
    ensures s[0] == t[0]
  {
    assert s[0] in multiset(t) && t[0] in multiset(s);
    PlaceTotal(places[s[0].id], places[t[0].id]);
  }

  lemma {:induction false} SortedIsUnique(s: seq<LedgerEntry>, t: seq<LedgerEntry>, places: map<string, Place>)
    requires multiset(s) == multiset(t)
    requires IsSorted(s, places) && IsSorted(t, places) && NoTwoAtOnePlace(s, places)
    ensures s == t
    decreases |s|
  {
    assert |t| == |multiset(t)| == |multiset(s)| == |s|;
    if s != [] {
      OneFirst(s, t, places);
      assert s == [s[0]] + s[1..] && t == [t[0]] + t[1..];
      assert multiset(s[1..]) == multiset(s) - multiset{s[0]};
      assert multiset(t[1..]) == multiset(t) - multiset{s[0]};
      SortedIsUnique(s[1..], t[1..], places);
    }
  }

  lemma {:induction false} FilterCounts(s: seq<LedgerEntry>, keep: LedgerEntry -> bool, e: LedgerEntry)
    ensures multiset(Filter(s, keep))[e] == if keep(e) then multiset(s)[e] else 0
  {
    if s != [] {
      FilterCounts(s[1..], keep, e);
      assert s == [s[0]] + s[1..];
    }
  }

  lemma FilterSameEntries(s: seq<LedgerEntry>, t: seq<LedgerEntry>, keep: LedgerEntry -> bool)
    requires multiset(s) == multiset(t)
    ensures multiset(Filter(s, keep)) == multiset(Filter(t, keep))
  {
    forall e ensures multiset(Filter(s, keep))[e] == multiset(Filter(t, keep))[e] {
      FilterCounts(s, keep, e);
      FilterCounts(t, keep, e);
    }
  }

  lemma {:induction false} FilterSorted(s: seq<LedgerEntry>, keep: LedgerEntry -> bool, places: map<string, Place>)
    requires IsSorted(s, places)
    ensures IsSorted(Filter(s, keep), places)
  {
    if s != [] {
      assert IsSorted(s[1..], places) by {
        assert forall i | 0 <= i < |s[1..]| :: s[1..][i] == s[i+1];
      }
      FilterSorted(s[1..], keep, places);
      FilterMembers(s[1..], keep);
      FirstOfSorted(s, Filter(s[1..], keep), places);
    }
  }

  lemma FirstOfSorted(s: seq<LedgerEntry>, rest: seq<LedgerEntry>, places: map<string, Place>)
    requires s != [] && IsSorted(s, places) && IsSorted(rest, places) && forall e | e in rest :: e in s[1..]
    ensures IsSorted([s[0]] + rest, places)
  {
    forall j | 0 <= j < |rest| ensures !PlaceLess(places[rest[j].id], places[s[0].id]) {
      assert rest[j] in s[1..];
      var i :| 0 <= i < |s| - 1 && s[1..][i] == rest[j];
      assert s[i+1] == rest[j];
    }
  }

  lemma OnePlaceEach(live: seq<LedgerEntry>, keys: map<string, string>, lined: map<nat, string>, cards: seq<Card>,
                     places: map<string, Place>, e: LedgerEntry, f: LedgerEntry)
    requires ArePlaces(live, keys, lined, cards, places) && DistinctNums(live) && e in live && f in live
    requires e.id in places && f.id in places && places[e.id] == places[f.id]
    ensures e == f
  {
    IdIn(live, e);
    IdIn(live, f);
    OneLowPerCard(live, keys, lined, cards, places, e.id, f.id);
    var c := OnSomeCard(live, cards, e.id);
    OneCard(live, cards, c, e.id, f.id);
    var s, card, low := PlaceOf(live, keys, lined, cards, places, c);
    StandApart(s, card, low, places, e.id, f.id);
    OneId(live, e, f);
  }

  lemma StandApart(s: seq<string>, card: string, low: nat, places: map<string, Place>, x: string, y: string)
    requires Stands(s, card, low, places) && x in s && y in s && x in places && y in places && places[x] == places[y]
    ensures x == y
  {
    var p :| 0 <= p < |s| && s[p] == x;
    var q :| 0 <= q < |s| && s[q] == y;
  }

  /** An entry of another card keeps its place. */
  lemma OthersKeepPlaces(live: seq<LedgerEntry>, text: string, repo: string, t: string, k: string, c: Card,
                         lined: map<nat, string>, keys: map<string, string>, cards: seq<Card>,
                         places: map<string, Place>,
                         lined': map<nat, string>, keys': map<string, string>, places': map<string, Place>, x: string)
    requires DistinctNums(live) && IsPlain(text) && RL.IsId(t) && IsKey(k) && OwnsItsNumber(text, t)
    requires IsRanked(live, text, repo, lined, keys, cards, places)
    requires IsRanked(live, RF.Written(text, OneLine(t, k)), repo, lined', keys', cards, places')
    requires c in cards && t in c.ids && x in IdsOf(live) && x !in c.ids
    ensures x in places && x in places' && places[x] == places'[x]
  {
    LinedAfter(text, t, k, lined, lined');
    var d := OnSomeCard(live, cards, x);
    CardMembers(live, cards, c);
    CardMembers(live, cards, d);
    CardsPartition(live, cards);
    forall u | u in d.ids
      ensures u in keys && u in keys' && keys[u] == keys'[u] && (RL.Num(u) in lined <==> RL.Num(u) in lined')
    {
      OtherNumber(live, cards, c, d, t, u, x);
      KeysAfter(live, repo, t, k, lined, lined', keys, keys', u);
    }
    CardKeepsPlaces(live, cards, d, keys, keys', lined, lined', places, places', x);
  }

  lemma OtherNumber(live: seq<LedgerEntry>, cards: seq<Card>, c: Card, d: Card, t: string, u: string, x: string)
    requires AreCards(live, cards) && DistinctNums(live) && c in cards && d in cards
    requires t in c.ids && u in d.ids && x in d.ids && x !in c.ids
    ensures RL.Num(u) != RL.Num(t)
  {
    CardMembers(live, cards, c);
    CardMembers(live, cards, d);
    CardsPartition(live, cards);
    var e := EntryOf(live, t);
    var f := EntryOf(live, u);
    if e.Num() == f.Num() {
      OneOfNum(live, e, f);
    }
  }

  /** Every card but the moved one is at or before the one neighbour or at or after the other, by any member. */
  lemma SideOf(live: seq<LedgerEntry>, keys: map<string, string>, lined: map<nat, string>, cards: seq<Card>,
               places: map<string, Place>, c: Card, a: Option<string>, b: Option<string>, x: string)
    requires ArePlaces(live, keys, lined, cards, places) && AreNeighbours(cards, c, places, a, b)
    requires x in IdsOf(live) && x !in c.ids
    ensures x in places && (AtOrBefore(places[x].card, a) || AtOrAfter(places[x].card, b))
  {
    var d := OnSomeCard(live, cards, x);
    CardMembers(live, cards, d);
    var s, card, low := PlaceOf(live, keys, lined, cards, places, d);
    assert d.ids[0] in s;
    var p :| 0 <= p < |s| && s[p] == x;
    var q :| 0 <= q < |s| && s[q] == d.ids[0];
  }

  /** Moving a card does what it says. The card has no line but the one written on `t`; `k` is a midpoint of the
      neighbours' card keys `a` and `b` (an open end: none), and no other card stands between those. Then every
      entry of the card comes after all that stood at or before `a` and before all that stood at or after `b`,
      and the entries of the other cards keep their order. */
  lemma CardMoves(live: seq<LedgerEntry>, text: string, repo: string, t: string, k: string, c: Card,
                  a: Option<string>, b: Option<string>,
                  lined: map<nat, string>, keys: map<string, string>, cards: seq<Card>, places: map<string, Place>,
                  lined': map<nat, string>, keys': map<string, string>, cards': seq<Card>,
                  places': map<string, Place>, order: seq<LedgerEntry>, order': seq<LedgerEntry>)
    requires DistinctNums(live) && IsPlain(text) && RL.IsId(t) && IsKey(k) && OwnsItsNumber(text, t)
    requires IsRanked(live, text, repo, lined, keys, cards, places) && IsPickOrder(order, live, places)
    requires IsRanked(live, RF.Written(text, OneLine(t, k)), repo, lined', keys', cards', places')
    requires IsPickOrder(order', live, places')
    requires c in cards && t in c.ids && forall u | u in c.ids && u != t :: RL.Num(u) !in lined
    requires M.IsMidpoint(a, b, k) && AreNeighbours(cards, c, places, a, b)
    ensures cards' == cards
    ensures Filter(order', NotOn(c)) == Filter(order, NotOn(c))
    ensures forall i, j | 0 <= i < |order'| && 0 <= j < |order'| && order'[i].id in c.ids && order'[j].id !in c.ids ::
              order'[j].id in places && if AtOrBefore(places[order'[j].id].card, a) then j < i else i < j
  {
    CardsUnique(live, cards, cards');
    LinedAfter(text, t, k, lined, lined');
    SameEntries(order, live);
    SameEntries(order', live);
    OthersKeepOrder(live, text, repo, t, k, c, lined, keys, cards, places, lined', keys', places', order, order');
    forall i, j | 0 <= i < |order'| && 0 <= j < |order'| && order'[i].id in c.ids && order'[j].id !in c.ids
      ensures order'[j].id in places && if AtOrBefore(places[order'[j].id].card, a) then j < i else i < j
    {
      IdIn(live, order'[j]);
      OthersKeepPlaces(live, text, repo, t, k, c, lined, keys, cards, places, lined', keys', places', order'[j].id);
      SideOf(live, keys, lined, cards, places, c, a, b, order'[j].id);
      StandsBetween(live, repo, text, t, k, c, lined, keys, cards, lined', keys', places', order'[i].id);
      BetweenNeighbours(places[order'[j].id].card, a, b, k);
      PlacedInOrder(order', places', i, j);
    }
  }

  lemma PlacedInOrder(order: seq<LedgerEntry>, places: map<string, Place>, i: nat, j: nat)
    requires i < |order| && j < |order| && IsSorted(order, places)
    ensures PlaceLess(places[order[i].id], places[order[j].id]) ==> i < j
    ensures PlaceLess(places[order[j].id], places[order[i].id]) ==> j < i
  {
    PlaceTotal(places[order[i].id], places[order[j].id]);
  }

  lemma StandsBetween(live: seq<LedgerEntry>, repo: string, text: string, t: string, k: string, c: Card,
                      lined: map<nat, string>, keys: map<string, string>, cards: seq<Card>,
                      lined': map<nat, string>, keys': map<string, string>, places': map<string, Place>, x: string)
    requires DistinctNums(live) && IsPlain(text) && RL.IsId(t) && IsKey(k) && OwnsItsNumber(text, t)
    requires IsLined(lined, text) && AreKeys(keys, live, lined, repo) && AreCards(live, cards)
    requires IsRanked(live, RF.Written(text, OneLine(t, k)), repo, lined', keys', cards, places')
    requires c in cards && t in c.ids && x in c.ids && forall u | u in c.ids && u != t :: RL.Num(u) !in lined
    ensures x in places' && places'[x].card == k
  {
    LinedAfter(text, t, k, lined, lined');
    CardMembers(live, cards, c);
    KeysAfter(live, repo, t, k, lined, lined', keys, keys', t);
    forall u | u in c.ids && u != t ensures RL.Num(u) !in lined' {
      var e := EntryOf(live, u);
      var f := EntryOf(live, t);
      assert e.Num() != f.Num() by {
        if e.Num() == f.Num() {
          OneOfNum(live, e, f);
        }
      }
    }
    MovedKey(live, cards, c, keys', lined', places', t, k, x);
  }

  lemma OthersKeepOrder(live: seq<LedgerEntry>, text: string, repo: string, t: string, k: string, c: Card,
                        lined: map<nat, string>, keys: map<string, string>, cards: seq<Card>,
                        places: map<string, Place>, lined': map<nat, string>, keys': map<string, string>,
                        places': map<string, Place>, order: seq<LedgerEntry>, order': seq<LedgerEntry>)
    requires DistinctNums(live) && IsPlain(text) && RL.IsId(t) && IsKey(k) && OwnsItsNumber(text, t)
    requires IsRanked(live, text, repo, lined, keys, cards, places) && IsPickOrder(order, live, places)
    requires IsRanked(live, RF.Written(text, OneLine(t, k)), repo, lined', keys', cards, places')
    requires IsPickOrder(order', live, places') && c in cards && t in c.ids
    ensures Filter(order', NotOn(c)) == Filter(order, NotOn(c))
  {
    SameEntries(order, live);
    SameEntries(order', live);
    FilterMembers(order, NotOn(c));
    FilterMembers(order', NotOn(c));
    forall e | e in Filter(order', NotOn(c))
      ensures e.id in places && e.id in places' && places[e.id] == places'[e.id]
    {
      IdIn(live, e);
      OthersKeepPlaces(live, text, repo, t, k, c, lined, keys, cards, places, lined', keys', places', e.id);
    }
    forall e, f | e in Filter(order, NotOn(c)) && f in Filter(order, NotOn(c))
                  && e.id in places && f.id in places && places[e.id] == places[f.id]
      ensures e == f
    {
      OnePlaceEach(live, keys, lined, cards, places, e, f);
    }
    SameFiltered(order, order', NotOn(c), places, places');
  }

  /** Two sorted orders of the same entries keep those alike whose places are alike. */
  lemma SameFiltered(order: seq<LedgerEntry>, order': seq<LedgerEntry>, keep: LedgerEntry -> bool,
                     places: map<string, Place>, places': map<string, Place>)
    requires multiset(order) == multiset(order') && IsSorted(order, places) && IsSorted(order', places')
    requires forall e | e in Filter(order', keep) ::
               e.id in places && e.id in places' && places[e.id] == places'[e.id]
    requires NoTwoAtOnePlace(Filter(order, keep), places)
    ensures Filter(order', keep) == Filter(order, keep)
  {
    FilterSameEntries(order, order', keep);
    FilterSorted(order, keep, places);
    FilterSorted(order', keep, places');
    SortedIsUnique(Filter(order, keep), Filter(order', keep), places);
  }

  // ----- the move as it is made -----

  /** The line is one that set_rank takes, and its text reads back. */
  lemma OneLineIsTaken(text: string, t: string, k: string)
    requires IsPlain(text) && RL.IsId(t) && IsKey(k)
    ensures RF.Accepted(OneLine(t, k)) && RF.ReadsBack(RF.Written(text, OneLine(t, k)), OneLine(t, k))
  {
    var us := OneLine(t, k);
    assert forall u | u in us :: u == (t, Some(k));
    RFL.RefusesOnlyNewlines(text, us);
  }

  datatype Refusal = NoKey(key: M.Refusal) | NoLine(line: IO.Refusal)

  /** The ends are keys, in order. */
  predicate AreEnds(a: Option<string>, b: Option<string>) {
    && (a.Some? ==> IsKey(a.value))
    && (b.Some? ==> IsKey(b.value) && KeyLess(a.GetOr(""), b.value))
  }

  lemma TakenIsALine(text: string, t: string, k: string)
    requires IsPlain(text) && RF.Accepted(OneLine(t, k))
    ensures RF.ReadsBack(RF.Written(text, OneLine(t, k)), OneLine(t, k)) <==> RL.IsId(t) && IsKey(k)
  {
    var us := OneLine(t, k);
    assert forall u | u in us :: u == (t, Some(k));
    assert us[0] in us;
    RFL.RefusesOnlyNewlines(text, us);
  }

  /** A key found between the neighbours', and an entry's line set to it. What comes of it is the file CardMoves is
      about; and for an entry's id and keys in order it goes through exactly when there is a key between them. */
  method Move(text: string, t: string, a: Option<string>, b: Option<string>)
    returns (r: Result<string, Refusal>, ghost k: string)
    requires IsPlain(text)
    ensures r.Ok? ==> RL.IsId(t) && IsKey(k) && M.IsMidpoint(a, b, k) && r.value == RF.Written(text, OneLine(t, k))
    ensures RL.IsId(t) && AreEnds(a, b) ==> (r.Ok? <==> M.KeyBetween(a, b))
  {
    k := "";
    var found := M.Midpoint(a, b);
    assert AreEnds(a, b) && found.Err? ==> found.error == M.NoKeyBetween;
    if found.Err? {
      r := Err(NoKey(found.error));
      return;
    }
    k := found.value;
    var out := IO.SetRank(text, OneLine(t, found.value));
    if RF.Accepted(OneLine(t, k)) {
      TakenIsALine(text, t, k);
    }
    if RL.IsId(t) && AreEnds(a, b) {
      M.FoundIsKey(a, b, k);
      OneLineIsTaken(text, t, k);
    }
    r := match out
      case Ok(file) => Ok(file)
      case Err(why) => Err(NoLine(why));
  }
}
