/** Each entry's place in the pick order: scripts/ledgerboard.py's _card_order. */
module CardOrders {
  import opened Common
  import opened Keys
  import opened RankLines
  import opened Ledger
  import opened Cards
  import opened GreedyOrder

  /** An entry's sort value: its card's key and lowest number, and its own place in the card. */
  datatype Place = Place(card: string, low: nat, pos: nat)

  // ----- a card -----

  /** The member a number is read as inside a card: the last of that number. */
  function MemberOf(ids: seq<string>, n: nat): Option<string> {
    if ids == [] then None
    else if Num(ids[|ids|-1]) == n then Some(ids[|ids|-1])
    else MemberOf(ids[..|ids|-1], n)
  }

  /** The members of its card that `t` is blocked by. */
  function Blockers(live: seq<LedgerEntry>, ids: seq<string>, t: string): set<string> {
    set b | b in NamesOf(live, t) && b.Local? && MemberOf(ids, Num(b.id)).Some? && MemberOf(ids, Num(b.id)) != Some(t)
      :: MemberOf(ids, Num(b.id)).value
  }

  ghost function Deps(live: seq<LedgerEntry>, ids: seq<string>): map<string, set<string>> {
    map t | t in ids :: Blockers(live, ids, t)
  }

  function RankOf(keys: map<string, string>, t: string): Rank
    requires t in keys
  {
    Rank(KeyOrder(keys[t]), [Num(t)])
  }

  ghost function Ranks(keys: map<string, string>, ids: seq<string>): map<string, Rank>
    requires Keyed(keys, ids)
  {
    map t | t in ids :: RankOf(keys, t)
  }

  /** The best key of the members that satisfy `among`. */
  ghost predicate IsBestKey(k: string, ids: seq<string>, keys: map<string, string>, among: string -> bool)
    requires Keyed(keys, ids)
  {
    && (exists t :: t in ids && among(t) && keys[t] == k)
    && forall t | t in ids && among(t) :: !KeyLess(keys[t], k)
  }

  function HasLine(lined: map<nat, string>): string -> bool {
    t => Num(t) in lined
  }

  /** A card's key: the best among its members with a line, or with none the best of all. */
  ghost predicate IsCardKey(k: string, ids: seq<string>, keys: map<string, string>, lined: map<nat, string>)
    requires Keyed(keys, ids)
  {
    if exists t :: t in ids && HasLine(lined)(t) then IsBestKey(k, ids, keys, HasLine(lined))
    else IsBestKey(k, ids, keys, t => true)
  }

  ghost predicate IsLowest(n: nat, ids: seq<string>) {
    (exists t :: t in ids && Num(t) == n) && forall t | t in ids :: n <= Num(t)
  }

  /** The members of a card stand at their places in its greedy order. */
  ghost predicate Stands(s: seq<string>, card: string, low: nat, out: map<string, Place>) {
    forall p | 0 <= p < |s| :: s[p] in out && out[s[p]] == Place(card, low, p)
  }

  ghost predicate IsCardOrder(live: seq<LedgerEntry>, keys: map<string, string>, lined: map<nat, string>,
                              ids: seq<string>, s: seq<string>, card: string, low: nat)
    requires Keyed(keys, ids)
  {
    && IsGreedy(s, Members(ids), Deps(live, ids), Ranks(keys, ids))
    && IsCardKey(card, ids, keys, lined) && IsLowest(low, ids)
  }

  ghost predicate Keyed(keys: map<string, string>, ids: seq<string>) {
    forall t | t in ids :: t in keys
  }

  ghost predicate IsPlaced(live: seq<LedgerEntry>, keys: map<string, string>, lined: map<nat, string>, c: Card,
                           out: map<string, Place>)
  {
    Keyed(keys, c.ids)
    && exists s, card, low :: IsCardOrder(live, keys, lined, c.ids, s, card, low) && Stands(s, card, low, out)
  }

  /** What _card_order returns: every entry's place, card by card. */
  ghost predicate ArePlaces(live: seq<LedgerEntry>, keys: map<string, string>, lined: map<nat, string>,
                            cards: seq<Card>, out: map<string, Place>)
  {
    && AreCards(live, cards)
    && (forall t :: t in out <==> t in IdsOf(live))
    && forall c | c in cards :: IsPlaced(live, keys, lined, c, out)
  }

  // ----- the method -----

  lemma BlockersAreMembers(live: seq<LedgerEntry>, ids: seq<string>, t: string)
    ensures forall b | b in Blockers(live, ids, t) :: b in ids
  {
    forall b | b in Blockers(live, ids, t) ensures b in ids {
      var i :| i in NamesOf(live, t) && i.Local? && MemberOf(ids, Num(i.id)) == Some(b);
      MemberIs(ids, Num(i.id));
    }
  }

  lemma {:induction false} MemberIs(ids: seq<string>, n: nat)
    ensures MemberOf(ids, n).Some? ==> MemberOf(ids, n).value in ids && Num(MemberOf(ids, n).value) == n
    ensures MemberOf(ids, n).None? ==> forall t | t in ids :: Num(t) != n
  {
    if ids != [] {
      MemberIs(ids[..|ids|-1], n);
      assert forall t :: t in ids <==> t in ids[..|ids|-1] || t == ids[|ids|-1];
    }
  }

  method BestKey(ids: seq<string>, keys: map<string, string>, among: string -> bool) returns (best: Option<string>)
    requires Keyed(keys, ids)
    ensures best.None? <==> forall t | t in ids :: !among(t)
    ensures best.Some? ==> IsBestKey(best.value, ids, keys, among)
  {
    best := None;
    for i := 0 to |ids|
      invariant best.None? ==> forall k | 0 <= k < i :: !among(ids[k])
      invariant best.Some? ==> (exists t :: t in ids && among(t) && keys[t] == best.value)
      invariant best.Some? ==> forall k | 0 <= k < i && among(ids[k]) :: !KeyLess(keys[ids[k]], best.value)
    {
      var t := ids[i];
      if among(t) && (best.None? || KeyLess(keys[t], best.value)) {
        forall k | 0 <= k <= i && among(ids[k]) ensures !KeyLess(keys[ids[k]], keys[t]) {
          LessIrreflexive(KeyOrder(keys[t]));
          if k < i && KeyLess(keys[ids[k]], keys[t]) {
            LessTransitive(KeyOrder(keys[ids[k]]), KeyOrder(keys[t]), KeyOrder(best.value));
          }
        }
        assert t in ids;
        best := Some(keys[t]);
      }
    }
  }

  method LowestNumber(ids: seq<string>) returns (low: nat)
    requires ids != []
    ensures IsLowest(low, ids)
  {
    low := Num(ids[0]);
    for i := 1 to |ids|
      invariant exists t :: t in ids && Num(t) == low
      invariant forall k | 0 <= k < i :: low <= Num(ids[k])
    {
      if Num(ids[i]) < low {
        low := Num(ids[i]);
        assert ids[i] in ids;
      }
    }
  }

  method CardKeyOf(ids: seq<string>, keys: map<string, string>, lined: map<nat, string>) returns (card: string)
    requires ids != [] && forall t | t in ids :: t in keys
    ensures IsCardKey(card, ids, keys, lined)
  {
    var best := BestKey(ids, keys, HasLine(lined));
    if best.None? {
      best := BestKey(ids, keys, t => true);
      assert ids[0] in ids;
    }
    card := best.value;
  }

  /** The members placed one by one, the least of the ready ones first; in a cycle, of all. */
  method Drain(all: set<string>, deps: map<string, set<string>>, rank: map<string, Rank>, card: string, low: nat,
               out: map<string, Place>)
    returns (placed: map<string, Place>, ghost s: seq<string>)
    requires all <= deps.Keys && all <= rank.Keys
    ensures IsGreedy(s, all, deps, rank) && Stands(s, card, low, placed)
    ensures placed.Keys == out.Keys + all
    ensures forall t | t in out && t !in all :: placed[t] == out[t]
  {
    var left, pos := all, 0;
    placed, s := out, [];
    while left != {}
      invariant left <= all && |s| == pos && Takes(s, all, left, deps, rank)
      invariant forall t | t in s :: t !in left
      invariant Stands(s, card, low, placed)
      invariant placed.Keys == out.Keys + (all - left)
      invariant forall t | t in out && t !in all :: placed[t] == out[t]
      decreases left
    {
      var next := Least(Pool(left, deps), rank);
      TakesOneMore(s, all, left, next, deps, rank);
      s := s + [next];
      placed := placed[next := Place(card, low, pos)];
      left, pos := left - {next}, pos + 1;
    }
    TakesAll(s, all, deps, rank);
  }

  /** One card: its key, its lowest number, and its members' places. */
  method PlaceCard(live: seq<LedgerEntry>, keys: map<string, string>, lined: map<nat, string>, c: Card,
                   out: map<string, Place>)
    returns (placed: map<string, Place>)
    requires c.ids != [] && Keyed(keys, c.ids)
    ensures IsPlaced(live, keys, lined, c, placed)
    ensures placed.Keys == out.Keys + Members(c.ids)
    ensures forall t | t in out && t !in c.ids :: placed[t] == out[t]
  {
    var card := CardKeyOf(c.ids, keys, lined);
    var low := LowestNumber(c.ids);
    var deps := map t | t in c.ids :: Blockers(live, c.ids, t);
    var rank := map t | t in c.ids :: RankOf(keys, t);
    ghost var s;
    var all := set t | t in c.ids;
    placed, s := Drain(all, deps, rank, card, low, out);
    assert deps == Deps(live, c.ids) && rank == Ranks(keys, c.ids);
    assert IsCardOrder(live, keys, lined, c.ids, s, card, low);
  }

  method CardOrder(live: seq<LedgerEntry>, keys: map<string, string>, lined: map<nat, string>)
    returns (out: map<string, Place>, ghost cards: seq<Card>)
    requires Keyed(keys, IdsOf(live))
    ensures ArePlaces(live, keys, lined, cards, out)
  {
    var comps := Components(live);
    cards := comps;
    out := PlaceAll(live, keys, lined, comps);
    AllPlaced(live, comps);
  }

  method PlaceAll(live: seq<LedgerEntry>, keys: map<string, string>, lined: map<nat, string>, cards: seq<Card>)
    returns (out: map<string, Place>)
    requires Keyed(keys, IdsOf(live)) && AreCards(live, cards)
    ensures out.Keys == Placed(cards)
    ensures forall c | c in cards :: IsPlaced(live, keys, lined, c, out)
  {
    out := map[];
    for i := 0 to |cards|
      invariant PlacedTo(live, keys, lined, cards, i, out)
    {
      CardIsKeyed(live, keys, cards, cards[i]);
      ghost var before := out;
      out := PlaceCard(live, keys, lined, cards[i], out);
      PlacedOneMore(live, keys, lined, cards, i, before, out);
    }
    assert cards[..|cards|] == cards;
  }

  /** The first `n` cards are placed, and nothing else. */
  ghost predicate PlacedTo(live: seq<LedgerEntry>, keys: map<string, string>, lined: map<nat, string>,
                           cards: seq<Card>, n: nat, out: map<string, Place>)
  {
    && n <= |cards| && out.Keys == Placed(cards[..n])
    && forall j | 0 <= j < n :: IsPlaced(live, keys, lined, cards[j], out)
  }

  lemma CardIsKeyed(live: seq<LedgerEntry>, keys: map<string, string>, cards: seq<Card>, c: Card)
    requires AreCards(live, cards) && c in cards && Keyed(keys, IdsOf(live))
    ensures c.ids != [] && Keyed(keys, c.ids)
  {
    CardMembers(live, cards, c);
  }

  lemma PlacedStep(cards: seq<Card>, i: nat)
    requires i < |cards|
    ensures Placed(cards[..i+1]) == Placed(cards[..i]) + Members(cards[i].ids)
  {
    assert cards[..i+1][..i] == cards[..i];
  }

  lemma PlacedOneMore(live: seq<LedgerEntry>, keys: map<string, string>, lined: map<nat, string>, cards: seq<Card>,
                      i: nat, before: map<string, Place>, after: map<string, Place>)
    requires AreCards(live, cards) && PlacedTo(live, keys, lined, cards, i, before) && i < |cards|
    requires IsPlaced(live, keys, lined, cards[i], after)
    requires after.Keys == before.Keys + Members(cards[i].ids)
    requires forall t | t in before && t !in cards[i].ids :: after[t] == before[t]
    ensures PlacedTo(live, keys, lined, cards, i + 1, after)
  {
    PlacedStep(cards, i);
    forall j | 0 <= j < i ensures IsPlaced(live, keys, lined, cards[j], after) {
      OthersStand(live, keys, lined, cards, i, j, before, after);
    }
  }

  ghost function Placed(cards: seq<Card>): set<string> {
    if cards == [] then {} else Placed(cards[..|cards|-1]) + Members(cards[|cards|-1].ids)
  }

  lemma {:induction false} PlacedMember(cards: seq<Card>, t: string)
    ensures t in Placed(cards) <==> exists c :: c in cards && t in c.ids
  {
    if cards != [] {
      PlacedMember(cards[..|cards|-1], t);
      assert forall c :: c in cards <==> c in cards[..|cards|-1] || c == cards[|cards|-1];
    }
  }

  lemma AllPlaced(live: seq<LedgerEntry>, cards: seq<Card>)
    requires AreCards(live, cards)
    ensures forall t :: t in Placed(cards) <==> t in IdsOf(live)
  {
    forall t ensures t in Placed(cards) <==> t in IdsOf(live) {
      PlacedMember(cards, t);
      if t in IdsOf(live) {
        var c := OnSomeCard(live, cards, t);
      } else if c :| c in cards && t in c.ids {
        CardMembers(live, cards, c);
      }
    }
  }

  /** Placing one card leaves the others where they stand. */
  lemma OthersStand(live: seq<LedgerEntry>, keys: map<string, string>, lined: map<nat, string>, cards: seq<Card>,
                    i: nat, j: nat, before: map<string, Place>, after: map<string, Place>)
    requires AreCards(live, cards) && j < i < |cards|
    requires IsPlaced(live, keys, lined, cards[j], before)
    requires before.Keys <= after.Keys && forall t | t in before && t !in cards[i].ids :: after[t] == before[t]
    ensures IsPlaced(live, keys, lined, cards[j], after)
  {
    var ids := cards[j].ids;
    var s, card, low :| IsCardOrder(live, keys, lined, ids, s, card, low) && Stands(s, card, low, before);
    OrderOfCard(live, keys, lined, ids, s, card, low);
    forall p | 0 <= p < |s| ensures s[p] in after && after[s[p]] == Place(card, low, p) {
      assert s[p] in ids;
      CardsApart(live, cards, j, i, s[p]);
    }
    assert Stands(s, card, low, after);
  }

  lemma OrderOfCard(live: seq<LedgerEntry>, keys: map<string, string>, lined: map<nat, string>, ids: seq<string>,
                    s: seq<string>, card: string, low: nat)
    requires Keyed(keys, ids)
    requires IsCardOrder(live, keys, lined, ids, s, card, low)
    ensures Distinct(s) && forall t :: t in s <==> t in ids
  {
    GreedyPlacesAll(s, Members(ids), Deps(live, ids), Ranks(keys, ids));
  }
}
