/** The cards of a ledger: scripts/ledgerboard.py's components. */
module Cards {
  import opened Common
  import opened RankLines
  import opened Ledger
  import opened UnionFind

  datatype Card = Card(ids: seq<string>, others: seq<string>, cross: seq<string>)

  // ----- what joins entries -----

  /** What an entry's name `item` joins it to: the entry of that number, unless it is its own. */
  function Target(ids: seq<string>, e: LedgerEntry, item: Item): Option<string> {
    if item.Local? && Present(ids, Num(item.id)).Some? && Num(item.id) != e.Num() then Present(ids, Num(item.id))
    else None
  }

  /** The joins of an entry's first `k` names. */
  ghost function EdgesOf(ids: seq<string>, e: LedgerEntry, k: nat): set<(string, string)>
    requires k <= |e.Names()|
  {
    if k == 0 then {}
    else
      var to := Target(ids, e, e.Names()[k-1]);
      EdgesOf(ids, e, k - 1) + if to.Some? then {(to.value, e.id)} else {}
  }

  ghost function Edges(ids: seq<string>, ents: seq<LedgerEntry>): set<(string, string)> {
    if ents == [] then {}
    else
      var last := ents[|ents|-1];
      Edges(ids, ents[..|ents|-1]) + EdgesOf(ids, last, |last.Names()|)
  }

  /** One is blocked by the other, or both are joined through others so blocked. */
  ghost predicate SameCard(ents: seq<LedgerEntry>, x: string, y: string) {
    Connected(Edges(IdsOf(ents), ents), x, y)
  }

  lemma EdgesGrow(ids: seq<string>, ents: seq<LedgerEntry>, n: nat)
    requires n < |ents|
    ensures Edges(ids, ents[..n+1]) == Edges(ids, ents[..n]) + EdgesOf(ids, ents[n], |ents[n].Names()|)
  {
    assert ents[..n+1][..n] == ents[..n];
  }

  /** The entry's name at a place is of the entry `t`. */
  predicate NamesAt(ids: seq<string>, e: LedgerEntry, i: nat, t: string) {
    i < |e.Names()| && Target(ids, e, e.Names()[i]) == Some(t)
  }

  lemma {:induction false} EdgeOfMember(ids: seq<string>, e: LedgerEntry, k: nat, edge: (string, string))
    requires k <= |e.Names()|
    ensures edge in EdgesOf(ids, e, k) <==> edge.1 == e.id && exists i :: 0 <= i < k && NamesAt(ids, e, i, edge.0)
  {
    if k > 0 {
      EdgeOfMember(ids, e, k - 1, edge);
      var to := Target(ids, e, e.Names()[k-1]);
      assert NamesAt(ids, e, k - 1, edge.0) <==> to == Some(edge.0);
      assert edge in EdgesOf(ids, e, k) <==> edge in EdgesOf(ids, e, k - 1) || (to.Some? && edge == (to.value, e.id));
    }
  }

  /** The joins are the entries' names of other entries. */
  lemma {:induction false} EdgeMember(ids: seq<string>, ents: seq<LedgerEntry>, edge: (string, string))
    ensures edge in Edges(ids, ents) <==>
            exists e, b :: e in ents && b in e.Names() && Target(ids, e, b) == Some(edge.0) && edge.1 == e.id
  {
    if ents != [] {
      var front, last := ents[..|ents|-1], ents[|ents|-1];
      EdgeMember(ids, front, edge);
      EdgeOfMember(ids, last, |last.Names()|, edge);
      assert forall e :: e in ents <==> e in front || e == last;
      if edge in EdgesOf(ids, last, |last.Names()|) {
        var i :| 0 <= i < |last.Names()| && NamesAt(ids, last, i, edge.0);
        assert last.Names()[i] in last.Names();
      }
      forall b | b in last.Names() && Target(ids, last, b) == Some(edge.0) && edge.1 == last.id
        ensures edge in EdgesOf(ids, last, |last.Names()|)
      {
        var i :| 0 <= i < |last.Names()| && last.Names()[i] == b;
        assert NamesAt(ids, last, i, edge.0);
      }
    }
  }

  // ----- what the components are -----

  /** Of each card, the member that comes first. */
  ghost function FirstMembers(d: seq<string>, same: (string, string) -> bool): seq<string> {
    if d == [] then []
    else
      var front, last := d[..|d|-1], d[|d|-1];
      FirstMembers(front, same) + if exists x :: x in front && same(x, last) then [] else [last]
  }

  ghost function Heads(cards: seq<Card>): seq<string>
    requires forall c | c in cards :: c.ids != []
  {
    seq(|cards|, i requires 0 <= i < |cards| => cards[i].ids[0])
  }

  /** The last entry of an id: of a repeated heading, the one whose names are kept. */
  function LastOf(ents: seq<LedgerEntry>, id: string): Option<LedgerEntry> {
    if ents == [] then None
    else if ents[|ents|-1].id == id then Some(ents[|ents|-1])
    else LastOf(ents[..|ents|-1], id)
  }

  /** The local names that are no entry's number. */
  function OthersNamed(ids: seq<string>, items: seq<Item>): seq<string> {
    Collect(items, (b: Item) => if b.Local? && Present(ids, Num(b.id)).None? then [b.id] else [])
  }

  function CrossNamed(items: seq<Item>): seq<string> {
    Collect(items, (b: Item) => if b.Cross? then [b.name] else [])
  }

  function NamesOf(ents: seq<LedgerEntry>, id: string): seq<Item> {
    match LastOf(ents, id)
    case Some(e) => e.Names()
    case None => []
  }

  /** The cards: members in file order, cards in the order of their first members, and the names of entries
      elsewhere, each once, in the order the members give them. */
  ghost predicate AreCards(ents: seq<LedgerEntry>, cards: seq<Card>) {
    var ids := IdsOf(ents);
    && (forall c | c in cards :: c.ids != [] && c.ids == Filter(Dedup(ids), y => SameCard(ents, c.ids[0], y)))
    && Heads(cards) == FirstMembers(Dedup(ids), (x, y) => SameCard(ents, x, y))
    && (forall c | c in cards :: NamesKept(ids, ents, c))
  }

  // ----- joining -----

  ghost predicate IsPresent(ids: seq<string>, present: map<nat, string>) {
    forall n: nat :: Present(ids, n) == if n in present then Some(present[n]) else None
  }

  lemma PresentStep(ids: seq<string>, t: string, n: nat)
    ensures Present(ids + [t], n) == if Present(ids, n).Some? then Present(ids, n)
                                     else if Num(t) == n then Some(t) else None
  {
    var p := (t: string) => Num(t) == n;
    var i, j := IndexFrom(ids, p, 0), IndexFrom(ids + [t], p, 0);
    assert forall k | 0 <= k < |ids| :: (ids + [t])[k] == ids[k];
    assert (ids + [t])[|ids|] == t;
    assert i < |ids| ==> j == i;
  }

  /** `present`: each number's first id. */
  method FirstByNumber(ids: seq<string>) returns (present: map<nat, string>)
    ensures IsPresent(ids, present)
  {
    present := map[];
    for i := 0 to |ids|
      invariant IsPresent(ids[..i], present)
    {
      assert ids[..i+1] == ids[..i] + [ids[i]];
      forall n: nat ensures Present(ids[..i+1], n) == if Present(ids[..i], n).Some? then Present(ids[..i], n)
                                                      else if Num(ids[i]) == n then Some(ids[i]) else None
      {
        PresentStep(ids[..i], ids[i], n);
      }
      if Num(ids[i]) !in present {
        present := present[Num(ids[i]) := ids[i]];
      }
    }
    assert ids[..|ids|] == ids;
  }

  lemma PresentIsId(ids: seq<string>, n: nat)
    requires Present(ids, n).Some?
    ensures Present(ids, n).value in ids && Num(Present(ids, n).value) == n
  {
  }

  /** One name of an entry: a present local one is joined, an absent one set aside, another repo's likewise. */
  method JoinName(ids: seq<string>, present: map<nat, string>, e: LedgerEntry, item: Item, parent: map<string, string>,
                  ghost done: set<(string, string)>, ghost root: map<string, string>, ghost height: map<string, nat>)
    returns (joined: map<string, string>, ghost root': map<string, string>, ghost height': map<string, nat>)
    requires IsPresent(ids, present) && e.id in ids
    requires IsForest(parent, root, height) && Joins(done, root) && forall t | t in ids :: t in parent
    ensures joined.Keys == parent.Keys && IsForest(joined, root', height')
    ensures Joins(if Target(ids, e, item).Some? then done + {(Target(ids, e, item).value, e.id)} else done, root')
  {
    joined, root', height' := parent, root, height;
    if item.Local? {
      var n := Num(item.id);
      if n in present && n != Num(e.id) {
        PresentIsId(ids, n);
        joined, root', height' := Unite(joined, present[n], e.id, done, root', height');
      }
    }
  }

  /** One entry's names: local ones joined or set aside, the other repos' set aside. */
  method JoinEntry(ids: seq<string>, present: map<nat, string>, e: LedgerEntry, parent: map<string, string>,
                   ghost edges: set<(string, string)>, ghost root: map<string, string>, ghost height: map<string, nat>)
    returns (joined: map<string, string>, others: seq<string>, cross: seq<string>,
             ghost root': map<string, string>, ghost height': map<string, nat>)
    requires IsPresent(ids, present) && e.id in ids
    requires IsForest(parent, root, height) && Joins(edges, root) && forall t | t in ids :: t in parent
    ensures joined.Keys == parent.Keys
    ensures IsForest(joined, root', height') && Joins(edges + EdgesOf(ids, e, |e.Names()|), root')
    ensures others == OthersNamed(ids, e.Names()) && cross == CrossNamed(e.Names())
  {
    joined, others, cross := parent, [], [];
    root', height' := root, height;
    var items := e.Names();
    assert edges + EdgesOf(ids, e, 0) == edges;
    for k := 0 to |items|
      invariant joined.Keys == parent.Keys
      invariant IsForest(joined, root', height') && Joins(edges + EdgesOf(ids, e, k), root')
      invariant others == OthersNamed(ids, items[..k]) && cross == CrossNamed(items[..k])
    {
      ghost var done := edges + EdgesOf(ids, e, k);
      ghost var target := Target(ids, e, items[k]);
      NamedGrow(ids, items, k);
      joined, root', height' := JoinName(ids, present, e, items[k], joined, done, root', height');
      assert edges + EdgesOf(ids, e, k + 1) == if target.Some? then done + {(target.value, e.id)} else done;
      match items[k] {
        case Cross(name) =>
          cross := cross + [name];
        case Local(id) =>
          if Num(id) !in present {
            others := others + [id];
          }
      }
    }
    assert items[..|items|] == items;
  }

  lemma NamedGrow(ids: seq<string>, items: seq<Item>, k: nat)
    requires k < |items|
    ensures OthersNamed(ids, items[..k+1]) == OthersNamed(ids, items[..k]) +
            if items[k].Local? && Present(ids, Num(items[k].id)).None? then [items[k].id] else []
    ensures CrossNamed(items[..k+1]) == CrossNamed(items[..k]) + if items[k].Cross? then [items[k].name] else []
  {
    assert items[..k+1] == items[..k] + [items[k]];
    var f := (b: Item) => if b.Local? && Present(ids, Num(b.id)).None? then [b.id] else [];
    var g := (b: Item) => if b.Cross? then [b.name] else [];
    CollectAppend(items[..k], [items[k]], f);
    CollectAppend(items[..k], [items[k]], g);
    CollectOne(items[k], f);
    CollectOne(items[k], g);
  }

  /** What is kept of each entry's names: its last heading's. */
  ghost predicate IsNamed(ids: seq<string>, ents: seq<LedgerEntry>, named: map<string, (seq<string>, seq<string>)>) {
    && (forall t :: t in named <==> LastOf(ents, t).Some?)
    && forall t | t in named :: named[t] == (OthersNamed(ids, NamesOf(ents, t)), CrossNamed(NamesOf(ents, t)))
  }

  lemma NamedStep(ids: seq<string>, ents: seq<LedgerEntry>, i: nat, named: map<string, (seq<string>, seq<string>)>)
    requires i < |ents| && IsNamed(ids, ents[..i], named)
    ensures var e := ents[i];
            IsNamed(ids, ents[..i+1], named[e.id := (OthersNamed(ids, e.Names()), CrossNamed(e.Names()))])
  {
    assert ents[..i+1][..i] == ents[..i];
  }

  method JoinAll(ids: seq<string>, ents: seq<LedgerEntry>)
    returns (parent: map<string, string>, named: map<string, (seq<string>, seq<string>)>,
             ghost root: map<string, string>, ghost height: map<string, nat>)
    requires ids == IdsOf(ents)
    ensures forall t :: t in parent <==> t in ids
    ensures IsForest(parent, root, height) && Joins(Edges(ids, ents), root)
    ensures IsNamed(ids, ents, named)
  {
    var present := FirstByNumber(ids);
    var all := set t | t in ids;
    parent, named := map t | t in all :: t, map[];
    Separate(all);
    root, height := parent, map t | t in all :: 0;
    assert Edges(ids, ents[..0]) == {};
    assert IsNamed(ids, ents[..0], named);
    for i := 0 to |ents|
      invariant parent.Keys == all
      invariant IsForest(parent, root, height) && Joins(Edges(ids, ents[..i]), root)
      invariant IsNamed(ids, ents[..i], named)
    {
      var e := ents[i];
      assert e.id == ids[i];
      var others, cross;
      parent, others, cross, root, height :=
        JoinEntry(ids, present, e, parent, Edges(ids, ents[..i]), root, height);
      EdgesGrow(ids, ents, i);
      NamedStep(ids, ents, i, named);
      named := named[e.id := (others, cross)];
    }
    assert ents[..|ents|] == ents;
  }

  // ----- gathering -----

  function InRoot(root: map<string, string>, r: string): string -> bool {
    t => t in root && root[t] == r
  }

  function SameRoot(root: map<string, string>): (string, string) -> bool {
    (x, y) => x in root && y in root && root[x] == root[y]
  }

  /** The card of root `r` holds the members of `d` with that root. */
  ghost predicate HoldsRoot(d: seq<string>, root: map<string, string>, c: Card, r: string) {
    c.ids != [] && c.ids == Filter(d, InRoot(root, r))
  }

  ghost predicate Grouped(d: seq<string>, root: map<string, string>, cards: seq<Card>, roots: seq<string>) {
    && |cards| == |roots| && Distinct(roots)
    && (forall j | 0 <= j < |cards| :: HoldsRoot(d, root, cards[j], roots[j]))
    && (forall t | t in d :: t in root && root[t] in roots)
    && Heads(cards) == FirstMembers(d, SameRoot(root))
  }

  lemma RootOfCard(d: seq<string>, root: map<string, string>, c: Card, r: string)
    requires HoldsRoot(d, root, c, r)
    ensures forall t :: t in c.ids <==> t in d && t in root && root[t] == r
  {
    FilterMembers(d, InRoot(root, r));
  }

  lemma FilterLast<T>(s: seq<T>, x: T, keep: T -> bool)
    ensures Filter(s + [x], keep) == if keep(x) then Filter(s, keep) + [x] else Filter(s, keep)
  {
    FilterAppend(s, [x], keep);
    assert [x][1..] == [];
  }

  lemma FirstMembersStep(d: seq<string>, same: (string, string) -> bool, x: string)
    ensures FirstMembers(d + [x], same) ==
            FirstMembers(d, same) + if exists y :: y in d && same(y, x) then [] else [x]
  {
    assert (d + [x])[..|d|] == d;
  }

  /** A new member of a card that is there. */
  lemma JoinsCard(d: seq<string>, root: map<string, string>, cards: seq<Card>, roots: seq<string>, x: string, j: nat,
                  c: Card)
    requires Grouped(d, root, cards, roots) && x in root && j < |cards| && root[x] == roots[j]
    requires c.ids == cards[j].ids + [x]
    ensures Grouped(d + [x], root, cards[j := c], roots)
  {
    var next := cards[j := c];
    RootOfCard(d, root, cards[j], roots[j]);
    assert cards[j].ids[0] in cards[j].ids;
    forall k | 0 <= k < |next| ensures HoldsRoot(d + [x], root, next[k], roots[k]) {
      assert HoldsRoot(d, root, cards[k], roots[k]);
      FilterLast(d, x, InRoot(root, roots[k]));
    }
    FirstMembersStep(d, SameRoot(root), x);
    assert SameRoot(root)(cards[j].ids[0], x);
    assert Heads(next) == Heads(cards);
  }

  /** The first member of a new card. */
  lemma StartsCard(d: seq<string>, root: map<string, string>, cards: seq<Card>, roots: seq<string>, x: string, c: Card)
    requires Grouped(d, root, cards, roots) && x in root && root[x] !in roots && c.ids == [x]
    ensures Grouped(d + [x], root, cards + [c], roots + [root[x]])
  {
    var next, nextRoots := cards + [c], roots + [root[x]];
    forall k | 0 <= k < |next| ensures HoldsRoot(d + [x], root, next[k], nextRoots[k]) {
      FilterLast(d, x, InRoot(root, nextRoots[k]));
      if k < |cards| {
        assert HoldsRoot(d, root, cards[k], roots[k]);
      } else {
        FilterNone(d, InRoot(root, root[x]));
      }
    }
    FirstMembersStep(d, SameRoot(root), x);
    assert Heads(next) == Heads(cards) + [x];
  }

  /** What a card keeps of its members' names. */
  ghost predicate NamesKept(ids: seq<string>, ents: seq<LedgerEntry>, c: Card) {
    && c.others == Dedup(Collect(c.ids, t => OthersNamed(ids, NamesOf(ents, t))))
    && c.cross == Dedup(Collect(c.ids, t => CrossNamed(NamesOf(ents, t))))
  }

  function Enlarged(c: Card, x: string, names: (seq<string>, seq<string>)): Card {
    Card(c.ids + [x], Extend(c.others, names.0), Extend(c.cross, names.1))
  }

  lemma EnlargedKeepsNames(ids: seq<string>, ents: seq<LedgerEntry>, c: Card, x: string)
    requires NamesKept(ids, ents, c)
    ensures NamesKept(ids, ents, Enlarged(c, x, (OthersNamed(ids, NamesOf(ents, x)), CrossNamed(NamesOf(ents, x)))))
  {
    var f := t => OthersNamed(ids, NamesOf(ents, t));
    var g := t => CrossNamed(NamesOf(ents, t));
    CollectAppend(c.ids, [x], f);
    CollectAppend(c.ids, [x], g);
    CollectOne(x, f);
    CollectOne(x, g);
    ExtendDedup(Collect(c.ids, f), f(x));
    ExtendDedup(Collect(c.ids, g), g(x));
  }

  ghost predicate AllNamesKept(ids: seq<string>, ents: seq<LedgerEntry>, cards: seq<Card>) {
    forall c | c in cards :: NamesKept(ids, ents, c)
  }

  /** What the groups hold once the members `d` are in. */
  ghost predicate GroupsHold(ids: seq<string>, ents: seq<LedgerEntry>, d: seq<string>, root: map<string, string>,
                             cards: seq<Card>, roots: seq<string>) {
    Grouped(d, root, cards, roots) && AllNamesKept(ids, ents, cards)
  }

  /** The groups, a dictionary by root in insertion order: `roots` are its keys, `cards` its values. */
  method Gather(ids: seq<string>, ents: seq<LedgerEntry>, joined: map<string, string>,
                named: map<string, (seq<string>, seq<string>)>,
                ghost root: map<string, string>, ghost height: map<string, nat>)
    returns (cards: seq<Card>, ghost roots': seq<string>)
    requires IsForest(joined, root, height) && IsNamed(ids, ents, named)
    requires forall t | t in ids :: t in joined && t in named
    ensures GroupsHold(ids, ents, Dedup(ids), root, cards, roots')
  {
    var parent := joined;
    var roots := [];
    cards := [];
    for i := 0 to |ids|
      invariant IsForest(parent, root, height)
      invariant GroupsHold(ids, ents, Dedup(ids[..i]), root, cards, roots)
    {
      var r;
      r, parent := Find(parent, ids[i], root, height);
      AppendedMember(ids, i);
      cards, roots := Place(ids, ents, ids[i], r, named, Dedup(ids[..i]), root, cards, roots);
    }
    assert ids[..|ids|] == ids;
    roots' := roots;
  }

  lemma AppendedMember(ids: seq<string>, i: nat)
    requires i < |ids|
    ensures Dedup(ids[..i+1]) == if ids[i] in Dedup(ids[..i]) then Dedup(ids[..i]) else Dedup(ids[..i]) + [ids[i]]
  {
    assert ids[..i+1] == ids[..i] + [ids[i]];
    DedupStep(ids[..i], ids[i]);
  }

  /** `groups.setdefault(find(t), …)`, and the member added unless it is a repeated heading. */
  method Place(ids: seq<string>, ents: seq<LedgerEntry>, x: string, r: string,
               named: map<string, (seq<string>, seq<string>)>, ghost d: seq<string>, ghost root: map<string, string>,
               cards: seq<Card>, roots: seq<string>)
    returns (cards': seq<Card>, roots': seq<string>)
    requires GroupsHold(ids, ents, d, root, cards, roots)
    requires x in root && r == root[x] && x in named && IsNamed(ids, ents, named)
    ensures GroupsHold(ids, ents, if x in d then d else d + [x], root, cards', roots')
  {
    var j := IndexFrom(roots, t => t == r, 0);
    if j == |roots| {
      NewCard(ids, ents, d, root, cards, roots, x, named);
      return cards + [Enlarged(Card([], [], []), x, named[x])], roots + [r];
    }
    HasRoot(d, root, cards, roots, j, x);
    if x in cards[j].ids {
      return cards, roots;
    }
    LargerCard(ids, ents, d, root, cards, roots, x, j, named);
    return cards[j := Enlarged(cards[j], x, named[x])], roots;
  }

  lemma NewCard(ids: seq<string>, ents: seq<LedgerEntry>, d: seq<string>, root: map<string, string>,
                cards: seq<Card>, roots: seq<string>, x: string, named: map<string, (seq<string>, seq<string>)>)
    requires GroupsHold(ids, ents, d, root, cards, roots) && IsNamed(ids, ents, named)
    requires x in root && root[x] !in roots && x in named
    ensures GroupsHold(ids, ents, d + [x], root, cards + [Enlarged(Card([], [], []), x, named[x])], roots + [root[x]])
    ensures x !in d
  {
    EnlargedKeepsNames(ids, ents, Card([], [], []), x);
    StartsCard(d, root, cards, roots, x, Enlarged(Card([], [], []), x, named[x]));
  }

  lemma LargerCard(ids: seq<string>, ents: seq<LedgerEntry>, d: seq<string>, root: map<string, string>,
                   cards: seq<Card>, roots: seq<string>, x: string, j: nat,
                   named: map<string, (seq<string>, seq<string>)>)
    requires GroupsHold(ids, ents, d, root, cards, roots) && IsNamed(ids, ents, named)
    requires j < |roots| && x in root && root[x] == roots[j] && x in named
    ensures GroupsHold(ids, ents, d + [x], root, cards[j := Enlarged(cards[j], x, named[x])], roots)
  {
    EnlargedKeepsNames(ids, ents, cards[j], x);
    JoinsCard(d, root, cards, roots, x, j, Enlarged(cards[j], x, named[x]));
  }

  lemma HasRoot(d: seq<string>, root: map<string, string>, cards: seq<Card>, roots: seq<string>, j: nat, x: string)
    requires Grouped(d, root, cards, roots) && j < |roots| && x in root && root[x] == roots[j]
    ensures x in cards[j].ids <==> x in d
  {
    assert HoldsRoot(d, root, cards[j], roots[j]);
    RootOfCard(d, root, cards[j], roots[j]);
  }

  lemma {:induction false} FirstMembersAgree(d: seq<string>, p: (string, string) -> bool, q: (string, string) -> bool)
    requires forall x, y | x in d && y in d :: p(x, y) == q(x, y)
    ensures FirstMembers(d, p) == FirstMembers(d, q)
  {
    if d != [] {
      FirstMembersAgree(d[..|d|-1], p, q);
    }
  }

  lemma GroupedAreCards(ents: seq<LedgerEntry>, parent: map<string, string>, root: map<string, string>,
                        height: map<string, nat>, cards: seq<Card>, roots: seq<string>)
    requires IsForest(parent, root, height) && Joins(Edges(IdsOf(ents), ents), root)
    requires GroupsHold(IdsOf(ents), ents, Dedup(IdsOf(ents)), root, cards, roots)
    ensures AreCards(ents, cards)
  {
    var ids, d := IdsOf(ents), Dedup(IdsOf(ents));
    forall x, y | x in d && y in d ensures SameRoot(root)(x, y) == SameCard(ents, x, y) {
      SameRootIffConnected(Edges(ids, ents), parent, root, height, x, y);
    }
    FirstMembersAgree(d, SameRoot(root), (x, y) => SameCard(ents, x, y));
    forall c | c in cards ensures c.ids != [] && c.ids == Filter(d, y => SameCard(ents, c.ids[0], y)) {
      var j :| 0 <= j < |cards| && cards[j] == c;
      assert HoldsRoot(d, root, c, roots[j]);
      RootOfCard(d, root, c, roots[j]);
      assert c.ids[0] in c.ids;
      FilterAgree(d, InRoot(root, roots[j]), y => SameCard(ents, c.ids[0], y));
    }
  }

  /** components: the connected components of the Blocked by names, taken both ways. */
  method Components(ents: seq<LedgerEntry>) returns (cards: seq<Card>)
    ensures AreCards(ents, cards)
  {
    var ids := IdsOf(ents);
    var parent, named;
    ghost var root, height, roots;
    parent, named, root, height := JoinAll(ids, ents);
    forall t | t in ids ensures t in named {
      LastOfPresent(ents, t);
    }
    cards, roots := Gather(ids, ents, parent, named, root, height);
    GroupedAreCards(ents, parent, root, height, cards, roots);
  }

  lemma {:induction false} LastOfPresent(ents: seq<LedgerEntry>, t: string)
    requires t in IdsOf(ents)
    ensures LastOf(ents, t).Some? && LastOf(ents, t).value in ents && LastOf(ents, t).value.id == t
  {
    var n := |ents| - 1;
    if ents[n].id != t {
      assert IdsOf(ents) == IdsOf(ents[..n]) + [ents[n].id];
      LastOfPresent(ents[..n], t);
    }
  }

  // ----- a partition -----

  ghost predicate IsEquivalence(d: seq<string>, same: (string, string) -> bool) {
    && (forall x | x in d :: same(x, x))
    && (forall x, y | x in d && y in d && same(x, y) :: same(y, x))
    && (forall x, y, z | x in d && y in d && z in d && same(x, y) && same(y, z) :: same(x, z))
  }

  lemma {:induction false} FirstMembersIn(d: seq<string>, same: (string, string) -> bool)
    ensures forall h | h in FirstMembers(d, same) :: h in d
  {
    if d != [] {
      FirstMembersIn(d[..|d|-1], same);
    }
  }

  lemma {:induction false} FirstMembersCover(d: seq<string>, same: (string, string) -> bool, t: string)
    returns (h: string)
    requires IsEquivalence(d, same) && t in d
    ensures h in FirstMembers(d, same) && same(h, t)
  {
    var front, last := d[..|d|-1], d[|d|-1];
    FirstMembersIn(front, same);
    if t in front {
      h := FirstMembersCover(front, same, t);
    } else if x :| x in front && same(x, last) {
      h := FirstMembersCover(front, same, x);
      assert h in d && x in d && last in d;
    } else {
      h := last;
    }
  }

  lemma {:induction false} FirstMembersApart(d: seq<string>, same: (string, string) -> bool, i: nat, j: nat)
    requires i < j < |FirstMembers(d, same)|
    ensures !same(FirstMembers(d, same)[i], FirstMembers(d, same)[j])
  {
    var front := d[..|d|-1];
    FirstMembersIn(front, same);
    if j < |FirstMembers(front, same)| {
      FirstMembersApart(front, same, i, j);
    } else {
      assert FirstMembers(front, same)[i] in front;
    }
  }

  lemma SameCardIsEquivalence(ents: seq<LedgerEntry>, d: seq<string>)
    ensures IsEquivalence(d, (x, y) => SameCard(ents, x, y))
  {
    var edges := Edges(IdsOf(ents), ents);
    forall x ensures SameCard(ents, x, x) { ConnectedToItself(edges, x); }
    forall x, y | SameCard(ents, x, y) ensures SameCard(ents, y, x) { ConnectedSymmetric(edges, x, y); }
    forall x, y, z | SameCard(ents, x, y) && SameCard(ents, y, z) ensures SameCard(ents, x, z) {
      ConnectedTransitive(edges, x, y, z);
    }
  }

  lemma CardMembers(ents: seq<LedgerEntry>, cards: seq<Card>, c: Card)
    requires AreCards(ents, cards) && c in cards
    ensures Distinct(c.ids) && c.ids != []
    ensures forall t :: t in c.ids <==> t in IdsOf(ents) && SameCard(ents, c.ids[0], t)
  {
    DedupMembers(IdsOf(ents));
    FilterMembers(Dedup(IdsOf(ents)), y => SameCard(ents, c.ids[0], y));
    FilterDistinct(Dedup(IdsOf(ents)), y => SameCard(ents, c.ids[0], y));
  }

  lemma OnSomeCard(ents: seq<LedgerEntry>, cards: seq<Card>, t: string) returns (c: Card)
    requires AreCards(ents, cards) && t in IdsOf(ents)
    ensures c in cards && t in c.ids
  {
    var d := Dedup(IdsOf(ents));
    DedupMembers(IdsOf(ents));
    SameCardIsEquivalence(ents, d);
    var h := FirstMembersCover(d, (x, y) => SameCard(ents, x, y), t);
    var i :| 0 <= i < |Heads(cards)| && Heads(cards)[i] == h;
    c := cards[i];
    CardMembers(ents, cards, c);
  }

  lemma CardsApart(ents: seq<LedgerEntry>, cards: seq<Card>, i: nat, j: nat, t: string)
    requires AreCards(ents, cards) && i < j < |cards| && t in cards[i].ids
    ensures t !in cards[j].ids
  {
    var edges := Edges(IdsOf(ents), ents);
    var x, y := cards[i].ids[0], cards[j].ids[0];
    CardMembers(ents, cards, cards[i]);
    CardMembers(ents, cards, cards[j]);
    FirstMembersApart(Dedup(IdsOf(ents)), (x, y) => SameCard(ents, x, y), i, j);
    assert Heads(cards)[i] == x && Heads(cards)[j] == y;
    if SameCard(ents, y, t) {
      ConnectedSymmetric(edges, y, t);
      ConnectedTransitive(edges, x, t, y);
    }
  }

  /** Every entry is on one card, and two are on one card exactly when they are joined. */
  lemma CardsPartition(ents: seq<LedgerEntry>, cards: seq<Card>)
    requires AreCards(ents, cards)
    ensures forall t | t in IdsOf(ents) :: exists c :: c in cards && t in c.ids
    ensures forall c, x, y | c in cards && x in c.ids && y in IdsOf(ents) :: y in c.ids <==> SameCard(ents, x, y)
    ensures forall i, j, t | 0 <= i < j < |cards| && t in cards[i].ids :: t !in cards[j].ids
  {
    forall t | t in IdsOf(ents) ensures exists c :: c in cards && t in c.ids {
      var c := OnSomeCard(ents, cards, t);
    }
    forall c, x, y | c in cards && x in c.ids && y in IdsOf(ents) ensures y in c.ids <==> SameCard(ents, x, y) {
      OneCard(ents, cards, c, x, y);
    }
    forall i, j, t | 0 <= i < j < |cards| && t in cards[i].ids ensures t !in cards[j].ids {
      CardsApart(ents, cards, i, j, t);
    }
  }

  lemma OneCard(ents: seq<LedgerEntry>, cards: seq<Card>, c: Card, x: string, y: string)
    requires AreCards(ents, cards) && c in cards && x in c.ids && y in IdsOf(ents)
    ensures y in c.ids <==> SameCard(ents, x, y)
  {
    var edges := Edges(IdsOf(ents), ents);
    CardMembers(ents, cards, c);
    ConnectedSymmetric(edges, c.ids[0], x);
    if SameCard(ents, x, y) {
      ConnectedTransitive(edges, c.ids[0], x, y);
    }
    if y in c.ids {
      ConnectedTransitive(edges, x, c.ids[0], y);
    }
  }
}
