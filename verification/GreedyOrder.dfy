/** The order both the pick order and the mail merge take: of the members nothing left holds back, the least
    goes next. What holds a member back is given by `deps`, which of two is less by `rank`. */
module GreedyOrder {
  import opened Common
  import opened Keys

  /** Python's sort values here: a tuple of integers, then another. */
  datatype Rank = Rank(major: seq<int>, minor: seq<int>)

  predicate RankLess(a: Rank, b: Rank) {
    Less(a.major, b.major) || (a.major == b.major && Less(a.minor, b.minor))
  }

  lemma RankTotal(a: Rank, b: Rank)
    ensures RankLess(a, b) || a == b || RankLess(b, a)
  {
    LessTotal(a.major, b.major);
    LessTotal(a.minor, b.minor);
  }

  lemma RankTransitive(a: Rank, b: Rank, c: Rank)
    requires RankLess(a, b) && RankLess(b, c)
    ensures RankLess(a, c)
  {
    if Less(a.major, b.major) && Less(b.major, c.major) {
      LessTransitive(a.major, b.major, c.major);
    } else if a.major == b.major == c.major {
      LessTransitive(a.minor, b.minor, c.minor);
    }
  }

  lemma RankAsymmetric(a: Rank, b: Rank)
    requires RankLess(a, b)
    ensures !RankLess(b, a)
  {
    if Less(a.major, b.major) {
      LessAsymmetric(a.major, b.major);
    } else {
      LessAsymmetric(a.minor, b.minor);
      LessIrreflexive(a.major);
    }
  }

  // ----- the relation -----

  /** The members of `left` that no other of them holds back. */
  function Ready<T(!new)>(left: set<T>, deps: map<T, set<T>>): set<T>
    requires left <= deps.Keys
  {
    set t | t in left && deps[t] * left == {}
  }

  /** The members the next is taken from: with none ready, all that are left. */
  function Pool<T(!new)>(left: set<T>, deps: map<T, set<T>>): set<T>
    requires left <= deps.Keys
  {
    if Ready(left, deps) == {} then left else Ready(left, deps)
  }

  ghost predicate IsLeast<T>(x: T, pool: set<T>, rank: map<T, Rank>)
    requires pool <= rank.Keys
  {
    x in pool && forall y | y in pool :: !RankLess(rank[y], rank[x])
  }

  /** `s` takes the members of `left` greedily, to the last. */
  ghost predicate IsGreedy<T(!new)>(s: seq<T>, left: set<T>, deps: map<T, set<T>>, rank: map<T, Rank>)
    requires left <= deps.Keys && left <= rank.Keys
  {
    if s == [] then left == {}
    else IsLeast(s[0], Pool(left, deps), rank) && IsGreedy(s[1..], left - {s[0]}, deps, rank)
  }

  /** `s` takes ready members of `left` greedily until `rest` is left. */
  ghost predicate RunsTo<T(!new)>(s: seq<T>, left: set<T>, rest: set<T>, deps: map<T, set<T>>, rank: map<T, Rank>)
    requires left <= deps.Keys && left <= rank.Keys
  {
    if s == [] then left == rest
    else IsLeast(s[0], Ready(left, deps), rank) && RunsTo(s[1..], left - {s[0]}, rest, deps, rank)
  }

  ghost function Members<T(!new)>(s: seq<T>): set<T> {
    set t | t in s
  }

  ghost predicate IsOrderOf<T(!new)>(s: seq<T>, members: set<T>) {
    Distinct(s) && forall t :: t in s <==> t in members
  }

  /** Each member comes after all of `members` that hold it back. */
  ghost predicate Respects<T(!new)>(s: seq<T>, members: set<T>, deps: map<T, set<T>>)
    requires members <= deps.Keys && IsOrderOf(s, members)
  {
    forall i, d | 0 <= i < |s| && d in deps[s[i]] && d in members :: d in s[..i]
  }

  // ----- cycles -----

  ghost predicate HeldBack<T(!new)>(t: T, k: set<T>, deps: map<T, set<T>>)
    requires t in deps
  {
    deps[t] * k != {}
  }

  /** Members each held back by another of them: a cycle, and whatever lies behind it. */
  ghost predicate IsKnot<T(!new)>(k: set<T>, deps: map<T, set<T>>) {
    k != {} && k <= deps.Keys && forall t {:trigger HeldBack(t, k, deps)} | t in k :: HeldBack(t, k, deps)
  }

  /** `t` is on a cycle, or behind one. */
  ghost predicate IsStuck<T(!new)>(t: T, members: set<T>, deps: map<T, set<T>>) {
    exists k :: k <= members && IsKnot(k, deps) && t in k
  }

  ghost predicate IsAcyclic<T(!new)>(members: set<T>, deps: map<T, set<T>>) {
    forall k | k <= members :: !IsKnot(k, deps)
  }

  /** A cycle stays one where more holds members back. */
  lemma KnotInMore<T(!new)>(k: set<T>, members: set<T>, deps: map<T, set<T>>, more: map<T, set<T>>)
    requires IsKnot(k, deps) && k <= members && k <= more.Keys && forall x | x in k :: deps[x] <= more[x]
    ensures !IsAcyclic(members, more)
  {
    forall x | x in k ensures HeldBack(x, k, more) {
      assert HeldBack(x, k, deps);
      var y :| y in deps[x] * k;
      assert y in more[x] * k;
    }
    assert IsKnot(k, more);
  }

  /** A walk from one member to what holds it back, and on, that comes to a member it has been at. */
  ghost predicate IsLoop<T(!new)>(p: seq<T>, t: T, members: set<T>, deps: map<T, set<T>>) {
    && |p| >= 2 && p[0] == t && (forall x | x in p :: x in members && x in deps)
    && (forall i | 0 <= i < |p| - 1 :: p[i+1] in deps[p[i]])
    && p[|p|-1] in p[..|p|-1]
  }

  lemma LoopIsKnot<T(!new)>(p: seq<T>, t: T, members: set<T>, deps: map<T, set<T>>)
    requires IsLoop(p, t, members, deps)
    ensures IsStuck(t, members, deps)
  {
    var k := Members(p);
    forall x | x in k ensures HeldBack(x, k, deps) {
      var i :| 0 <= i < |p| && p[i] == x;
      var j :| 0 <= j < |p| - 1 && p[j] == p[|p|-1];
      var n := if i < |p| - 1 then i else j;
      assert p[n+1] in deps[x] * k;
    }
    assert t in k;
    assert IsKnot(k, deps);
  }

  lemma {:induction false} WalkInKnot<T(!new)>(t: T, k: set<T>, deps: map<T, set<T>>, n: nat) returns (p: seq<T>)
    requires IsKnot(k, deps) && t in k
    ensures |p| == n + 1 && p[0] == t && forall x | x in p :: x in k
    ensures forall i | 0 <= i < n :: p[i+1] in deps[p[i]]
  {
    if n == 0 {
      p := [t];
    } else {
      var q := WalkInKnot(t, k, deps, n - 1);
      assert HeldBack(q[n-1], k, deps);
      var d :| d in deps[q[n-1]] * k;
      p := q + [d];
    }
  }

  lemma {:induction false} DistinctFits<T(!new)>(s: seq<T>, k: set<T>)
    requires Distinct(s) && forall x | x in s :: x in k
    ensures |s| <= |k|
  {
    if s != [] {
      DistinctFits(s[1..], k - {s[0]});
    }
  }

  /** Being stuck is having a walk back through what holds one back that loops. */
  lemma StuckIffLoop<T(!new)>(t: T, members: set<T>, deps: map<T, set<T>>)
    ensures IsStuck(t, members, deps) <==> exists p :: IsLoop(p, t, members, deps)
  {
    if p :| IsLoop(p, t, members, deps) {
      LoopIsKnot(p, t, members, deps);
    }
    if IsStuck(t, members, deps) {
      var k :| k <= members && IsKnot(k, deps) && t in k;
      var p := LoopInKnot(t, members, k, deps);
    }
  }

  lemma LoopInKnot<T(!new)>(t: T, members: set<T>, k: set<T>, deps: map<T, set<T>>) returns (p: seq<T>)
    requires k <= members && IsKnot(k, deps) && t in k
    ensures IsLoop(p, t, members, deps)
  {
    var w := WalkInKnot(t, k, deps, |k|);
    var i, j := Repeated(w, k);
    p := w[..j+1];
    assert p[|p|-1] == p[..j][i];
  }

  lemma Repeated<T(!new)>(w: seq<T>, k: set<T>) returns (i: nat, j: nat)
    requires |w| > |k| && forall x | x in w :: x in k
    ensures i < j < |w| && w[i] == w[j]
  {
    if Distinct(w) {
      DistinctFits(w, k);
    }
    i, j :| i < j < |w| && w[i] == w[j];
  }

  // ----- what the greedy order has -----

  /** Every member is placed, once. */
  lemma {:induction false} GreedyPlacesAll<T(!new)>(s: seq<T>, left: set<T>, deps: map<T, set<T>>, rank: map<T, Rank>)
    requires left <= deps.Keys && left <= rank.Keys && IsGreedy(s, left, deps, rank)
    ensures IsOrderOf(s, left)
  {
    if s != [] {
      GreedyPlacesAll(s[1..], left - {s[0]}, deps, rank);
      assert forall t :: t in s <==> t == s[0] || t in s[1..];
    }
  }

  lemma StuckInMore<T(!new)>(t: T, members: set<T>, more: set<T>, deps: map<T, set<T>>)
    requires members <= more
    ensures IsStuck(t, members, deps) ==> IsStuck(t, more, deps)
  {
    if k :| k <= members && IsKnot(k, deps) && t in k {
      assert k <= more;
    }
  }

  /** A member that is on no cycle and behind none follows all that holds it back. */
  lemma {:induction false} UnstuckFollows<T(!new)>(s: seq<T>, left: set<T>, deps: map<T, set<T>>, rank: map<T, Rank>,
                                                   i: nat, d: T)
    requires left <= deps.Keys && left <= rank.Keys && IsGreedy(s, left, deps, rank)
    requires i < |s| && s[i] in left && d in left && d in deps[s[i]] && !IsStuck(s[i], left, deps)
    ensures d in s[..i]
  {
    if i == 0 {
      assert d in deps[s[0]] * left;
      assert IsKnot(left, deps) by {
        forall t | t in left ensures HeldBack(t, left, deps) {
          assert t !in Ready(left, deps);
        }
      }
    } else if d != s[0] {
      var rest := left - {s[0]};
      assert s[1..][i-1] == s[i] && s[1..][..i-1] == s[..i][1..];
      GreedyPlacesAll(s[1..], rest, deps, rank);
      StuckInMore(s[i], rest, left, deps);
      UnstuckFollows(s[1..], rest, deps, rank, i - 1, d);
    } else {
      assert s[..i][0] == d;
    }
  }

  lemma UnstuckPlaces<T(!new)>(s: seq<T>, left: set<T>, deps: map<T, set<T>>, rank: map<T, Rank>, t: T, d: T)
    returns (i: nat, j: nat)
    requires left <= deps.Keys && left <= rank.Keys && IsGreedy(s, left, deps, rank)
    requires t in left && d in left && d in deps[t] && !IsStuck(t, left, deps)
    ensures j < i < |s| && s[i] == t && s[j] == d
  {
    GreedyPlacesAll(s, left, deps, rank);
    i :| i < |s| && s[i] == t;
    UnstuckFollows(s, left, deps, rank, i, d);
    j :| j < i && s[..i][j] == d;
  }

  /** Where there is no cycle, the greedy order respects all that holds members back. */
  lemma AcyclicRespects<T(!new)>(s: seq<T>, left: set<T>, deps: map<T, set<T>>, rank: map<T, Rank>)
    requires left <= deps.Keys && left <= rank.Keys && IsGreedy(s, left, deps, rank) && IsAcyclic(left, deps)
    ensures IsOrderOf(s, left) && Respects(s, left, deps)
  {
    GreedyPlacesAll(s, left, deps, rank);
    forall i, d | 0 <= i < |s| && d in deps[s[i]] && d in left ensures d in s[..i] {
      UnstuckFollows(s, left, deps, rank, i, d);
    }
  }

  /** An order that respects what holds members back shows there is no cycle. */
  lemma RespectedIsAcyclic<T(!new)>(s: seq<T>, left: set<T>, deps: map<T, set<T>>)
    requires left <= deps.Keys && IsOrderOf(s, left) && Respects(s, left, deps)
    ensures IsAcyclic(left, deps)
  {
    forall k | k <= left && k != {} ensures !IsKnot(k, deps) {
      var n := IndexFrom(s, x => x in k, 0);
      var x :| x in k;
      assert x in s;
      assert forall d | d in deps[s[n]] && d in left :: d in s[..n];
      assert deps[s[n]] * k == {};
      assert !HeldBack(s[n], k, deps);
    }
  }

  /** `s` is no higher than `t` in the order of sequences by rank. */
  ghost predicate NotAbove<T(!new)>(s: seq<T>, t: seq<T>, rank: map<T, Rank>)
    requires (forall x | x in s :: x in rank) && (forall x | x in t :: x in rank)
  {
    || s == [] || t == []
    || RankLess(rank[s[0]], rank[t[0]])
    || (s[0] == t[0] && NotAbove(s[1..], t[1..], rank))
  }

  ghost predicate NoTies<T(!new)>(members: set<T>, rank: map<T, Rank>)
    requires members <= rank.Keys
  {
    forall x, y | x in members && y in members && rank[x] == rank[y] :: x == y
  }

  lemma FirstIsReady<T(!new)>(t: seq<T>, left: set<T>, deps: map<T, set<T>>)
    requires left <= deps.Keys && IsOrderOf(t, left) && t != [] && Respects(t, left, deps)
    ensures t[0] in Ready(left, deps)
  {
    assert t[0] in left;
    assert forall d | d in deps[t[0]] && d in left :: d in t[..0];
  }

  lemma RestFollows<T(!new)>(t: seq<T>, left: set<T>, deps: map<T, set<T>>)
    requires left <= deps.Keys && IsOrderOf(t, left) && t != [] && Respects(t, left, deps)
    ensures IsOrderOf(t[1..], left - {t[0]})
    ensures Respects(t[1..], left - {t[0]}, deps)
  {
    assert forall x :: x in t <==> x == t[0] || x in t[1..];
    forall i, d | 0 <= i < |t[1..]| && d in deps[t[1..][i]] && d in left - {t[0]} ensures d in t[1..][..i] {
      assert t[1..][i] == t[i+1];
      assert d in t[..i+1];
      assert t[..i+1] == [t[0]] + t[1..][..i];
    }
  }

  /** Of all orders in which every member follows what holds it back, the greedy one is the least by rank. */
  lemma {:induction false} GreedyIsLeast<T(!new)>(s: seq<T>, t: seq<T>, left: set<T>, deps: map<T, set<T>>,
                                                  rank: map<T, Rank>)
    requires left <= deps.Keys && left <= rank.Keys && NoTies(left, rank)
    requires IsGreedy(s, left, deps, rank) && IsOrderOf(t, left) && Respects(t, left, deps)
    ensures (forall x | x in s :: x in rank) && (forall x | x in t :: x in rank) && NotAbove(s, t, rank)
  {
    GreedyPlacesAll(s, left, deps, rank);
    if s != [] && t != [] {
      FirstIsReady(t, left, deps);
      RankTotal(rank[s[0]], rank[t[0]]);
      if s[0] == t[0] {
        RestFollows(t, left, deps);
        GreedyIsLeast(s[1..], t[1..], left - {s[0]}, deps, rank);
      }
    }
  }

  /** With no ties the greedy order is one order. */
  lemma {:induction false} GreedyIsUnique<T(!new)>(s: seq<T>, t: seq<T>, left: set<T>, deps: map<T, set<T>>,
                                                   rank: map<T, Rank>)
    requires left <= deps.Keys && left <= rank.Keys && NoTies(left, rank)
    requires IsGreedy(s, left, deps, rank) && IsGreedy(t, left, deps, rank)
    ensures s == t
  {
    if s != [] && t != [] {
      RankTotal(rank[s[0]], rank[t[0]]);
      GreedyIsUnique(s[1..], t[1..], left - {s[0]}, deps, rank);
      assert s == [s[0]] + s[1..] && t == [t[0]] + t[1..];
    }
  }

  // ----- taking one after another -----

  /** `s` takes members of `left` greedily until `rest` is left. */
  ghost predicate Takes<T(!new)>(s: seq<T>, left: set<T>, rest: set<T>, deps: map<T, set<T>>, rank: map<T, Rank>)
    requires left <= deps.Keys && left <= rank.Keys
  {
    if s == [] then left == rest
    else IsLeast(s[0], Pool(left, deps), rank) && Takes(s[1..], left - {s[0]}, rest, deps, rank)
  }

  lemma {:induction false} TakesOneMore<T(!new)>(s: seq<T>, left: set<T>, rest: set<T>, x: T,
                                                deps: map<T, set<T>>, rank: map<T, Rank>)
    requires left <= deps.Keys && left <= rank.Keys && rest <= left && Takes(s, left, rest, deps, rank)
    requires IsLeast(x, Pool(rest, deps), rank)
    ensures Takes(s + [x], left, rest - {x}, deps, rank)
  {
    if s == [] {
      assert [x][1..] == [];
    } else {
      TakenOf(s[1..], left - {s[0]}, rest, deps, rank);
      TakesOneMore(s[1..], left - {s[0]}, rest, x, deps, rank);
      assert (s + [x])[1..] == s[1..] + [x];
    }
  }

  lemma {:induction false} TakenOf<T(!new)>(s: seq<T>, left: set<T>, rest: set<T>, deps: map<T, set<T>>,
                                           rank: map<T, Rank>)
    requires left <= deps.Keys && left <= rank.Keys && Takes(s, left, rest, deps, rank)
    ensures rest <= left
  {
    if s != [] {
      TakenOf(s[1..], left - {s[0]}, rest, deps, rank);
    }
  }

  lemma {:induction false} TakesAll<T(!new)>(s: seq<T>, left: set<T>, deps: map<T, set<T>>, rank: map<T, Rank>)
    requires left <= deps.Keys && left <= rank.Keys && Takes(s, left, {}, deps, rank)
    ensures IsGreedy(s, left, deps, rank)
  {
    if s != [] {
      TakesAll(s[1..], left - {s[0]}, deps, rank);
    }
  }

  /** Python's min over a set by the sort value. */
  method Least<T(!new,==)>(pool: set<T>, rank: map<T, Rank>) returns (x: T)
    requires pool != {} && pool <= rank.Keys
    ensures IsLeast(x, pool, rank)
  {
    x :| x in pool;
    var rest := pool - {x};
    LessIrreflexive(rank[x].major);
    LessIrreflexive(rank[x].minor);
    assert pool - rest == {x};
    while rest != {}
      invariant rest <= pool && x in pool
      invariant forall y | y in pool - rest :: !RankLess(rank[y], rank[x])
      decreases rest
    {
      var y :| y in rest;
      rest := rest - {y};
      if RankLess(rank[y], rank[x]) {
        forall z | z in pool - rest ensures !RankLess(rank[z], rank[y]) {
          RankBelow(rank[z], rank[x], rank[y]);
        }
        x := y;
      }
    }
  }

  lemma RankBelow(z: Rank, x: Rank, y: Rank)
    requires RankLess(y, x)
    ensures !RankLess(z, x) || z == y ==> !RankLess(z, y)
  {
    if RankLess(z, y) {
      RankTransitive(z, y, x);
      RankAsymmetric(z, y);
    }
  }

  // ----- a run of ready members -----

  lemma {:induction false} RunOneMore<T(!new)>(s: seq<T>, left: set<T>, rest: set<T>, x: T,
                                              deps: map<T, set<T>>, rank: map<T, Rank>)
    requires left <= deps.Keys && left <= rank.Keys && rest <= left && RunsTo(s, left, rest, deps, rank)
    requires IsLeast(x, Ready(rest, deps), rank)
    ensures RunsTo(s + [x], left, rest - {x}, deps, rank)
  {
    if s == [] {
      assert [x][1..] == [];
    } else {
      RunPlaces(s[1..], left - {s[0]}, rest, deps, rank);
      RunOneMore(s[1..], left - {s[0]}, rest, x, deps, rank);
      assert (s + [x])[1..] == s[1..] + [x];
    }
  }

  lemma {:induction false} RunPlaces<T(!new)>(s: seq<T>, left: set<T>, rest: set<T>, deps: map<T, set<T>>,
                                             rank: map<T, Rank>)
    requires left <= deps.Keys && left <= rank.Keys && RunsTo(s, left, rest, deps, rank)
    ensures rest <= left && IsOrderOf(s, left - rest)
  {
    if s != [] {
      RunPlaces(s[1..], left - {s[0]}, rest, deps, rank);
      assert s[0] !in s[1..];
      assert forall t :: t in s <==> t == s[0] || t in s[1..];
      assert forall i | 0 < i < |s| :: s[i] == s[1..][i-1];
    }
  }

  /** What is ready is held back by nothing left. */
  lemma ReadyIsFree<T(!new)>(x: T, left: set<T>, deps: map<T, set<T>>)
    requires left <= deps.Keys && x in Ready(left, deps)
    ensures forall d | d in deps[x] :: d !in left
  {
    var held := deps[x];
    forall d | d in held ensures d !in left {
      assert d in left ==> d in held * left;
    }
  }

  /** Nothing of a cycle is ever ready. */
  lemma KnotIsNotReady<T(!new)>(x: T, k: set<T>, left: set<T>, deps: map<T, set<T>>)
    requires left <= deps.Keys && k <= left && IsKnot(k, deps) && x in k
    ensures x !in Ready(left, deps)
  {
    assert HeldBack(x, k, deps);
    var d :| d in deps[x] * k;
    assert d in deps[x] * left;
  }

  lemma {:induction false} KnotStays<T(!new)>(s: seq<T>, left: set<T>, rest: set<T>, k: set<T>,
                                             deps: map<T, set<T>>, rank: map<T, Rank>)
    requires left <= deps.Keys && left <= rank.Keys && RunsTo(s, left, rest, deps, rank)
    requires k <= left && IsKnot(k, deps)
    ensures k <= rest
  {
    if s != [] {
      forall x | x in k ensures x != s[0] {
        KnotIsNotReady(x, k, left, deps);
      }
      KnotStays(s[1..], left - {s[0]}, rest, k, deps, rank);
    }
  }

  /** What is left when nothing is ready is exactly what lies on a cycle or behind one. */
  lemma LeftIsStuck<T(!new)>(s: seq<T>, left: set<T>, rest: set<T>, deps: map<T, set<T>>, rank: map<T, Rank>)
    requires left <= deps.Keys && left <= rank.Keys && RunsTo(s, left, rest, deps, rank) && rest <= left
    requires Ready(rest, deps) == {}
    ensures forall t :: t in rest <==> IsStuck(t, left, deps)
  {
    forall t ensures t in rest <==> IsStuck(t, left, deps) {
      if t in rest {
        forall x | x in rest ensures HeldBack(x, rest, deps) {
          assert x !in Ready(rest, deps);
        }
        assert IsKnot(rest, deps);
      }
      if IsStuck(t, left, deps) {
        var k :| k <= left && IsKnot(k, deps) && t in k;
        KnotStays(s, left, rest, k, deps, rank);
      }
    }
  }

  /** A run of ready members to the last is the greedy order. */
  lemma {:induction false} RunIsGreedy<T(!new)>(s: seq<T>, left: set<T>, deps: map<T, set<T>>, rank: map<T, Rank>)
    requires left <= deps.Keys && left <= rank.Keys && RunsTo(s, left, {}, deps, rank)
    ensures IsGreedy(s, left, deps, rank)
  {
    if s != [] {
      RunIsGreedy(s[1..], left - {s[0]}, deps, rank);
    }
  }

  /** Each member of a run follows everything that holds it back. */
  lemma {:induction false} RunFollows<T(!new)>(s: seq<T>, left: set<T>, rest: set<T>, deps: map<T, set<T>>,
                                              rank: map<T, Rank>, i: nat, d: T)
    requires left <= deps.Keys && left <= rank.Keys && RunsTo(s, left, rest, deps, rank)
    requires i < |s| && s[i] in left && d in deps[s[i]] && d in left
    ensures d in s[..i]
  {
    ReadyIsFree(s[0], left, deps);
    if i > 0 && d == s[0] {
      assert s[..i][0] == d;
    } else if i > 0 {
      RunPlaces(s[1..], left - {s[0]}, rest, deps, rank);
      assert s[1..][i-1] == s[i] && s[1..][..i-1] == s[..i][1..];
      RunFollows(s[1..], left - {s[0]}, rest, deps, rank, i - 1, d);
    }
  }

  // ----- what is chosen -----

  /** A member whose turn could have come, since all that holds it back stood before, is not less than the one taken. */
  lemma {:induction false} GreedyTakesLeast<T(!new)>(s: seq<T>, left: set<T>, deps: map<T, set<T>>, rank: map<T, Rank>,
                                                     i: nat, j: nat)
    requires left <= deps.Keys && left <= rank.Keys && IsGreedy(s, left, deps, rank)
    requires i < j < |s| && s[i] in left && s[j] in left
    requires forall d | d in deps[s[j]] && d in left :: d in s[..i]
    ensures !RankLess(rank[s[j]], rank[s[i]])
  {
    var x, rest := s[0], left - {s[0]};
    if i == 0 {
      assert deps[s[j]] * left == {};
      assert s[j] in Ready(left, deps);
    } else {
      GreedyPlacesAll(s, left, deps, rank);
      assert s[1..][i-1] == s[i] && s[1..][j-1] == s[j];
      forall d | d in deps[s[j]] && d in rest ensures d in s[1..][..i-1] {
        var k :| 0 <= k < i && s[k] == d;
        assert s[1..][..i-1][k-1] == d;
      }
      GreedyTakesLeast(s[1..], rest, deps, rank, i - 1, j - 1);
    }
  }

  lemma {:induction false} RunTakesLeast<T(!new)>(s: seq<T>, left: set<T>, rest: set<T>, deps: map<T, set<T>>,
                                                  rank: map<T, Rank>, i: nat, j: nat)
    requires left <= deps.Keys && left <= rank.Keys && RunsTo(s, left, rest, deps, rank) && rest <= left
    requires i < j < |s| && s[i] in left && s[j] in left
    requires forall d | d in deps[s[j]] && d in left :: d in s[..i]
    ensures !RankLess(rank[s[j]], rank[s[i]])
  {
    var next := left - {s[0]};
    if i == 0 {
      assert deps[s[j]] * left == {};
      assert s[j] in Ready(left, deps);
    } else {
      RunPlaces(s, left, rest, deps, rank);
      assert s[1..][i-1] == s[i] && s[1..][j-1] == s[j];
      forall d | d in deps[s[j]] && d in next ensures d in s[1..][..i-1] {
        var k :| 0 <= k < i && s[k] == d;
        assert s[1..][..i-1][k-1] == d;
      }
      RunsWithin(s, left, rest, deps, rank);
      RunTakesLeast(s[1..], next, rest, deps, rank, i - 1, j - 1);
    }
  }

  lemma RunsWithin<T(!new)>(s: seq<T>, left: set<T>, rest: set<T>, deps: map<T, set<T>>, rank: map<T, Rank>)
    requires left <= deps.Keys && left <= rank.Keys && RunsTo(s, left, rest, deps, rank) && s != [] && rest <= left
    ensures rest <= left - {s[0]}
  {
    RunPlaces(s, left, rest, deps, rank);
  }
}
