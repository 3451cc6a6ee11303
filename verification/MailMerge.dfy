/** A thread gathered from several mailboxes: src/sessionorc/agent_common.py's _oldest_first. */
module MailMerge {
  import opened Common
  import opened Keys
  import opened GreedyOrder
  import opened FreeRun

  /** What the merge reads of a mail entry: `settledBy` is its outcome's, where it has an outcome. */
  datatype Mail = Mail(id: string, at: string, replyTo: Option<string>, closedBy: Option<string>,
                       settledBy: Option<string>)

  type Thread = map<string, Mail>

  function CodePoints(s: string): seq<int> {
    seq(|s|, i requires 0 <= i < |s| => s[i] as int)
  }

  /** Entries sort by (at, id). */
  function RankIn(found: Thread, id: string): Rank
    requires id in found
  {
    Rank(CodePoints(found[id].at), CodePoints(id))
  }

  function Ranks(found: Thread): map<string, Rank> {
    map id | id in found :: RankIn(found, id)
  }

  // ----- what comes before what -----

  /** A box holds `a` just before `b`. */
  ghost predicate NextInBox(chains: seq<seq<string>>, a: string, b: string) {
    exists c, i :: 0 <= c < |chains| && 0 <= i < |chains[c]| - 1 && chains[c][i] == a && chains[c][i+1] == b
  }

  /** `b` replies to `a`. */
  predicate Replies(found: Thread, a: string, b: string) {
    b in found && found[b].replyTo == Some(a) && a in found
  }

  /** `a` closed a question that `b` settled. */
  predicate Settles(found: Thread, a: string, b: string) {
    exists q :: q in found && found[q].closedBy == Some(a) && found[q].settledBy == Some(b) && a in found && b in found
  }

  ghost predicate ComesBefore(found: Thread, chains: seq<seq<string>>, a: string, b: string) {
    NextInBox(chains, a, b) || Replies(found, a, b) || Settles(found, a, b)
  }

  /** What must come before each entry. */
  ghost function Earlier(found: Thread, chains: seq<seq<string>>): map<string, set<string>> {
    map b | b in found :: set a | a in found && ComesBefore(found, chains, a, b)
  }

  /** The boxes hold entries of the thread. */
  ghost predicate BoxesOf(found: Thread, chains: seq<seq<string>>) {
    (forall id | id in found :: found[id].id == id) && forall c, id | c in chains && id in c :: id in found
  }

  function IdsIn(s: seq<Mail>): seq<string> {
    seq(|s|, i requires 0 <= i < |s| => s[i].id)
  }

  /** Least first, with no regard to what comes before what. */
  ghost predicate IsSortedRest(s: seq<string>, rest: set<string>, found: Thread)
    requires rest <= found.Keys
  {
    IsOrderOf(s, rest) && forall i, j | 0 <= i < j < |s| :: !RankLess(RankIn(found, s[j]), RankIn(found, s[i]))
  }

  /** What the merge returns: free entries taken oldest first as long as there are any, and what is then left,
      sorted. */
  ghost predicate IsMerge(found: Thread, chains: seq<seq<string>>, out: seq<Mail>, run: seq<string>,
                          rest: set<string>)
  {
    && rest <= found.Keys
    && RunsTo(run, found.Keys, rest, Earlier(found, chains), Ranks(found))
    && Ready(rest, Earlier(found, chains)) == {}
    && |run| <= |out| && IdsIn(out)[..|run|] == run && IsSortedRest(IdsIn(out)[|run|..], rest, found)
    && forall i | 0 <= i < |out| :: out[i].id in found && out[i] == found[out[i].id]
  }

  // ----- what follows -----

  /** Nothing is lost and nothing doubled, whatever the boxes say. */
  lemma MergeLosesNothing(found: Thread, chains: seq<seq<string>>, out: seq<Mail>, run: seq<string>, rest: set<string>)
    requires IsMerge(found, chains, out, run, rest)
    ensures IsOrderOf(IdsIn(out), found.Keys)
  {
    RunPlaces(run, found.Keys, rest, Earlier(found, chains), Ranks(found));
    var ids := IdsIn(out);
    assert ids == run + ids[|run|..];
    OneAfterAnother(run, ids[|run|..], found.Keys, rest);
  }

  lemma OneAfterAnother(run: seq<string>, last: seq<string>, all: set<string>, rest: set<string>)
    requires rest <= all && IsOrderOf(run, all - rest) && IsOrderOf(last, rest)
    ensures IsOrderOf(run + last, all)
  {
    var ids := run + last;
    assert forall t :: t in ids <==> t in run || t in last;
    forall i, j | 0 <= i < j < |ids| ensures ids[i] != ids[j] {
      if i < |run| <= j {
        assert ids[i] in run && ids[j] in last;
      }
    }
  }

  /** Exactly what lies on a cycle of contradicting boxes, or behind one, is put last, unmerged. */
  lemma UnmergedIsStuck(found: Thread, chains: seq<seq<string>>, out: seq<Mail>, run: seq<string>, rest: set<string>)
    requires IsMerge(found, chains, out, run, rest)
    ensures forall t :: t in IdsIn(out)[|run|..] <==> IsStuck(t, found.Keys, Earlier(found, chains))
  {
    LeftIsStuck(run, found.Keys, rest, Earlier(found, chains), Ranks(found));
  }

  /** Every merged entry follows all that comes before it, cycles elsewhere or not. */
  lemma MergedFollows(found: Thread, chains: seq<seq<string>>, out: seq<Mail>, run: seq<string>, rest: set<string>,
                      a: string, j: nat)
    requires IsMerge(found, chains, out, run, rest) && j < |out| && a in found
    requires ComesBefore(found, chains, a, out[j].id)
    requires !IsStuck(out[j].id, found.Keys, Earlier(found, chains))
    ensures a in IdsIn(out)[..j]
  {
    UnmergedIsStuck(found, chains, out, run, rest);
    Halves(out, run);
    RunFollows(run, found.Keys, rest, Earlier(found, chains), Ranks(found), j, a);
    assert run[..j] == IdsIn(out)[..j];
  }

  lemma Halves(out: seq<Mail>, run: seq<string>)
    requires |run| <= |out| && IdsIn(out)[..|run|] == run
    ensures forall m | |run| <= m < |out| :: out[m].id in IdsIn(out)[|run|..]
    ensures forall m | 0 <= m < |run| :: run[m] == out[m].id
  {
    assert forall m | |run| <= m < |out| :: IdsIn(out)[|run|..][m - |run|] == out[m].id;
    assert forall m | 0 <= m < |run| :: IdsIn(out)[..|run|][m] == out[m].id;
  }

  lemma CodePointsInjective(a: string, b: string)
    requires CodePoints(a) == CodePoints(b)
    ensures a == b
  {
    assert |a| == |CodePoints(a)| == |CodePoints(b)| == |b|;
    forall i | 0 <= i < |a| ensures a[i] == b[i] {
      assert CodePoints(a)[i] == CodePoints(b)[i];
    }
  }

  lemma NoTiesInThread(found: Thread)
    ensures NoTies(found.Keys, Ranks(found))
  {
    forall x, y | x in found && y in found && RankIn(found, x) == RankIn(found, y) ensures x == y {
      CodePointsInjective(x, y);
    }
  }

  lemma NothingToOrder(s: seq<string>)
    requires IsOrderOf(s, {})
    ensures s == []
  {
    DistinctFits(s, {});
  }

  /** Boxes that agree: every edge is kept, and of all orders that keep them this is the oldest first. */
  lemma AgreeingBoxesMerge(found: Thread, chains: seq<seq<string>>, out: seq<Mail>, run: seq<string>, rest: set<string>,
                           other: seq<string>)
    requires IsMerge(found, chains, out, run, rest)
    requires IsAcyclic(found.Keys, Earlier(found, chains))
    requires IsOrderOf(other, found.Keys) && Respects(other, found.Keys, Earlier(found, chains))
    ensures IdsIn(out) == run && IsOrderOf(run, found.Keys) && Respects(run, found.Keys, Earlier(found, chains))
    ensures NotAbove(run, other, Ranks(found))
  {
    LeftIsStuck(run, found.Keys, rest, Earlier(found, chains), Ranks(found));
    assert rest == {};
    var ids := IdsIn(out);
    NothingToOrder(ids[|run|..]);
    assert ids == ids[..|run|] + ids[|run|..];
    NoTiesInThread(found);
    RunIsGreedy(run, found.Keys, Earlier(found, chains), Ranks(found));
    AcyclicRespects(run, found.Keys, Earlier(found, chains), Ranks(found));
    GreedyIsLeast(run, other, found.Keys, Earlier(found, chains), Ranks(found));
  }

  // ----- oldest first -----

  /** Python's order on strings: at the first place they part the smaller character, or the one that ends there. */
  ghost predicate TextLess(a: string, b: string) {
    exists n :: TextPartsAt(a, b, n)
  }

  ghost predicate TextPartsAt(a: string, b: string, n: nat) {
    && n <= |a| && n < |b| && a[..n] == b[..n]
    && (n == |a| || a[n] < b[n])
  }

  lemma TextLessIff(a: string, b: string)
    ensures Less(CodePoints(a), CodePoints(b)) <==> TextLess(a, b)
  {
    if Less(CodePoints(a), CodePoints(b)) {
      var n := LessParts(CodePoints(a), CodePoints(b));
      assert forall i | 0 <= i < n :: CodePoints(a)[..n][i] == CodePoints(b)[..n][i];
      assert forall i | 0 <= i < n :: a[i] == b[i] by {
        forall i | 0 <= i < n ensures a[i] == b[i] {
          assert CodePoints(a)[..n][i] == a[i] as int && CodePoints(b)[..n][i] == b[i] as int;
        }
      }
      assert a[..n] == b[..n];
      assert TextPartsAt(a, b, n);
    }
    if n: nat :| TextPartsAt(a, b, n) {
      assert forall i | 0 <= i < n :: a[..n][i] == b[..n][i];
      assert CodePoints(a)[..n] == CodePoints(b)[..n];
      PartedIsLess(CodePoints(a), CodePoints(b), n);
    }
  }

  /** `d` was not sent before `e`, nor at the same second with the lower id. */
  ghost predicate NotOlder(d: Mail, e: Mail) {
    !TextLess(d.at, e.at) && (d.at == e.at ==> !TextLess(d.id, e.id))
  }

  lemma RankIsAge(found: Thread, d: string, e: string)
    requires d in found && e in found && found[d].id == d && found[e].id == e
    ensures !RankLess(RankIn(found, d), RankIn(found, e)) <==> NotOlder(found[d], found[e])
  {
    TextLessIff(found[d].at, found[e].at);
    TextLessIff(d, e);
    if CodePoints(found[d].at) == CodePoints(found[e].at) {
      CodePointsInjective(found[d].at, found[e].at);
    }
  }

  /** Of two merged entries the later one, if all that comes before it stood before the earlier one, is not the older:
      the oldest goes first of all that can. */
  lemma OldestGoesFirst(found: Thread, chains: seq<seq<string>>, out: seq<Mail>, run: seq<string>, rest: set<string>,
                        i: nat, j: nat)
    requires IsMerge(found, chains, out, run, rest) && BoxesOf(found, chains) && i < j < |run|
    requires forall a | a in found && ComesBefore(found, chains, a, out[j].id) :: a in IdsIn(out)[..i]
    ensures NotOlder(out[j], out[i])
  {
    Halves(out, run);
    assert run[..i] == IdsIn(out)[..i];
    RunTakesLeast(run, found.Keys, rest, Earlier(found, chains), Ranks(found), i, j);
    RankIsAge(found, run[j], run[i]);
  }

  /** What could not be merged is put last, oldest first. */
  lemma RestIsOldestFirst(found: Thread, chains: seq<seq<string>>, out: seq<Mail>, run: seq<string>, rest: set<string>,
                          i: nat, j: nat)
    requires IsMerge(found, chains, out, run, rest) && BoxesOf(found, chains) && |run| <= i < j < |out|
    ensures NotOlder(out[j], out[i])
  {
    var ids := IdsIn(out)[|run|..];
    assert ids[i-|run|] == out[i].id && ids[j-|run|] == out[j].id;
    assert !RankLess(RankIn(found, ids[j-|run|]), RankIn(found, ids[i-|run|]));
    RankIsAge(found, out[j].id, out[i].id);
  }

  /** An entry that is behind no contradiction stands after what it replies to, after what closed the question it
      settled, and after what stands just before it in any box. */
  lemma RepliesFollow(found: Thread, chains: seq<seq<string>>, out: seq<Mail>, run: seq<string>, rest: set<string>,
                      i: nat, j: nat)
    requires IsMerge(found, chains, out, run, rest) && BoxesOf(found, chains) && i < |out| && j < |out|
    requires !IsStuck(out[j].id, found.Keys, Earlier(found, chains))
    requires || out[j].replyTo == Some(out[i].id)
             || (exists q :: q in out && q.closedBy == Some(out[i].id) && q.settledBy == Some(out[j].id))
             || (exists c, k :: 0 <= c < |chains| && 0 <= k < |chains[c]| - 1
                                && chains[c][k] == out[i].id && chains[c][k+1] == out[j].id)
    ensures i < j
  {
    MergeLosesNothing(found, chains, out, run, rest);
    if q :| q in out && q.closedBy == Some(out[i].id) && q.settledBy == Some(out[j].id) {
      assert found[q.id] == q;
      assert Settles(found, out[i].id, out[j].id);
    }
    EarlierFollows(found, chains, out, run, rest, i, j);
  }

  lemma EarlierFollows(found: Thread, chains: seq<seq<string>>, out: seq<Mail>, run: seq<string>, rest: set<string>,
                       i: nat, j: nat)
    requires IsMerge(found, chains, out, run, rest) && BoxesOf(found, chains) && i < |out| && j < |out|
    requires !IsStuck(out[j].id, found.Keys, Earlier(found, chains))
    requires ComesBefore(found, chains, out[i].id, out[j].id)
    ensures i < j
  {
    MergeLosesNothing(found, chains, out, run, rest);
    var a, ids := out[i].id, IdsIn(out);
    MergedFollows(found, chains, out, run, rest, a, j);
    var k :| 0 <= k < j && ids[k] == a;
    assert ids[i] == a;
  }

  // ----- the edges -----

  type Pair = (string, string)

  /** zip(chain, chain[1:]) */
  function PairsOf(chain: seq<string>): seq<Pair> {
    seq(if chain == [] then 0 else |chain| - 1, i requires 0 <= i < |chain| - 1 => (chain[i], chain[i+1]))
  }

  lemma {:induction false} ChainPairs(chains: seq<seq<string>>, p: Pair)
    ensures p in Collect(chains, PairsOf) <==> NextInBox(chains, p.0, p.1)
  {
    if chains != [] {
      ChainPairs(chains[1..], p);
      if p in PairsOf(chains[0]) {
        var i :| 0 <= i < |chains[0]| - 1 && PairsOf(chains[0])[i] == p;
        assert chains[0][i] == p.0;
      }
      if NextInBox(chains[1..], p.0, p.1) {
        var c, i :| 0 <= c < |chains[1..]| && 0 <= i < |chains[1..][c]| - 1
                    && chains[1..][c][i] == p.0 && chains[1..][c][i+1] == p.1;
        assert chains[c+1][i] == p.0;
      }
      if NextInBox(chains, p.0, p.1) {
        var c, i :| 0 <= c < |chains| && 0 <= i < |chains[c]| - 1 && chains[c][i] == p.0 && chains[c][i+1] == p.1;
        if c == 0 {
          assert PairsOf(chains[0])[i] == p;
        } else {
          assert chains[1..][c-1][i] == p.0;
        }
      }
    }
  }

  /** Each reply, after what it answers; each settlement, after what closed the question. */
  method AnswerPairs(found: Thread) returns (pairs: seq<Pair>)
    ensures forall p: Pair :: p in pairs <==> Replies(found, p.0, p.1) || Settles(found, p.0, p.1)
  {
    pairs := [];
    var todo := found.Keys;
    while todo != {}
      invariant todo <= found.Keys
      invariant forall p | p in pairs :: Replies(found, p.0, p.1) || Settles(found, p.0, p.1)
      invariant forall q | q in found && q !in todo :: Listed(found, q, pairs)
      decreases todo
    {
      var q :| q in todo;
      todo := todo - {q};
      var e, before := found[q], pairs;
      if e.replyTo.Some? && e.replyTo.value in found {
        pairs := pairs + [(e.replyTo.value, q)];
      }
      if e.closedBy.Some? && e.settledBy.Some? && e.closedBy.value in found && e.settledBy.value in found {
        pairs := pairs + [(e.closedBy.value, e.settledBy.value)];
      }
      assert forall r | Listed(found, r, before) :: Listed(found, r, pairs);
    }
    forall p: Pair | Replies(found, p.0, p.1) || Settles(found, p.0, p.1) ensures p in pairs {
      if Replies(found, p.0, p.1) {
        assert Listed(found, p.1, pairs);
      } else {
        var q :| q in found && found[q].closedBy == Some(p.0) && found[q].settledBy == Some(p.1);
        assert Listed(found, q, pairs);
      }
    }
  }

  /** The pairs an entry gives are listed. */
  ghost predicate Listed(found: Thread, q: string, pairs: seq<Pair>) {
    q in found ==>
      var e := found[q];
      && (e.replyTo.Some? && e.replyTo.value in found ==> (e.replyTo.value, q) in pairs)
      && (e.closedBy.Some? && e.settledBy.Some? && e.closedBy.value in found && e.settledBy.value in found ==>
            (e.closedBy.value, e.settledBy.value) in pairs)
  }

  // ----- the merge -----

  /** The members not placed, least first: sorted() by (at, id). */
  method SortRest(found: Thread, rest: set<string>) returns (s: seq<string>)
    requires rest <= found.Keys
    ensures IsSortedRest(s, rest, found)
  {
    s := [];
    var left := rest;
    while left != {}
      invariant left <= rest && IsSortedRest(s, rest - left, found)
      invariant forall x, y | x in s && y in left :: !RankLess(RankIn(found, y), RankIn(found, x))
      decreases left
    {
      var x := Least(left, Ranks(found));
      s := s + [x];
      left := left - {x};
    }
    assert rest - left == rest;
  }

  lemma {:induction false} CollectedMember(chains: seq<seq<string>>, p: Pair)
    requires p in Collect(chains, PairsOf)
    ensures exists c :: c in chains && p.0 in c && p.1 in c
  {
    if p in PairsOf(chains[0]) {
      assert p.0 in chains[0] && p.1 in chains[0];
    } else {
      CollectedMember(chains[1..], p);
    }
  }

  lemma PairsAreEdges(found: Thread, chains: seq<seq<string>>, answers: seq<Pair>)
    requires BoxesOf(found, chains)
    requires forall p: Pair :: p in answers <==> Replies(found, p.0, p.1) || Settles(found, p.0, p.1)
    ensures forall p: Pair :: p in Collect(chains, PairsOf) + answers <==> ComesBefore(found, chains, p.0, p.1)
    ensures Within(Collect(chains, PairsOf) + answers, found.Keys)
  {
    forall p: Pair ensures p in Collect(chains, PairsOf) + answers <==> ComesBefore(found, chains, p.0, p.1) {
      ChainPairs(chains, p);
    }
    forall p | p in Collect(chains, PairsOf) + answers ensures p.0 in found && p.1 in found {
      if p in Collect(chains, PairsOf) {
        CollectedMember(chains, p);
      }
    }
  }

  lemma DepsAreEarlier(found: Thread, chains: seq<seq<string>>, deps: map<string, set<string>>, pairs: seq<Pair>)
    requires deps.Keys == found.Keys && EdgesAre(deps, pairs) && Within(pairs, found.Keys)
    requires forall p: Pair :: p in pairs <==> ComesBefore(found, chains, p.0, p.1)
    ensures deps == Earlier(found, chains)
  {
    forall b | b in found ensures deps[b] == Earlier(found, chains)[b] {
      assert EdgesAt(deps, pairs, b);
      forall a ensures a in deps[b] <==> a in found && ComesBefore(found, chains, a, b) {
        assert (a, b) in pairs <==> ComesBefore(found, chains, (a, b).0, (a, b).1);
      }
    }
  }

  /** What is left is appended, sorted. */
  lemma Appended(found: Thread, out: seq<Mail>, run: seq<string>, last: seq<string>, tail: seq<Mail>)
    requires IsTaken(found, out, run) && |tail| == |last|
    requires forall i | 0 <= i < |last| :: last[i] in found && tail[i] == found[last[i]]
    ensures IdsIn(out + tail)[..|run|] == run && IdsIn(out + tail)[|run|..] == last
    ensures forall i | 0 <= i < |out + tail| ::
              (out + tail)[i].id in found && (out + tail)[i] == found[(out + tail)[i].id]
  {
  }

  /** The entries that can be merged, in their order, and those that cannot. */
  method FreeFirst(found: Thread, chains: seq<seq<string>>) returns (order: seq<string>, ghost rest: set<string>)
    requires BoxesOf(found, chains)
    ensures rest <= found.Keys && Ready(rest, Earlier(found, chains)) == {}
    ensures RunsTo(order, found.Keys, rest, Earlier(found, chains), Ranks(found))
  {
    var answers := AnswerPairs(found);
    var pairs := Collect(chains, PairsOf) + answers;
    PairsAreEdges(found, chains, answers);
    var succ, indeg;
    ghost var deps;
    succ, indeg, deps := Count(found.Keys, pairs);
    DepsAreEarlier(found, chains, deps, pairs);
    order, rest := TakeFree(succ, indeg, Ranks(found), deps);
  }

  method OldestFirst(found: Thread, chains: seq<seq<string>>)
    returns (out: seq<Mail>, ghost run: seq<string>, ghost rest: set<string>)
    requires BoxesOf(found, chains)
    ensures IsMerge(found, chains, out, run, rest)
  {
    var order;
    order, rest := FreeFirst(found, chains);
    run := order;
    RunPlaces(run, found.Keys, rest, Earlier(found, chains), Ranks(found));
    assert forall i | 0 <= i < |order| :: order[i] in order;
    out := seq(|order|, i requires 0 <= i < |order| => found[order[i]]);
    TakenIds(found, out, run);
    var unplaced := set i | i in found && i !in IdsIn(out);
    assert unplaced == rest;
    var last := SortRest(found, unplaced);
    assert forall i | 0 <= i < |last| :: last[i] in last;
    var tail := seq(|last|, i requires 0 <= i < |last| => found[last[i]]);
    Appended(found, out, run, last, tail);
    out := out + tail;
  }

  lemma TakenIds(found: Thread, out: seq<Mail>, run: seq<string>)
    requires IsTaken(found, out, run)
    ensures IdsIn(out) == run
  {
  }

  /** The merged entries so far are the run. */
  ghost predicate IsTaken(found: Thread, out: seq<Mail>, run: seq<string>) {
    && |out| == |run| && (forall id | id in found :: found[id].id == id)
    && forall i | 0 <= i < |run| :: run[i] in found && out[i] == found[run[i]]
  }
}
