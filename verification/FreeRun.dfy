/** The counting in src/sessionorc/agent_common.py's _oldest_first: `succ` and `indeg` hold the edges, and a member
    is free once nothing that comes before it is left. */
module FreeRun {
  import opened GreedyOrder

  // ----- the edges counted -----

  /** What the dictionaries hold of `b`: what comes before it, and how many. */
  ghost predicate CountsAt<T(!new)>(deps: map<T, set<T>>, succ: map<T, set<T>>, indeg: map<T, nat>, b: T)
    requires succ.Keys == indeg.Keys == deps.Keys && b in deps
  {
    && deps[b] <= deps.Keys && succ[b] <= deps.Keys && indeg[b] == |deps[b]|
    && forall a | a in deps :: b in succ[a] <==> a in deps[b]
  }

  /** `succ` and `indeg` hold the edges `deps`, an edge found twice once. */
  ghost predicate Counts<T(!new)>(deps: map<T, set<T>>, succ: map<T, set<T>>, indeg: map<T, nat>) {
    && succ.Keys == indeg.Keys == deps.Keys
    && forall b {:trigger CountsAt(deps, succ, indeg, b)} | b in deps :: CountsAt(deps, succ, indeg, b)
  }

  ghost predicate EdgesAt<T(!new)>(deps: map<T, set<T>>, pairs: seq<(T, T)>, b: T)
    requires b in deps
  {
    forall a :: a in deps[b] <==> (a, b) in pairs
  }

  ghost predicate EdgesAre<T(!new)>(deps: map<T, set<T>>, pairs: seq<(T, T)>) {
    forall b {:trigger EdgesAt(deps, pairs, b)} | b in deps :: EdgesAt(deps, pairs, b)
  }

  ghost predicate Within<T(!new)>(pairs: seq<(T, T)>, ids: set<T>) {
    forall p | p in pairs :: p.0 in ids && p.1 in ids
  }

  lemma EdgeCounted<T(!new)>(deps: map<T, set<T>>, succ: map<T, set<T>>, indeg: map<T, nat>, a: T, b: T)
    requires Counts(deps, succ, indeg) && a in deps && b in deps
    ensures b in succ[a] <==> a in deps[b]
    ensures b !in succ[a] ==> Counts(deps[b := deps[b] + {a}], succ[a := succ[a] + {b}], indeg[b := indeg[b] + 1])
  {
    assert CountsAt(deps, succ, indeg, b);
    if b !in succ[a] {
      var deps', succ', indeg' := deps[b := deps[b] + {a}], succ[a := succ[a] + {b}], indeg[b := indeg[b] + 1];
      forall c | c in deps ensures CountsAt(deps', succ', indeg', c) {
        assert CountsAt(deps, succ, indeg, c);
      }
    }
  }

  lemma EdgesStep<T(!new)>(deps: map<T, set<T>>, pairs: seq<(T, T)>, a: T, b: T)
    requires EdgesAre(deps, pairs) && b in deps
    ensures EdgesAre(if a in deps[b] then deps else deps[b := deps[b] + {a}], pairs + [(a, b)])
  {
    var deps' := if a in deps[b] then deps else deps[b := deps[b] + {a}];
    forall c | c in deps ensures EdgesAt(deps', pairs + [(a, b)], c) {
      assert EdgesAt(deps, pairs, c);
    }
  }

  lemma NoEdges<T(!new)>(deps: map<T, set<T>>, succ: map<T, set<T>>, indeg: map<T, nat>)
    requires deps.Keys == succ.Keys == indeg.Keys
    requires forall i | i in deps :: deps[i] == {} && succ[i] == {} && indeg[i] == 0
    ensures Counts(deps, succ, indeg) && EdgesAre(deps, [])
  {
    forall b | b in deps ensures CountsAt(deps, succ, indeg, b) && EdgesAt(deps, [], b) {}
  }

  method Count<T(!new,==)>(ids: set<T>, pairs: seq<(T, T)>)
    returns (succ: map<T, set<T>>, indeg: map<T, nat>, ghost deps: map<T, set<T>>)
    requires Within(pairs, ids)
    ensures Counts(deps, succ, indeg) && deps.Keys == ids && EdgesAre(deps, pairs)
  {
    succ, indeg := map i | i in ids :: {}, map i | i in ids :: 0;
    deps := map i | i in ids :: {};
    NoEdges(deps, succ, indeg);
    for k := 0 to |pairs|
      invariant Counts(deps, succ, indeg) && deps.Keys == ids && EdgesAre(deps, pairs[..k])
    {
      assert pairs[k] in pairs;
      var (a, b) := pairs[k];
      assert pairs[..k+1] == pairs[..k] + [(a, b)];
      EdgesStep(deps, pairs[..k], a, b);
      EdgeCounted(deps, succ, indeg, a, b);
      if b !in succ[a] {
        succ, indeg := succ[a := succ[a] + {b}], indeg[b := indeg[b] + 1];
        deps := deps[b := deps[b] + {a}];
      }
    }
    assert pairs[..|pairs|] == pairs;
  }

  // ----- what is still to come -----

  ghost predicate LeftAt<T(!new)>(deps: map<T, set<T>>, left: set<T>, indeg: map<T, nat>, b: T)
    requires indeg.Keys == deps.Keys && b in deps
  {
    indeg[b] == |deps[b] * left| && (b !in left ==> deps[b] * left == {})
  }

  /** `indeg` counts what has still to come before each member left; nothing has for one that is placed. */
  ghost predicate CountsLeft<T(!new)>(deps: map<T, set<T>>, left: set<T>, indeg: map<T, nat>) {
    && indeg.Keys == deps.Keys && left <= deps.Keys
    && forall b {:trigger LeftAt(deps, left, indeg, b)} | b in deps :: LeftAt(deps, left, indeg, b)
  }

  /** `after` is what `x` comes before. */
  ghost predicate IsAfter<T(!new)>(after: set<T>, x: T, deps: map<T, set<T>>) {
    after <= deps.Keys && forall b | b in deps :: b in after <==> x in deps[b]
  }

  lemma SuccIsAfter<T(!new)>(deps: map<T, set<T>>, succ: map<T, set<T>>, indeg: map<T, nat>, x: T)
    requires Counts(deps, succ, indeg) && x in deps
    ensures x in succ && IsAfter(succ[x], x, deps)
  {
    assert CountsAt(deps, succ, indeg, x);
    forall b | b in deps ensures b in succ[x] <==> x in deps[b] {
      assert CountsAt(deps, succ, indeg, b);
    }
  }

  /** While `x` is being taken from what it comes before, `todo` still to do: `b` counted, and free or not. */
  ghost predicate ReleasedAt<T(!new)>(deps: map<T, set<T>>, left: set<T>, x: T, todo: set<T>, indeg: map<T, nat>,
                                      ready: set<T>, b: T)
    requires indeg.Keys == deps.Keys && b in deps
  {
    && indeg[b] == |deps[b] * (if b in todo then left else left - {x})|
    && (b in ready <==> b in left - {x} && b !in todo && deps[b] * (left - {x}) == {})
  }

  ghost predicate Releasing<T(!new)>(deps: map<T, set<T>>, left: set<T>, x: T, todo: set<T>, indeg: map<T, nat>,
                                     ready: set<T>) {
    && indeg.Keys == deps.Keys && ready <= deps.Keys
    && forall b {:trigger ReleasedAt(deps, left, x, todo, indeg, ready, b)} | b in deps ::
         ReleasedAt(deps, left, x, todo, indeg, ready, b)
  }

  lemma ReleaseStarts<T(!new)>(deps: map<T, set<T>>, left: set<T>, x: T, after: set<T>, indeg: map<T, nat>,
                               ready: set<T>)
    requires CountsLeft(deps, left, indeg) && x in left && ready == Ready(left, deps) && IsAfter(after, x, deps)
    ensures Releasing(deps, left, x, after, indeg, ready - {x})
  {
    forall b | b in deps ensures ReleasedAt(deps, left, x, after, indeg, ready - {x}, b) {
      assert LeftAt(deps, left, indeg, b);
      if b in after {
        assert x in deps[b] * left;
      } else {
        assert deps[b] * (left - {x}) == deps[b] * left;
      }
    }
  }

  lemma ReleaseOne<T(!new)>(deps: map<T, set<T>>, left: set<T>, x: T, after: set<T>, todo: set<T>,
                            indeg0: map<T, nat>, indeg: map<T, nat>, ready: set<T>, b: T)
    requires CountsLeft(deps, left, indeg0) && x in Ready(left, deps) && IsAfter(after, x, deps)
    requires Releasing(deps, left, x, todo, indeg, ready) && todo <= after && b in todo
    ensures b in deps && indeg[b] > 0
    ensures Releasing(deps, left, x, todo - {b}, indeg[b := indeg[b] - 1],
                      if indeg[b] == 1 then ready + {b} else ready)
  {
    assert LeftAt(deps, left, indeg0, b) && LeftAt(deps, left, indeg0, x);
    assert ReleasedAt(deps, left, x, todo, indeg, ready, b);
    assert x in deps[b] * left;
    assert deps[b] * (left - {x}) == deps[b] * left - {x};
    var indeg', ready' := indeg[b := indeg[b] - 1], if indeg[b] == 1 then ready + {b} else ready;
    ReadyIsFree(x, left, deps);
    forall c | c in deps ensures ReleasedAt(deps, left, x, todo - {b}, indeg', ready', c) {
      assert ReleasedAt(deps, left, x, todo, indeg, ready, c);
    }
  }

  lemma ReleaseEnds<T(!new)>(deps: map<T, set<T>>, left: set<T>, x: T, indeg: map<T, nat>, indeg': map<T, nat>,
                             ready': set<T>)
    requires CountsLeft(deps, left, indeg) && x in Ready(left, deps)
    requires Releasing(deps, left, x, {}, indeg', ready')
    ensures CountsLeft(deps, left - {x}, indeg') && ready' == Ready(left - {x}, deps)
  {
    forall b | b in deps
      ensures LeftAt(deps, left - {x}, indeg', b) && (b in ready' <==> b in Ready(left - {x}, deps))
    {
      assert ReleasedAt(deps, left, x, {}, indeg', ready', b);
      assert LeftAt(deps, left, indeg, b);
      assert deps[b] * (left - {x}) <= deps[b] * left;
      if b == x {
        assert deps[x] * left == {};
      }
    }
  }

  /** One member placed: what it came before has one fewer to wait for, and is free when it has none. */
  method Release<T(!new,==)>(after: set<T>, x: T, ghost left: set<T>, indeg: map<T, nat>, ready: set<T>,
                             ghost deps: map<T, set<T>>)
    returns (indeg': map<T, nat>, ready': set<T>)
    requires CountsLeft(deps, left, indeg) && x in ready && ready == Ready(left, deps) && IsAfter(after, x, deps)
    ensures CountsLeft(deps, left - {x}, indeg')
    ensures ready' == Ready(left - {x}, deps)
  {
    indeg', ready' := indeg, ready - {x};
    var todo := after;
    ReleaseStarts(deps, left, x, after, indeg, ready);
    while todo != {}
      invariant todo <= after && Releasing(deps, left, x, todo, indeg', ready')
      decreases todo
    {
      var b :| b in todo;
      ReleaseOne(deps, left, x, after, todo, indeg, indeg', ready', b);
      todo := todo - {b};
      indeg' := indeg'[b := indeg'[b] - 1];
      if indeg'[b] == 0 {
        ready' := ready' + {b};
      }
    }
    ReleaseEnds(deps, left, x, indeg, indeg', ready');
  }

  lemma StartsCounted<T(!new)>(deps: map<T, set<T>>, succ: map<T, set<T>>, indeg: map<T, nat>, ready: set<T>)
    requires Counts(deps, succ, indeg) && forall b :: b in ready <==> b in deps && indeg[b] == 0
    ensures CountsLeft(deps, deps.Keys, indeg) && ready == Ready(deps.Keys, deps)
  {
    forall b | b in deps ensures LeftAt(deps, deps.Keys, indeg, b) && (b in ready <==> b in Ready(deps.Keys, deps)) {
      assert CountsAt(deps, succ, indeg, b);
      assert deps[b] * deps.Keys == deps[b];
    }
  }

  /** The heap's loop: the least of the members free to go next, as long as there is one. */
  method TakeFree<T(!new,==)>(succ: map<T, set<T>>, indeg0: map<T, nat>, rank: map<T, Rank>,
                              ghost deps: map<T, set<T>>)
    returns (run: seq<T>, ghost rest: set<T>)
    requires Counts(deps, succ, indeg0) && deps.Keys == rank.Keys
    ensures RunsTo(run, deps.Keys, rest, deps, rank)
    ensures rest <= deps.Keys && Ready(rest, deps) == {}
  {
    var indeg, ready := indeg0, set i | i in indeg0 && indeg0[i] == 0;
    StartsCounted(deps, succ, indeg, ready);
    rest, run := deps.Keys, [];
    while ready != {}
      invariant rest <= deps.Keys && CountsLeft(deps, rest, indeg) && ready == Ready(rest, deps)
      invariant RunsTo(run, deps.Keys, rest, deps, rank)
      decreases rest
    {
      var x := Least(ready, rank);
      RunOneMore(run, deps.Keys, rest, x, deps, rank);
      SuccIsAfter(deps, succ, indeg0, x);
      run := run + [x];
      indeg, ready := Release(succ[x], x, rest, indeg, ready, deps);
      rest := rest - {x};
    }
  }
}
