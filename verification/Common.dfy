/** Result types and small sequence helpers shared by every model. */
module Common {

  datatype Option<+T> = None | Some(value: T) {
    function GetOr(default: T): T {
      if Some? then value else default
    }
  }

  /** A value, or the refusal the source raises instead of returning one. */
  datatype Result<+T, +E> = Ok(value: T) | Err(error: E)

  function Filter<T>(s: seq<T>, keep: T -> bool): seq<T> {
    if s == [] then []
    else if keep(s[0]) then [s[0]] + Filter(s[1..], keep)
    else Filter(s[1..], keep)
  }

  lemma {:induction false} FilterMember<T>(s: seq<T>, keep: T -> bool, x: T)
    ensures x in Filter(s, keep) <==> x in s && keep(x)
  {
    if s != [] {
      FilterMember(s[1..], keep, x);
      assert x in s <==> x == s[0] || x in s[1..];
    }
  }

  lemma {:induction false} FilterMembers<T(!new)>(s: seq<T>, keep: T -> bool)
    ensures forall x :: x in Filter(s, keep) <==> x in s && keep(x)
  {
    forall x ensures x in Filter(s, keep) <==> x in s && keep(x) { FilterMember(s, keep, x); }
  }

  lemma {:induction false} FilterAppend<T>(s: seq<T>, t: seq<T>, keep: T -> bool)
    ensures Filter(s + t, keep) == Filter(s, keep) + Filter(t, keep)
  {
    if s == [] {
      assert s + t == t;
    } else {
      FilterAppend(s[1..], t, keep);
      assert (s + t)[1..] == s[1..] + t;
    }
  }

  lemma FilterDropped<T>(x: T, keep: T -> bool)
    requires !keep(x)
    ensures Filter([x], keep) == []
  {
    assert [x][1..] == [];
  }

  /** An element that is dropped makes no difference where it is put. */
  lemma FilterInserted<T>(s: seq<T>, n: nat, x: T, keep: T -> bool)
    requires n <= |s| && !keep(x)
    ensures Filter(s[..n] + [x] + s[n..], keep) == Filter(s, keep)
  {
    FilterDropped(x, keep);
    FilterAppend(s[..n] + [x], s[n..], keep);
    FilterAppend(s[..n], [x], keep);
    FilterAppend(s[..n], s[n..], keep);
    assert s[..n] + s[n..] == s;
    assert Filter(s[..n], keep) + [] == Filter(s[..n], keep);
  }

  /** Two filters that agree on every element keep the same sequence. */
  lemma {:induction false} FilterAgree<T>(s: seq<T>, p: T -> bool, q: T -> bool)
    requires forall x | x in s :: p(x) == q(x)
    ensures Filter(s, p) == Filter(s, q)
  {
    if s != [] {
      FilterAgree(s[1..], p, q);
    }
  }

  /** The first place from `from` on that satisfies `p`, or the end. */
  function IndexFrom<T>(s: seq<T>, p: T -> bool, from: nat): (n: nat)
    requires from <= |s|
    ensures from <= n <= |s|
    ensures n < |s| ==> p(s[n])
    ensures forall i | from <= i < n :: !p(s[i])
    decreases |s| - from
  {
    if from == |s| || p(s[from]) then from else IndexFrom(s, p, from + 1)
  }

  /** What `f` gives for each element, one after another. */
  function Collect<A, B>(s: seq<A>, f: A -> seq<B>): seq<B> {
    if s == [] then [] else f(s[0]) + Collect(s[1..], f)
  }

  lemma {:induction false} CollectAppend<A, B>(s: seq<A>, t: seq<A>, f: A -> seq<B>)
    ensures Collect(s + t, f) == Collect(s, f) + Collect(t, f)
  {
    if s == [] {
      assert s + t == t;
    } else {
      CollectAppend(s[1..], t, f);
      assert (s + t)[1..] == s[1..] + t && (s + t)[0] == s[0];
      assert f(s[0]) + (Collect(s[1..], f) + Collect(t, f)) == f(s[0]) + Collect(s[1..], f) + Collect(t, f);
    }
  }

  lemma CollectOne<A, B>(x: A, f: A -> seq<B>)
    ensures Collect([x], f) == f(x)
  {
    assert [x][1..] == [];
  }

  lemma CollectSameLast<A, B>(front: seq<A>, x: A, y: A, f: A -> seq<B>)
    requires f(x) == f(y)
    ensures Collect(front + [x], f) == Collect(front + [y], f)
  {
    CollectAppend(front, [x], f);
    CollectAppend(front, [y], f);
    CollectOne(x, f);
    CollectOne(y, f);
  }

  /** What holds of every two elements in turn holds of those kept. */
  lemma {:induction false} FilterKeepsPairs<T(!new)>(s: seq<T>, keep: T -> bool, p: (T, T) -> bool)
    requires forall i, j | 0 <= i < j < |s| :: p(s[i], s[j])
    ensures forall i, j | 0 <= i < j < |Filter(s, keep)| :: p(Filter(s, keep)[i], Filter(s, keep)[j])
  {
    if s != [] {
      var rest := s[1..];
      FilterKeepsPairs(rest, keep, p);
      FilterMembers(rest, keep);
      var kept := Filter(rest, keep);
      forall i | 0 <= i < |kept| ensures p(s[0], kept[i]) {
        assert kept[i] in rest;
        var j :| 0 <= j < |rest| && rest[j] == kept[i];
        assert s[j+1] == rest[j];
      }
    }
  }

  lemma {:induction false} FilterTwice<T>(s: seq<T>, keep: T -> bool)
    ensures Filter(Filter(s, keep), keep) == Filter(s, keep)
  {
    if s != [] {
      FilterTwice(s[1..], keep);
      var rest := Filter(s[1..], keep);
      assert ([s[0]] + rest)[1..] == rest;
    }
  }

  lemma {:induction false} FilterNone<T>(s: seq<T>, keep: T -> bool)
    requires forall x | x in s :: !keep(x)
    ensures Filter(s, keep) == []
  {
    if s != [] {
      FilterNone(s[1..], keep);
    }
  }

  ghost predicate Distinct<T>(s: seq<T>) {
    forall i, j | 0 <= i < j < |s| :: s[i] != s[j]
  }

  lemma {:induction false} FilterDistinct<T(!new)>(s: seq<T>, keep: T -> bool)
    requires Distinct(s)
    ensures Distinct(Filter(s, keep))
  {
    if s != [] {
      FilterDistinct(s[1..], keep);
      FilterMembers(s[1..], keep);
    }
  }

  /** The elements in order of first appearance, each once. */
  function Dedup<T(==)>(s: seq<T>): seq<T> {
    if s == [] then []
    else
      var front, last := s[..|s|-1], s[|s|-1];
      if last in front then Dedup(front) else Dedup(front) + [last]
  }

  lemma {:induction false} DedupMembers<T(!new)>(s: seq<T>)
    ensures forall x :: x in Dedup(s) <==> x in s
    ensures Distinct(Dedup(s))
  {
    if s != [] {
      DedupMembers(s[..|s|-1]);
      assert s == s[..|s|-1] + [s[|s|-1]];
    }
  }

  lemma DedupStep<T(!new)>(s: seq<T>, x: T)
    ensures Dedup(s + [x]) == if x in Dedup(s) then Dedup(s) else Dedup(s) + [x]
  {
    assert (s + [x])[..|s|] == s;
    DedupMembers(s);
  }

  /** Appends, one by one, the values not there yet. */
  function Extend<T(==)>(s: seq<T>, vals: seq<T>): seq<T>
    decreases |vals|
  {
    if vals == [] then s
    else Extend(if vals[0] in s then s else s + [vals[0]], vals[1..])
  }

  lemma {:induction false} ExtendDedup<T(!new)>(s: seq<T>, vals: seq<T>)
    ensures Extend(Dedup(s), vals) == Dedup(s + vals)
    decreases |vals|
  {
    if vals == [] {
      assert s + vals == s;
    } else {
      var next := s + [vals[0]];
      assert next + vals[1..] == s + vals;
      DedupStep(s, vals[0]);
      ExtendDedup(next, vals[1..]);
    }
  }

  /** What `f` makes of `start` and the first `n` elements, in turn. */
  function Fold<B, E>(f: (B, E) -> B, start: B, s: seq<E>, n: nat): B
    requires n <= |s|
  {
    if n == 0 then start else f(Fold(f, start, s, n - 1), s[n-1])
  }

  /** What every step keeps, every fold keeps. */
  lemma {:induction false} FoldKeeps<B(!new), E>(f: (B, E) -> B, start: B, s: seq<E>, n: nat, inv: (B, nat) -> bool)
    requires n <= |s| && inv(start, 0)
    requires forall b, i: nat | i < |s| && inv(b, i) :: inv(f(b, s[i]), i + 1)
    ensures inv(Fold(f, start, s, n), n)
  {
    if n > 0 {
      FoldKeeps(f, start, s, n - 1, inv);
    }
  }
}
