/** What holds of every two elements of a sequence in turn, and of a sequence with one put in. */
module Pairs {
  import opened Common

  function Mapped<A, B>(s: seq<A>, f: A -> B): seq<B> {
    seq(|s|, i requires 0 <= i < |s| => f(s[i]))
  }

  ghost predicate AllPairs<T(!new)>(s: seq<T>, ok: (T, T) -> bool) {
    forall i, j | 0 <= i < j < |s| :: ok(s[i], s[j])
  }

  ghost predicate SomePair<T(!new)>(s: seq<T>, bad: (T, T) -> bool) {
    exists i, j :: 0 <= i < j < |s| && bad(s[i], s[j])
  }

  function Spliced<T>(s: seq<T>, n: nat, x: T): seq<T>
    requires n <= |s|
  {
    s[..n] + [x] + s[n..]
  }

  /** Where an element is when one has been put in at `n`. */
  function Shifted(n: nat, i: nat): nat {
    if i < n then i else i + 1
  }

  lemma ShiftedIs<T>(s: seq<T>, n: nat, x: T, i: nat)
    requires n <= |s| && i < |s|
    ensures Spliced(s, n, x)[Shifted(n, i)] == s[i]
  {
  }

  lemma SplicePairs<T(!new)>(s: seq<T>, n: nat, x: T, ok: (T, T) -> bool)
    requires n <= |s|
    ensures AllPairs(Spliced(s, n, x), ok) <==>
            && AllPairs(s, ok)
            && (forall i | 0 <= i < n :: ok(s[i], x)) && (forall i | n <= i < |s| :: ok(x, s[i]))
  {
    var t := Spliced(s, n, x);
    assert t[n] == x;
    if AllPairs(t, ok) {
      forall i, j | 0 <= i < j < |s| ensures ok(s[i], s[j]) {
        ShiftedIs(s, n, x, i);
        ShiftedIs(s, n, x, j);
        assert ok(t[Shifted(n, i)], t[Shifted(n, j)]);
      }
      forall i | 0 <= i < n ensures ok(s[i], x) {
        assert ok(t[i], t[n]);
      }
      forall i | n <= i < |s| ensures ok(x, s[i]) {
        assert ok(t[n], t[i+1]);
      }
    }
  }

  lemma SpliceSomePair<T(!new)>(s: seq<T>, n: nat, x: T, bad: (T, T) -> bool)
    requires n <= |s|
    ensures SomePair(Spliced(s, n, x), bad) <==>
            || SomePair(s, bad)
            || (exists i :: 0 <= i < n && bad(s[i], x)) || (exists i :: n <= i < |s| && bad(x, s[i]))
  {
    SplicePairs(s, n, x, (a, b) => !bad(a, b));
    NoPair(s, bad);
    NoPair(Spliced(s, n, x), bad);
  }

  lemma NoPair<T(!new)>(s: seq<T>, bad: (T, T) -> bool)
    ensures SomePair(s, bad) <==> !AllPairs(s, (a, b) => !bad(a, b))
  {
    var ok := (a, b) => !bad(a, b);
    if !AllPairs(s, ok) {
      var i, j :| 0 <= i < j < |s| && !ok(s[i], s[j]);
      assert bad(s[i], s[j]);
    }
    if i, j :| 0 <= i < j < |s| && bad(s[i], s[j]) {
      assert !ok(s[i], s[j]);
    }
  }

  lemma MappedSpliced<A, B>(s: seq<A>, n: nat, x: A, f: A -> B)
    requires n <= |s|
    ensures Mapped(Spliced(s, n, x), f) == Spliced(Mapped(s, f), n, f(x))
  {
  }

  /** Two of what is collected, at most one from each. */
  function Lifted<A, B>(f: A -> seq<B>, ok: (B, B) -> bool): (A, A) -> bool {
    (a, b) => f(a) != [] && f(b) != [] ==> ok(f(a)[0], f(b)[0])
  }

  lemma PairsFront<T(!new)>(x: T, s: seq<T>, ok: (T, T) -> bool)
    ensures AllPairs([x] + s, ok) <==> AllPairs(s, ok) && forall y | y in s :: ok(x, y)
  {
    SplicePairs(s, 0, x, ok);
    assert [x] + s == Spliced(s, 0, x);
    assert (forall i | 0 <= i < |s| :: ok(x, s[i])) <==> (forall y | y in s :: ok(x, y));
  }

  lemma {:induction false} CollectPairs<A(!new), B(!new)>(s: seq<A>, f: A -> seq<B>, ok: (B, B) -> bool)
    requires forall a | a in s :: |f(a)| <= 1
    ensures AllPairs(Collect(s, f), ok) <==> AllPairs(s, Lifted(f, ok))
  {
    if s != [] {
      var x, rest := s[0], s[1..];
      CollectPairs(rest, f, ok);
      PairsFront(x, rest, Lifted(f, ok));
      assert [x] + rest == s;
      var tail := Collect(rest, f);
      if f(x) == [] {
        assert f(x) + tail == tail;
      } else {
        PairsFront(f(x)[0], tail, ok);
        assert f(x) + tail == [f(x)[0]] + tail;
        FromSome(rest, f, y => ok(f(x)[0], y));
      }
    }
  }

  lemma {:induction false} FromSome<A(!new), B(!new)>(s: seq<A>, f: A -> seq<B>, p: B -> bool)
    requires forall a | a in s :: |f(a)| <= 1
    ensures (forall y | y in Collect(s, f) :: p(y)) <==> (forall a | a in s :: f(a) != [] ==> p(f(a)[0]))
  {
    if s != [] {
      FromSome(s[1..], f, p);
      assert forall a :: a in s <==> a == s[0] || a in s[1..];
      assert forall y :: y in Collect(s, f) <==> y in f(s[0]) || y in Collect(s[1..], f);
      assert f(s[0]) != [] ==> f(s[0]) == [f(s[0])[0]];
    }
  }

  lemma PairsAgree<T(!new)>(s: seq<T>, p: (T, T) -> bool, q: (T, T) -> bool)
    requires forall a, b | a in s && b in s :: p(a, b) == q(a, b)
    ensures AllPairs(s, p) <==> AllPairs(s, q)
  {
    assert forall i, j | 0 <= i < j < |s| :: s[i] in s && s[j] in s && p(s[i], s[j]) == q(s[i], s[j]);
  }

  /** Collecting from what the elements are mapped to. */
  lemma {:induction false} CollectMapped<A(!new), B, C>(s: seq<A>, f: A -> B, g: B -> seq<C>, h: A -> seq<C>)
    requires forall a | a in s :: h(a) == g(f(a))
    ensures Collect(s, h) == Collect(Mapped(s, f), g)
  {
    if s != [] {
      CollectMapped(s[1..], f, g, h);
      assert Mapped(s, f)[1..] == Mapped(s[1..], f) && Mapped(s, f)[0] == f(s[0]);
    }
  }
}
