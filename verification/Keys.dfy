/** The rank's keys: their order, in which `|` is the lowest character, and the shape a key must have.
    Models scripts/ledgerboard.py's KEY_RE, KEY_SEP, KEY_DIGITS and key_order. */
module Keys {
  const SEP: char := '|'

  /** What midpoint writes, in key order: `0` to `9`, then `a` to `z`. */
  function KeyDigit(i: nat): char
    requires i < 36
  {
    if i < 10 then '0' + i as char else 'a' + (i - 10) as char
  }

  function KeyDigits(): string {
    seq(36, i requires 0 <= i < 36 => KeyDigit(i))
  }

  /** One character's place in the key order: its code point, with `|` below every other character. */
  function CharRank(c: char): int {
    if c == SEP then -1 else c as int
  }

  function KeyOrder(key: string): seq<int> {
    seq(|key|, i requires 0 <= i < |key| => CharRank(key[i]))
  }

  /** Python's order on tuples of integers. */
  predicate Less(a: seq<int>, b: seq<int>) {
    if b == [] then false
    else if a == [] then true
    else a[0] < b[0] || (a[0] == b[0] && Less(a[1..], b[1..]))
  }

  predicate KeyLess(a: string, b: string) {
    Less(KeyOrder(a), KeyOrder(b))
  }

  /** `n` is where `a` and `b` part, `a` going below `b`. */
  ghost predicate PartAt(a: seq<int>, b: seq<int>, n: nat) {
    && n <= |a| && n < |b|
    && a[..n] == b[..n]
    && (n == |a| || a[n] < b[n])
  }

  lemma {:induction false} PartedIsLess(a: seq<int>, b: seq<int>, n: nat)
    requires PartAt(a, b, n)
    ensures Less(a, b)
  {
    if n > 0 {
      assert a[0] == a[..n][0] == b[..n][0] == b[0];
      assert a[1..][..n-1] == a[..n][1..] == b[..n][1..] == b[1..][..n-1];
      PartedIsLess(a[1..], b[1..], n - 1);
    }
  }

  lemma {:induction false} LessParts(a: seq<int>, b: seq<int>) returns (n: nat)
    requires Less(a, b)
    ensures PartAt(a, b, n)
  {
    if a == [] || a[0] < b[0] {
      n := 0;
    } else {
      var m := LessParts(a[1..], b[1..]);
      n := m + 1;
      assert a[..n] == [a[0]] + a[1..][..m];
      assert b[..n] == [b[0]] + b[1..][..m];
    }
  }

  lemma {:induction false} LessIrreflexive(a: seq<int>)
    ensures !Less(a, a)
  {
    if a != [] {
      LessIrreflexive(a[1..]);
    }
  }

  lemma {:induction false} LessTransitive(a: seq<int>, b: seq<int>, c: seq<int>)
    requires Less(a, b) && Less(b, c)
    ensures Less(a, c)
  {
    if a != [] && a[0] == b[0] == c[0] {
      LessTransitive(a[1..], b[1..], c[1..]);
    }
  }

  lemma {:induction false} LessTotal(a: seq<int>, b: seq<int>)
    ensures Less(a, b) || a == b || Less(b, a)
  {
    if a != [] && b != [] && a[0] == b[0] {
      LessTotal(a[1..], b[1..]);
      if a[1..] == b[1..] {
        assert a == [a[0]] + a[1..] == [b[0]] + b[1..] == b;
      }
    }
  }

  /** Not both ways round, and never a key below itself. */
  lemma LessAsymmetric(a: seq<int>, b: seq<int>)
    requires Less(a, b)
    ensures !Less(b, a) && a != b
  {
    LessIrreflexive(a);
    if Less(b, a) {
      LessTransitive(a, b, a);
    }
  }

  lemma CharRankInjective(c: char, d: char)
    requires CharRank(c) == CharRank(d)
    ensures c == d
  {
    if c != SEP && d != SEP {
      assert (c as int) as char == (d as int) as char;
    }
  }

  /** Keys with one sort value are one key: the order on keys is total, with no ties. */
  lemma KeyOrderInjective(a: string, b: string)
    requires KeyOrder(a) == KeyOrder(b)
    ensures a == b
  {
    assert |a| == |KeyOrder(a)| == |KeyOrder(b)| == |b|;
    forall i | 0 <= i < |a| ensures a[i] == b[i] {
      assert KeyOrder(a)[i] == KeyOrder(b)[i];
      CharRankInjective(a[i], b[i]);
    }
  }

  /** `PartAt`, on the keys themselves. */
  ghost predicate KeysPartAt(a: string, b: string, n: nat) {
    && n <= |a| && n < |b|
    && a[..n] == b[..n]
    && (n == |a| || CharRank(a[n]) < CharRank(b[n]))
  }

  lemma PartedKeysAreLess(a: string, b: string, n: nat)
    requires KeysPartAt(a, b, n)
    ensures KeyLess(a, b)
  {
    assert KeyOrder(a)[..n] == KeyOrder(a[..n]) == KeyOrder(b[..n]) == KeyOrder(b)[..n];
    PartedIsLess(KeyOrder(a), KeyOrder(b), n);
  }

  lemma LessKeysPart(a: string, b: string) returns (n: nat)
    requires KeyLess(a, b)
    ensures KeysPartAt(a, b, n)
  {
    n := LessParts(KeyOrder(a), KeyOrder(b));
    assert KeyOrder(a[..n]) == KeyOrder(a)[..n] == KeyOrder(b)[..n] == KeyOrder(b[..n]);
    KeyOrderInjective(a[..n], b[..n]);
  }

  /** The order on the keys' own characters: at the first place they differ `|` goes before any other and otherwise the
      lower character, and a key goes before one that it starts. */
  lemma KeyLessIff(a: string, b: string)
    ensures KeyLess(a, b) <==> exists n | 0 <= n <= |a| && n < |b| :: KeysDifferAt(a, b, n)
  {
    if KeyLess(a, b) {
      var n := LessKeysPart(a, b);
      assert KeysDifferAt(a, b, n);
    }
    if n :| 0 <= n <= |a| && n < |b| && KeysDifferAt(a, b, n) {
      PartedKeysAreLess(a, b, n);
    }
  }

  ghost predicate KeysDifferAt(a: string, b: string, n: nat)
    requires n <= |a| && n < |b|
  {
    && a[..n] == b[..n]
    && (n == |a| || (a[n] == '|' && b[n] != '|') || (a[n] < b[n] && b[n] != '|'))
  }

  predicate IsAlnum(c: char) {
    '0' <= c <= '9' || 'A' <= c <= 'Z' || 'a' <= c <= 'z'
  }

  predicate IsKeyChar(c: char) {
    IsAlnum(c) || c == '_' || c == SEP || c == '.' || c == '/' || c == '-'
  }

  /** The shape of a key: a letter or digit, then letters, digits, `_`, `|`, `.`, `/` and `-`. */
  predicate IsKey(k: string) {
    && k != ""
    && IsAlnum(k[0])
    && forall i | 0 <= i < |k| :: IsKeyChar(k[i])
  }

  /** What KEY_RE accepts: a key, or a key and one newline, since `$` also matches before a last newline. */
  predicate MatchesKeyRe(k: string) {
    IsKey(k) || (k != "" && k[|k|-1] == '\n' && IsKey(k[..|k|-1]))
  }
}
