/** The key of an entry with no rank line: scripts/ledgerboard.py's implicit_key. */
module ImplicitKeys {
  import opened Keys
  import opened RankLines

  // ----- decimal numbers -----

  function DigitChar(d: nat): char
    requires d < 10
  {
    '0' + d as char
  }

  /** `n` in decimal, with zeros before it up to `width`. */
  function Padded(n: nat, width: nat): (s: string)
    ensures |s| >= width && forall i | 0 <= i < |s| :: IsDecimal(s[i])
    decreases n, width
  {
    if n == 0 && width == 0 then ""
    else Padded(n / 10, if width == 0 then 0 else width - 1) + [DigitChar(n % 10)]
  }

  /** `n` has at most `width` digits. */
  function Bound(width: nat): nat {
    if width == 0 then 1 else 10 * Bound(width - 1)
  }

  lemma {:induction false} PaddedWidth(n: nat, width: nat)
    requires n < Bound(width)
    ensures |Padded(n, width)| == width
  {
    if width > 0 {
      PaddedWidth(n / 10, width - 1);
    }
  }

  /** Concatenations of equally long heads compare by the heads, then the tails. */
  lemma {:induction false} LessConcat(a: seq<int>, b: seq<int>, x: seq<int>, y: seq<int>)
    requires |a| == |b|
    ensures Less(a + x, b + y) <==> Less(a, b) || (a == b && Less(x, y))
  {
    if a == [] {
      assert a + x == x && b + y == y;
    } else {
      LessConcat(a[1..], b[1..], x, y);
      assert (a + x)[1..] == a[1..] + x && (b + y)[1..] == b[1..] + y;
      assert a == b <==> a[0] == b[0] && a[1..] == b[1..] by {
        assert a == [a[0]] + a[1..] && b == [b[0]] + b[1..];
      }
    }
  }

  lemma KeyLessConcat(a: string, b: string, x: string, y: string)
    requires |a| == |b|
    ensures KeyLess(a + x, b + y) <==> KeyLess(a, b) || (a == b && KeyLess(x, y))
  {
    LessConcat(KeyOrder(a), KeyOrder(b), KeyOrder(x), KeyOrder(y));
    assert KeyOrder(a + x) == KeyOrder(a) + KeyOrder(x) && KeyOrder(b + y) == KeyOrder(b) + KeyOrder(y);
    if KeyOrder(a) == KeyOrder(b) {
      KeyOrderInjective(a, b);
    }
  }

  lemma OneCharLess(c: char, d: char)
    ensures KeyLess([c], [d]) <==> CharRank(c) < CharRank(d)
  {
    LessIrreflexive(KeyOrder([c])[1..]);
    assert KeyOrder([c])[1..] == KeyOrder([d])[1..];
  }

  /** Numbers written to one width compare as the numbers do. */
  lemma {:induction false} PaddedOrder(m: nat, n: nat, width: nat)
    requires m < Bound(width) && n < Bound(width)
    ensures KeyLess(Padded(m, width), Padded(n, width)) <==> m < n
    ensures Padded(m, width) == Padded(n, width) <==> m == n
  {
    if width > 0 {
      var c, d := DigitChar(m % 10), DigitChar(n % 10);
      var p, q := Padded(m / 10, width - 1), Padded(n / 10, width - 1);
      PaddedOrder(m / 10, n / 10, width - 1);
      PaddedWidth(m / 10, width - 1);
      PaddedWidth(n / 10, width - 1);
      KeyLessConcat(p, q, [c], [d]);
      OneCharLess(c, d);
      assert (p + [c])[..width-1] == p && (q + [d])[..width-1] == q;
      assert (p + [c])[width-1] == c && (q + [d])[width-1] == d;
    }
  }

  // ----- the key -----

  function LowerChar(c: char): char {
    if 'A' <= c <= 'Z' then c + 32 as char else c
  }

  /** Lower case, over ASCII: no other character lowers to a letter of the words compared here. */
  function Lower(s: string): string {
    seq(|s|, i requires 0 <= i < |s| => LowerChar(s[i]))
  }

  function Band(priority: string): nat {
    var p := Lower(priority);
    if p == "high" then 1 else if p == "medium" then 2 else if p == "low" then 3 else 4
  }

  /** The Type's index; a Type not known is the first. */
  function TypeIndex(kind: string): nat {
    if Lower(kind) == "feature" then 1 else 0
  }

  function ImplicitKey(priority: string, kind: string, id: string, repo: string): string {
    [DigitChar(Band(priority))] + "|" + [DigitChar(TypeIndex(kind))] + "|" + Padded(Num(id), 6)
    + (if repo == "" then "" else "|" + repo)
  }

  /** Its fixed part, by numbers alone. */
  function KeyHead(band: nat, index: nat): string
    requires band < 10 && index < 10
  {
    [DigitChar(band)] + "|" + [DigitChar(index)] + "|"
  }

  lemma HeadOrder(b: nat, t: nat, c: nat, u: nat)
    requires b < 10 && t < 10 && c < 10 && u < 10
    ensures KeyLess(KeyHead(b, t), KeyHead(c, u)) <==> b < c || (b == c && t < u)
    ensures KeyHead(b, t) == KeyHead(c, u) <==> b == c && t == u
  {
    var p, q := [DigitChar(t)], [DigitChar(u)];
    OneCharLess(DigitChar(b), DigitChar(c));
    OneCharLess(DigitChar(t), DigitChar(u));
    LessIrreflexive(KeyOrder("|"));
    assert KeyHead(b, t) == [DigitChar(b)] + ("|" + p + "|") && KeyHead(c, u) == [DigitChar(c)] + ("|" + q + "|");
    KeyLessConcat([DigitChar(b)], [DigitChar(c)], "|" + p + "|", "|" + q + "|");
    KeyLessConcat("|" + p, "|" + q, "|", "|");
    KeyLessConcat("|", "|", p, q);
    assert KeyHead(b, t)[0] == DigitChar(b) && KeyHead(c, u)[0] == DigitChar(c);
    assert KeyHead(b, t)[2] == DigitChar(t) && KeyHead(c, u)[2] == DigitChar(u);
    assert ("|" + p)[1] == DigitChar(t) && ("|" + q)[1] == DigitChar(u);
  }

  /** Below a million, implicit keys of one repo sort by Priority band, Type, then number. */
  lemma ImplicitKeysOrder(p: string, k: string, x: string, q: string, l: string, y: string, repo: string)
    requires Num(x) < 1_000_000 && Num(y) < 1_000_000
    ensures KeyLess(ImplicitKey(p, k, x, repo), ImplicitKey(q, l, y, repo)) <==>
            || Band(p) < Band(q)
            || (Band(p) == Band(q) && (TypeIndex(k) < TypeIndex(l)
                                       || (TypeIndex(k) == TypeIndex(l) && Num(x) < Num(y))))
  {
    var a, b := KeyHead(Band(p), TypeIndex(k)), KeyHead(Band(q), TypeIndex(l));
    var m, n := Padded(Num(x), 6), Padded(Num(y), 6);
    var tail := if repo == "" then "" else "|" + repo;
    assert Bound(6) == 1_000_000;
    PaddedWidth(Num(x), 6);
    PaddedWidth(Num(y), 6);
    PaddedOrder(Num(x), Num(y), 6);
    HeadOrder(Band(p), TypeIndex(k), Band(q), TypeIndex(l));
    KeyLessConcat(a, b, m, n);
    KeyLessConcat(a + m, b + n, tail, tail);
    LessIrreflexive(KeyOrder(tail));
  }

  /** One Priority by its word, or neither is a word known. */
  predicate SamePriority(p: string, q: string) {
    Lower(p) == Lower(q) || (Lower(p) !in {"high", "medium", "low"} && Lower(q) !in {"high", "medium", "low"})
  }

  /** By the words: high, then medium, then low, then any other; of one Priority debt, then features, any other Type
      being debt; and of one Priority and Type by number. */
  lemma WordsOrder(p: string, k: string, x: string, q: string, l: string, y: string, repo: string)
    requires Num(x) < 1_000_000 && Num(y) < 1_000_000
    ensures var less := KeyLess(ImplicitKey(p, k, x, repo), ImplicitKey(q, l, y, repo));
            && (Lower(p) == "high" && Lower(q) != "high" ==> less)
            && (Lower(p) == "medium" && Lower(q) !in {"high", "medium"} ==> less)
            && (Lower(p) == "low" && Lower(q) !in {"high", "medium", "low"} ==> less)
            && (SamePriority(p, q) && Lower(k) != "feature" && Lower(l) == "feature" ==> less)
            && (SamePriority(p, q) && (Lower(k) == "feature" <==> Lower(l) == "feature") ==>
                  (less <==> Num(x) < Num(y)))
  {
    ImplicitKeysOrder(p, k, x, q, l, y, repo);
  }

  /** The words are read in any case. */
  lemma AnyCase(s: string, t: string)
    requires |s| == |t|
    requires forall i | 0 <= i < |s| :: s[i] == t[i] || ('A' <= s[i] <= 'Z' && t[i] as int == s[i] as int + 32)
    requires forall i | 0 <= i < |t| :: !('A' <= t[i] <= 'Z')
    ensures Lower(s) == t
  {
  }

  /** At a million the order fails: entry 1000000 sorts before entry 999999. */
  lemma MillionSortsEarly(p: string, k: string, x: string, y: string, repo: string)
    requires Num(x) == 1_000_000 && Num(y) == 999_999
    ensures KeyLess(ImplicitKey(p, k, x, repo), ImplicitKey(p, k, y, repo))
  {
    FirstDigit();
    FirstCharDecides(KeyHead(Band(p), TypeIndex(k)), Padded(1_000_000, 6), Padded(999_999, 6),
                     if repo == "" then "" else "|" + repo);
  }

  /** Entries numbered up to `top`, of one Priority, Type and repo, sort by their numbers. */
  ghost predicate SortByNumber(top: nat, p: string, k: string, repo: string) {
    forall x, y | Num(x) <= top && Num(y) <= top ::
      KeyLess(ImplicitKey(p, k, x, repo), ImplicitKey(p, k, y, repo)) <==> Num(x) < Num(y)
  }

  /** The order is right exactly as long as every number is below a million. */
  lemma SortByNumberIff(top: nat, p: string, k: string, repo: string)
    ensures SortByNumber(top, p, k, repo) <==> top < 1_000_000
  {
    if top < 1_000_000 {
      forall x, y | Num(x) <= top && Num(y) <= top
        ensures KeyLess(ImplicitKey(p, k, x, repo), ImplicitKey(p, k, y, repo)) <==> Num(x) < Num(y)
      {
        ImplicitKeysOrder(p, k, x, p, k, y, repo);
      }
    } else {
      var x, y := IdOf(1_000_000), IdOf(999_999);
      NumOfId(1_000_000);
      NumOfId(999_999);
      MillionSortsEarly(p, k, x, y, repo);
      assert !(Num(x) < Num(y));
    }
  }

  /** An entry of every number. */
  function IdOf(n: nat): string {
    "TD-" + Padded(n, 1)
  }

  lemma NumOfId(n: nat)
    ensures Num(IdOf(n)) == n
  {
    assert IdOf(n)[..3] == "TD-" && IdOf(n)[3..] == Padded(n, 1);
    DecimalOfPadded(n, 1);
  }

  lemma {:induction false} DecimalOfPadded(n: nat, width: nat)
    ensures Decimal(Padded(n, width)) == n
    decreases n, width
  {
    if n != 0 || width != 0 {
      var front := Padded(n / 10, if width == 0 then 0 else width - 1);
      DecimalOfPadded(n / 10, if width == 0 then 0 else width - 1);
      assert Padded(n, width)[..|front|] == front;
    }
  }

  lemma FirstCharDecides(head: string, m: string, n: string, tail: string)
    requires m != "" && n != "" && CharRank(m[0]) < CharRank(n[0])
    ensures KeyLess(head + m + tail, head + n + tail)
  {
    var k, l := head + m + tail, head + n + tail;
    assert k[..|head|] == head == l[..|head|];
    PartedKeysAreLess(k, l, |head|);
  }

  lemma FirstDigit()
    ensures Padded(1_000_000, 6) != "" && Padded(1_000_000, 6)[0] == '1'
    ensures Padded(999_999, 6) != "" && Padded(999_999, 6)[0] == '9'
  {
    assert Padded(1, 0) == "1" && Padded(10, 1) == "10" && Padded(100, 2) == "100";
    assert Padded(1000, 3)[0] == '1' && Padded(10_000, 4)[0] == '1' && Padded(100_000, 5)[0] == '1';
    assert Padded(9, 1) == "9" && Padded(99, 2) == "99" && Padded(999, 3)[0] == '9';
    assert Padded(9999, 4)[0] == '9' && Padded(99_999, 5)[0] == '9';
  }
}
