/** scripts/agent_sessions.py's munge and project_dirs: the name of a path's directory of sessions, one character for
    each UTF-16 code unit (section 2.1 of RFC 2781), cut at a cap and told apart by a hash of the whole path. */
module PathName {
  import opened CodePoints
  import opened Common

  const CAP: nat := 200
  const DASH: CodePoint := 45
  const WRAP: int := 0x1_0000_0000

  // ----- one character a unit -----

  function UnitsOf(c: CodePoint): (units: seq<int>)
    ensures forall u | u in units :: 0 <= u < 0x10000
  {
    if c < 0x10000 then [c] else [HighOf(c), LowOf(c)]
  }

  function Units(path: Text): seq<int> {
    Collect(path, UnitsOf)
  }

  predicate IsAlnum(u: int) {
    48 <= u <= 57 || 65 <= u <= 90 || 97 <= u <= 122
  }

  /** A character as the name has it: itself, or a dash for each of its units. */
  function CharName(c: CodePoint): Text {
    if IsAlnum(c) then [c] else seq(|UnitsOf(c)|, _ => DASH)
  }

  function Plain(path: Text): Text {
    Collect(path, CharName)
  }

  /** The rule as JavaScript states it: every unit that is not alphanumeric is a dash. */
  function UnitName(u: int): CodePoint {
    if IsAlnum(u) then u else DASH
  }

  ghost predicate NamesUnits(name: Text, units: seq<int>) {
    |name| == |units| && forall j | 0 <= j < |name| :: name[j] == UnitName(units[j])
  }

  lemma {:induction false} PlainNamesUnits(path: Text)
    ensures NamesUnits(Plain(path), Units(path))
  {
    if path != [] {
      PlainNamesUnits(path[1..]);
      assert NamesUnits(CharName(path[0]), UnitsOf(path[0]));
    }
  }

  // ----- the hash -----

  /** Java's String.hashCode before it wraps. */
  function Polynomial(units: seq<int>, n: nat): int
    requires n <= |units|
  {
    if n == 0 then 0 else Polynomial(units, n - 1) * 31 + units[n-1]
  }

  function Signed(h: int): int {
    if h >= WRAP / 2 then h - WRAP else h
  }

  /** The size of the hash as a signed 32-bit number. */
  function Magnitude(units: seq<int>): (h: nat)
    ensures h <= WRAP / 2
  {
    var s := Signed(Polynomial(units, |units|) % WRAP);
    if s < 0 then -s else s
  }

  lemma WrapStep(p: int, u: int)
    ensures (p % WRAP * 31 + u) % WRAP == (p * 31 + u) % WRAP
  {
  }

  function Power31(n: nat): nat {
    if n == 0 then 1 else 31 * Power31(n - 1)
  }

  /** Java's String.hashCode as it is defined: each unit times 31 to the power of how many follow it. */
  function HashCode(units: seq<int>): int {
    if units == [] then 0 else units[0] * Power31(|units| - 1) + HashCode(units[1..])
  }

  lemma {:induction false} HashCodeStep(units: seq<int>, u: int)
    ensures HashCode(units + [u]) == HashCode(units) * 31 + u
  {
    if units == [] {
      assert [u][1..] == [];
    } else {
      HashCodeStep(units[1..], u);
      assert (units + [u])[1..] == units[1..] + [u];
      var p := Power31(|units| - 1);
      assert units[0] * (31 * p) == units[0] * p * 31;
    }
  }

  lemma {:induction false} PolynomialIs(units: seq<int>, n: nat)
    requires n <= |units|
    ensures Polynomial(units, n) == HashCode(units[..n])
  {
    if n > 0 {
      PolynomialIs(units, n - 1);
      HashCodeStep(units[..n-1], units[n-1]);
      assert units[..n] == units[..n-1] + [units[n-1]];
    }
  }

  /** The hash is the size of the signed 32-bit number that the hash code wraps to. */
  lemma HashIsSigned(units: seq<int>)
    ensures exists h :: -0x8000_0000 <= h < 0x8000_0000 && IsWrapped(HashCode(units), h)
                        && Magnitude(units) == if h < 0 then -h else h
  {
    PolynomialIs(units, |units|);
    assert units[..|units|] == units;
    WrapsTo(HashCode(units));
  }

  lemma WrapsTo(n: int)
    ensures IsWrapped(n, Signed(n % WRAP)) && -0x8000_0000 <= Signed(n % WRAP) < 0x8000_0000
  {
    assert n - n % WRAP == n / WRAP * WRAP;
    assert n - (n % WRAP - WRAP) == (n / WRAP + 1) * WRAP;
  }

  predicate IsWrapped(n: int, h: int) {
    (n - h) % 0x1_0000_0000 == 0
  }

  // ----- base 36 -----

  function Digit(n: int): (c: CodePoint)
    requires 0 <= n < 36
    ensures IsAlnum(c)
  {
    if n < 10 then 48 + n else 87 + n
  }

  function DigitValue(c: CodePoint): int {
    if c < 58 then c - 48 else c - 87
  }

  lemma DigitsAre(n: int)
    requires 0 <= n < 36
    ensures Digit(n) == if n < 10 then "0123456789"[n] as int else "abcdefghijklmnopqrstuvwxyz"[n-10] as int
  {
  }

  function Base36(n: nat): (d: Text)
    ensures d != []
  {
    if n < 36 then [Digit(n)] else Base36(n / 36) + [Digit(n % 36)]
  }

  function Value36(d: Text): int {
    if d == [] then 0 else Value36(d[..|d|-1]) * 36 + DigitValue(d[|d|-1])
  }

  /** The number is what its digits say, with no zero in front, in as few digits as that takes. */
  lemma {:induction false} Base36Says(n: nat)
    ensures Value36(Base36(n)) == n
    ensures forall c | c in Base36(n) :: 48 <= c <= 57 || 97 <= c <= 122
    ensures Base36(n)[0] == 48 ==> n == 0
    ensures n < 36 ==> |Base36(n)| == 1
  {
    if n >= 36 {
      Base36Says(n / 36);
      var d := Base36(n);
      assert d[..|d|-1] == Base36(n / 36);
    } else {
      assert Base36(n)[..0] == [];
    }
  }

  lemma SixDigits(n: nat)
    requires n <= WRAP / 2
    ensures |Base36(n)| <= 6
  {
    var a, b, c, d := n / 36, n / 36 / 36, n / 36 / 36 / 36, n / 36 / 36 / 36 / 36;
    assert d / 36 < 36;
    assert |Base36(d)| <= 2 && |Base36(c)| <= 3;
    assert |Base36(b)| <= 4;
    assert |Base36(a)| <= 5;
  }

  // ----- the name -----

  function Munged(path: Text): Text {
    if |Plain(path)| <= CAP then Plain(path)
    else Plain(path)[..CAP] + [DASH] + Base36(Magnitude(Units(path)))
  }

  method Munge(path: Text) returns (name: Text)
    ensures name == Munged(path)
  {
    var units, out := Units(path), Plain(path);
    if |out| <= CAP {
      return out;
    }
    var h, i := 0, 0;
    while i < |units|
      invariant i <= |units| && h == Polynomial(units, i) % WRAP
    {
      WrapStep(Polynomial(units, i), units[i]);
      h := (h * 31 + units[i]) % WRAP;
      i := i + 1;
    }
    var left: nat := if Signed(h) < 0 then -Signed(h) else Signed(h);
    var digits := [];
    while left >= 36
      invariant Base36(left) + digits == Base36(Magnitude(units))
    {
      ghost var was := left;
      assert Base36(was) == Base36(was / 36) + [Digit(was % 36)];
      digits := [Digit(left % 36)] + digits;
      left := left / 36;
    }
    digits := [Digit(left)] + digits;
    return out[..CAP] + [DASH] + digits;
  }

  /** Every name is plain, and at most 207 long: up to the cap it is the rule, one character a unit; past it, the
      rule's first 200, a dash, and the hash in base 36. */
  lemma MungedIsAName(path: Text)
    ensures var name, units := Munged(path), Units(path);
            && (forall c | c in name :: IsAlnum(c) || c == DASH)
            && if |units| <= CAP then NamesUnits(name, units)
               else CAP + 2 <= |name| <= CAP + 7 && NamesUnits(name[..CAP], units[..CAP]) && name[CAP] == DASH
                    && Value36(name[CAP+1..]) == Magnitude(units)
                    && (name[CAP+1] == 48 ==> Magnitude(units) == 0)
  {
    PlainNamesUnits(path);
    var plain, units := Plain(path), Units(path);
    assert forall j | 0 <= j < |plain| :: IsAlnum(plain[j]) || plain[j] == DASH;
    if |units| > CAP {
      Base36Says(Magnitude(units));
      SixDigits(Magnitude(units));
      assert Munged(path)[CAP+1..] == Base36(Magnitude(units));
      assert Munged(path)[..CAP] == plain[..CAP];
    }
  }

  // ----- a repository's worktrees -----

  /** `/.claude/worktrees/` and what it is in a name. */
  function WorktreesPath(): Text {
    [47, 46, 99, 108, 97, 117, 100, 101] + [47, 119, 111, 114, 107, 116, 114, 101, 101, 115, 47]
  }

  function Marker(): Text {
    [45, 45, 99, 108, 97, 117, 100, 101] + [45, 119, 111, 114, 107, 116, 114, 101, 101, 115, 45]
  }

  function Worktree(repo: Text, name: Text): Text {
    repo + WorktreesPath() + name
  }

  lemma MarkerIsPlain()
    ensures Plain(WorktreesPath()) == Marker()
  {
    var a: Text, m: Text := [47, 46, 99, 108, 97, 117, 100, 101], [45, 45, 99, 108, 97, 117, 100, 101];
    var b: Text := [47, 119, 111, 114, 107, 116, 114, 101, 101, 115, 47];
    var n: Text := [45, 119, 111, 114, 107, 116, 114, 101, 101, 115, 45];
    PlainIs(a, m);
    PlainIs(b, n);
    CollectAppend(a, b, CharName);
  }

  lemma {:induction false} PlainIs(t: Text, name: Text)
    requires |name| == |t| && forall i | 0 <= i < |t| :: t[i] < 0x10000 && name[i] == UnitName(t[i])
    ensures Plain(t) == name
  {
    if t != [] {
      PlainIs(t[1..], name[1..]);
      assert CharName(t[0]) == [name[0]];
    }
  }

  lemma PlainOfWorktree(repo: Text, name: Text)
    ensures Plain(Worktree(repo, name)) == Plain(repo) + Marker() + Plain(name)
  {
    CollectAppend(repo + WorktreesPath(), name, CharName);
    CollectAppend(repo, WorktreesPath(), CharName);
    MarkerIsPlain();
  }

  /** Under the cap a worktree's name is its repository's, the marker, and its own. */
  lemma WorktreeName(repo: Text, name: Text)
    requires |Units(Worktree(repo, name))| <= CAP
    ensures Munged(Worktree(repo, name)) == Munged(repo) + Marker() + Munged(name)
  {
    PlainOfWorktree(repo, name);
    PlainNamesUnits(Worktree(repo, name));
  }

  /** The directories listed for a repository: its own, and those that its worktrees' names begin as. */
  function ProjectDirs(listing: seq<Text>, repo: Text): seq<Text> {
    (if Munged(repo) in listing then [Munged(repo)] else [])
    + Filter(listing, (d: Text) => Munged(repo) + Marker() <= d)
  }

  /** A worktree's name begins as its repository's worktrees do exactly when the repository's path is no longer than
      182 units: the cap cuts the marker off a longer one, and the hash that follows is never the marker. */
  lemma BeginsIff(repo: Text, name: Text)
    ensures Munged(repo) + Marker() <= Munged(Worktree(repo, name)) <==> |Units(repo)| <= CAP - 18
  {
    var whole := Worktree(repo, name);
    PlainOfWorktree(repo, name);
    PlainNamesUnits(repo);
    PlainNamesUnits(whole);
    if |Plain(whole)| > CAP {
      var digits := Base36(Magnitude(Units(whole)));
      Base36Says(Magnitude(Units(whole)));
      SixDigits(Magnitude(Units(whole)));
      if |Plain(repo)| <= CAP {
        assert forall j | 0 <= j < |digits| :: digits[j] in digits && digits[j] != DASH;
        CutWorktree(Plain(repo), Plain(name), digits);
      } else {
        assert |Munged(repo) + Marker()| > |Munged(whole)|;
      }
    }
  }

  lemma CutWorktree(repo: Text, name: Text, digits: Text)
    requires |repo| <= CAP && |repo + Marker() + name| > CAP && |digits| <= 6
    requires forall j | 0 <= j < |digits| :: digits[j] != DASH
    ensures repo + Marker() <= (repo + Marker() + name)[..CAP] + [DASH] + digits <==> |repo| <= CAP - 18
  {
    var prefix, whole := repo + Marker(), repo + Marker() + name;
    var d := whole[..CAP] + [DASH] + digits;
    if |repo| < CAP - 18 {
      assert prefix == whole[..|prefix|] == d[..|prefix|];
    } else if |repo| == CAP - 18 {
      assert prefix[CAP] == Marker()[18] == DASH;
      assert prefix[..CAP] == whole[..CAP];
      assert prefix == whole[..CAP] + [DASH];
      assert d[..CAP+1] == prefix;
    } else {
      PastTheCap(repo, whole[..CAP], digits);
    }
  }

  lemma PastTheCap(repo: Text, head: Text, digits: Text)
    requires CAP - 18 < |repo| <= CAP == |head| && |digits| <= 6
    requires forall j | 0 <= j < |digits| :: digits[j] != DASH
    ensures !(repo + Marker() <= head + [DASH] + digits)
  {
    var prefix, d := repo + Marker(), head + [DASH] + digits;
    assert |Marker()| == 19;
    if |prefix| <= |d| {
      var k := CAP - |repo|;
      assert prefix[CAP] == Marker()[k] && d[CAP] == DASH;
      assert forall j | CAP < j < |d| :: d[j] == digits[j - CAP - 1];
    }
  }

  lemma WorktreesListed(listing: seq<Text>, repo: Text, name: Text)
    requires Munged(Worktree(repo, name)) in listing
    ensures Munged(Worktree(repo, name)) in ProjectDirs(listing, repo) <==>
              |Units(repo)| <= CAP - 18 || Munged(Worktree(repo, name)) == Munged(repo)
  {
    BeginsIff(repo, name);
    FilterMember(listing, (d: Text) => Munged(repo) + Marker() <= d, Munged(Worktree(repo, name)));
  }

  /** A repository whose path is one unit too long: none of its worktrees is listed, though its directory is there. */
  lemma LongRepositoryIsMissed(name: Text) returns (repo: Text, listing: seq<Text>)
    ensures |Units(repo)| == 183 && listing == [Munged(Worktree(repo, name))]
    ensures ProjectDirs(listing, repo) == []
  {
    var letters: Text := seq(183, _ => 97);
    repo, listing := letters, [Munged(Worktree(letters, name))];
    PlainIs(repo, repo);
    PlainNamesUnits(repo);
    BeginsIff(repo, name);
    PlainOfWorktree(repo, name);
    var d := Munged(Worktree(repo, name));
    assert |d| > 183 == |Munged(repo)|;
    FilterDropped(d, (d: Text) => Munged(repo) + Marker() <= d);
  }
}
