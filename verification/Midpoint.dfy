/** A new key between two others: scripts/ledgerboard.py's midpoint.
    The loop follows the lower end `lo` and, while it can, the upper end `hi`; it stops at the first place
    where a digit fits between them. */
module Midpoints {
  import opened Common
  import opened Keys

  datatype Refusal = NotAKey | NotInOrder | NoKeyBetween

  /** The digits midpoint ends a key with: every one but the lowest. */
  function Digits(): string {
    KeyDigits()[1..]
  }

  const NO_LOW: int := -2
  const NO_HIGH: int := 0x20_0000

  // ----- what is promised -----

  predicate Above(a: Option<string>, k: string) {
    a.None? || KeyLess(a.value, k)
  }

  predicate Below(k: string, b: Option<string>) {
    b.None? || KeyLess(k, b.value)
  }

  /** Below the upper end without being the start of it. */
  predicate ClearBelow(k: string, b: Option<string>) {
    b.None? || (KeyLess(k, b.value) && !(k <= b.value))
  }

  /** The ends between which no key lies: `b` is `a` plus `|`, or `a` is open and `b` is `0`. */
  predicate NoRoom(lo: string, b: Option<string>) {
    b.Some? && (b.value == lo + [SEP] || (lo == "" && b.value == "0"))
  }

  /** Past `a`, `b` goes on in `0` and `|` alone, to a `|`: the loop follows `b` to its end. */
  predicate RunsLow(lo: string, b: Option<string>) {
    && b.Some? && lo <= b.value && |b.value| >= |lo| + 2
    && b.value[|b.value|-1] == SEP
    && forall k | |lo| <= k < |b.value| :: b.value[k] == '0' || b.value[k] == SEP
  }

  /** The lower end carries the one newline KEY_RE lets through, and `b` leaves no digit above it there. */
  predicate NewlineStays(lo: string, b: Option<string>) {
    && lo != "" && lo[|lo|-1] == '\n'
    && b.Some? && |b.value| >= |lo|
    && lo[..|lo|-1] == b.value[..|lo|-1]
    && '\n' as int < CharRank(b.value[|lo|-1]) <= '1' as int
  }

  /** The digits that, after `stem`, make a key between the ends that is no start of `b`. */
  ghost function Fitting(lo: string, b: Option<string>, stem: string): string {
    Filter(Digits(), d => KeyLess(lo, stem + [d]) && ClearBelow(stem + [d], b))
  }

  /** `k` ends at the first place where a digit fits, in the middle one of the digits that fit there. */
  ghost predicate Chosen(lo: string, b: Option<string>, k: string) {
    && k != ""
    && var stem := k[..|k|-1];
       var fits := Fitting(lo, b, stem);
    && fits != ""
    && k[|k|-1] == fits[|fits| / 2]
    && forall j | 0 <= j < |stem| :: Fitting(lo, b, stem[..j]) == ""
  }

  /** What a result is: a key strictly between the ends. It is a start of `b` where `b` runs low past `a`,
      and otherwise ends in a chosen digit; it has a key's shape unless a newline stays in it. */
  ghost predicate IsMidpoint(a: Option<string>, b: Option<string>, k: string) {
    && Above(a, k) && Below(k, b)
    && (IsKey(k) <==> !NewlineStays(a.GetOr(""), b))
    && if RunsLow(a.GetOr(""), b) then k == b.value[..|b.value|-1] else Chosen(a.GetOr(""), b, k)
  }

  // ----- the loop's state -----

  /** `out` runs along `lo` as far as both go. */
  ghost predicate Along(out: string, lo: string) {
    forall k | 0 <= k < |out| && k < |lo| :: out[k] == lo[k]
  }

  /** `out` left the upper end at `cut`, going below it; or there is no upper end. */
  ghost predicate Passed(out: string, b: Option<string>, cut: nat) {
    b.None? || (cut < |out| && KeysPartAt(out, b.value, cut))
  }

  ghost predicate Following(out: string, b: Option<string>, hi: Option<string>, cut: nat) {
    if hi.Some? then hi == b && out <= hi.value else Passed(out, b, cut)
  }

  function LowAt(lo: string, i: nat): int {
    if i < |lo| then CharRank(lo[i]) else NO_LOW
  }

  function HighAt(hi: Option<string>, i: nat): int {
    if hi.Some? && i < |hi.value| then CharRank(hi.value[i]) else NO_HIGH
  }

  predicate IsDigit(d: char) {
    '1' <= d <= '9' || 'a' <= d <= 'z'
  }

  lemma DigitsAreDigits()
    ensures forall d | d in Digits() :: IsDigit(d)
    ensures forall d | IsDigit(d) :: d in Digits()
  {
    forall d | IsDigit(d) ensures d in Digits() {
      var i := if d <= '9' then d as int - '1' as int else d as int - 'a' as int + 9;
      assert Digits()[i] == KeyDigit(i + 1) == d;
    }
  }

  lemma DigitAboveLow(lo: string, out: string, d: char)
    requires Along(out, lo) && IsDigit(d)
    ensures KeyLess(lo, out + [d]) <==> LowAt(lo, |out|) < d as int
  {
    var k, i := out + [d], |out|;
    if i >= |lo| {
      assert k[..|lo|] == lo;
      PartedKeysAreLess(lo, k, |lo|);
    } else {
      assert k[..i] == out == lo[..i];
      if CharRank(lo[i]) < CharRank(d) {
        PartedKeysAreLess(lo, k, i);
      } else if CharRank(d) < CharRank(lo[i]) {
        PartedKeysAreLess(k, lo, i);
        LessAsymmetric(KeyOrder(k), KeyOrder(lo));
      } else {
        CharRankInjective(d, lo[i]);
        assert k == lo[..i+1];
        StartIsNotAbove(k, lo);
      }
    }
  }

  lemma StartIsNotAbove(k: string, lo: string)
    requires k <= lo
    ensures !KeyLess(lo, k)
  {
    if k == lo {
      LessIrreflexive(KeyOrder(k));
    } else {
      PartedKeysAreLess(k, lo, |k|);
      LessAsymmetric(KeyOrder(k), KeyOrder(lo));
    }
  }

  lemma DigitBelowHigh(b: Option<string>, hi: Option<string>, out: string, cut: nat, d: char)
    requires Following(out, b, hi, cut) && IsDigit(d)
    requires hi.Some? ==> |out| < |hi.value|
    ensures ClearBelow(out + [d], b) <==> d as int < HighAt(hi, |out|)
  {
    var k, i := out + [d], |out|;
    if hi.Some? {
      assert k[..i] == out == b.value[..i];
      if CharRank(d) < CharRank(b.value[i]) {
        PartedKeysAreLess(k, b.value, i);
      } else if CharRank(b.value[i]) < CharRank(d) {
        PartedKeysAreLess(b.value, k, i);
        LessAsymmetric(KeyOrder(b.value), KeyOrder(k));
      } else {
        CharRankInjective(d, b.value[i]);
        assert k <= b.value;
      }
    } else if b.Some? {
      assert k[..cut] == out[..cut];
      PartedKeysAreLess(k, b.value, cut);
    }
  }

  /** The digits the loop tries are the digits that fit. */
  lemma FitsAreFitting(lo: string, b: Option<string>, hi: Option<string>, out: string, cut: nat)
    requires Along(out, lo) && Following(out, b, hi, cut)
    requires hi.Some? ==> |out| < |hi.value|
    ensures Filter(Digits(), d => LowAt(lo, |out|) < d as int < HighAt(hi, |out|)) == Fitting(lo, b, out)
  {
    DigitsAreDigits();
    forall d | d in Digits()
      ensures (LowAt(lo, |out|) < d as int < HighAt(hi, |out|))
           == (KeyLess(lo, out + [d]) && ClearBelow(out + [d], b))
    {
      DigitAboveLow(lo, out, d);
      DigitBelowHigh(b, hi, out, cut, d);
    }
    FilterAgree(Digits(), d => LowAt(lo, |out|) < d as int < HighAt(hi, |out|),
                d => KeyLess(lo, out + [d]) && ClearBelow(out + [d], b));
  }

  // ----- one step of the loop -----

  /** What the loop keeps: where `out` runs, and that no digit fitted on the way. */
  ghost predicate OnTheWay(lo: string, b: Option<string>, hi: Option<string>, out: string, cut: nat) {
    && Along(out, lo) && Following(out, b, hi, cut)
    && forall j | 0 <= j < |out| :: Fitting(lo, b, out[..j]) == ""
  }

  lemma StepKeepsNoFit(lo: string, b: Option<string>, hi: Option<string>, out: string, cut: nat, c: char)
    requires OnTheWay(lo, b, hi, out, cut)
    requires Fitting(lo, b, out) == ""
    ensures forall j | 0 <= j < |out + [c]| :: Fitting(lo, b, (out + [c])[..j]) == ""
  {
    forall j | 0 <= j < |out + [c]| ensures Fitting(lo, b, (out + [c])[..j]) == "" {
      assert (out + [c])[..j] == out[..j];
      assert out[..|out|] == out;
    }
  }

  /** While the upper end is followed, the lower end's next character is at or below the upper end's. */
  lemma EndsPartInOrder(lo: string, hi: string, out: string)
    requires KeyLess(lo, hi)
    requires Along(out, lo) && out <= hi
    ensures |out| <= |lo| ==> |out| < |hi|
    ensures |out| < |lo| && lo[|out|] != hi[|out|] ==> CharRank(lo[|out|]) < CharRank(hi[|out|])
  {
    var n := LessKeysPart(lo, hi);
    assert forall k | 0 <= k < |out| && k < |lo| :: lo[k] == out[k] == hi[k];
  }

  lemma StepShared(lo: string, b: Option<string>, hi: Option<string>, out: string, cut: nat)
    requires OnTheWay(lo, b, hi, out, cut)
    requires hi.Some? && |out| < |lo| && |out| < |hi.value| && lo[|out|] == hi.value[|out|]
    ensures OnTheWay(lo, b, hi, out + [lo[|out|]], cut)
  {
    FitsAreFitting(lo, b, hi, out, cut);
    var fits := Filter(Digits(), d => LowAt(lo, |out|) < d as int < HighAt(hi, |out|));
    if fits != "" {
      FilterMember(Digits(), d => LowAt(lo, |out|) < d as int < HighAt(hi, |out|), fits[0]);
    }
    StepKeepsNoFit(lo, b, hi, out, cut, lo[|out|]);
  }

  /** The lower end's character is kept, and the upper end passed. */
  lemma StepKeep(lo: string, b: Option<string>, hi: Option<string>, out: string, cut: nat) returns (cut': nat)
    requires OnTheWay(lo, b, hi, out, cut) && Fitting(lo, b, out) == ""
    requires |out| < |lo| && (hi.Some? ==> KeyLess(lo, hi.value) && |out| < |hi.value| && lo[|out|] != hi.value[|out|])
    ensures OnTheWay(lo, b, None, out + [lo[|out|]], cut')
  {
    StepKeepsNoFit(lo, b, hi, out, cut, lo[|out|]);
    if hi.Some? {
      EndsPartInOrder(lo, hi.value, out);
      cut' := StepBelow(lo, b, hi, out, cut, lo[|out|]);
    } else {
      cut' := cut;
      assert b.Some? ==> (out + [lo[|out|]])[..cut] == out[..cut];
    }
  }

  /** A character below the upper end's passes it. */
  lemma StepBelow(lo: string, b: Option<string>, hi: Option<string>, out: string, cut: nat, c: char)
    returns (cut': nat)
    requires OnTheWay(lo, b, hi, out, cut) && Fitting(lo, b, out) == ""
    requires hi.Some? && |out| < |hi.value| && CharRank(c) < CharRank(hi.value[|out|])
    requires |out| < |lo| ==> c == lo[|out|]
    ensures OnTheWay(lo, b, None, out + [c], cut')
  {
    StepKeepsNoFit(lo, b, hi, out, cut, c);
    cut' := |out|;
    assert (out + [c])[..cut'] == out == hi.value[..cut'];
  }

  lemma StepFollow(lo: string, b: Option<string>, hi: Option<string>, out: string, cut: nat)
    requires OnTheWay(lo, b, hi, out, cut) && Fitting(lo, b, out) == ""
    requires hi.Some? && |lo| <= |out| < |hi.value|
    ensures OnTheWay(lo, b, hi, out + [hi.value[|out|]], cut)
  {
    StepKeepsNoFit(lo, b, hi, out, cut, hi.value[|out|]);
  }

  /** With both ends passed there is always a digit, and past `a` only a low upper end leaves none. */
  lemma NoFitMeansLow(lo: string, hi: Option<string>, i: nat)
    requires LowAt(lo, i) < '1' as int
    requires Filter(Digits(), d => LowAt(lo, i) < d as int < HighAt(hi, i)) == ""
    ensures hi.Some? && i < |hi.value| && CharRank(hi.value[i]) <= '1' as int
  {
    DigitsAreDigits();
    FilterMember(Digits(), d => LowAt(lo, i) < d as int < HighAt(hi, i), '1');
  }

  lemma ChosenIsBetween(lo: string, b: Option<string>, k: string)
    requires Chosen(lo, b, k)
    ensures KeyLess(lo, k) && ClearBelow(k, b)
    ensures IsDigit(k[|k|-1])
  {
    var stem := k[..|k|-1];
    var fits := Fitting(lo, b, stem);
    var d := fits[|fits| / 2];
    FilterMember(Digits(), d => KeyLess(lo, stem + [d]) && ClearBelow(stem + [d], b), d);
    DigitsAreDigits();
    assert k == stem + [d];
  }

  // ----- the key's shape -----

  /** Every character so far is a key's, but for the lower end's newline where it stays. */
  ghost predicate KeySoFar(lo: string, b: Option<string>, out: string) {
    && (out != "" ==> IsAlnum(out[0]))
    && forall k | 0 <= k < |out| ::
         IsKeyChar(out[k]) || (k == |lo| - 1 && out[k] == '\n' && NewlineStays(lo, b))
  }

  predicate EndsOk(lo: string, b: Option<string>) {
    && (lo == "" || MatchesKeyRe(lo))
    && (b.Some? ==> MatchesKeyRe(b.value) && KeyLess(lo, b.value))
  }

  lemma KeyReCharacters(k: string)
    requires MatchesKeyRe(k)
    ensures k != "" && IsAlnum(k[0])
    ensures forall i | 0 <= i < |k| :: IsKeyChar(k[i]) || (i == |k| - 1 && k[i] == '\n')
  {
    if !IsKey(k) {
      forall i | 0 <= i < |k| - 1 ensures IsKeyChar(k[i]) {
        assert k[i] == k[..|k|-1][i];
      }
      assert k[0] == k[..|k|-1][0];
    }
  }

  /** The character taken at place `i` keeps `out` a key so far. */
  ghost predicate Takes(lo: string, b: Option<string>, i: nat, c: char) {
    && (i == 0 ==> IsAlnum(c))
    && (IsKeyChar(c) || (i == |lo| - 1 && c == '\n' && NewlineStays(lo, b)))
  }

  lemma TakenCharacter(lo: string, b: Option<string>, out: string, c: char)
    requires KeySoFar(lo, b, out) && Takes(lo, b, |out|, c)
    ensures KeySoFar(lo, b, out + [c])
  {
  }

  lemma SharedCharacter(lo: string, hi: string, out: string)
    requires MatchesKeyRe(lo) && MatchesKeyRe(hi) && KeyLess(lo, hi) && Along(out, lo) && out <= hi
    requires |out| < |lo| && |out| < |hi| && lo[|out|] == hi[|out|]
    ensures Takes(lo, Some(hi), |out|, lo[|out|])
  {
    KeyReCharacters(lo);
    KeyReCharacters(hi);
    if !IsKeyChar(lo[|out|]) {
      assert lo == hi;
      LessIrreflexive(KeyOrder(lo));
    }
  }

  /** Only the lower end's last character can be its newline, and it is kept only where it stays. */
  lemma KeptCharacter(lo: string, b: Option<string>, hi: Option<string>, out: string, cut: nat)
    requires EndsOk(lo, b) && OnTheWay(lo, b, hi, out, cut)
    requires |out| < |lo| && (hi.Some? ==> |out| < |hi.value| && lo[|out|] != hi.value[|out|])
    requires Fitting(lo, b, out) == ""
    ensures Takes(lo, b, |out|, lo[|out|])
  {
    KeyReCharacters(lo);
    if !IsKeyChar(lo[|out|]) {
      FitsAreFitting(lo, b, hi, out, cut);
      NoFitMeansLow(lo, hi, |out|);
      EndsPartInOrder(lo, hi.value, out);
    }
  }

  /** Where the newline stays, both ends are followed up to it. */
  lemma NewlineIsReached(lo: string, b: Option<string>, hi: Option<string>, out: string, cut: nat)
    requires Along(out, lo) && Following(out, b, hi, cut)
    requires |out| < |lo| && (hi.Some? ==> |out| < |hi.value| && lo[|out|] != hi.value[|out|])
    requires NewlineStays(lo, b)
    ensures hi.Some? && |out| == |lo| - 1
  {
    assert forall j | 0 <= j < |lo| - 1 :: lo[j] == lo[..|lo|-1][j] == b.value[j];
  }

  /** Where the newline stays, no digit is found before it is taken. */
  lemma NewlineStaysIsKept(lo: string, b: Option<string>, hi: Option<string>, out: string, cut: nat)
    requires Along(out, lo) && Following(out, b, hi, cut)
    requires |out| < |lo| && (hi.Some? ==> |out| < |hi.value| && lo[|out|] != hi.value[|out|])
    requires NewlineStays(lo, b)
    ensures Fitting(lo, b, out) == ""
  {
    var i := |out|;
    NewlineIsReached(lo, b, hi, out, cut);
    FitsAreFitting(lo, b, hi, out, cut);
    NothingFitsBelow(lo, hi, i);
  }

  lemma NothingFitsBelow(lo: string, hi: Option<string>, i: nat)
    requires HighAt(hi, i) <= '1' as int
    ensures Filter(Digits(), d => LowAt(lo, i) < d as int < HighAt(hi, i)) == ""
  {
    var p := d => LowAt(lo, i) < d as int < HighAt(hi, i);
    if Filter(Digits(), p) != "" {
      FilterMember(Digits(), p, Filter(Digits(), p)[0]);
      DigitsAreDigits();
    }
  }

  lemma ShapeOfResult(lo: string, b: Option<string>, hi: Option<string>, out: string, cut: nat, d: char)
    requires EndsOk(lo, b) && OnTheWay(lo, b, hi, out, cut) && KeySoFar(lo, b, out)
    requires |out| < |lo| && hi.Some? ==> |out| < |hi.value| && lo[|out|] != hi.value[|out|]
    requires Fitting(lo, b, out) != "" && IsDigit(d)
    ensures IsKey(out + [d]) <==> !NewlineStays(lo, b)
  {
    var k := out + [d];
    if NewlineStays(lo, b) {
      if |out| < |lo| {
        NewlineStaysIsKept(lo, b, hi, out, cut);
      }
      assert k[|lo|-1] == '\n';
    } else {
      assert forall j | 0 <= j < |k| :: IsKeyChar(k[j]);
    }
  }

  // ----- the method -----

  /** What the loop has of `b` to fall back on: its longest proper start above `a` that it has reached. */
  function Fallback(lo: string, hi: string, i: nat): Option<string>
    requires i <= |hi|
  {
    if i <= |lo| then None
    else if i < |hi| then Some(hi[..i])
    else if |lo| < |hi| - 1 then Some(hi[..|hi|-1])
    else None
  }

  /** Past `a`, the loop follows `b` over `0`s and `|`s alone. */
  ghost predicate Sunken(lo: string, hi: string, i: nat) {
    && i <= |hi|
    && forall k | |lo| <= k < i ::
         hi[k] == SEP || (hi[k] == '0' && (k + 1 < |hi| || k == 0))
  }

  ghost predicate Invariant(lo: string, b: Option<string>, hi: Option<string>, out: string, cut: nat,
                            between: Option<string>) {
    && OnTheWay(lo, b, hi, out, cut) && KeySoFar(lo, b, out)
    && (if hi.Some? then Sunken(lo, hi.value, |out|) && between == Fallback(lo, hi.value, |out|)
        else !NoRoom(lo, b) && !RunsLow(lo, b))
  }

  /** The loop does not follow `b` at place `i`. */
  ghost predicate Leaves(lo: string, hi: string, i: nat) {
    && i < |hi|
    && if i < |lo| then lo[i] != hi[i]
       else hi[i] != SEP && (hi[i] == '0' ==> i + 1 == |hi| && i > 0)
  }

  lemma LeavingIsRoom(lo: string, hi: string, i: nat)
    requires Leaves(lo, hi, i)
    ensures !NoRoom(lo, Some(hi)) && !RunsLow(lo, Some(hi))
  {
  }

  lemma AtEndOfB(a: Option<string>, hi: string, out: string, cut: nat, between: Option<string>)
    requires EndsOk(a.GetOr(""), Some(hi)) && Invariant(a.GetOr(""), Some(hi), Some(hi), out, cut, between)
    requires |out| == |hi|
    ensures if between.Some? then !NoRoom(a.GetOr(""), Some(hi)) && IsMidpoint(a, Some(hi), between.value)
            else NoRoom(a.GetOr(""), Some(hi))
  {
    var lo := a.GetOr("");
    EndsPartInOrder(lo, hi, out);
    assert out == hi;
    assert lo == hi[..|lo|];
    if between.Some? {
      LongestStart(a, hi);
    } else {
      KeyReCharacters(hi);
      assert hi == hi[..|lo|] + [hi[|lo|]];
    }
  }

  lemma LongestStart(a: Option<string>, hi: string)
    requires MatchesKeyRe(hi) && a.GetOr("") <= hi && |hi| >= |a.GetOr("")| + 2 && Sunken(a.GetOr(""), hi, |hi|)
    ensures !NoRoom(a.GetOr(""), Some(hi)) && IsMidpoint(a, Some(hi), hi[..|hi|-1])
  {
    var lo, k := a.GetOr(""), hi[..|hi|-1];
    KeyReCharacters(hi);
    StartIsBetween(lo, hi, k);
    assert RunsLow(lo, Some(hi));
    assert IsKey(k);
  }

  lemma StartIsBetween(lo: string, hi: string, k: string)
    requires lo <= k <= hi && |lo| < |k| < |hi|
    ensures KeyLess(lo, k) && KeyLess(k, hi)
  {
    PartedKeysAreLess(lo, k, |lo|);
    PartedKeysAreLess(k, hi, |k|);
  }

  lemma AtDigit(a: Option<string>, b: Option<string>, hi: Option<string>, out: string, cut: nat,
                between: Option<string>, fits: string)
    requires EndsOk(a.GetOr(""), b) && Invariant(a.GetOr(""), b, hi, out, cut, between)
    requires hi.Some? ==> |out| < |hi.value|
    requires hi.Some? && |out| < |a.GetOr("")| ==> a.GetOr("")[|out|] != hi.value[|out|]
    requires fits == Filter(Digits(), d => LowAt(a.GetOr(""), |out|) < d as int < HighAt(hi, |out|)) != ""
    ensures !NoRoom(a.GetOr(""), b) && IsMidpoint(a, b, out + [fits[|fits| / 2]])
  {
    var lo := a.GetOr("");
    var d := fits[|fits| / 2];
    var k := out + [d];
    FitsAreFitting(lo, b, hi, out, cut);
    assert k[..|out|] == out;
    assert Chosen(lo, b, k) by {
      forall j | 0 <= j < |out| ensures Fitting(lo, b, out[..j]) == "" {}
    }
    ChosenIsBetween(lo, b, k);
    ShapeOfResult(lo, b, hi, out, cut, d);
    if hi.Some? {
      FilterMember(Digits(), d => LowAt(lo, |out|) < d as int < HighAt(hi, |out|), d);
      DigitsAreDigits();
      LeavingIsRoom(lo, hi.value, |out|);
    }
  }

  lemma AtShared(lo: string, b: Option<string>, hi: Option<string>, out: string, cut: nat, between: Option<string>)
    requires EndsOk(lo, b) && Invariant(lo, b, hi, out, cut, between)
    requires hi.Some? && |out| < |lo| && |out| < |hi.value| && lo[|out|] == hi.value[|out|]
    ensures Invariant(lo, b, hi, out + [lo[|out|]], cut, between)
  {
    StepShared(lo, b, hi, out, cut);
    SharedCharacter(lo, hi.value, out);
    TakenCharacter(lo, b, out, lo[|out|]);
  }

  lemma AtKept(lo: string, b: Option<string>, hi: Option<string>, out: string, cut: nat, between: Option<string>)
    returns (cut': nat)
    requires EndsOk(lo, b) && Invariant(lo, b, hi, out, cut, between) && Fitting(lo, b, out) == ""
    requires |out| < |lo| && (hi.Some? ==> |out| < |hi.value| && lo[|out|] != hi.value[|out|])
    ensures Invariant(lo, b, None, out + [lo[|out|]], cut', between)
  {
    KeptCharacter(lo, b, hi, out, cut);
    TakenCharacter(lo, b, out, lo[|out|]);
    cut' := StepKeep(lo, b, hi, out, cut);
    if hi.Some? {
      LeavingIsRoom(lo, hi.value, |out|);
    }
  }

  lemma AtLower(lo: string, b: Option<string>, hi: string, out: string, cut: nat, between: Option<string>, c: char)
    returns (cut': nat)
    requires EndsOk(lo, b) && Invariant(lo, b, Some(hi), out, cut, between) && Fitting(lo, b, out) == ""
    requires |lo| <= |out| && Leaves(lo, hi, |out|) && CharRank(c) < CharRank(hi[|out|])
    requires c == '0' || (c == SEP && out != "")
    ensures Invariant(lo, b, None, out + [c], cut', between)
  {
    TakenCharacter(lo, b, out, c);
    cut' := StepBelow(lo, b, Some(hi), out, cut, c);
    LeavingIsRoom(lo, hi, |out|);
  }

  lemma AtFollowed(lo: string, b: Option<string>, hi: string, out: string, cut: nat, between: Option<string>)
    requires EndsOk(lo, b) && Invariant(lo, b, Some(hi), out, cut, between) && Fitting(lo, b, out) == ""
    requires |lo| <= |out| < |hi|
    requires hi[|out|] == SEP || (hi[|out|] == '0' && (|out| + 1 < |hi| || out == ""))
    ensures var next := out + [hi[|out|]];
            && |next| > |lo| && MatchesKeyRe(next)
            && Invariant(lo, b, Some(hi), next, cut, if next != hi then Some(next) else between)
  {
    var next := out + [hi[|out|]];
    StepFollow(lo, b, Some(hi), out, cut);
    KeyReCharacters(hi);
    TakenCharacter(lo, b, out, hi[|out|]);
    assert next == hi[..|next|];
    assert IsKey(next);
  }

  /** Where no digit fits and `b`'s first character is reached, it is a `0`. */
  lemma FirstIsZero(hi: string)
    requires MatchesKeyRe(hi) && CharRank(hi[0]) <= '0' as int
    ensures hi[0] == '0'
  {
    KeyReCharacters(hi);
  }

  // ----- what follows from being a midpoint -----

  ghost predicate KeyBetween(a: Option<string>, b: Option<string>) {
    exists k :: IsKey(k) && Above(a, k) && Below(k, b)
  }

  /** Where midpoint refuses there is indeed nothing: no key lies strictly between the ends. */
  lemma NoKeyWhereNoRoom(a: Option<string>, b: Option<string>)
    requires a.Some? ==> a.value != ""
    requires NoRoom(a.GetOr(""), b)
    ensures !KeyBetween(a, b)
  {
    var lo := a.GetOr("");
    assert |lo| <= |b.value| && forall j | 0 <= j < |lo| :: b.value[j] == lo[j];
    forall k | IsKey(k) && Above(a, k) ensures !Below(k, b) {
      if Below(k, b) {
        var m := LessKeysPart(k, b.value);
        if a.Some? {
          var n := LessKeysPart(lo, k);
          assert forall j | 0 <= j < m :: k[j] == b.value[j];
          assert forall j | 0 <= j < n :: k[j] == lo[j];
        }
      }
    }
  }

  /** Room again: after a midpoint ending in a digit, both halves can be split once more. */
  lemma RoomAgain(a: Option<string>, b: Option<string>, k: string)
    requires IsMidpoint(a, b, k) && !RunsLow(a.GetOr(""), b)
    ensures IsDigit(k[|k|-1])
    ensures !NoRoom(a.GetOr(""), Some(k)) && !NoRoom(k, b)
  {
    ChosenIsBetween(a.GetOr(""), b, k);
  }

  /** After a start of `b` there is never room above it, and below it only if `b` had two more to give. */
  lemma NoRoomAfterStart(a: Option<string>, b: Option<string>, k: string)
    requires IsMidpoint(a, b, k) && RunsLow(a.GetOr(""), b)
    ensures NoRoom(k, b)
    ensures NoRoom(a.GetOr(""), Some(k)) <==>
            |b.value| == |a.GetOr("")| + 2 && (b.value[|b.value|-2] == SEP || a.GetOr("") == "")
  {
    var lo := a.GetOr("");
    assert b.value == k + [SEP];
    assert k[..|lo|] == lo;
    if |k| == |lo| + 1 {
      assert k == lo + [k[|lo|]];
    }
  }

  /** There is such a start: between `a` and `a||` midpoint finds `a|`, and between that and `a||` nothing. */
  lemma StartOfB(k: string)
    ensures !NoRoom("a", Some("a||")) && RunsLow("a", Some("a||"))
    ensures IsMidpoint(Some("a"), Some("a||"), k) ==> k == "a|" && NoRoom(k, Some("a||"))
  {
    assert "a||"[..2] == "a|" == "a" + [SEP];
  }

  /** KEY_RE lets one last newline through, and between such ends the result may be no key. */
  lemma NewlineCarriedOver(k: string)
    requires IsMidpoint(Some("a\n"), Some("a-"), k)
    ensures MatchesKeyRe("a\n") && MatchesKeyRe("a-") && KeyLess("a\n", "a-") && !MatchesKeyRe(k)
  {
    assert "a\n"[..1] == "a" == "a-"[..1];
    assert IsKey("a") && IsKey("a-");
    PartedKeysAreLess("a\n", "a-", 1);
    assert NewlineStays("a\n", Some("a-"));
    var d := LessKeysPart("a\n", k);
    var e := LessKeysPart(k, "a-");
    ChosenIsBetween("a\n", Some("a-"), k);
    DigitsAreDigits();
  }

  /** Between proper keys, whatever midpoint finds is a proper key. */
  lemma FoundIsKey(a: Option<string>, b: Option<string>, k: string)
    requires IsMidpoint(a, b, k)
    ensures (a.Some? ==> IsKey(a.value)) && (b.Some? ==> IsKey(b.value)) ==> IsKey(k) && KeyBetween(a, b)
  {
    assert (a.Some? ==> IsKey(a.value)) && (b.Some? ==> IsKey(b.value)) ==> !NewlineStays(a.GetOr(""), b);
  }

  method Midpoint(a: Option<string>, b: Option<string>) returns (r: Result<string, Refusal>)
    ensures r == Err(NotAKey) <==> (a.Some? && !MatchesKeyRe(a.value)) || (b.Some? && !MatchesKeyRe(b.value))
    ensures r != Err(NotAKey) ==> (r == Err(NotInOrder) <==> b.Some? && !KeyLess(a.GetOr(""), b.value))
    ensures r.Ok? || r == Err(NoKeyBetween) ==> (r.Ok? <==> !NoRoom(a.GetOr(""), b))
    ensures r.Ok? ==> IsMidpoint(a, b, r.value)
    ensures (a.Some? ==> IsKey(a.value)) && (b.Some? ==> IsKey(b.value) && KeyLess(a.GetOr(""), b.value)) ==>
            (r == Err(NoKeyBetween) <==> !KeyBetween(a, b)) && (r.Ok? ==> IsKey(r.value))
  {
    if (a.Some? && !MatchesKeyRe(a.value)) || (b.Some? && !MatchesKeyRe(b.value)) {
      return Err(NotAKey);
    }
    var lo, hi := a.GetOr(""), b;
    if hi.Some? && !KeyLess(lo, hi.value) {
      return Err(NotInOrder);
    }
    var out, i := "", 0;
    var between: Option<string> := None;
    ghost var cut := 0;
    while true
      invariant i == |out|
      invariant Invariant(lo, b, hi, out, cut, between)
      decreases hi.Some?, if hi.Some? then |hi.value| - i else |lo| - i
    {
      var ca := if i < |lo| then Some(lo[i]) else None;
      var cb := if hi.Some? && i < |hi.value| then Some(hi.value[i]) else None;
      if hi.Some? && cb.None? {
        AtEndOfB(a, hi.value, out, cut, between);
        if between.Some? {
          FoundIsKey(a, b, between.value);
          return Ok(between.value);
        }
        NoKeyWhereNoRoom(a, b);
        return Err(NoKeyBetween);
      }
      if ca.Some? && ca == cb {
        AtShared(lo, b, hi, out, cut, between);
        out := out + [ca.value];
        i := i + 1;
        continue;
      }
      var low := if ca.Some? then CharRank(ca.value) else NO_LOW;
      var high := if cb.Some? then CharRank(cb.value) else NO_HIGH;
      var fits := Filter(Digits(), d => low < d as int < high);
      assert fits == Filter(Digits(), d => LowAt(lo, i) < d as int < HighAt(hi, i)) by {
        FilterAgree(Digits(), d => low < d as int < high, d => LowAt(lo, i) < d as int < HighAt(hi, i));
      }
      if fits != "" {
        AtDigit(a, b, hi, out, cut, between, fits);
        FoundIsKey(a, b, out + [fits[|fits| / 2]]);
        return Ok(out + [fits[|fits| / 2]]);
      }
      FitsAreFitting(lo, b, hi, out, cut);
      if ca.Some? {
        cut := AtKept(lo, b, hi, out, cut, between);
        out := out + [ca.value];
        hi := None;
      } else {
        NoFitMeansLow(lo, hi, i);
        if '0' as int < high {
          cut := AtLower(lo, b, hi.value, out, cut, between, '0');
          out := out + ['0'];
          hi := None;
        } else if (cb == Some('0') && i + 1 < |hi.value|) || cb == Some(SEP) || out == "" {
          if out == "" {
            FirstIsZero(hi.value);
          }
          AtFollowed(lo, b, hi.value, out, cut, between);
          out := out + [cb.value];
          if |out| > |lo| && MatchesKeyRe(out) && out != hi.value {
            between := Some(out);
          }
        } else {
          cut := AtLower(lo, b, hi.value, out, cut, between, SEP);
          out := out + [SEP];
          hi := None;
        }
      }
      i := i + 1;
    }
  }
}
