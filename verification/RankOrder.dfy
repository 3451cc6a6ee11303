/** The rank file's order, said of the keys themselves: when a file whose entries ascend is written so that they do.
    scripts/ledgerboard.py's set_rank, against what its rank reads and flags. */
module RankOrder {
  import opened Common
  import opened Keys
  import opened TextLines
  import opened RankLines
  import opened RankFile
  import opened RankFileLaws
  import opened RankFileIO
  import opened Pairs

  /** `g` may come after `f`: its key is not lower, nor at one key its number. */
  predicate Ordered(f: Entry, g: Entry) {
    !KeyLess(g.key, f.key) && (f.key == g.key ==> Num(f.id) <= Num(g.id))
  }

  /** The entries read ascend by key, then number. */
  ghost predicate Ascend(read: seq<Entry>) {
    AllPairs(read, Ordered)
  }

  lemma OrderedIff(f: Entry, g: Entry)
    ensures Ordered(f, g) <==> !EntryLess(g, f)
  {
  }

  /** Two entries stand in order one way or the other, and an entry below one below a third is below the third. */
  lemma OrderedLaws(x: Entry, e: Entry, g: Entry)
    ensures !Ordered(g, e) ==> Ordered(e, g)
    ensures !Ordered(e, x) && !Ordered(g, e) ==> !Ordered(g, x)
  {
    if EntryLess(e, g) {
      EntryLessAsymmetric(e, g);
      if EntryLess(x, e) {
        EntryLessTransitive(x, e, g);
      }
    }
  }

  // ----- lines as set_rank sees them -----

  /** The entry a line has the form of; a line of that form with a key that is none is read as no entry. */
  function Shapes(lines: seq<string>): seq<Option<Entry>> {
    Mapped(lines, Shape)
  }

  predicate IsRead(shape: Option<Entry>) {
    shape.Some? && IsKey(shape.value.key)
  }

  predicate InTurn(a: Option<Entry>, b: Option<Entry>) {
    IsRead(a) && IsRead(b) ==> Ordered(a.value, b.value)
  }

  ghost predicate Ascending(p: seq<Option<Entry>>) {
    AllPairs(p, InTurn)
  }

  /** A line of the form whose key is none sorts above the new entry, and an entry below it in the file sorts below. */
  ghost predicate Misled(p: seq<Option<Entry>>, e: Entry) {
    SomePair(p, MisledBy(e))
  }

  function MisledBy(e: Entry): (Option<Entry>, Option<Entry>) -> bool {
    (above, below) => MisledAt(above, below, e)
  }

  predicate MisledAt(above: Option<Entry>, below: Option<Entry>, e: Entry) {
    && above.Some? && !IsRead(above) && !Ordered(above.value, e)
    && IsRead(below) && !Ordered(e, below.value)
  }

  /** Not above `e`: a line that a new one may go after. */
  predicate NotAbove(shape: Option<Entry>, e: Entry) {
    shape.Some? ==> Ordered(shape.value, e)
  }

  /** `n` is before the first line that sorts above `e`. */
  ghost predicate IsPlace(p: seq<Option<Entry>>, n: nat, e: Entry) {
    && n <= |p| && (forall i | 0 <= i < n :: NotAbove(p[i], e))
    && (n < |p| ==> !NotAbove(p[n], e))
  }

  /** After the place, what is out of turn is what misleads. */
  lemma AfterThePlace(above: Option<Entry>, below: Option<Entry>, e: Entry)
    requires IsKey(e.key) && !NotAbove(above, e) && InTurn(above, below)
    ensures InTurn(Some(e), below) <==> !MisledAt(above, below, e)
    ensures InTurn(Some(e), above)
  {
    if below.Some? {
      OrderedLaws(below.value, e, above.value);
    }
    OrderedLaws(e, e, above.value);
  }

  lemma SelfInTurn(shape: Option<Entry>)
    ensures InTurn(shape, shape)
  {
    if shape.Some? {
      LessIrreflexive(KeyOrder(shape.value.key));
    }
  }

  lemma MisledAfterThePlace(p: seq<Option<Entry>>, n: nat, e: Entry)
    requires IsPlace(p, n, e) && IsKey(e.key) && Ascending(p)
    ensures Misled(p, e) <==> exists j :: n <= j < |p| && !InTurn(Some(e), p[j])
  {
    if i, j :| 0 <= i < j < |p| && MisledBy(e)(p[i], p[j]) {
      assert !NotAbove(p[i], e);
      assert n <= i < j && !InTurn(Some(e), p[j]);
    }
    if j :| n <= j < |p| && !InTurn(Some(e), p[j]) {
      SelfInTurn(p[n]);
      AfterThePlace(p[n], p[j], e);
      assert n < j && MisledBy(e)(p[n], p[j]);
    }
  }

  /** A new entry leaves the file ascending exactly when it was, and the entry is not misled. */
  lemma SpliceAscends(p: seq<Option<Entry>>, n: nat, e: Entry)
    requires IsPlace(p, n, e) && IsKey(e.key)
    ensures Ascending(Spliced(p, n, Some(e))) <==> Ascending(p) && !Misled(p, e)
  {
    SplicePairs(p, n, Some(e), InTurn);
    forall i | 0 <= i < n ensures InTurn(p[i], Some(e)) {
      assert NotAbove(p[i], e);
    }
    if Ascending(p) {
      MisledAfterThePlace(p, n, e);
    }
  }

  /** One new entry misleads no other. */
  lemma SpliceMisleadsNone(p: seq<Option<Entry>>, n: nat, e: Entry, f: Entry)
    requires IsPlace(p, n, e) && IsKey(e.key)
    ensures Misled(Spliced(p, n, Some(e)), f) <==> Misled(p, f)
  {
    SpliceSomePair(p, n, Some(e), MisledBy(f));
    forall i | 0 <= i < n ensures !MisledBy(f)(p[i], Some(e)) {
      assert NotAbove(p[i], e);
      if p[i].Some? {
        OrderedLaws(e, f, p[i].value);
      }
    }
  }

  // ----- the lines written -----

  function Shape(line: string): Option<Entry> {
    Parse(Stripped(line))
  }

  lemma PlaceIsPlace(lines: seq<string>, e: Entry)
    ensures IsPlace(Shapes(lines), Place(lines, e), e)
  {
    var n := Place(lines, e);
    forall i | 0 <= i < |lines| ensures NotAbove(Shapes(lines)[i], e) <==> !SortsAbove(lines[i], e) {
      if Shape(lines[i]).Some? {
        OrderedIff(Shape(lines[i]).value, e);
      }
    }
    assert n < |lines| ==> SortsAbove(lines[n], e);
  }

  lemma ShapesOfInsert(lines: seq<string>, e: Entry, nl: string)
    requires IsId(e.id) && IsKey(e.key) && IsEnding(nl)
    ensures Shapes(Insert(lines, e, nl)) == Spliced(Shapes(lines), Place(lines, e), Some(e))
  {
    WrittenLine(e, nl);
    assert Shape(Line(e, nl)) == Some(e);
    MappedSpliced(lines, Place(lines, e), Line(e, nl), Shape);
  }

  lemma {:induction false} InsertAllAscends(lines: seq<string>, es: seq<Entry>, nl: string)
    requires ProperEntries(es) && IsEnding(nl)
    ensures Ascending(Shapes(InsertAll(lines, es, nl))) <==>
            Ascending(Shapes(lines)) && forall e | e in es :: !Misled(Shapes(lines), e)
    decreases |es|
  {
    if es != [] {
      var e, p := es[0], Shapes(lines);
      var n, next := Place(lines, e), Insert(lines, e, nl);
      PlaceIsPlace(lines, e);
      ShapesOfInsert(lines, e, nl);
      SpliceAscends(p, n, e);
      InsertAllAscends(next, es[1..], nl);
      forall f | f in es[1..] ensures Misled(Shapes(next), f) <==> Misled(p, f) {
        SpliceMisleadsNone(p, n, e, f);
      }
      assert forall f :: f in es <==> f == e || f in es[1..];
    }
  }

  // ----- what is read of them -----

  lemma EntriesOfWhole(line: string)
    requires IsWhole(line)
    ensures var shape := Parse(Stripped(line));
            Entries(line) == if IsRead(shape) then [shape.value] else []
  {
    WholeBody(line);
    var body := Body(line);
    if Parse(body).Some? {
      var e := Parse(body).value;
      var gap, end := ParsedReads(body);
      if IsKey(e.key) {
        ParsedIsHeld(body, e);
      } else if MatchesKeyRe(e.key) {
        WordIsKey(e.key);
      }
    }
  }

  /** What is read of each line, one after another. */
  function ReadOf(shape: Option<Entry>): seq<Entry> {
    if IsRead(shape) then [shape.value] else []
  }

  lemma ReadingIsOfShapes(lines: seq<string>)
    requires AllWhole(lines)
    ensures Reading(lines) == Collect(Shapes(lines), ReadOf)
  {
    forall l | l in lines ensures Entries(l) == ReadOf(Shape(l)) {
      EntriesOfWhole(l);
    }
    CollectMapped(lines, Shape, ReadOf, Entries);
  }

  /** What is read ascends exactly when the lines that are read do. */
  lemma ReadingAscends(lines: seq<string>)
    requires AllWhole(lines)
    ensures Ascend(Reading(lines)) <==> Ascending(Shapes(lines))
  {
    ReadingIsOfShapes(lines);
    CollectPairs(Shapes(lines), ReadOf, Ordered);
    PairsAgree(Shapes(lines), Lifted(ReadOf, Ordered), InTurn);
  }

  // ----- the file -----

  /** The lines that stay. */
  function Kept(text: string, us: seq<Update>): seq<string> {
    Filter(Source(text), Other(Ids(us)))
  }

  /** The file written ascends exactly when the entries that stay do, and no new entry is misled by a line with the
      form of an entry and no key. */
  lemma WrittenAscendsIff(text: string, us: seq<Update>)
    requires IsPlain(text) && NoNewline(us)
    ensures Ascend(Reading(Split(Written(text, us)))) <==>
            && Ascend(Reading(Kept(text, us)))
            && forall e: Entry | (e.id, Some(e.key)) in us :: !Misled(Shapes(Kept(text, us)), e)
  {
    var kept, es := Kept(text, us), SortEntries(Wants(us));
    WrittenLines(text, us);
    SourceIsWhole(text);
    FilterMembers(Source(text), Other(Ids(us)));
    ReadingAscends(kept);
    ReadingAscends(Split(Written(text, us)));
    WantsAreProper(us);
    SortedWants(us);
    InsertAllAscends(kept, es, Ending(text));
  }

  /** No line of the file has the form of an entry and a key that is none. */
  ghost predicate EveryLineReads(lines: seq<string>) {
    forall l | l in lines && Shape(l).Some? :: IsRead(Shape(l))
  }

  lemma NoneMisled(lines: seq<string>, e: Entry)
    requires EveryLineReads(lines)
    ensures !Misled(Shapes(lines), e)
  {
    forall i, j | 0 <= i < j < |lines| ensures !MisledBy(e)(Shapes(lines)[i], Shapes(lines)[j]) {
      assert lines[i] in lines && Shapes(lines)[i] == Shape(lines[i]);
    }
  }

  /** Dropping lines leaves the rest in turn. */
  lemma FilteredAscends(lines: seq<string>, keep: string -> bool)
    requires Ascending(Shapes(lines))
    ensures Ascending(Shapes(Filter(lines, keep)))
  {
    var ok := (a: string, b: string) => InTurn(Shape(a), Shape(b));
    MappedPairs(lines, Shape, InTurn, ok);
    FilterPairs(lines, keep, ok);
    MappedPairs(Filter(lines, keep), Shape, InTurn, ok);
  }

  lemma FilteredReadingAscends(lines: seq<string>, keep: string -> bool)
    requires AllWhole(lines) && Ascend(Reading(lines))
    ensures Ascend(Reading(Filter(lines, keep)))
  {
    FilterMembers(lines, keep);
    ReadingAscends(lines);
    FilteredAscends(lines, keep);
    ReadingAscends(Filter(lines, keep));
  }

  lemma SourceReads(text: string)
    requires IsPlain(text)
    ensures Reading(Source(text)) == Reading(Split(text)) && AllWhole(Source(text))
  {
    SourceIsWhole(text);
  }

  lemma KeptAscends(text: string, us: seq<Update>)
    requires IsPlain(text) && Ascend(Reading(Split(text)))
    ensures Ascend(Reading(Kept(text, us)))
  {
    SourceReads(text);
    FilteredReadingAscends(Source(text), Other(Ids(us)));
  }

  lemma MappedPairs<A(!new), B(!new)>(s: seq<A>, f: A -> B, ok: (B, B) -> bool, p: (A, A) -> bool)
    requires forall a, b :: p(a, b) == ok(f(a), f(b))
    ensures AllPairs(Mapped(s, f), ok) <==> AllPairs(s, p)
  {
    var t := Mapped(s, f);
    assert forall i, j | 0 <= i < j < |s| :: ok(t[i], t[j]) == p(s[i], s[j]);
  }

  lemma FilterPairs<T(!new)>(s: seq<T>, keep: T -> bool, ok: (T, T) -> bool)
    requires AllPairs(s, ok)
    ensures AllPairs(Filter(s, keep), ok)
  {
    FilterKeepsPairs(s, keep, ok);
  }

  /** A file whose entries ascend by key, then number, and each of whose entry lines reads, is written so that they
      do; and rank then flags no line of it out of key order. */
  lemma AscendingStaysAscending(text: string, us: seq<Update>)
    requires IsPlain(text) && NoNewline(us) && Ascend(Reading(Split(text))) && EveryLineReads(Source(text))
    ensures Ascend(Reading(Split(Written(text, us))))
    ensures !SaysUnordered(Flags(Classes(Split(Written(text, us)))))
  {
    KeptAscends(text, us);
    FilterMembers(Source(text), Other(Ids(us)));
    forall e: Entry | (e.id, Some(e.key)) in us ensures !Misled(Shapes(Kept(text, us)), e) {
      NoneMisled(Kept(text, us), e);
    }
    WrittenAscendsIff(text, us);
    AscendingIsNotFlagged(Split(Written(text, us)));
  }

  lemma AscendingIsNotFlagged(lines: seq<string>)
    requires Ascend(Reading(lines))
    ensures !SaysUnordered(Flags(Classes(lines)))
  {
    ReadingByClass(lines);
    FlaggedIffUnordered(Classes(lines));
    ItemsAscend(Reading(lines));
  }

  lemma {:induction false} ItemsAscend(read: seq<Entry>)
    requires Ascend(read)
    ensures KeysAscend(Items(read)) && forall e | e in Items(read) :: e in read
  {
    if read != [] {
      var n := |read| - 1;
      var front := read[..n];
      assert forall i, j | 0 <= i < j < n :: Ordered(read[i], read[j]);
      ItemsAscend(front);
      var items := Items(front);
      LastKey(items, read[n]);
      if items != [] {
        var e := items[|items|-1];
        assert e in items;
        var i :| 0 <= i < n && front[i] == e;
        assert Ordered(read[i], read[n]);
      }
    }
  }

  // ----- where it fails -----

  /** The lines of `u`, whose key is none, and `d`, in that file order, with `e` between the two. */
  ghost predicate Misleads(u: Entry, d: Entry, e: Entry) {
    && IsId(u.id) && IsWord(u.key) && !IsKey(u.key)
    && IsId(d.id) && IsKey(d.key) && IsId(e.id) && IsKey(e.key)
    && u.id != e.id && d.id != e.id
    && KeyLess(e.key, u.key) && KeyLess(d.key, e.key)
  }

  lemma WordLine(e: Entry)
    requires IsId(e.id) && IsWord(e.key)
    ensures IsWhole(Line(e, "\n")) && Shape(Line(e, "\n")) == Some(e)
  {
    var line, text := Line(e, "\n"), e.id + ":" + " " + e.key + "";
    assert line == text + "\n" && line[..|text|] == text;
    forall i | 0 <= i < |text| ensures !IsBreak(text[i]) {
      assert i < 3 ==> text[i] == e.id[..3][i] && e.id[..3] == "TD-";
      assert 3 <= i < |e.id| ==> text[i] == e.id[i];
      assert i >= |e.id| + 2 ==> text[i] == e.key[i-|e.id|-2] && IsWordChar(e.key[i-|e.id|-2]);
    }
    WholeBody(line);
    assert Stripped(line) == text;
    ParseReads(text, e, " ", "");
  }

  lemma FilterBoth<T>(x: T, y: T, keep: T -> bool)
    requires keep(x) && keep(y)
    ensures Filter([x, y], keep) == [x, y]
  {
    assert [x, y][1..] == [y] && [y][1..] == [];
    assert Filter([y], keep) == [y] + Filter([y][1..], keep) == [y];
  }

  lemma OneSet(e: Entry, us: seq<Update>)
    requires us == [(e.id, Some(e.key))] && IsId(e.id) && IsKey(e.key)
    ensures IsMapping(us) && Accepted(us) && NoNewline(us) && Ids(us) == {e.id} && (e.id, Some(e.key)) in us
  {
    assert us[0] in us;
  }

  lemma TwoShapes(u: Entry, d: Entry, e: Entry)
    requires Misleads(u, d, e)
    ensures Ascending([Some(u), Some(d)]) && Misled([Some(u), Some(d)], e)
  {
    LessAsymmetric(KeyOrder(e.key), KeyOrder(u.key));
    assert MisledBy(e)([Some(u), Some(d)][0], [Some(u), Some(d)][1]);
  }

  lemma TwoLinesKept(u: Entry, d: Entry, e: Entry, text: string, us: seq<Update>)
    requires Misleads(u, d, e) && us == [(e.id, Some(e.key))] && text == Line(u, "\n") + Line(d, "\n")
    ensures IsPlain(text) && Source(text) == Kept(text, us)
    ensures Shapes(Kept(text, us)) == [Some(u), Some(d)]
  {
    var x, y := Line(u, "\n"), Line(d, "\n");
    WordLine(u);
    KeyHasNoSpace(d.key);
    WordLine(d);
    PlainLinesJoined(x, y);
    TwoLineFile(text, x, y);
    OneSet(e, us);
    FilterBoth(x, y, Other(Ids(us)));
  }

  lemma MisledBetween(u: Entry, d: Entry, e: Entry, text: string, us: seq<Update>)
    requires Misleads(u, d, e) && us == [(e.id, Some(e.key))] && text == Line(u, "\n") + Line(d, "\n")
    ensures IsPlain(text) && IsMapping(us) && Accepted(us) && NoNewline(us)
    ensures Ascend(Reading(Split(text))) && !Ascend(Reading(Split(Written(text, us))))
  {
    TwoLinesKept(u, d, e, text, us);
    OneSet(e, us);
    TwoShapes(u, d, e);
    SourceReads(text);
    ReadingAscends(Source(text));
    WrittenAscendsIff(text, us);
  }

  /** An entry is misled: a line whose key is none stands above one that reads, the new key between the two. The new
      line then goes before both, and the file ascends no more. */
  lemma MisledIsOutOfOrder() returns (text: string, us: seq<Update>)
    ensures text == "TD-9: ~\n" + "TD-1: a\n" && us == [("TD-2", Some("b"))]
    ensures IsPlain(text) && IsMapping(us) && Accepted(us) && NoNewline(us)
    ensures Ascend(Reading(Split(text))) && !Ascend(Reading(Split(Written(text, us))))
  {
    var u, d, e := Entry("TD-9", "~"), Entry("TD-1", "a"), Entry("TD-2", "b");
    TheseMislead(u, d, e);
    text, us := Line(u, "\n") + Line(d, "\n"), [(e.id, Some(e.key))];
    MisledBetween(u, d, e, text, us);
  }

  lemma TheseMislead(u: Entry, d: Entry, e: Entry)
    requires u == Entry("TD-9", "~") && d == Entry("TD-1", "a") && e == Entry("TD-2", "b")
    ensures Misleads(u, d, e) && Line(u, "\n") == "TD-9: ~\n" && Line(d, "\n") == "TD-1: a\n"
  {
    assert u.id[..3] == d.id[..3] == e.id[..3] == "TD-";
    PartedKeysAreLess("b", "~", 0);
    PartedKeysAreLess("a", "b", 0);
    assert Line(u, "\n") == "TD-9: ~\n" && Line(d, "\n") == "TD-1: a\n";
    assert u.id[3] != e.id[3] && d.id[3] != e.id[3];
  }
}
