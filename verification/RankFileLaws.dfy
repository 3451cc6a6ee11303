/** What rewriting the rank file keeps: reading back, the other lines, the order, and doing it twice. */
module RankFileLaws {
  import opened Common
  import opened Keys
  import opened TextLines
  import opened RankLines
  import opened RankFile

  // ----- the source lines -----

  lemma WholeWithNewline(line: string)
    requires Unbroken(line)
    ensures IsWhole(line + "\n") && Body(line + "\n") == line
  {
    var whole := line + "\n";
    assert whole[..|whole|-1] == line && whole[|whole|-1] == '\n';
    assert |line| >= 1 ==> whole[|line|-1] == line[|line|-1] && !IsBreak(line[|line|-1]);
  }

  lemma WholeWithReturn(line: string)
    requires Unbroken(line)
    ensures IsWhole(line + "\r\n") && Body(line + "\r\n") == line
  {
    var whole := line + "\r\n";
    assert whole[..|whole|-2] == line && whole[|whole|-1] == '\n' && whole[|whole|-2] == '\r';
  }

  lemma FirstHeaderUnbroken()
    ensures Unbroken(Header(0))
  {
    assert Unbroken("# The rank: one ") && Unbroken("`TD-NNN: <key>` ") && Unbroken("line per entry, ");
    assert Unbroken("sorted by key ") && Unbroken("(ledgerboard SPEC, ") && Unbroken("The rank).");
  }

  lemma SecondHeaderUnbroken()
    ensures Unbroken(Header(1))
  {
    assert Unbroken("# Written by a tool; ") && Unbroken("read only through ") && Unbroken("ledgerboard's rank().");
  }

  lemma HashIsNoEntry(line: string)
    requires line != "" && line[0] == '#'
    ensures Parse(line) == None && Classify(line) == Comment
  {
    assert |line| >= 3 ==> line[..3][0] == '#' && "TD-"[0] == 'T';
    assert !IsSpace(line[0]);
  }

  lemma HeaderLine(i: nat, nl: string)
    requires i < 2 && IsEnding(nl)
    ensures IsWhole(Header(i) + nl) && Entries(Header(i) + nl) == []
    ensures Parse(Stripped(Header(i) + nl)) == None
  {
    if i == 0 {
      FirstHeaderUnbroken();
    } else {
      SecondHeaderUnbroken();
    }
    WholeWithNewline(Header(i));
    WholeWithReturn(Header(i));
    WholeBody(Header(i) + nl);
    assert Header(i)[0] == '#';
    HashIsNoEntry(Header(i));
  }

  lemma TwoLines(x: string, y: string)
    requires IsWhole(x) && IsWhole(y) && Entries(x) == [] && Entries(y) == []
    ensures AllWhole([x, y]) && Reading([x, y]) == []
  {
    assert [x, y][1..] == [y];
    CollectOne(y, Entries);
  }

  lemma EmptySourceLines()
    ensures Source("") == [Header(0) + "\n", Header(1) + "\n"]
  {
    assert (Header(1) + "\n")[|Header(1)|] == '\n';
  }

  lemma EmptySource()
    ensures AllWhole(Source("")) && Reading(Source("")) == []
    ensures |Source("")| == 2 && Parse(Stripped(Source("")[0])) == None
  {
    EmptySourceLines();
    HeaderLine(0, "\n");
    HeaderLine(1, "\n");
    TwoLines(Header(0) + "\n", Header(1) + "\n");
  }

  lemma UnendedBody(line: string)
    requires Unbroken(line)
    ensures Body(line) == line
  {
    assert line != "" ==> !IsBreak(line[|line|-1]) && line[|line|-1] != '\n';
  }

  lemma SameEntries(x: string, y: string)
    requires Body(x) == Body(y)
    ensures Entries(x) == Entries(y)
  {
  }

  lemma WholeAppended(front: seq<string>, line: string)
    requires AllWhole(front) && IsWhole(line)
    ensures AllWhole(front + [line])
  {
  }

  /** A last line without an ending gets one, and reads the same. */
  lemma EndedSource(front: seq<string>, last: string, nl: string)
    requires Unbroken(last) && IsEnding(nl)
    ensures Reading(front + [last + nl]) == Reading(front + [last])
  {
    WholeWithNewline(last);
    WholeWithReturn(last);
    UnendedBody(last);
    SameEntries(last + nl, last);
    CollectSameLast(front, last, last + nl, Entries);
  }

  lemma SourceOfSplit(text: string, front: seq<string>, last: string)
    requires text != "" && Split(text) == front + [last] && last != ""
    ensures Source(text) == if last[|last|-1] == '\n' then Split(text) else front + [last + Ending(text)]
  {
    assert (front + [last])[..|front|] == front;
  }

  lemma SourceIsWhole(text: string)
    requires IsPlain(text)
    ensures AllWhole(Source(text)) && Source(text) != []
    ensures Reading(Source(text)) == Reading(Split(text))
  {
    if text == "" {
      EmptySource();
    } else {
      PlainLines(text);
      var src := Split(text);
      var front, last := src[..|src|-1], src[|src|-1];
      assert src == front + [last];
      assert forall i | 0 <= i < |front| :: front[i] == src[i];
      SourceOfSplit(text, front, last);
      if last[|last|-1] == '\n' {
        WholeAppended(front, last);
      } else {
        EndedSource(front, last, Ending(text));
        WholeWithNewline(last);
        WholeWithReturn(last);
        WholeAppended(front, last + Ending(text));
      }
    }
  }

  // ----- the entries to set -----

  lemma {:induction false} WantsMember(us: seq<Update>, e: Entry)
    ensures e in Wants(us) <==> (e.id, Some(e.key)) in us
  {
    if us != [] {
      WantsMember(us[1..], e);
      assert forall u :: u in us <==> u == us[0] || u in us[1..];
    }
  }

  lemma {:induction false} InsertEntryMember(e: Entry, es: seq<Entry>, x: Entry)
    ensures x in InsertEntry(e, es) <==> x == e || x in es
  {
    if es != [] && EntryLess(es[0], e) {
      InsertEntryMember(e, es[1..], x);
    }
  }

  lemma {:induction false} SortMember(es: seq<Entry>, x: Entry)
    ensures x in SortEntries(es) <==> x in es
  {
    if es != [] {
      SortMember(es[1..], x);
      InsertEntryMember(es[0], SortEntries(es[1..]), x);
    }
  }

  lemma SortedWants(us: seq<Update>)
    ensures forall e :: e in SortEntries(Wants(us)) <==> (e.id, Some(e.key)) in us
  {
    forall e ensures e in SortEntries(Wants(us)) <==> (e.id, Some(e.key)) in us {
      SortMember(Wants(us), e);
      WantsMember(us, e);
    }
  }

  lemma WantsAreProper(us: seq<Update>)
    requires NoNewline(us)
    ensures ProperEntries(SortEntries(Wants(us)))
  {
    SortedWants(us);
  }

  // ----- reading back -----

  lemma {:induction false} InsertAllIsWhole(lines: seq<string>, es: seq<Entry>, nl: string)
    requires AllWhole(lines) && ProperEntries(es) && IsEnding(nl)
    ensures AllWhole(InsertAll(lines, es, nl))
    decreases |es|
  {
    if es != [] {
      WrittenLine(es[0], nl);
      assert AllWhole(Insert(lines, es[0], nl)) by {
        forall l | l in Insert(lines, es[0], nl) ensures IsWhole(l) {}
      }
      InsertAllIsWhole(Insert(lines, es[0], nl), es[1..], nl);
    }
  }

  /** The written file splits into the lines it was joined from. */
  lemma WrittenLines(text: string, us: seq<Update>)
    requires IsPlain(text) && NoNewline(us)
    ensures Split(Written(text, us)) == NewLines(Source(text), us, Ending(text))
    ensures AllWhole(NewLines(Source(text), us, Ending(text)))
  {
    SourceIsWhole(text);
    WantsAreProper(us);
    FilterMembers(Source(text), Other(Ids(us)));
    InsertAllIsWhole(Filter(Source(text), Other(Ids(us))), SortEntries(Wants(us)), Ending(text));
    SplitJoin(NewLines(Source(text), us, Ending(text)));
  }

  /** Entries untouched by the update are read as before. */
  lemma OthersReadAsBefore(text: string, us: seq<Update>, p: Entry -> bool)
    requires IsPlain(text) && NoNewline(us)
    requires forall e: Entry | p(e) :: e.id !in Ids(us)
    ensures First(Reading(Split(Written(text, us))), p) == First(Reading(Split(text)), p)
  {
    WrittenLines(text, us);
    SourceIsWhole(text);
    WantsAreProper(us);
    SortedWants(us);
    var src := Source(text);
    ReadingKept(src, Ids(us), p);
    ReadingInsertAll(Filter(src, Other(Ids(us))), SortEntries(Wants(us)), Ending(text), p, None);
  }

  /** Where every entry satisfying `p` is one the update names, the update alone says what is read. */
  lemma UpdateIsRead(text: string, us: seq<Update>, p: Entry -> bool, want: Option<Entry>)
    requires IsPlain(text) && NoNewline(us)
    requires forall e | e in Reading(Split(text)) && p(e) :: e.id in Ids(us)
    requires forall e: Entry | (e.id, Some(e.key)) in us && p(e) :: want == Some(e)
    requires want.Some? ==> (want.value.id, Some(want.value.key)) in us && p(want.value)
    ensures First(Reading(Split(Written(text, us))), p) == want
  {
    WrittenLines(text, us);
    SourceIsWhole(text);
    WantsAreProper(us);
    SortedWants(us);
    var kept := Filter(Source(text), Other(Ids(us)));
    FirstNone(Reading(kept), p);
    if First(Reading(kept), p).Some? {
      KeptEntry(Source(text), Ids(us), First(Reading(kept), p).value);
    }
    ReadingInsertAll(kept, SortEntries(Wants(us)), Ending(text), p, want);
  }

  /** What the update says of an id. */
  function Asked(us: seq<Update>, id: string): Option<string> {
    if us == [] then None else if us[0].0 == id then us[0].1 else Asked(us[1..], id)
  }

  lemma {:induction false} AskedIsUpdate(us: seq<Update>, id: string)
    requires id in Ids(us)
    ensures (id, Asked(us, id)) in us
  {
    if us[0].0 != id {
      assert forall u :: u in us <==> u == us[0] || u in us[1..];
      AskedIsUpdate(us[1..], id);
    }
  }

  lemma OneUpdate(us: seq<Update>, u: Update, v: Update)
    requires IsMapping(us) && u in us && v in us && u.0 == v.0
    ensures u == v
  {
  }

  /** set_rank then rank: the ids named read as asked, the removed ones are gone, all others stand. */
  lemma ReadsBackAsAsked(text: string, us: seq<Update>, id: string)
    requires IsPlain(text) && IsMapping(us) && NoNewline(us)
    ensures KeyOf(Written(text, us), id) == if id in Ids(us) then Asked(us, id) else KeyOf(text, id)
  {
    if id in Ids(us) {
      AskedIsUpdate(us, id);
      var ask := Asked(us, id);
      var want := if ask.Some? then Some(Entry(id, ask.value)) else None;
      forall e: Entry | (e.id, Some(e.key)) in us && e.id == id ensures want == Some(e) {
        OneUpdate(us, (id, ask), (e.id, Some(e.key)));
      }
      UpdateIsRead(text, us, ById(id), want);
    } else {
      OthersReadAsBefore(text, us, ById(id));
    }
  }

  /** With only LF and CRLF endings, set_rank refuses its own result exactly when an id to set or a key
      carries the newline that its checks let through. */
  lemma RefusesOnlyNewlines(text: string, us: seq<Update>)
    requires IsPlain(text) && IsMapping(us) && Accepted(us)
    ensures ReadsBack(Written(text, us), us) <==> NoNewline(us)
  {
    var lines := Split(Written(text, us));
    ReadingIsProper(lines);
    if NoNewline(us) {
      forall u | u in us ensures KeyOf(Written(text, us), u.0) == u.1 {
        ReadsBackAsAsked(text, us, u.0);
        AskedIsUpdate(us, u.0);
        OneUpdate(us, u, (u.0, Asked(us, u.0)));
      }
    } else {
      var u :| u in us && u.1.Some? && !(IsId(u.0) && IsKey(u.1.value));
      FirstNone(Reading(lines), ById(u.0));
    }
  }

  // ----- the other lines -----

  lemma InsertKeepsOthers(lines: seq<string>, e: Entry, nl: string, ids: set<string>)
    requires IsId(e.id) && IsKey(e.key) && IsEnding(nl) && e.id in ids
    ensures Filter(Insert(lines, e, nl), Other(ids)) == Filter(lines, Other(ids))
  {
    NamedLine(e, nl, ids);
    FilterInserted(lines, Place(lines, e), Line(e, nl), Other(ids));
  }

  lemma NamedLine(e: Entry, nl: string, ids: set<string>)
    requires IsId(e.id) && IsKey(e.key) && IsEnding(nl) && e.id in ids
    ensures !Other(ids)(Line(e, nl))
  {
    WrittenLine(e, nl);
  }

  lemma {:induction false} InsertAllKeepsOthers(lines: seq<string>, es: seq<Entry>, nl: string, ids: set<string>)
    requires ProperEntries(es) && IsEnding(nl) && forall e | e in es :: e.id in ids
    ensures Filter(InsertAll(lines, es, nl), Other(ids)) == Filter(lines, Other(ids))
    decreases |es|
  {
    if es != [] {
      InsertKeepsOthers(lines, es[0], nl, ids);
      InsertAllKeepsOthers(Insert(lines, es[0], nl), es[1..], nl, ids);
    }
  }

  /** Every line that is not an entry line of an id named stays, byte for byte and in its order. */
  lemma OtherLinesStay(src: seq<string>, us: seq<Update>, nl: string)
    requires NoNewline(us) && IsEnding(nl)
    ensures Filter(NewLines(src, us, nl), Other(Ids(us))) == Filter(src, Other(Ids(us)))
  {
    WantsAreProper(us);
    SortedWants(us);
    FilterTwice(src, Other(Ids(us)));
    InsertAllKeepsOthers(Filter(src, Other(Ids(us))), SortEntries(Wants(us)), nl, Ids(us));
  }

  // ----- the order -----

  /** The entry lines ascend by key, then number. */
  ghost predicate IsSorted(lines: seq<string>) {
    forall i, j | 0 <= i < j < |lines| :: InOrder(lines[i], lines[j])
  }

  /** Not two entry lines the wrong way round. */
  predicate InOrder(a: string, b: string) {
    var e := Parse(Stripped(b));
    e.Some? ==> !SortsAbove(a, e.value)
  }

  lemma EntryLessTransitive(a: Entry, b: Entry, c: Entry)
    requires EntryLess(a, b) && EntryLess(b, c)
    ensures EntryLess(a, c)
  {
    if KeyLess(a.key, b.key) && KeyLess(b.key, c.key) {
      LessTransitive(KeyOrder(a.key), KeyOrder(b.key), KeyOrder(c.key));
    }
  }

  lemma EntryLessAsymmetric(a: Entry, b: Entry)
    requires EntryLess(a, b)
    ensures !EntryLess(b, a)
  {
    if KeyLess(a.key, b.key) {
      LessAsymmetric(KeyOrder(a.key), KeyOrder(b.key));
    } else {
      LessIrreflexive(KeyOrder(a.key));
    }
  }

  /** A line below the one a new entry goes before is in order after the new one. */
  lemma AfterNewLine(e: Entry, nl: string, above: string, later: string)
    requires IsId(e.id) && IsKey(e.key) && IsEnding(nl)
    requires SortsAbove(above, e) && (later == above || InOrder(above, later))
    ensures InOrder(Line(e, nl), later)
  {
    WrittenLine(e, nl);
    var f, g := Parse(Stripped(above)).value, Parse(Stripped(later));
    if g.Some? {
      EntryLessAsymmetric(e, f);
      if EntryLess(g.value, e) {
        EntryLessTransitive(g.value, e, f);
      }
    }
  }

  lemma BeforeNewLine(e: Entry, nl: string, earlier: string)
    requires IsId(e.id) && IsKey(e.key) && IsEnding(nl) && !SortsAbove(earlier, e)
    ensures InOrder(earlier, Line(e, nl))
  {
    WrittenLine(e, nl);
  }

  lemma InsertedPair(lines: seq<string>, e: Entry, nl: string, i: nat, j: nat)
    requires IsSorted(lines) && IsId(e.id) && IsKey(e.key) && IsEnding(nl)
    requires i < j < |Insert(lines, e, nl)|
    ensures InOrder(Insert(lines, e, nl)[i], Insert(lines, e, nl)[j])
  {
    var n := Place(lines, e);
    if i == n {
      AfterNewLine(e, nl, lines[n], lines[j-1]);
    } else if j == n {
      BeforeNewLine(e, nl, lines[i]);
    } else {
      assert InOrder(lines[if i < n then i else i - 1], lines[if j < n then j else j - 1]);
    }
  }

  lemma InsertStaysSorted(lines: seq<string>, e: Entry, nl: string)
    requires IsSorted(lines) && IsId(e.id) && IsKey(e.key) && IsEnding(nl)
    ensures IsSorted(Insert(lines, e, nl))
  {
    forall i, j | 0 <= i < j < |Insert(lines, e, nl)|
      ensures InOrder(Insert(lines, e, nl)[i], Insert(lines, e, nl)[j])
    {
      InsertedPair(lines, e, nl, i, j);
    }
  }

  lemma {:induction false} InsertAllStaysSorted(lines: seq<string>, es: seq<Entry>, nl: string)
    requires IsSorted(lines) && ProperEntries(es) && IsEnding(nl)
    ensures IsSorted(InsertAll(lines, es, nl))
    decreases |es|
  {
    if es != [] {
      InsertStaysSorted(lines, es[0], nl);
      InsertAllStaysSorted(Insert(lines, es[0], nl), es[1..], nl);
    }
  }

  lemma FilterStaysSorted(lines: seq<string>, keep: string -> bool)
    requires IsSorted(lines)
    ensures IsSorted(Filter(lines, keep))
  {
    FilterKeepsPairs(lines, keep, (a, b) => InOrder(a, b));
  }

  /** A file sorted by (key, number) stays sorted. */
  lemma StaysSorted(src: seq<string>, us: seq<Update>, nl: string)
    requires IsSorted(src) && NoNewline(us) && IsEnding(nl)
    ensures IsSorted(NewLines(src, us, nl))
  {
    WantsAreProper(us);
    FilterStaysSorted(src, Other(Ids(us)));
    InsertAllStaysSorted(Filter(src, Other(Ids(us))), SortEntries(Wants(us)), nl);
  }

  /** A line with an ending put to it is the same entry line. */
  lemma EndedStripped(line: string, nl: string)
    requires Unbroken(line) && IsEnding(nl)
    ensures Stripped(line + nl) == Stripped(line)
  {
    WholeWithNewline(line);
    WholeWithReturn(line);
    WholeBody(line + nl);
    UnendedBody(line);
    assert line != "" ==> !IsBreak(line[|line|-1]);
  }

  lemma SortedByStripped(s: seq<string>, t: seq<string>)
    requires |s| == |t| && forall i | 0 <= i < |s| :: Stripped(s[i]) == Stripped(t[i])
    ensures IsSorted(s) <==> IsSorted(t)
  {
    assert forall i, j | 0 <= i < j < |s| :: InOrder(s[i], s[j]) <==> InOrder(t[i], t[j]);
  }

  lemma HeaderIsSorted()
    ensures IsSorted(Source(""))
  {
    EmptySourceLines();
    HeaderLine(0, "\n");
    HeaderLine(1, "\n");
    var x, y := Header(0) + "\n", Header(1) + "\n";
    assert Parse(Stripped(y)) == None;
    assert InOrder(x, y);
  }

  /** set_rank starts from lines in order exactly when the file's are. */
  lemma SourceIsSorted(text: string)
    requires IsPlain(text)
    ensures IsSorted(Source(text)) <==> IsSorted(Split(text))
  {
    if text == "" {
      HeaderIsSorted();
    } else {
      PlainLines(text);
      var src := Split(text);
      var front, last := src[..|src|-1], src[|src|-1];
      assert src == front + [last];
      SourceOfSplit(text, front, last);
      if last[|last|-1] != '\n' {
        LastEndedSorted(front, last, Ending(text));
      }
    }
  }

  lemma LastEndedSorted(front: seq<string>, last: string, nl: string)
    requires Unbroken(last) && IsEnding(nl)
    ensures IsSorted(front + [last + nl]) <==> IsSorted(front + [last])
  {
    EndedStripped(last, nl);
    SortedByStripped(front + [last], front + [last + nl]);
  }

  /** The file that is written is sorted where the file it was written from was. */
  lemma FileStaysSorted(text: string, us: seq<Update>)
    requires IsPlain(text) && NoNewline(us) && IsSorted(Split(text))
    ensures IsSorted(Split(Written(text, us)))
  {
    SourceIsSorted(text);
    WrittenLines(text, us);
    StaysSorted(Source(text), us, Ending(text));
  }

  // ----- twice -----

  /** The update empties a file that was not empty: every line is an entry line it removes. */
  ghost predicate Empties(text: string, us: seq<Update>) {
    text != "" && Wants(us) == [] && forall l | l in Source(text) :: Names(l, Ids(us))
  }

  lemma {:induction false} NoReturns(lines: seq<string>)
    requires forall l | l in lines :: '\r' !in l
    ensures '\r' !in Join(lines)
  {
    if lines != [] {
      NoReturns(lines[1..]);
    }
  }

  lemma {:induction false} JoinHolds(lines: seq<string>, i: nat)
    requires i < |lines|
    ensures exists a, b :: Join(lines) == a + lines[i] + b
  {
    if i == 0 {
      assert Join(lines) == "" + lines[0] + Join(lines[1..]);
    } else {
      JoinHolds(lines[1..], i - 1);
      var a, b :| Join(lines[1..]) == a + lines[1..][i-1] + b;
      assert Join(lines) == (lines[0] + a) + lines[i] + b;
    }
  }

  lemma SpliceMember(lines: seq<string>, n: nat, line: string, l: string)
    requires n <= |lines|
    ensures l in lines[..n] + [line] + lines[n..] <==> l in lines || l == line
  {
    assert lines == lines[..n] + lines[n..];
  }

  lemma InsertMember(lines: seq<string>, e: Entry, nl: string, l: string)
    ensures l in Insert(lines, e, nl) <==> l in lines || l == Line(e, nl)
  {
    SpliceMember(lines, Place(lines, e), Line(e, nl), l);
  }

  lemma {:induction false} InsertAllMember(lines: seq<string>, es: seq<Entry>, nl: string, l: string)
    ensures l in InsertAll(lines, es, nl) <==> l in lines || exists e :: e in es && l == Line(e, nl)
    decreases |es|
  {
    if es != [] {
      InsertMember(lines, es[0], nl, l);
      InsertAllMember(Insert(lines, es[0], nl), es[1..], nl, l);
      assert forall e :: e in es <==> e == es[0] || e in es[1..];
    }
  }

  lemma NewLinesMember(src: seq<string>, us: seq<Update>, nl: string, l: string)
    ensures l in NewLines(src, us, nl) <==>
            (l in src && !Names(l, Ids(us))) || exists e :: e in SortEntries(Wants(us)) && l == Line(e, nl)
  {
    FilterMember(src, Other(Ids(us)), l);
    InsertAllMember(Filter(src, Other(Ids(us))), SortEntries(Wants(us)), nl, l);
  }

  lemma ReturnMeansCrlf(text: string)
    requires IsPlain(text)
    ensures Ending(text) == "\n" <==> '\r' !in text
  {
    if '\r' in text {
      var i :| 0 <= i < |text| && text[i] == '\r';
      assert PlainAt(text, i);
    }
  }

  lemma SplitHasNoReturn(text: string)
    requires '\r' !in text
    ensures forall l | l in Split(text) :: '\r' !in l
  {
    forall l | l in Split(text) ensures '\r' !in l {
      var i :| 0 <= i < |Split(text)| && Split(text)[i] == l;
      JoinSplit(text);
      JoinHolds(Split(text), i);
    }
  }

  lemma LineHasNoReturn(e: Entry)
    requires IsId(e.id) && IsKey(e.key)
    ensures '\r' !in Line(e, "\n")
  {
    assert forall i | 0 <= i < |e.id| :: e.id[i] != '\r' by {
      assert forall i | 0 <= i < 3 :: e.id[i] == "TD-"[i];
    }
    KeyHasNoSpace(e.key);
  }

  lemma NewlineStaysOnly(text: string, us: seq<Update>)
    requires IsPlain(text) && NoNewline(us) && Ending(text) == "\n"
    ensures '\r' !in Written(text, us)
  {
    var lines := NewLines(Source(text), us, "\n");
    WantsAreProper(us);
    ReturnMeansCrlf(text);
    SourceHasNoReturn(text);
    forall l | l in lines ensures '\r' !in l {
      NewLinesMember(Source(text), us, "\n", l);
      if f :| f in SortEntries(Wants(us)) && l == Line(f, "\n") {
        LineHasNoReturn(f);
      }
    }
    NoReturns(lines);
  }

  predicate EndsInReturn(line: string) {
    |line| >= 2 && line[|line|-2] == '\r' && line[|line|-1] == '\n'
  }

  lemma ReturnStays(lines: seq<string>, i: nat)
    requires i < |lines| && EndsInReturn(lines[i])
    ensures Ending(Join(lines)) == "\r\n"
  {
    JoinHolds(lines, i);
    var a, b :| Join(lines) == a + lines[i] + b;
    var j := |a| + |lines[i]| - 2;
    assert Join(lines)[j] == lines[i][|lines[i]|-2] == '\r' && Join(lines)[j+1] == lines[i][|lines[i]|-1] == '\n';
  }

  /** The rewritten file keeps the ending that its new lines took. */
  lemma EndingStays(text: string, us: seq<Update>)
    requires IsPlain(text) && NoNewline(us) && Wants(us) != []
    ensures Ending(Written(text, us)) == Ending(text)
  {
    if Ending(text) == "\n" {
      NewlineStaysOnly(text, us);
    } else {
      var e, nl, lines := Wants(us)[0], Ending(text), NewLines(Source(text), us, Ending(text));
      SortMember(Wants(us), e);
      NewLinesMember(Source(text), us, nl, Line(e, nl));
      var i :| 0 <= i < |lines| && lines[i] == Line(e, nl);
      assert EndsInReturn(Line(e, nl));
      ReturnStays(lines, i);
    }
  }

  /** A line that ends in CRLF, and is not taken out. */
  ghost predicate KeepsReturn(text: string, us: seq<Update>) {
    exists l :: l in Source(text) && !Names(l, Ids(us)) && EndsInReturn(l)
  }

  lemma WholeWithoutReturn(line: string)
    requires IsWhole(line) && !EndsInReturn(line)
    ensures '\r' !in line
  {
    var body := line[..|line|-1];
    assert forall i | 0 <= i < |body| :: line[i] == body[i] && !IsBreak(body[i]);
  }

  lemma ReturnsGone(text: string, us: seq<Update>)
    requires IsPlain(text) && NoNewline(us) && Wants(us) == [] && !KeepsReturn(text, us)
    ensures '\r' !in Written(text, us)
  {
    var lines := NewLines(Source(text), us, Ending(text));
    WrittenLines(text, us);
    forall l | l in lines ensures '\r' !in l {
      NewLinesMember(Source(text), us, Ending(text), l);
      assert !exists e :: e in SortEntries(Wants(us));
      WholeWithoutReturn(l);
    }
    NoReturns(lines);
  }

  lemma ReturnKept(text: string, us: seq<Update>)
    requires KeepsReturn(text, us)
    ensures Ending(Written(text, us)) == "\r\n"
  {
    var l :| l in Source(text) && !Names(l, Ids(us)) && EndsInReturn(l);
    var lines := NewLines(Source(text), us, Ending(text));
    NewLinesMember(Source(text), us, Ending(text), l);
    var i :| 0 <= i < |lines| && lines[i] == l;
    ReturnStays(lines, i);
  }

  lemma EndingIsOneOfTwo(text: string)
    ensures Ending(text) == "\n" || Ending(text) == "\r\n"
    ensures '\r' !in text ==> Ending(text) == "\n"
  {
  }

  /** The rewritten file has the ending the text had, unless that was CRLF and a removal alone takes out its last
      line that ends so. */
  lemma EndingStaysIff(text: string, us: seq<Update>)
    requires IsPlain(text) && NoNewline(us)
    ensures Ending(Written(text, us)) == Ending(text) <==>
            Ending(text) == "\n" || Wants(us) != [] || KeepsReturn(text, us)
  {
    EndingIsOneOfTwo(text);
    EndingIsOneOfTwo(Written(text, us));
    if Ending(text) == "\n" {
      NewlineStaysOnly(text, us);
    } else if Wants(us) != [] {
      EndingStays(text, us);
    } else if KeepsReturn(text, us) {
      ReturnKept(text, us);
    } else {
      ReturnsGone(text, us);
    }
  }

  lemma SourceHasNoReturn(text: string)
    requires IsPlain(text) && '\r' !in text
    ensures forall l | l in Source(text) :: '\r' !in l
  {
    if text == "" {
      EmptySourceLines();
      HeaderHasNoReturn(0);
      HeaderHasNoReturn(1);
    } else {
      ReturnMeansCrlf(text);
      SplitHasNoReturn(text);
      PlainLines(text);
    }
  }

  lemma HeaderHasNoReturn(i: nat)
    requires i < 2
    ensures '\r' !in Header(i)
  {
    if i == 0 {
      FirstHeaderUnbroken();
    } else {
      SecondHeaderUnbroken();
    }
    assert IsBreak('\r');
  }

  lemma NothingLeft(src: seq<string>, us: seq<Update>, nl: string)
    ensures NewLines(src, us, nl) == [] <==> Wants(us) == [] && forall l | l in src :: Names(l, Ids(us))
  {
    var lines := NewLines(src, us, nl);
    forall l ensures l in lines <==> (l in src && !Names(l, Ids(us)))
                                     || exists e :: e in SortEntries(Wants(us)) && l == Line(e, nl)
    {
      NewLinesMember(src, us, nl, l);
    }
    if Wants(us) != [] {
      SortMember(Wants(us), Wants(us)[0]);
      assert Line(Wants(us)[0], nl) in lines;
    } else if lines != [] {
      assert lines[0] in lines;
    }
  }

  /** The header is no entry line, so an empty file is never written empty. */
  lemma HeaderIsKept(us: seq<Update>)
    ensures NewLines(Source(""), us, Ending("")) != []
  {
    EmptySource();
    NothingLeft(Source(""), us, Ending(""));
    assert Source("")[0] in Source("");
  }

  lemma WholeEnds(line: string)
    requires IsWhole(line)
    ensures line != "" && line[|line|-1] == '\n'
  {
  }

  lemma EndedTextSource(out: string, front: seq<string>, last: string)
    requires out != "" && Split(out) == front + [last] && IsWhole(last)
    ensures Source(out) == Split(out)
  {
    WholeEnds(last);
    SourceOfSplit(out, front, last);
  }

  lemma SourceOfWhole(out: string, lines: seq<string>)
    requires lines != [] && AllWhole(lines) && Split(out) == lines
    ensures Source(out) == lines
  {
    var front, last := lines[..|lines|-1], lines[|lines|-1];
    assert last in lines && lines == front + [last];
    assert Split("") == [];
    EndedTextSource(out, front, last);
  }

  lemma WrittenSource(text: string, us: seq<Update>)
    requires IsPlain(text) && NoNewline(us)
    requires NewLines(Source(text), us, Ending(text)) != []
    ensures Source(Written(text, us)) == NewLines(Source(text), us, Ending(text))
  {
    WrittenLines(text, us);
    SourceOfWhole(Written(text, us), NewLines(Source(text), us, Ending(text)));
  }

  /** The new lines of the new lines, with the ending they took, are they. */
  lemma LinesAgain(src: seq<string>, us: seq<Update>, nl: string, after: string)
    requires NoNewline(us) && IsEnding(nl) && (Wants(us) != [] ==> after == nl)
    ensures NewLines(NewLines(src, us, nl), us, after) == NewLines(src, us, nl)
  {
    OtherLinesStay(src, us, nl);
  }

  lemma SecondTime(text: string, us: seq<Update>)
    requires IsPlain(text) && NoNewline(us)
    requires NewLines(Source(text), us, Ending(text)) != []
    ensures Written(Written(text, us), us) == Written(text, us)
  {
    WrittenSource(text, us);
    if Wants(us) != [] {
      EndingStays(text, us);
    }
    LinesAgain(Source(text), us, Ending(text), Ending(Written(text, us)));
  }

  /** Applying an update twice is applying it once, but where it empties the file: there the second
      time writes the header. */
  lemma TwiceIsOnce(text: string, us: seq<Update>)
    requires IsPlain(text) && NoNewline(us)
    ensures Written(Written(text, us), us) == Written(text, us) <==> !Empties(text, us)
  {
    NothingLeft(Source(text), us, Ending(text));
    HeaderIsKept(us);
    if NewLines(Source(text), us, Ending(text)) == [] {
      WrittenLines("", us);
    } else {
      SecondTime(text, us);
    }
  }

  // ----- where it fails -----

  lemma RemovesLine(e: Entry, us: seq<Update>)
    requires IsId(e.id) && IsKey(e.key) && us == [(e.id, None)]
    ensures Wants(us) == [] && Names(Line(e, "\n"), Ids(us))
  {
    WrittenLine(e, "\n");
    assert us[1..] == [] && us[0] in us && e.id in Ids(us);
  }

  lemma EmptiesOneLine(text: string, line: string, us: seq<Update>)
    requires text != "" && Source(text) == [line] && Wants(us) == [] && Names(line, Ids(us))
    ensures Empties(text, us)
  {
  }

  /** An update that removes a file's only line empties it. */
  lemma OnlyLineRemoved(e: Entry, us: seq<Update>)
    requires IsId(e.id) && IsKey(e.key) && us == [(e.id, None)]
    ensures Empties(Line(e, "\n"), us)
  {
    RemovesLine(e, us);
    OneLineFile(e);
    EmptiesOneLine(Line(e, "\n"), Line(e, "\n"), us);
  }

  /** A file of one entry line, and its only line removed: the first time empties it, the second writes the header. */
  lemma TwiceIsNotOnce() returns (text: string, us: seq<Update>)
    ensures text == "TD-1: a\n" && us == [("TD-1", None)]
    ensures IsPlain(text) && IsMapping(us) && Accepted(us) && NoNewline(us)
    ensures Written(Written(text, us), us) != Written(text, us)
  {
    var e := Entry("TD-1", "a");
    OneEntry(e);
    text, us := Line(e, "\n"), [("TD-1", None)];
    OnlyLineRemoved(e, us);
    TwiceIsOnce(text, us);
  }

  lemma OneEntry(e: Entry)
    requires e == Entry("TD-1", "a")
    ensures IsId(e.id) && IsKey(e.key) && Line(e, "\n") == "TD-1: a\n" && IsPlain(Line(e, "\n"))
  {
    assert e.id[..3] == "TD-" && e.id[3..] == "1";
    assert Line(e, "\n") == "TD-1: a\n";
  }

  lemma OneLineFile(e: Entry)
    requires IsId(e.id) && IsKey(e.key)
    ensures Source(Line(e, "\n")) == [Line(e, "\n")]
  {
    var line := Line(e, "\n");
    WrittenLine(e, "\n");
    SplitJoin([line]);
    assert Join([line]) == line;
    assert Split(line) == [] + [line];
    SourceOfSplit(line, [], line);
  }

  /** A key with a newline, on a file with nothing in it: set_rank's checks let it through, and its text does not read
      back. */
  lemma NewlineIsRefused() returns (us: seq<Update>)
    ensures us == [("TD-1", Some("a\n"))] && IsMapping(us) && Accepted(us) && !NoNewline(us)
    ensures IsPlain("") && !ReadsBack(Written("", us), us)
  {
    us := [("TD-1", Some("a\n"))];
    NewlineIsAccepted(us);
    RefusesOnlyNewlines("", us);
  }

  lemma NewlineIsAccepted(us: seq<Update>)
    requires us == [("TD-1", Some("a\n"))]
    ensures Accepted(us) && !NoNewline(us)
  {
    OneEntry(Entry("TD-1", "a"));
    assert "a\n"[..1] == "a" && "a\n"[1] == '\n';
    assert us[0] in us && us[0].1.value == "a\n";
    assert !IsKey("a\n");
  }

  /** A file of a line that ends in CRLF and one that ends in LF, and the first removed: the file's ending is LF from
      then on. */
  lemma EndingLost(d: Entry, e: Entry) returns (text: string, us: seq<Update>)
    requires IsId(d.id) && IsKey(d.key) && IsId(e.id) && IsKey(e.key) && d.id != e.id
    ensures text == Line(d, "\r\n") + Line(e, "\n") && us == [(d.id, None)]
    ensures IsPlain(text) && Accepted(us) && NoNewline(us)
    ensures Ending(text) == "\r\n" && Ending(Written(text, us)) == "\n"
  {
    text, us := Line(d, "\r\n") + Line(e, "\n"), [(d.id, None)];
    OneRemoval(d, us);
    LinesOfTwo(d, e, us);
    FirstEndsInReturn(d, Line(e, "\n"));
    TwoLineFile(text, Line(d, "\r\n"), Line(e, "\n"));
    PlainLinesJoined(Line(d, "\r\n"), Line(e, "\n"));
    TwoLinesKeepNone(text, us, Line(d, "\r\n"), Line(e, "\n"));
    LostWithTheLast(text, us);
  }

  lemma OneRemoval(d: Entry, us: seq<Update>)
    requires IsId(d.id) && us == [(d.id, None)]
    ensures Accepted(us) && NoNewline(us) && Wants(us) == [] && Ids(us) == {d.id}
  {
    assert us[1..] == [] && us[0] in us;
  }

  lemma LinesOfTwo(d: Entry, e: Entry, us: seq<Update>)
    requires IsId(d.id) && IsKey(d.key) && IsId(e.id) && IsKey(e.key) && Ids(us) == {d.id}
    ensures IsWhole(Line(d, "\r\n")) && IsWhole(Line(e, "\n"))
    ensures Names(Line(d, "\r\n"), Ids(us)) && !EndsInReturn(Line(e, "\n"))
  {
    WrittenLine(d, "\r\n");
    WrittenLine(e, "\n");
    LineHasNoReturn(e);
  }

  lemma LostWithTheLast(text: string, us: seq<Update>)
    requires IsPlain(text) && NoNewline(us) && Wants(us) == [] && !KeepsReturn(text, us) && Ending(text) == "\r\n"
    ensures Ending(Written(text, us)) == "\n"
  {
    EndingIsOneOfTwo(Written(text, us));
    EndingStaysIff(text, us);
  }

  lemma TwoLinesKeepNone(text: string, us: seq<Update>, x: string, y: string)
    requires Source(text) == [x, y] && Names(x, Ids(us)) && !EndsInReturn(y)
    ensures !KeepsReturn(text, us)
  {
    assert forall l | l in [x, y] :: l == x || l == y;
  }

  lemma FirstEndsInReturn(d: Entry, y: string)
    ensures Ending(Line(d, "\r\n") + y) == "\r\n"
  {
    var x := Line(d, "\r\n");
    var text, n := x + y, |x| - 2;
    assert text[n] == x[n] == '\r' && text[n+1] == x[n+1] == '\n';
  }

  lemma PlainLinesJoined(x: string, y: string)
    requires IsWhole(x) && IsWhole(y)
    ensures IsPlain(x + y)
  {
    var text := x + y;
    WholeIsPlain(x);
    WholeIsPlain(y);
    forall i | 0 <= i < |text| ensures PlainAt(text, i) {
      if i < |x| {
        assert PlainAt(x, i) && text[i] == x[i];
        assert i + 1 < |x| ==> text[i+1] == x[i+1];
      } else {
        assert PlainAt(y, i - |x|) && text[i] == y[i-|x|];
        assert i + 1 < |text| ==> text[i+1] == y[i+1-|x|];
      }
    }
  }

  lemma WholeIsPlain(x: string)
    requires IsWhole(x)
    ensures IsPlain(x)
  {
    var body := Body(x);
    WholeBody(x);
    assert forall i | 0 <= i < |body| :: x[i] == body[i];
  }

  lemma TwoLineFile(text: string, x: string, y: string)
    requires IsWhole(x) && IsWhole(y) && text == x + y
    ensures Source(text) == [x, y]
  {
    JoinTwo(x, y);
    SplitJoin([x, y]);
    WholeEnds(y);
    SourceOfSplit(text, [x], y);
  }

  lemma JoinTwo(x: string, y: string)
    ensures Join([x, y]) == x + y
  {
    assert [x, y][1..] == [y] && [y][1..] == [];
    assert Join([y]) == y + "" == y;
  }
}
