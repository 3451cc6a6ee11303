/** The rank file read and rewritten: scripts/ledgerboard.py's rank and set_rank.
    This module holds what both mean; the two methods are in RankFileIO. */
module RankFile {
  import opened Common
  import opened Keys
  import opened TextLines
  import opened RankLines

  // ----- reading -----

  datatype Class = Blank | Comment | Held(entry: Entry) | Unreadable

  /** What rank takes a line for. */
  function Classify(body: string): Class {
    if forall i | 0 <= i < |body| :: IsSpace(body[i]) then Blank
    else if body[0] == '#' then Comment
    else match Parse(body)
      case Some(e) => if MatchesKeyRe(e.key) then Held(e) else Unreadable
      case None => Unreadable
  }

  /** The entry a line holds, if any. */
  function Entries(line: string): seq<Entry> {
    BodyEntries(Body(line))
  }

  function BodyEntries(body: string): seq<Entry> {
    var c := Classify(body);
    if c.Held? then [c.entry] else []
  }

  /** The entries a file's lines hold, in file order. */
  function Reading(lines: seq<string>): seq<Entry> {
    Collect(lines, Entries)
  }

  predicate HasId(s: seq<Entry>, id: string) {
    exists i | 0 <= i < |s| :: s[i].id == id
  }

  /** The reading as the dictionary holds it: of a repeated id, the first line alone. */
  function Items(s: seq<Entry>): seq<Entry> {
    if s == [] then []
    else
      var front, last := s[..|s|-1], s[|s|-1];
      Items(front) + (if HasId(front, last.id) then [] else [last])
  }

  /** The first entry satisfying `p`. */
  function First(s: seq<Entry>, p: Entry -> bool): Option<Entry> {
    if s == [] then None else if p(s[0]) then Some(s[0]) else First(s[1..], p)
  }

  function ById(id: string): Entry -> bool {
    (e: Entry) => e.id == id
  }

  function ByNum(n: nat): Entry -> bool {
    (e: Entry) => Num(e.id) == n
  }

  function KeyIn(s: seq<Entry>, id: string): Option<string> {
    match First(s, ById(id))
    case Some(e) => Some(e.key)
    case None => None
  }

  /** The key rank gives an id. */
  function KeyOf(text: string, id: string): Option<string> {
    KeyIn(Reading(Split(text)), id)
  }

  lemma {:induction false} FirstAppend(s: seq<Entry>, t: seq<Entry>, p: Entry -> bool)
    ensures First(s + t, p) == if First(s, p).Some? then First(s, p) else First(t, p)
  {
    if s == [] {
      assert s + t == t;
    } else {
      FirstAppend(s[1..], t, p);
      assert (s + t)[1..] == s[1..] + t;
    }
  }

  lemma {:induction false} FirstNone(s: seq<Entry>, p: Entry -> bool)
    ensures First(s, p).None? <==> forall i | 0 <= i < |s| :: !p(s[i])
    ensures First(s, p).Some? ==> p(First(s, p).value) && First(s, p).value in s
  {
    if s != [] && !p(s[0]) {
      FirstNone(s[1..], p);
      assert forall i | 0 < i < |s| :: s[i] == s[1..][i-1];
    }
  }

  /** Looking an id's entry up in the dictionary finds the first of the reading. */
  lemma {:induction false} FirstItem(s: seq<Entry>, p: Entry -> bool)
    requires forall e: Entry, f: Entry | e.id == f.id :: p(e) == p(f)
    ensures First(Items(s), p) == First(s, p)
  {
    if s != [] {
      var front, last := s[..|s|-1], s[|s|-1];
      FirstItem(front, p);
      FirstAppend(front, [last], p);
      FirstAppend(Items(front), [last], p);
      FirstNone(front, p);
      assert s == front + [last];
      assert [last][1..] == [];
      if HasId(front, last.id) {
        var i :| 0 <= i < |front| && front[i].id == last.id;
        assert p(front[i]) == p(last);
        assert Items(front) + [] == Items(front);
      }
      assert First([last], p) == if p(last) then Some(last) else None;
    }
  }

  // ----- writing -----

  /** An id's new key, or its removal. */
  type Update = (string, Option<string>)

  predicate EntryLess(a: Entry, b: Entry) {
    KeyLess(a.key, b.key) || (a.key == b.key && Num(a.id) < Num(b.id))
  }

  /** The line is the entry line of one of `ids`, as set_rank reads it. */
  predicate Names(line: string, ids: set<string>) {
    var e := Parse(Stripped(line));
    e.Some? && e.value.id in ids
  }

  function Other(ids: set<string>): string -> bool {
    l => !Names(l, ids)
  }

  /** The line is an entry line that sorts above `e`. */
  predicate SortsAbove(line: string, e: Entry) {
    var f := Parse(Stripped(line));
    f.Some? && EntryLess(e, f.value)
  }

  function Above(e: Entry): string -> bool {
    l => SortsAbove(l, e)
  }

  /** Where a new line goes: before the first entry line that sorts above it. */
  function Place(lines: seq<string>, e: Entry): (n: nat)
    ensures n <= |lines|
    ensures n < |lines| ==> SortsAbove(lines[n], e)
    ensures forall i | 0 <= i < n :: !SortsAbove(lines[i], e)
  {
    IndexFrom(lines, Above(e), 0)
  }

  function Insert(lines: seq<string>, e: Entry, nl: string): seq<string> {
    var n := Place(lines, e);
    lines[..n] + [Line(e, nl)] + lines[n..]
  }

  function InsertAll(lines: seq<string>, es: seq<Entry>, nl: string): seq<string>
    decreases |es|
  {
    if es == [] then lines else InsertAll(Insert(lines, es[0], nl), es[1..], nl)
  }

  function Ids(us: seq<Update>): set<string> {
    set u | u in us :: u.0
  }

  /** The keys to set, in the mapping's order. */
  function Wants(us: seq<Update>): seq<Entry> {
    if us == [] then []
    else (if us[0].1.Some? then [Entry(us[0].0, us[0].1.value)] else []) + Wants(us[1..])
  }

  /** Python's stable sort by (key order, number). */
  function SortEntries(es: seq<Entry>): seq<Entry> {
    if es == [] then [] else InsertEntry(es[0], SortEntries(es[1..]))
  }

  function InsertEntry(e: Entry, es: seq<Entry>): seq<Entry> {
    if es == [] || !EntryLess(es[0], e) then [e] + es else [es[0]] + InsertEntry(e, es[1..])
  }

  /** RANK_HEADER's two lines. */
  function Header(i: nat): string
    requires i < 2
  {
    if i == 0 then
      "# The rank: one " + "`TD-NNN: <key>` " + "line per entry, "
      + "sorted by key " + "(ledgerboard SPEC, " + "The rank)."
    else "# Written by a tool; " + "read only through " + "ledgerboard's rank()."
  }

  /** The file's own ending: CRLF where it has one. */
  function Ending(text: string): string {
    if exists i | 0 <= i < |text| - 1 :: text[i] == '\r' && text[i+1] == '\n' then "\r\n" else "\n"
  }

  /** The lines set_rank starts from; a last line without an ending gets one. */
  function Source(text: string): seq<string> {
    var nl := Ending(text);
    var src := if text == "" then [Header(0) + nl, Header(1) + nl] else Split(text);
    if src == [] || (src[|src|-1] != "" && src[|src|-1][|src[|src|-1]|-1] == '\n') then src
    else src[..|src|-1] + [src[|src|-1] + nl]
  }

  function NewLines(src: seq<string>, us: seq<Update>, nl: string): seq<string> {
    InsertAll(Filter(src, Other(Ids(us))), SortEntries(Wants(us)), nl)
  }

  /** The file set_rank writes, before it reads it back. */
  function Written(text: string, us: seq<Update>): string {
    Join(NewLines(Source(text), us, Ending(text)))
  }

  /** The written file reads back as asked. */
  predicate ReadsBack(out: string, us: seq<Update>) {
    forall u | u in us :: KeyOf(out, u.0) == u.1
  }

  /** set_rank is handed a mapping: one update an id. */
  ghost predicate IsMapping(us: seq<Update>) {
    forall i, j | 0 <= i < j < |us| :: us[i].0 != us[j].0
  }

  /** Every update passes set_rank's own checks. */
  predicate Accepted(us: seq<Update>) {
    forall u | u in us :: MatchesIdRe(u.0) && (u.1.Some? ==> MatchesKeyRe(u.1.value))
  }

  /** No id to set, and no key, carries the newline the checks let through. */
  predicate NoNewline(us: seq<Update>) {
    forall u | u in us && u.1.Some? :: IsId(u.0) && IsKey(u.1.value)
  }

  ghost predicate ProperEntries(es: seq<Entry>) {
    forall e | e in es :: IsId(e.id) && IsKey(e.key)
  }

  // ----- what the lines of a rewritten file hold -----

  /** Whatever rank reads is a proper id with a proper key. */
  lemma {:induction false} ReadingIsProper(lines: seq<string>)
    ensures ProperEntries(Reading(lines))
  {
    if lines != [] {
      ReadingIsProper(lines[1..]);
      EntriesAreProper(lines[0]);
    }
  }

  lemma EntriesAreProper(line: string)
    ensures ProperEntries(Entries(line))
  {
    var body := Body(line);
    if Classify(body).Held? {
      var gap, end := ParsedReads(body);
      WordIsKey(Classify(body).entry.key);
    }
  }

  lemma WordIsKey(key: string)
    requires IsWord(key) && MatchesKeyRe(key)
    ensures IsKey(key)
  {
    assert IsWordChar(key[|key|-1]);
  }

  lemma HeldLine(e: Entry, nl: string)
    requires IsId(e.id) && IsKey(e.key) && IsEnding(nl)
    ensures Entries(Line(e, nl)) == [e]
  {
    WrittenLine(e, nl);
    ParsedIsHeld(Body(Line(e, nl)), e);
  }

  lemma ParsedIsHeld(body: string, e: Entry)
    requires Parse(body) == Some(e) && IsKey(e.key)
    ensures Classify(body) == Held(e)
  {
    assert body[0] == body[..3][0] == 'T';
  }

  /** Dropping the lines of `ids` drops their entries, and loses no other. */
  lemma {:induction false} ReadingKept(lines: seq<string>, ids: set<string>, p: Entry -> bool)
    requires AllWhole(lines)
    requires forall e: Entry | p(e) :: e.id !in ids
    ensures First(Reading(Filter(lines, Other(ids))), p) == First(Reading(lines), p)
  {
    if lines != [] {
      var kept := Filter(lines[1..], Other(ids));
      ReadingKept(lines[1..], ids, p);
      WholeBody(lines[0]);
      FirstAppend(Entries(lines[0]), Reading(lines[1..]), p);
      assert ([lines[0]] + kept)[1..] == kept;
      FirstAppend(Entries(lines[0]), Reading(kept), p);
      FirstNone(Entries(lines[0]), p);
    }
  }

  lemma {:induction false} KeptEntry(lines: seq<string>, ids: set<string>, e: Entry)
    requires AllWhole(lines) && e in Reading(Filter(lines, Other(ids)))
    ensures e in Reading(lines) && e.id !in ids
  {
    if lines != [] {
      var kept := Filter(lines[1..], Other(ids));
      WholeBody(lines[0]);
      assert ([lines[0]] + kept)[1..] == kept;
      if e !in Entries(lines[0]) || Names(lines[0], ids) {
        KeptEntry(lines[1..], ids, e);
      }
    }
  }

  lemma ReadingSplice(lines: seq<string>, n: nat, line: string)
    requires n <= |lines|
    ensures Reading(lines) == Reading(lines[..n]) + Reading(lines[n..])
    ensures Reading(lines[..n] + [line] + lines[n..]) == Reading(lines[..n]) + Entries(line) + Reading(lines[n..])
  {
    var x, y := lines[..n], lines[n..];
    CollectOne(line, Entries);
    CollectAppend(x + [line], y, Entries);
    CollectAppend(x, [line], Entries);
    CollectAppend(x, y, Entries);
    assert x + y == lines;
  }

  lemma ReadingInsert(lines: seq<string>, e: Entry, nl: string) returns (a: seq<Entry>, b: seq<Entry>)
    requires IsId(e.id) && IsKey(e.key) && IsEnding(nl)
    ensures Reading(lines) == a + b
    ensures Reading(Insert(lines, e, nl)) == a + [e] + b
  {
    var n := Place(lines, e);
    a, b := Reading(lines[..n]), Reading(lines[n..]);
    HeldLine(e, nl);
    ReadingSplice(lines, n, Line(e, nl));
  }

  lemma FirstInserted(a: seq<Entry>, e: Entry, b: seq<Entry>, p: Entry -> bool)
    ensures !p(e) ==> First(a + [e] + b, p) == First(a + b, p)
    ensures p(e) && (First(a + b, p) in {None, Some(e)}) ==> First(a + [e] + b, p) == Some(e)
  {
    FirstAppend(a + [e], b, p);
    FirstAppend(a, [e], p);
    FirstAppend(a, b, p);
    assert [e][1..] == [];
  }

  /** Inserting entries adds what they say and changes nothing else. */
  lemma {:induction false} ReadingInsertAll(lines: seq<string>, es: seq<Entry>, nl: string, p: Entry -> bool,
                                            want: Option<Entry>)
    requires ProperEntries(es) && IsEnding(nl)
    requires forall e | e in es && p(e) :: want == Some(e)
    requires First(Reading(lines), p).Some? ==> First(Reading(lines), p) == want || forall e | e in es :: !p(e)
    ensures First(Reading(InsertAll(lines, es, nl)), p)
         == if exists e :: e in es && p(e) then want else First(Reading(lines), p)
    decreases |es|
  {
    if es != [] {
      assert forall e :: e in es <==> e == es[0] || e in es[1..];
      var a, b := ReadingInsert(lines, es[0], nl);
      FirstInserted(a, es[0], b, p);
      ReadingInsertAll(Insert(lines, es[0], nl), es[1..], nl, p, want);
    }
  }
}
