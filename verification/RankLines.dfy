/** Entry ids, and the rank file's lines `TD-<digits>: <key>`: ID_ITEM_RE, RANK_LINE_RE and _num of
    scripts/ledgerboard.py. */
module RankLines {
  import opened Common
  import opened Keys
  import opened TextLines

  // ----- ids -----

  predicate IsDecimal(c: char) {
    '0' <= c <= '9'
  }

  /** `TD-` and decimal digits. */
  predicate IsId(t: string) {
    |t| > 3 && t[..3] == "TD-" && forall i | 3 <= i < |t| :: IsDecimal(t[i])
  }

  /** What ID_ITEM_RE accepts: `$` also matches before one last newline. */
  predicate MatchesIdRe(t: string) {
    IsId(t) || (t != "" && t[|t|-1] == '\n' && IsId(t[..|t|-1]))
  }

  function Decimal(s: string): nat
    requires forall i | 0 <= i < |s| :: IsDecimal(s[i])
  {
    if s == "" then 0
    else assert IsDecimal(s[|s|-1]); 10 * Decimal(s[..|s|-1]) + (s[|s|-1] as int - '0' as int)
  }

  /** An entry's number: `TD-7` and `TD-007` have one. */
  function Num(t: string): nat {
    if IsId(t) then Decimal(t[3..])
    else if MatchesIdRe(t) then Decimal(t[..|t|-1][3..])
    else 0
  }

  // ----- lines -----

  datatype Entry = Entry(id: string, key: string)

  predicate IsBlank(c: char) {
    c == ' ' || c == '\t'
  }

  predicate IsWordChar(c: char) {
    !IsSpace(c)
  }

  /** Where the run of characters satisfying `p` that starts at `from` ends. */
  function SpanFrom(s: string, p: char -> bool, from: nat): (n: nat)
    requires from <= |s|
    ensures from <= n <= |s|
    ensures forall i | from <= i < n :: p(s[i])
    ensures n < |s| ==> !p(s[n])
    decreases |s| - from
  {
    if from == |s| || !p(s[from]) then from else SpanFrom(s, p, from + 1)
  }

  /** How many characters at the front satisfy `p`. */
  function Span(s: string, p: char -> bool): (n: nat)
    ensures n <= |s|
    ensures forall i | 0 <= i < n :: p(s[i])
    ensures n < |s| ==> !p(s[n])
  {
    SpanFrom(s, p, 0)
  }

  function DropSpan(s: string, p: char -> bool): string {
    s[Span(s, p)..]
  }

  /** RANK_LINE_RE on a line without its ending. */
  function Parse(s: string): Option<Entry> {
    if |s| < 4 || s[..3] != "TD-" then None
    else
      var digits := Span(s[3..], IsDecimal);
      if digits == 0 then None else ParseValue(s[..3 + digits], s[3 + digits..])
  }

  /** The rest of the line after its id. */
  function ParseValue(id: string, rest: string): Option<Entry> {
    if rest == "" || rest[0] != ':' then None
    else
      var value := DropSpan(rest[1..], IsBlank);
      if value == rest[1..] then None else ParseWord(id, value)
  }

  function ParseWord(id: string, value: string): Option<Entry> {
    var word := Span(value, IsWordChar);
    if word == 0 || DropSpan(value[word..], IsBlank) != "" then None
    else Some(Entry(id, value[..word]))
  }

  ghost predicate AllBlank(s: string) {
    forall i | 0 <= i < |s| :: IsBlank(s[i])
  }

  ghost predicate IsWord(s: string) {
    s != "" && forall i | 0 <= i < |s| :: IsWordChar(s[i])
  }

  /** What the expression reads: an id, a colon, blanks, a word without spaces, and blanks to the end. */
  ghost predicate Reads(s: string, e: Entry, gap: string, end: string) {
    && s == e.id + ":" + gap + e.key + end
    && IsId(e.id)
    && gap != "" && AllBlank(gap) && IsWord(e.key) && AllBlank(end)
  }

  lemma SpanOf(front: string, rest: string, p: char -> bool)
    requires forall i | 0 <= i < |front| :: p(front[i])
    requires rest != "" ==> !p(rest[0])
    ensures Span(front + rest, p) == |front|
    ensures DropSpan(front + rest, p) == rest
  {
    var n := Span(front + rest, p);
    assert forall i | 0 <= i < |front| :: (front + rest)[i] == front[i];
    assert rest != "" ==> (front + rest)[|front|] == rest[0];
  }

  lemma ParseReads(s: string, e: Entry, gap: string, end: string)
    requires Reads(s, e, gap, end)
    ensures Parse(s) == Some(e)
  {
    var rest := ":" + gap + e.key + end;
    assert s == e.id + rest;
    assert s[..3] == e.id[..3] && s[3..] == e.id[3..] + rest;
    SpanOf(e.id[3..], rest, IsDecimal);
    assert s[|e.id|..] == rest && s[..|e.id|] == e.id;
    ParseValueReads(e, gap, end);
  }

  lemma ParseValueReads(e: Entry, gap: string, end: string)
    requires Reads(e.id + ":" + gap + e.key + end, e, gap, end)
    ensures ParseValue(e.id, ":" + gap + e.key + end) == Some(e)
  {
    var rest, value := ":" + gap + e.key + end, e.key + end;
    assert rest[1..] == gap + value;
    SpanOf(gap, value, IsBlank);
    SpanOf(e.key, end, IsWordChar);
    assert end == end + "";
    SpanOf(end, "", IsBlank);
  }

  lemma ParsedReads(s: string) returns (gap: string, end: string)
    requires Parse(s).Some?
    ensures Reads(s, Parse(s).value, gap, end)
  {
    var id, rest := ParsedHead(s);
    gap, end := ParsedRest(id, rest);
    ReadsRest(id, rest, ParseValue(id, rest).value, gap, end);
  }

  lemma ReadsRest(id: string, rest: string, e: Entry, gap: string, end: string)
    requires IsId(id) && e.id == id && rest == ":" + gap + e.key + end
    requires gap != "" && AllBlank(gap) && IsWord(e.key) && AllBlank(end)
    ensures Reads(id + rest, e, gap, end)
  {
    assert id + (":" + gap + e.key + end) == id + ":" + gap + e.key + end;
  }

  lemma ParsedHead(s: string) returns (id: string, rest: string)
    requires Parse(s).Some?
    ensures s == id + rest && IsId(id) && ParseValue(id, rest) == Parse(s)
  {
    var digits := Span(s[3..], IsDecimal);
    ParsedId(s, digits);
    id, rest := s[..3 + digits], s[3 + digits..];
  }

  lemma ParsedRest(id: string, rest: string) returns (gap: string, end: string)
    requires ParseValue(id, rest).Some?
    ensures ParseValue(id, rest).value.id == id
    ensures rest == ":" + gap + ParseValue(id, rest).value.key + end
    ensures gap != "" && AllBlank(gap) && IsWord(ParseValue(id, rest).value.key) && AllBlank(end)
  {
    var value;
    gap, value := ParsedGap(id, rest);
    end := ParsedWordReads(id, value);
    var key := ParseValue(id, rest).value.key;
    assert ":" + gap + (key + end) == ":" + gap + key + end;
  }

  lemma ParsedId(s: string, digits: nat)
    requires |s| >= 4 && s[..3] == "TD-" && 0 < digits == Span(s[3..], IsDecimal)
    ensures IsId(s[..3 + digits])
  {
    var id := s[..3 + digits];
    assert id[..3] == s[..3];
    assert forall i | 3 <= i < |id| :: id[i] == s[3..][i-3];
  }

  lemma ParsedGap(id: string, rest: string) returns (gap: string, value: string)
    requires ParseValue(id, rest).Some?
    ensures rest == ":" + gap + value && gap != "" && AllBlank(gap)
    ensures ParseWord(id, value) == ParseValue(id, rest)
  {
    var blanks := Span(rest[1..], IsBlank);
    gap, value := rest[1..][..blanks], rest[1..][blanks..];
    assert value == DropSpan(rest[1..], IsBlank);
    assert rest[1..] == gap + value;
  }

  lemma ParsedWordReads(id: string, value: string) returns (end: string)
    requires ParseWord(id, value).Some?
    ensures ParseWord(id, value).value.id == id
    ensures value == ParseWord(id, value).value.key + end
    ensures IsWord(ParseWord(id, value).value.key) && AllBlank(end)
  {
    end := value[Span(value, IsWordChar)..];
    assert AllBlank(end);
  }

  /** Parse reads a line one way only, and exactly the lines the expression describes. */
  lemma ParseExact(s: string, e: Entry)
    ensures Parse(s) == Some(e) <==> exists gap, end :: Reads(s, e, gap, end)
  {
    if Parse(s) == Some(e) {
      var gap, end := ParsedReads(s);
    }
    if gap, end :| Reads(s, e, gap, end) {
      ParseReads(s, e, gap, end);
    }
  }

  /** A line as set_rank writes it. */
  function Line(e: Entry, nl: string): string {
    e.id + ": " + e.key + nl
  }

  predicate IsEnding(nl: string) {
    nl == "\n" || nl == "\r\n"
  }

  lemma KeyHasNoSpace(key: string)
    requires IsKey(key)
    ensures forall i | 0 <= i < |key| :: IsWordChar(key[i]) && !IsBreak(key[i])
  {
  }

  /** A written line is whole and reads back. */
  lemma WrittenLine(e: Entry, nl: string)
    requires IsId(e.id) && IsKey(e.key) && IsEnding(nl)
    ensures IsWhole(Line(e, nl)) && Body(Line(e, nl)) == Stripped(Line(e, nl))
    ensures Parse(Body(Line(e, nl))) == Some(e)
  {
    var line, text := Line(e, nl), e.id + ":" + " " + e.key + "";
    KeyHasNoSpace(e.key);
    assert line == text + nl;
    forall i | 0 <= i < |text| ensures !IsBreak(text[i]) {
      assert i < 3 ==> text[i] == e.id[..3][i] && e.id[..3] == "TD-";
      assert 3 <= i < |e.id| ==> text[i] == e.id[i];
      assert i >= |e.id| + 2 ==> text[i] == e.key[i - |e.id| - 2];
    }
    assert line[..|text|] == text;
    if nl == "\n" {
      assert line[..|line|-1] == text;
    } else {
      assert line[..|line|-2] == text;
    }
    WholeBody(line);
    assert Body(line) == text;
    ParseReads(text, e, " ", "");
  }
}
