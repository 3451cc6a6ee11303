/** scripts/ledgerboard.py's rank and set_rank, as written: loops over the file's lines. */
module RankFileIO {
  import opened Common
  import opened Keys
  import opened TextLines
  import opened RankLines
  import opened RankFile

  // ----- rank -----

  datatype Flag =
    | BlankLine(line: nat)
    | LateComment(line: nat)
    | CannotRead(line: nat)
    | Again(line: nat, id: string, held: string)
    | OutOfOrder(line: nat, id: string)

  function Classes(lines: seq<string>): seq<Class> {
    seq(|lines|, i requires 0 <= i < |lines| => Classify(Body(lines[i])))
  }

  function HeldEntry(c: Class): seq<Entry> {
    if c.Held? then [c.entry] else []
  }

  function ReadingOf(cs: seq<Class>): seq<Entry> {
    Collect(cs, HeldEntry)
  }

  /** What rank says of a line `n` that comes after the entries `read`. */
  function FlagFor(read: seq<Entry>, c: Class, n: nat): seq<Flag> {
    match c
    case Blank => [BlankLine(n)]
    case Comment => if read == [] then [] else [LateComment(n)]
    case Unreadable => [CannotRead(n)]
    case Held(e) =>
      match KeyIn(read, e.id)
      case Some(held) => [Again(n, e.id, held)]
      case None =>
        var items := Items(read);
        if items != [] && KeyLess(e.key, items[|items|-1].key) then [OutOfOrder(n, e.id)] else []
  }

  function Flags(cs: seq<Class>): seq<Flag> {
    if cs == [] then []
    else
      var front := cs[..|cs|-1];
      Flags(front) + FlagFor(ReadingOf(front), cs[|cs|-1], |cs|)
  }

  ghost predicate KeysAscend(items: seq<Entry>) {
    forall i | 0 < i < |items| :: !KeyLess(items[i].key, items[i-1].key)
  }

  lemma {:induction false} ReadingByClass(lines: seq<string>)
    ensures ReadingOf(Classes(lines)) == Reading(lines)
  {
    if lines != [] {
      ReadingByClass(lines[1..]);
      assert Classes(lines)[1..] == Classes(lines[1..]);
    }
  }

  lemma ClassStep(cs: seq<Class>, n: nat)
    requires n < |cs|
    ensures ReadingOf(cs[..n+1]) == ReadingOf(cs[..n]) + HeldEntry(cs[n])
    ensures !cs[n].Held? ==> ReadingOf(cs[..n+1]) == ReadingOf(cs[..n])
    ensures Flags(cs[..n+1]) == Flags(cs[..n]) + FlagFor(ReadingOf(cs[..n]), cs[n], n + 1)
  {
    assert cs[..n+1] == cs[..n] + [cs[n]];
    assert cs[..n+1][..n] == cs[..n];
    CollectAppend(cs[..n], [cs[n]], HeldEntry);
    CollectOne(cs[n], HeldEntry);
  }

  lemma ItemsStep(s: seq<Entry>, e: Entry)
    ensures Items(s + [e]) == if KeyIn(s, e.id).Some? then Items(s) else Items(s) + [e]
  {
    assert (s + [e])[..|s|] == s;
    FirstNone(s, ById(e.id));
    assert HasId(s, e.id) <==> KeyIn(s, e.id).Some?;
  }

  /** The dictionary holds each id's first key. */
  ghost predicate Holds(keys: map<string, string>, read: seq<Entry>) {
    forall id :: KeyIn(read, id) == if id in keys then Some(keys[id]) else None
  }

  lemma HoldsStep(keys: map<string, string>, read: seq<Entry>, e: Entry)
    requires Holds(keys, read)
    ensures Holds(if e.id in keys then keys else keys[e.id := e.key], read + [e])
  {
    forall id ensures KeyIn(read + [e], id) ==
                      if id in keys then Some(keys[id]) else if id == e.id then Some(e.key) else None
    {
      FirstAppend(read, [e], ById(id));
      assert [e][1..] == [];
      assert KeyIn(read, id) == if id in keys then Some(keys[id]) else None;
    }
  }

  predicate SaysUnordered(flags: seq<Flag>) {
    exists i | 0 <= i < |flags| :: flags[i].OutOfOrder?
  }

  lemma SaysUnorderedAppend(s: seq<Flag>, t: seq<Flag>)
    ensures SaysUnordered(s + t) <==> SaysUnordered(s) || SaysUnordered(t)
  {
    if SaysUnordered(t) {
      var i :| 0 <= i < |t| && t[i].OutOfOrder?;
      assert (s + t)[|s| + i].OutOfOrder?;
    }
    if SaysUnordered(s) {
      var i :| 0 <= i < |s| && s[i].OutOfOrder?;
      assert (s + t)[i].OutOfOrder?;
    }
  }

  lemma AscendStep(read: seq<Entry>, c: Class, n: nat)
    ensures KeysAscend(Items(read + HeldEntry(c))) <==>
            KeysAscend(Items(read)) && !SaysUnordered(FlagFor(read, c, n))
  {
    var flag := FlagFor(read, c, n);
    assert SaysUnordered(flag) <==> |flag| == 1 && flag[0].OutOfOrder?;
    if c.Held? {
      ItemsStep(read, c.entry);
      LastKey(Items(read), c.entry);
    } else {
      assert read + [] == read;
    }
  }

  /** The file is flagged out of key order exactly when the keys it reads do not ascend. */
  lemma {:induction false} FlaggedIffUnordered(cs: seq<Class>)
    ensures SaysUnordered(Flags(cs)) <==> !KeysAscend(Items(ReadingOf(cs)))
  {
    if cs != [] {
      var n := |cs| - 1;
      FlaggedIffUnordered(cs[..n]);
      ClassStep(cs, n);
      assert cs[..n+1] == cs;
      var read := ReadingOf(cs[..n]);
      SaysUnorderedAppend(Flags(cs[..n]), FlagFor(read, cs[n], n + 1));
      AscendStep(read, cs[n], n + 1);
    }
  }

  lemma LastKey(items: seq<Entry>, e: Entry)
    ensures KeysAscend(items + [e]) <==>
            KeysAscend(items) && (items == [] || !KeyLess(e.key, items[|items|-1].key))
  {
    var all := items + [e];
    if KeysAscend(all) {
      forall i | 0 < i < |items| ensures !KeyLess(items[i].key, items[i-1].key) {
        assert !KeyLess(all[i].key, all[i-1].key);
      }
      assert items != [] ==> !KeyLess(all[|items|].key, all[|items|-1].key);
    }
  }

  method Rank(text: string) returns (keys: map<string, string>, items: seq<Entry>, flags: seq<Flag>)
    ensures forall id :: KeyOf(text, id) == if id in keys then Some(keys[id]) else None
    ensures items == Items(Reading(Split(text)))
    ensures flags == Flags(Classes(Split(text)))
  {
    ReadingByClass(Split(text));
    keys, items, flags := RankLinesIn(Classes(Split(text)));
  }

  /** What rank's loop holds once it has read the entries `read`. */
  ghost predicate Loop(read: seq<Entry>, keys: map<string, string>, items: seq<Entry>, seen: bool,
                       last: Option<string>)
  {
    && Holds(keys, read) && items == Items(read)
    && (seen <==> read != [])
    && last == if items == [] then None else Some(items[|items|-1].key)
  }

  /** rank's loop, over the lines as it takes them. */
  method RankLinesIn(cs: seq<Class>) returns (keys: map<string, string>, items: seq<Entry>, flags: seq<Flag>)
    ensures Holds(keys, ReadingOf(cs))
    ensures items == Items(ReadingOf(cs))
    ensures flags == Flags(cs)
  {
    keys, items, flags := map[], [], [];
    var seen, last := false, None;
    for n := 0 to |cs|
      invariant Loop(ReadingOf(cs[..n]), keys, items, seen, last)
      invariant flags == Flags(cs[..n])
    {
      ClassStep(cs, n);
      ghost var read := ReadingOf(cs[..n]);
      match cs[n] {
        case Blank =>
          flags := flags + [BlankLine(n + 1)];
        case Comment =>
          if seen {
            flags := flags + [LateComment(n + 1)];
          }
        case Unreadable =>
          flags := flags + [CannotRead(n + 1)];
        case Held(e) =>
          var flag;
          keys, items, last, flag := TakeEntry(read, e, n + 1, keys, items, seen, last);
          seen := true;
          flags := flags + flag;
      }
    }
    assert cs[..|cs|] == cs;
  }

  method TakeEntry(ghost read: seq<Entry>, e: Entry, n: nat, keys: map<string, string>, items: seq<Entry>,
                   ghost seen: bool, last: Option<string>)
    returns (keys': map<string, string>, items': seq<Entry>, last': Option<string>, flag: seq<Flag>)
    requires Loop(read, keys, items, seen, last)
    ensures Loop(read + [e], keys', items', true, last')
    ensures flag == FlagFor(read, Held(e), n)
  {
    ItemsStep(read, e);
    HoldsStep(keys, read, e);
    assert KeyIn(read, e.id) == if e.id in keys then Some(keys[e.id]) else None;
    keys', items', last', flag := keys, items, last, [];
    if e.id in keys {
      flag := [Again(n, e.id, keys[e.id])];
    } else {
      if last.Some? && KeyLess(e.key, last.value) {
        flag := [OutOfOrder(n, e.id)];
      }
      keys', items', last' := keys[e.id := e.key], items + [e], Some(e.key);
    }
  }

  // ----- set_rank -----

  datatype Refusal = NotAnId(id: string) | NotAKey(key: string) | NotAsWritten

  method SetRank(text: string, us: seq<Update>) returns (r: Result<string, Refusal>)
    ensures r.Err? && !r.error.NotAsWritten? <==> !Accepted(us)
    ensures r.Err? && r.error.NotAnId? ==> !MatchesIdRe(r.error.id)
    ensures r.Err? && r.error.NotAKey? ==> !MatchesKeyRe(r.error.key)
    ensures Accepted(us) ==> (r == Err(NotAsWritten) <==> !ReadsBack(Written(text, us), us))
    ensures r.Ok? ==> r.value == Written(text, us)
  {
    var refused := Unacceptable(us);
    if refused.Some? {
      return Err(refused.value);
    }
    var nl, src := Ending(text), Source(text);
    var kept := KeepOthers(src, Ids(us));
    kept := InsertWants(kept, SortEntries(Wants(us)), nl);
    var out := Join(kept);
    var got, _, _ := Rank(out);
    var same := AsAsked(out, got, us);
    if !same {
      return Err(NotAsWritten);
    }
    return Ok(out);
  }

  method Unacceptable(us: seq<Update>) returns (refused: Option<Refusal>)
    ensures refused.None? <==> Accepted(us)
    ensures refused.Some? ==> match refused.value
                              case NotAnId(id) => !MatchesIdRe(id)
                              case NotAKey(key) => !MatchesKeyRe(key)
                              case NotAsWritten => false
  {
    for i := 0 to |us|
      invariant forall k | 0 <= k < i :: MatchesIdRe(us[k].0) && (us[k].1.Some? ==> MatchesKeyRe(us[k].1.value))
    {
      if !MatchesIdRe(us[i].0) {
        return Some(NotAnId(us[i].0));
      }
      if us[i].1.Some? && !MatchesKeyRe(us[i].1.value) {
        return Some(NotAKey(us[i].1.value));
      }
    }
    return None;
  }

  method AsAsked(out: string, got: map<string, string>, us: seq<Update>) returns (same: bool)
    requires forall id :: KeyOf(out, id) == if id in got then Some(got[id]) else None
    ensures same <==> ReadsBack(out, us)
  {
    for i := 0 to |us|
      invariant forall k | 0 <= k < i :: KeyOf(out, us[k].0) == us[k].1
    {
      if (if us[i].0 in got then Some(got[us[i].0]) else None) != us[i].1 {
        return false;
      }
    }
    return true;
  }

  /** Each new line in turn, before the first entry line that sorts above it. */
  method InsertWants(lines: seq<string>, wants: seq<Entry>, nl: string) returns (kept: seq<string>)
    ensures kept == InsertAll(lines, wants, nl)
  {
    kept := lines;
    for i := 0 to |wants|
      invariant InsertAll(kept, wants[i..], nl) == InsertAll(lines, wants, nl)
    {
      var at := |kept|;
      for j := 0 to |kept|
        invariant at == |kept|
        invariant forall k | 0 <= k < j :: !SortsAbove(kept[k], wants[i])
      {
        if SortsAbove(kept[j], wants[i]) {
          at := j;
          break;
        }
      }
      PlaceIs(kept, wants[i], at);
      assert wants[i..][1..] == wants[i+1..];
      kept := kept[..at] + [Line(wants[i], nl)] + kept[at..];
    }
  }

  method KeepOthers(src: seq<string>, ids: set<string>) returns (kept: seq<string>)
    ensures kept == Filter(src, Other(ids))
  {
    kept := [];
    for i := 0 to |src|
      invariant kept == Filter(src[..i], Other(ids))
    {
      assert src[..i+1] == src[..i] + [src[i]];
      FilterAppend(src[..i], [src[i]], Other(ids));
      assert [src[i]][1..] == [];
      if !Names(src[i], ids) {
        kept := kept + [src[i]];
      }
    }
    assert src[..|src|] == src;
  }

  lemma PlaceIs(lines: seq<string>, e: Entry, at: nat)
    requires at <= |lines| && (at < |lines| ==> SortsAbove(lines[at], e))
    requires forall k | 0 <= k < at :: !SortsAbove(lines[k], e)
    ensures at == Place(lines, e)
  {
  }
}
