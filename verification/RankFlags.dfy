/** The flags scripts/ledgerboard.py's rank gives, each said of the lines themselves. */
module RankFlags {
  import opened Common
  import opened Keys
  import opened TextLines
  import opened RankLines
  import opened RankFile
  import opened RankFileIO

  lemma ParsedStarts(body: string)
    requires Parse(body).Some?
    ensures body != "" && body[0] == 'T'
  {
    assert body[0] == body[..3][0] == "TD-"[0];
  }

  /** A line is blank of spaces alone, and a comment by its first character. */
  lemma NoEntryExact(body: string)
    ensures Classify(body).Blank? <==> forall i | 0 <= i < |body| :: IsSpace(body[i])
    ensures Classify(body).Comment? <==> body != "" && body[0] == '#'
  {
    if body != "" && body[0] == '#' {
      assert !IsSpace(body[0]);
    }
  }

  /** It holds an entry by the expression and its key's shape, and any other cannot be read. */
  lemma EntryExact(body: string, e: Entry)
    ensures Classify(body) == Held(e) <==> MatchesKeyRe(e.key) && exists gap, end :: Reads(body, e, gap, end)
  {
    ParseExact(body, e);
    if Parse(body).Some? {
      ParsedStarts(body);
      assert !IsSpace(body[0]);
    }
  }

  // ----- what is read before a line -----

  predicate HoldsId(cs: seq<Class>, m: nat, id: string)
    requires m < |cs|
  {
    cs[m].Held? && cs[m].entry.id == id
  }

  /** An entry whose id no line above it holds. */
  predicate IsFirst(cs: seq<Class>, m: nat)
    requires m < |cs|
  {
    cs[m].Held? && forall j | 0 <= j < m :: !HoldsId(cs, j, cs[m].entry.id)
  }

  lemma ReadStep(cs: seq<Class>, n: nat)
    requires n < |cs|
    ensures ReadingOf(cs[..n+1]) == ReadingOf(cs[..n]) + HeldEntry(cs[n])
  {
    ClassStep(cs, n);
  }

  lemma {:induction false} NothingRead(cs: seq<Class>, n: nat)
    requires n <= |cs|
    ensures ReadingOf(cs[..n]) == [] <==> forall m | 0 <= m < n :: !cs[m].Held?
  {
    if n == 0 {
      assert cs[..0] == [];
    } else {
      NothingRead(cs, n - 1);
      ReadStep(cs, n - 1);
    }
  }

  /** `found` is the key of the first line to hold the id, or none of them does. */
  ghost predicate KeyFrom(cs: seq<Class>, n: nat, id: string, found: Option<string>)
    requires n <= |cs|
  {
    match found
    case None => forall m | 0 <= m < n :: !HoldsId(cs, m, id)
    case Some(key) => exists m | 0 <= m < n :: IsFirst(cs, m) && cs[m].entry == Entry(id, key)
  }

  lemma KeyAt(cs: seq<Class>, n: nat, id: string)
    requires n < |cs|
    ensures var was := KeyIn(ReadingOf(cs[..n]), id);
            KeyIn(ReadingOf(cs[..n+1]), id) ==
            if was.Some? then was else if HoldsId(cs, n, id) then Some(cs[n].entry.key) else None
  {
    ReadStep(cs, n);
    FirstAppend(ReadingOf(cs[..n]), HeldEntry(cs[n]), ById(id));
    if cs[n].Held? {
      assert HeldEntry(cs[n])[1..] == [];
    }
  }

  lemma KeyStep(cs: seq<Class>, n: nat, id: string, found: Option<string>)
    requires n < |cs| && KeyFrom(cs, n, id, found)
    ensures KeyFrom(cs, n + 1, id, if found.Some? then found else if HoldsId(cs, n, id) then Some(cs[n].entry.key)
                                   else None)
  {
    if found.None? && HoldsId(cs, n, id) {
      assert IsFirst(cs, n);
    }
  }

  lemma {:induction false} KeyIsFirst(cs: seq<Class>, n: nat, id: string)
    requires n <= |cs|
    ensures KeyFrom(cs, n, id, KeyIn(ReadingOf(cs[..n]), id))
  {
    if n == 0 {
      assert cs[..0] == [];
    } else {
      KeyIsFirst(cs, n - 1, id);
      KeyAt(cs, n - 1, id);
      KeyStep(cs, n - 1, id, KeyIn(ReadingOf(cs[..n-1]), id));
    }
  }

  lemma FirstsAgree(cs: seq<Class>, m: nat, k: nat)
    requires m < |cs| && k < |cs| && IsFirst(cs, m) && IsFirst(cs, k) && cs[m].entry.id == cs[k].entry.id
    ensures m == k
  {
    assert HoldsId(cs, m, cs[k].entry.id) && HoldsId(cs, k, cs[m].entry.id);
  }

  /** The last entry of the dictionary is that of the last line that is the first of its id. */
  ghost predicate IsLast(cs: seq<Class>, n: nat, m: nat)
    requires m < n <= |cs|
  {
    IsFirst(cs, m) && forall j | m < j < n :: !IsFirst(cs, j)
  }

  ghost predicate LastIs(cs: seq<Class>, n: nat, items: seq<Entry>)
    requires n <= |cs|
  {
    if items == [] then forall m | 0 <= m < n :: !IsFirst(cs, m)
    else exists m | 0 <= m < n :: IsLast(cs, n, m) && items[|items|-1] == cs[m].entry
  }

  lemma ItemsAt(cs: seq<Class>, n: nat)
    requires n < |cs|
    ensures Items(ReadingOf(cs[..n+1])) ==
            if IsFirst(cs, n) then Items(ReadingOf(cs[..n])) + [cs[n].entry] else Items(ReadingOf(cs[..n]))
  {
    var read := ReadingOf(cs[..n]);
    ReadStep(cs, n);
    assert read + [] == read;
    if cs[n].Held? {
      var id := cs[n].entry.id;
      KeyIsFirst(cs, n, id);
      ItemsStep(read, cs[n].entry);
      if KeyIn(read, id).Some? {
        NotFirst(cs, n, KeyIn(read, id).value);
      }
    }
  }

  lemma {:induction false} LastItem(cs: seq<Class>, n: nat)
    requires n <= |cs|
    ensures LastIs(cs, n, Items(ReadingOf(cs[..n])))
  {
    if n > 0 {
      LastItem(cs, n - 1);
      ItemsAt(cs, n - 1);
      LastStep(cs, n - 1, Items(ReadingOf(cs[..n-1])));
    }
  }

  lemma LastStep(cs: seq<Class>, n: nat, items: seq<Entry>)
    requires n < |cs| && LastIs(cs, n, items)
    ensures LastIs(cs, n + 1, if IsFirst(cs, n) then items + [cs[n].entry] else items)
  {
    if IsFirst(cs, n) {
      assert IsLast(cs, n + 1, n);
    } else if items != [] {
      var m :| 0 <= m < n && IsLast(cs, n, m) && items[|items|-1] == cs[m].entry;
      assert IsLast(cs, n + 1, m);
    }
  }

  lemma NotFirst(cs: seq<Class>, n: nat, key: string)
    requires n < |cs| && cs[n].Held?
    requires exists m | 0 <= m < n :: IsFirst(cs, m) && cs[m].entry == Entry(cs[n].entry.id, key)
    ensures !IsFirst(cs, n)
  {
    var m :| 0 <= m < n && IsFirst(cs, m) && cs[m].entry == Entry(cs[n].entry.id, key);
    assert HoldsId(cs, m, cs[n].entry.id);
  }

  // ----- the flags -----

  /** What each flag says of the line it names: a comment is late when an entry is above it; an entry again has its id
      held above, and by what key; and one out of order sorts below the last above it that was not itself again. */
  ghost predicate Says(cs: seq<Class>, n: nat, f: Flag)
    requires n < |cs|
  {
    f.line == n + 1 &&
    match f
    case BlankLine(_) => cs[n].Blank?
    case LateComment(_) => cs[n].Comment? && exists m | 0 <= m < n :: cs[m].Held?
    case CannotRead(_) => cs[n].Unreadable?
    case Again(_, id, held) =>
      HoldsId(cs, n, id) && exists m | 0 <= m < n :: IsFirst(cs, m) && cs[m].entry == Entry(id, held)
    case OutOfOrder(_, id) =>
      && HoldsId(cs, n, id) && IsFirst(cs, n)
      && exists m | 0 <= m < n :: IsLast(cs, n, m) && KeyLess(cs[n].entry.key, cs[m].entry.key)
  }

  lemma FlagForSays(cs: seq<Class>, n: nat, f: Flag)
    requires n < |cs|
    ensures f in FlagFor(ReadingOf(cs[..n]), cs[n], n + 1) <==> Says(cs, n, f)
  {
    var read := ReadingOf(cs[..n]);
    NothingRead(cs, n);
    if cs[n].Held? {
      HeldSays(cs, n, f);
    }
  }

  lemma HeldSays(cs: seq<Class>, n: nat, f: Flag)
    requires n < |cs| && cs[n].Held?
    ensures f in FlagFor(ReadingOf(cs[..n]), cs[n], n + 1) <==> Says(cs, n, f)
  {
    var read, e := ReadingOf(cs[..n]), cs[n].entry;
    KeyIsFirst(cs, n, e.id);
    LastItem(cs, n);
    match KeyIn(read, e.id)
    case Some(held) =>
      var m :| 0 <= m < n && IsFirst(cs, m) && cs[m].entry == Entry(e.id, held);
      NotFirst(cs, n, held);
      forall k | 0 <= k < n && IsFirst(cs, k) && cs[k].entry.id == e.id ensures k == m {
        FirstsAgree(cs, m, k);
      }
    case None =>
      forall m | 0 <= m < n && IsFirst(cs, m) ensures cs[m].entry.id != e.id {
        assert !HoldsId(cs, m, e.id);
      }
      OneLast(cs, n, Items(read), e.key);
  }

  lemma OneLast(cs: seq<Class>, n: nat, items: seq<Entry>, key: string)
    requires n <= |cs| && LastIs(cs, n, items)
    ensures (exists m | 0 <= m < n :: IsLast(cs, n, m) && KeyLess(key, cs[m].entry.key)) <==>
            items != [] && KeyLess(key, items[|items|-1].key)
  {
    if items != [] {
      var m :| 0 <= m < n && IsLast(cs, n, m) && items[|items|-1] == cs[m].entry;
      forall k | 0 <= k < n && IsLast(cs, n, k) ensures k == m {
        assert IsFirst(cs, m) && IsFirst(cs, k);
      }
    }
  }

  lemma FlagsStep(cs: seq<Class>, n: nat, f: Flag)
    requires n < |cs|
    ensures f in Flags(cs[..n+1]) <==> f in Flags(cs[..n]) || Says(cs, n, f)
  {
    ClassStep(cs, n);
    FlagForSays(cs, n, f);
  }

  /** A file's flags are exactly those that say what is so of their lines. */
  lemma {:induction false} FlagsSay(cs: seq<Class>, n: nat, f: Flag)
    requires n <= |cs|
    ensures f in Flags(cs[..n]) <==> exists m | 0 <= m < n :: Says(cs, m, f)
  {
    if n > 0 {
      FlagsSay(cs, n - 1, f);
      FlagsStep(cs, n - 1, f);
    }
  }

  ghost predicate LinesAscend(flags: seq<Flag>, n: nat) {
    && (forall i, j | 0 <= i < j < |flags| :: flags[i].line < flags[j].line)
    && forall i | 0 <= i < |flags| :: flags[i].line <= n
  }

  lemma LinesAppend(flags: seq<Flag>, more: seq<Flag>, n: nat)
    requires LinesAscend(flags, n) && |more| <= 1 && forall i | 0 <= i < |more| :: more[i].line == n + 1
    ensures LinesAscend(flags + more, n + 1)
  {
  }

  lemma OneFlag(read: seq<Entry>, c: Class, n: nat)
    ensures |FlagFor(read, c, n)| <= 1 && forall i | 0 <= i < |FlagFor(read, c, n)| :: FlagFor(read, c, n)[i].line == n
  {
  }

  /** And they stand in the file's order, one a line at most. */
  lemma {:induction false} FlagsInOrder(cs: seq<Class>, n: nat)
    requires n <= |cs|
    ensures LinesAscend(Flags(cs[..n]), n)
  {
    if n > 0 {
      ClassStep(cs, n - 1);
      FlagsInOrder(cs, n - 1);
      OneFlag(ReadingOf(cs[..n-1]), cs[n-1], n);
      LinesAppend(Flags(cs[..n-1]), FlagFor(ReadingOf(cs[..n-1]), cs[n-1], n), n - 1);
    }
  }
}
