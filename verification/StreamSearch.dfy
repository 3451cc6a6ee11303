/** scripts/list_sessions.py's mentions: a transcript read in chunks, searched for any needle as a path, a tail of each
    chunk kept for the next. */
module StreamSearch {
  newtype byte = x: int | 0 <= x < 256

  /** A character that would make the needle the start of a longer name. */
  predicate IsNamed(b: byte) {
    65 <= b <= 90 || 97 <= b <= 122 || 48 <= b <= 57 || b == 95 || b == 45
  }

  /** What must not follow a needle: such a character, or a dot and then one. */
  predicate GoesOn(text: seq<byte>, j: nat) {
    j < |text| && (IsNamed(text[j]) || (text[j] == 46 && j + 1 < |text| && IsNamed(text[j+1])))
  }

  predicate MentionAt(text: seq<byte>, needle: seq<byte>, i: nat) {
    i + |needle| <= |text| && text[i..i+|needle|] == needle && !GoesOn(text, i + |needle|)
  }

  /** Some needle is in the text as a path. */
  predicate Mentions(text: seq<byte>, needles: seq<seq<byte>>) {
    exists m, i :: 0 <= m < |needles| && 0 <= i <= |text| && MentionAt(text, needles[m], i)
  }

  /** The file as far as its first `k` chunks. */
  function Upto(chunks: seq<seq<byte>>, k: nat): seq<byte>
    requires k <= |chunks|
  {
    if k == 0 then [] else Upto(chunks, k - 1) + chunks[k-1]
  }

  /** The last `keep` bytes as Python slices them: with no `keep`, all of them. */
  function Last(text: seq<byte>, keep: nat): seq<byte> {
    if keep == 0 || keep > |text| then text else text[|text| - keep..]
  }

  predicate Longest(needles: seq<seq<byte>>, keep: nat) {
    forall m | 0 <= m < |needles| :: |needles[m]| <= keep
  }

  method LongestOf(needles: seq<seq<byte>>) returns (keep: nat)
    requires needles != []
    ensures Longest(needles, keep) && exists m :: 0 <= m < |needles| && |needles[m]| == keep
  {
    keep := |needles[0]|;
    var n := 1;
    while n < |needles|
      invariant 1 <= n <= |needles| && Longest(needles[..n], keep)
      invariant exists m :: 0 <= m < |needles| && |needles[m]| == keep
    {
      if |needles[n]| > keep {
        keep := |needles[n]|;
      }
      n := n + 1;
    }
    assert needles[..n] == needles;
  }

  /** The file up to the end of some chunk mentions a needle. */
  predicate Found(chunks: seq<seq<byte>>, needles: seq<seq<byte>>) {
    exists k :: 1 <= k <= |chunks| && FoundBy(chunks, k, needles)
  }

  predicate FoundBy(chunks: seq<seq<byte>>, k: nat, needles: seq<seq<byte>>) {
    k <= |chunks| && Mentions(Upto(chunks, k), needles)
  }

  /** What is kept of the text so far. */
  predicate IsTail(text: seq<byte>, tail: seq<byte>, keep: nat) {
    && |tail| <= |text| && (forall j | 0 <= j < |tail| :: tail[j] == text[|text| - |tail| + j])
    && |tail| >= if keep == 0 || keep > |text| then |text| else keep
  }

  /** What the end of a text mentions, the text does. */
  lemma TailMentions(text: seq<byte>, tail: seq<byte>, needles: seq<seq<byte>>)
    requires |tail| <= |text| && tail == text[|text| - |tail|..] && Mentions(tail, needles)
    ensures Mentions(text, needles)
  {
    var m, i :| 0 <= m < |needles| && 0 <= i <= |tail| && MentionAt(tail, needles[m], i);
    var j := i + |text| - |tail|;
    assert text[j..j+|needles[m]|] == tail[i..i+|needles[m]|];
    assert MentionAt(text, needles[m], j);
  }

  /** A mention in the text so far and one more chunk is in what is searched, or was there before the chunk. */
  lemma InTheTail(before: seq<byte>, chunk: seq<byte>, tail: seq<byte>, needles: seq<seq<byte>>, m: nat, i: nat)
    requires |tail| <= |before| && tail == before[|before| - |tail|..]
    requires m < |needles| && (|tail| == |before| || |tail| >= |needles[m]|)
    requires MentionAt(before + chunk, needles[m], i)
    ensures Mentions(tail + chunk, needles) || (Mentions(before, needles) && i + |needles[m]| < |before|)
  {
    var needle, whole, buf, off := needles[m], before + chunk, tail + chunk, |before| - |tail|;
    if i >= off {
      assert buf == whole[off..];
      assert buf[i-off..i-off+|needle|] == whole[i..i+|needle|];
      assert MentionAt(buf, needle, i - off);
    } else {
      assert before[i..i+|needle|] == whole[i..i+|needle|];
      assert MentionAt(before, needle, i);
    }
  }

  /** What is kept of one more chunk is kept of the text. */
  lemma TailGrows(before: seq<byte>, chunk: seq<byte>, tail: seq<byte>, keep: nat)
    requires IsTail(before, tail, keep)
    ensures IsTail(before + chunk, Last(tail + chunk, keep), keep)
  {
  }

  lemma TextMentions(before: seq<byte>, chunk: seq<byte>, tail: seq<byte>, needles: seq<seq<byte>>, keep: nat)
    requires Longest(needles, keep) && IsTail(before, tail, keep) && Mentions(before + chunk, needles)
    ensures Mentions(tail + chunk, needles) || (before != [] && Mentions(before, needles))
  {
    var m, i :| 0 <= m < |needles| && 0 <= i <= |before + chunk| && MentionAt(before + chunk, needles[m], i);
    InTheTail(before, chunk, tail, needles, m, i);
  }

  /** One more chunk: the text mentions a needle exactly where what is searched does, or where it did before. */
  lemma ChunkFinds(chunks: seq<seq<byte>>, n: nat, tail: seq<byte>, needles: seq<seq<byte>>, keep: nat)
    requires n < |chunks| && Longest(needles, keep) && IsTail(Upto(chunks, n), tail, keep)
    requires n == 0 || !FoundBy(chunks, n, needles)
    ensures FoundBy(chunks, n + 1, needles) <==> Mentions(tail + chunks[n], needles)
  {
    var before, chunk := Upto(chunks, n), chunks[n];
    if Mentions(tail + chunk, needles) {
      TailMentions(before + chunk, tail + chunk, needles);
    }
    if Mentions(before + chunk, needles) {
      TextMentions(before, chunk, tail, needles, keep);
    }
  }

  // ----- against a search of the whole file -----

  function Whole(chunks: seq<seq<byte>>): seq<byte> {
    Upto(chunks, |chunks|)
  }

  lemma {:induction false} UptoIsPrefix(chunks: seq<seq<byte>>, k: nat, n: nat)
    requires k <= n <= |chunks|
    ensures Upto(chunks, k) <= Upto(chunks, n)
  {
    if k < n {
      UptoIsPrefix(chunks, k, n - 1);
    }
  }

  /** A needle is in the file, ending where a chunk does, or with only a dot to the chunk's end. */
  predicate EndsWithChunk(chunks: seq<seq<byte>>, needle: seq<byte>, k: nat, i: nat)
    requires k <= |chunks|
  {
    var text, end := Whole(chunks), |Upto(chunks, k)|;
    && i + |needle| <= |text| && text[i..i+|needle|] == needle
    && (i + |needle| == end || (i + |needle| + 1 == end <= |text| && text[i+|needle|] == 46))
  }

  predicate CutShort(chunks: seq<seq<byte>>, needles: seq<seq<byte>>) {
    exists k, m, i :: 1 <= k < |chunks| && 0 <= m < |needles| && 0 <= i <= |Whole(chunks)|
                      && EndsWithChunk(chunks, needles[m], k, i)
  }

  /** A chunk's end hides what follows it: the chunked search finds what the whole-file search does and, besides, a
      needle that ends with a chunk. So it never misses one, and with one chunk the two agree. */
  lemma FoundExactly(chunks: seq<seq<byte>>, needles: seq<seq<byte>>)
    requires chunks != []
    ensures Found(chunks, needles) <==> Mentions(Whole(chunks), needles) || CutShort(chunks, needles)
  {
    if Found(chunks, needles) {
      var k :| 1 <= k <= |chunks| && FoundBy(chunks, k, needles);
      FoundWhy(chunks, needles, k);
    }
    if Mentions(Whole(chunks), needles) {
      assert FoundBy(chunks, |chunks|, needles);
    }
    if CutShort(chunks, needles) {
      var k, m, i :| 1 <= k < |chunks| && 0 <= m < |needles| && 0 <= i <= |Whole(chunks)|
                     && EndsWithChunk(chunks, needles[m], k, i);
      CutIsFound(chunks, needles, k, m, i);
    }
  }

  lemma FoundWhy(chunks: seq<seq<byte>>, needles: seq<seq<byte>>, k: nat)
    requires 1 <= k <= |chunks| && Mentions(Upto(chunks, k), needles)
    ensures Mentions(Whole(chunks), needles) || CutShort(chunks, needles)
  {
    var text, part := Whole(chunks), Upto(chunks, k);
    UptoIsPrefix(chunks, k, |chunks|);
    var m, i :| 0 <= m < |needles| && 0 <= i <= |part| && MentionAt(part, needles[m], i);
    assert text[i..i+|needles[m]|] == part[i..i+|needles[m]|];
    if GoesOn(text, i + |needles[m]|) {
      assert EndsWithChunk(chunks, needles[m], k, i);
    } else {
      assert MentionAt(text, needles[m], i);
    }
  }

  lemma CutIsFound(chunks: seq<seq<byte>>, needles: seq<seq<byte>>, k: nat, m: nat, i: nat)
    requires 1 <= k < |chunks| && m < |needles| && EndsWithChunk(chunks, needles[m], k, i)
    ensures Found(chunks, needles)
  {
    var text, part := Whole(chunks), Upto(chunks, k);
    UptoIsPrefix(chunks, k, |chunks|);
    assert part[i..i+|needles[m]|] == text[i..i+|needles[m]|];
    assert MentionAt(part, needles[m], i);
    assert FoundBy(chunks, k, needles);
  }

  lemma OneChunkAgrees(chunk: seq<byte>, needles: seq<seq<byte>>)
    ensures Whole([chunk]) == chunk
    ensures Found([chunk], needles) <==> Mentions(chunk, needles)
  {
    assert Upto([chunk], 0) + chunk == chunk;
    FoundExactly([chunk], needles);
    assert Mentions(chunk, needles) <==> Mentions(Whole([chunk]), needles);
  }

  /** The disagreement is real: `/a` cut from `/ab` by a chunk's end is taken for a mention of `/a`. */
  lemma FoundThoughNotMentioned() returns (chunks: seq<seq<byte>>, needles: seq<seq<byte>>)
    ensures Found(chunks, needles) && !Mentions(Whole(chunks), needles)
  {
    chunks, needles := [[47, 97], [98]], [[47, 97]];
    var text := Whole(chunks);
    assert Upto(chunks, 1) == [47, 97] && text == [47, 97, 98];
    assert EndsWithChunk(chunks, needles[0], 1, 0);
    CutIsFound(chunks, needles, 1, 0, 0);
    forall i: nat ensures !MentionAt(text, needles[0], i) {
      if i == 0 {
        assert GoesOn(text, 2);
      } else if i == 1 {
        assert text[1..3][0] == 97;
      }
    }
  }

  // ----- what goes on, in characters -----

  function Text(s: string): seq<byte>
    requires forall i | 0 <= i < |s| :: s[i] < 0x100 as char
  {
    seq(|s|, i requires 0 <= i < |s| => s[i] as int as byte)
  }

  /** Python's `[A-Za-z0-9_\-]`, character by character. */
  predicate InName(c: char) {
    || c in "ABCDEFGHIJKLM" || c in "NOPQRSTUVWXYZ" || c in "abcdefghijklm" || c in "nopqrstuvwxyz"
    || c in "0123456789" || c == '_' || c == '-'
  }

  lemma NamedIff(c: char)
    requires c < 0x100 as char
    ensures IsNamed(c as int as byte) <==> InName(c)
  {
    LettersOf(c, 'A', "ABCDEFGHIJKLM");
    LettersOf(c, 'N', "NOPQRSTUVWXYZ");
    LettersOf(c, 'a', "abcdefghijklm");
    LettersOf(c, 'n', "nopqrstuvwxyz");
    LettersOf(c, '0', "0123456789");
  }

  /** A run of characters, one after another. */
  lemma LettersOf(c: char, first: char, run: string)
    requires first as int + |run| < 0xd800
    requires forall i | 0 <= i < |run| :: run[i] == (first as int + i) as char
    ensures c in run <==> first as int <= c as int < first as int + |run|
  {
    if first as int <= c as int < first as int + |run| {
      assert run[c as int - first as int] == c;
    }
  }

  /** A path is mentioned where no letter, digit, `_` or `-` goes on with it, nor a dot and then one. */
  lemma MentionedUnlessItGoesOn(path: string, more: string)
    requires forall i | 0 <= i < |path + more| :: (path + more)[i] < 0x100 as char
    requires forall i | 0 <= i < |path| :: path[i] < 0x100 as char
    ensures MentionAt(Text(path + more), Text(path), 0) <==>
            !(|more| >= 1 && InName(more[0])) && !(|more| >= 2 && more[0] == '.' && InName(more[1]))
  {
    var text, n := path + more, |path|;
    assert Text(text)[..n] == Text(path);
    if |more| >= 1 {
      assert text[n] == more[0];
      NamedIff(more[0]);
    }
    if |more| >= 2 {
      assert text[n+1] == more[1];
      NamedIff(more[1]);
    }
  }

  // ----- the search -----

  /** Found by the end of one of the first `n` chunks. */
  ghost predicate Seen(chunks: seq<seq<byte>>, n: nat, needles: seq<seq<byte>>) {
    n > 0 && (Seen(chunks, n - 1, needles) || FoundBy(chunks, n, needles))
  }

  lemma {:induction false} SeenIff(chunks: seq<seq<byte>>, n: nat, needles: seq<seq<byte>>)
    ensures Seen(chunks, n, needles) <==> exists k :: 1 <= k <= n && FoundBy(chunks, k, needles)
  {
    if n > 0 {
      SeenIff(chunks, n - 1, needles);
    }
  }

  lemma SeenIsFound(chunks: seq<seq<byte>>, n: nat, needles: seq<seq<byte>>)
    requires n <= |chunks|
    ensures Seen(chunks, n, needles) ==> Found(chunks, needles)
    ensures n == |chunks| ==> (Seen(chunks, n, needles) <==> Found(chunks, needles))
  {
    SeenIff(chunks, n, needles);
  }

  method Search(chunks: seq<seq<byte>>, needles: seq<seq<byte>>) returns (found: bool)
    requires needles != []
    ensures found <==> Found(chunks, needles)
  {
    var keep := LongestOf(needles);
    var tail, n := [], 0;
    while n < |chunks|
      invariant n <= |chunks| && IsTail(Upto(chunks, n), tail, keep) && !Seen(chunks, n, needles)
    {
      var buf := tail + chunks[n];
      ChunkFinds(chunks, n, tail, needles, keep);
      TailGrows(Upto(chunks, n), chunks[n], tail, keep);
      if Mentions(buf, needles) {
        SeenIsFound(chunks, n + 1, needles);
        return true;
      }
      tail := Last(buf, keep);
      n := n + 1;
    }
    SeenIsFound(chunks, n, needles);
    return false;
  }
}
