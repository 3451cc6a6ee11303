/** Python's line splitting, as the rank file's reader and writer use it. */
module TextLines {
  /** Where str.splitlines breaks a line. */
  predicate IsBreak(c: char) {
    '\n' <= c <= '\r' || 0x1c <= c as int <= 0x1e || c as int == 0x85 || c as int == 0x2028 || c as int == 0x2029
  }

  /** What str.isspace, and the regular expressions' `\s`, take for a space. */
  predicate IsSpace(c: char) {
    var n := c as int;
    || 9 <= n <= 13 || 28 <= n <= 32 || n == 0x85 || n == 0xa0 || n == 0x1680 || 0x2000 <= n <= 0x200a
    || n == 0x2028 || n == 0x2029 || n == 0x202f || n == 0x205f || n == 0x3000
  }

  /** Where the line that holds place `i` ends, its ending included. */
  function LineEnd(text: string, i: nat): (n: nat)
    requires i < |text|
    ensures i < n <= |text|
    ensures n < |text| ==> IsBreak(text[n-1])
    ensures forall k | i <= k < n - 1 && IsBreak(text[k]) :: k == n - 2 && text[k] == '\r' && text[k+1] == '\n'
    ensures text[n-1] == '\r' && n < |text| ==> text[n] != '\n'
    decreases |text| - i
  {
    if text[i] == '\r' && i + 1 < |text| && text[i+1] == '\n' then i + 2
    else if IsBreak(text[i]) || i + 1 == |text| then i + 1
    else LineEnd(text, i + 1)
  }

  /** How long the first line is, its ending included. */
  function LineLength(text: string): (n: nat)
    requires text != ""
    ensures 1 <= n <= |text|
  {
    LineEnd(text, 0)
  }

  /** splitlines(keepends=True) */
  function Split(text: string): seq<string> {
    if text == "" then []
    else var n := LineLength(text); [text[..n]] + Split(text[n..])
  }

  function Join(lines: seq<string>): string {
    if lines == [] then "" else lines[0] + Join(lines[1..])
  }

  /** The line as splitlines() gives it, without its ending. */
  function Body(line: string): string {
    if |line| >= 2 && line[|line|-2] == '\r' && line[|line|-1] == '\n' then line[..|line|-2]
    else if line != "" && IsBreak(line[|line|-1]) then line[..|line|-1]
    else line
  }

  /** rstrip("\r\n") */
  function Stripped(line: string): string {
    if line != "" && (line[|line|-1] == '\n' || line[|line|-1] == '\r') then Stripped(line[..|line|-1])
    else line
  }

  ghost predicate Unbroken(s: string) {
    forall i | 0 <= i < |s| :: !IsBreak(s[i])
  }

  /** One line, ended by LF or CRLF. */
  ghost predicate IsWhole(line: string) {
    || (|line| >= 1 && line[|line|-1] == '\n' && Unbroken(line[..|line|-1]))
    || (|line| >= 2 && line[|line|-1] == '\n' && line[|line|-2] == '\r' && Unbroken(line[..|line|-2]))
  }

  ghost predicate AllWhole(lines: seq<string>) {
    forall l | l in lines :: IsWhole(l)
  }

  /** A text whose only line endings are LF and CRLF. */
  ghost predicate IsPlain(text: string) {
    forall i | 0 <= i < |text| :: PlainAt(text, i)
  }

  ghost predicate PlainAt(text: string, i: nat)
    requires i < |text|
  {
    IsBreak(text[i]) ==> text[i] == '\n' || (text[i] == '\r' && i + 1 < |text| && text[i+1] == '\n')
  }

  lemma {:induction false} JoinSplit(text: string)
    ensures Join(Split(text)) == text
  {
    if text != "" {
      var n := LineLength(text);
      JoinSplit(text[n..]);
      assert Split(text)[1..] == Split(text[n..]);
    }
  }

  lemma {:induction false} JoinAppend(s: seq<string>, t: seq<string>)
    ensures Join(s + t) == Join(s) + Join(t)
  {
    if s == [] {
      assert s + t == t;
    } else {
      JoinAppend(s[1..], t);
      assert (s + t)[1..] == s[1..] + t;
    }
  }

  lemma WholeBody(line: string)
    requires IsWhole(line)
    ensures Body(line) == Stripped(line) && Unbroken(Body(line))
  {
    var body := Body(line);
    if |line| >= 2 && line[|line|-2] == '\r' {
      assert !Unbroken(line[..|line|-1]) by {
        assert line[..|line|-1][|line|-2] == '\r';
      }
      assert Stripped(line) == Stripped(line[..|line|-1]) == Stripped(line[..|line|-1][..|line|-2]);
      assert line[..|line|-1][..|line|-2] == body;
    } else {
      assert Stripped(line) == Stripped(body);
    }
    assert body != "" ==> !IsBreak(body[|body|-1]);
  }

  lemma WholeLineLength(line: string, rest: string)
    requires IsWhole(line)
    ensures LineLength(line + rest) == |line|
  {
    var text, n := line + rest, LineLength(line + rest);
    var body := Body(line);
    WholeBody(line);
    assert forall k | 0 <= k < |body| :: text[k] == body[k] && !IsBreak(body[k]);
    assert text[|line|-1] == '\n';
    assert |line| >= 2 ==> text[|line|-2] == line[|line|-2];
  }

  /** Joining whole lines and splitting again gives the lines back. */
  lemma {:induction false} SplitJoin(lines: seq<string>)
    requires AllWhole(lines)
    ensures Split(Join(lines)) == lines
  {
    if lines != [] {
      assert IsWhole(lines[0]);
      WholeLineLength(lines[0], Join(lines[1..]));
      SplitJoin(lines[1..]);
      assert Join(lines)[|lines[0]|..] == Join(lines[1..]);
      assert Join(lines)[..|lines[0]|] == lines[0];
    }
  }

  lemma PlainRest(text: string, n: nat)
    requires IsPlain(text) && n <= |text|
    ensures IsPlain(text[n..])
  {
    forall i | 0 <= i < |text[n..]| ensures PlainAt(text[n..], i) {
      assert PlainAt(text, n + i);
    }
  }

  /** The lines of a plain text are whole, but for a last one with no ending. */
  lemma {:induction false} PlainLines(text: string)
    requires IsPlain(text)
    ensures forall i | 0 <= i < |Split(text)| - 1 :: IsWhole(Split(text)[i])
    ensures text != "" ==> Split(text) != [] && var last := Split(text)[|Split(text)|-1];
                           last != "" && (if last[|last|-1] == '\n' then IsWhole(last) else Unbroken(last))
  {
    if text != "" {
      var n := LineLength(text);
      PlainFirstLine(text);
      PlainRest(text, n);
      PlainLines(text[n..]);
      var first, rest := text[..n], Split(text[n..]);
      assert rest != [] ==> text[n..] != "";
      forall i | 0 <= i < |Split(text)| - 1 ensures IsWhole(Split(text)[i]) {
        assert i > 0 ==> Split(text)[i] == rest[i-1];
      }
    }
  }

  lemma PlainFirstLine(text: string)
    requires IsPlain(text) && text != ""
    ensures var first := text[..LineLength(text)];
            if first[|first|-1] == '\n' then IsWhole(first) else Unbroken(first) && first == text
  {
    var n := LineLength(text);
    assert PlainAt(text, n - 1);
    if text[n-1] == '\n' && n >= 2 && text[n-2] == '\r' {
      assert Unbroken(text[..n][..n-2]);
    } else {
      assert Unbroken(text[..n][..n-1]);
    }
  }
}
