/** scripts/forge.py's show and unshow: a setting's value as one line, and back. Strings are code points, as Python's
    are, so a surrogate may stand by itself; the JSON is Python's own (RFC 8259, section 7, every other character than
    printable ASCII escaped). */
module SettingText {
  import opened CodePoints
  import opened Common

  datatype Value = Null | Bool(b: bool) | Str(t: Text)

  const QUOTE: CodePoint := 34
  const BACKSLASH: CodePoint := 92
  const LETTER_U: CodePoint := 117

  const TRUE: Text := [116, 114, 117, 101]
  const FALSE: Text := [102, 97, 108, 115, 101]
  const NULL: Text := [110, 117, 108, 108]

  // ----- JSON strings out -----

  function HexDigit(n: int): CodePoint
    requires 0 <= n < 16
  {
    if n < 10 then 48 + n else 87 + n
  }

  function HexValue(c: CodePoint): Option<int> {
    if 48 <= c <= 57 then Some(c - 48)
    else if 97 <= c <= 102 then Some(c - 87)
    else if 65 <= c <= 70 then Some(c - 55)
    else None
  }

  function Hex4(n: int): (r: Text)
    requires 0 <= n < 0x10000
    ensures |r| == 4
  {
    [HexDigit(n / 4096), HexDigit(n / 256 % 16), HexDigit(n / 16 % 16), HexDigit(n % 16)]
  }

  function Unicode(n: int): (r: Text)
    requires 0 <= n < 0x10000
    ensures |r| == 6
  {
    [BACKSLASH, LETTER_U] + Hex4(n)
  }

  /** The letter that stands for a character after a backslash. */
  function ShortEscape(c: CodePoint): Option<CodePoint> {
    if c == QUOTE || c == BACKSLASH then Some(c)
    else if c == 8 then Some(98)
    else if c == 12 then Some(102)
    else if c == 10 then Some(110)
    else if c == 13 then Some(114)
    else if c == 9 then Some(116)
    else None
  }

  function Escape(c: CodePoint): Text {
    if ShortEscape(c).Some? then [BACKSLASH, ShortEscape(c).value]
    else if 32 <= c <= 126 then [c]
    else if c < 0x10000 then Unicode(c)
    else Unicode(HighOf(c)) + Unicode(LowOf(c))
  }

  function Dumps(t: Text): Text {
    [QUOTE] + Collect(t, Escape) + [QUOTE]
  }

  // ----- JSON strings in -----

  function ReadHex4(s: Text): Option<int> {
    if |s| < 4 then None
    else
      match (HexValue(s[0]), HexValue(s[1]), HexValue(s[2]), HexValue(s[3]))
      case (Some(a), Some(b), Some(c), Some(d)) => Some(a * 4096 + b * 256 + c * 16 + d)
      case _ => None
  }

  function FromShort(e: CodePoint): Option<CodePoint> {
    if e == QUOTE || e == BACKSLASH || e == 47 then Some(e)
    else if e == 98 then Some(8)
    else if e == 102 then Some(12)
    else if e == 110 then Some(10)
    else if e == 114 then Some(13)
    else if e == 116 then Some(9)
    else None
  }

  function Prepend(c: CodePoint, r: Option<(Text, Text)>): Option<(Text, Text)> {
    match r
    case Some((t, rest)) => Some(([c] + t, rest))
    case None => None
  }

  /** A string's characters up to its closing quote, and what follows it; nothing where it is malformed. */
  function Scan(s: Text): Option<(Text, Text)>
    decreases |s|
  {
    if s == [] || s[0] < 32 then None
    else if s[0] == QUOTE then Some(([], s[1..]))
    else if s[0] != BACKSLASH then Prepend(s[0], Scan(s[1..]))
    else if |s| == 1 then None
    else if s[1] != LETTER_U then
      if FromShort(s[1]).None? then None else Prepend(FromShort(s[1]).value, Scan(s[2..]))
    else ScanUnicode(s[2..])
  }

  /** The four digits of an escape; a low surrogate escaped right after a high one makes one character with it. */
  function ScanUnicode(s: Text): Option<(Text, Text)>
    decreases |s|
  {
    var n := ReadHex4(s);
    if n.None? then None
    else if IsHigh(n.value) && |s| >= 6 && s[4] == BACKSLASH && s[5] == LETTER_U then
      var low := ReadHex4(s[6..]);
      if low.None? then None
      else if IsLow(low.value) then Prepend(Combine(n.value, low.value), Scan(s[10..]))
      else Prepend(n.value, Scan(s[4..]))
    else Prepend(n.value, Scan(s[4..]))
  }

  predicate IsBlank(s: Text) {
    forall c | c in s :: c in [32, 9, 10, 13]
  }

  function Loads(v: Text): Option<Text>
    requires v != [] && v[0] == QUOTE
  {
    match Scan(v[1..])
    case Some((t, rest)) => if IsBlank(rest) then Some(t) else None
    case None => None
  }

  // ----- values -----

  predicate IsWordChar(c: CodePoint) {
    48 <= c <= 58 || 65 <= c <= 90 || 97 <= c <= 122 || c == 95 || c == 46 || c == 45
  }

  predicate IsWord(t: Text) {
    t != [] && forall c | c in t :: IsWordChar(c)
  }

  function Show(v: Value): Text {
    match v
    case Null => NULL
    case Bool(b) => if b then TRUE else FALSE
    case Str(t) => if IsWord(t) then t else Dumps(t)
  }

  function Unshow(v: Text): Value {
    if v == TRUE || v == FALSE then Bool(v == TRUE)
    else if v != [] && v[0] == QUOTE then Str(Loads(v).GetOr(v))
    else Str(v)
  }

  // ----- back again -----

  /** A high surrogate right before a low one: two characters that JSON cannot tell from one. */
  predicate HasPair(t: Text) {
    exists i :: 0 <= i < |t| - 1 && PairAt(t, i)
  }

  predicate PairAt(t: Text, i: nat) {
    i + 1 < |t| && IsHigh(t[i]) && IsLow(t[i+1])
  }

  /** The text with each such pair made the one character it escapes to. */
  function Joined(t: Text): Text {
    if t == [] then []
    else if PairAt(t, 0) then [Combine(t[0], t[1])] + Joined(t[2..])
    else [t[0]] + Joined(t[1..])
  }

  lemma {:induction false} JoinedIff(t: Text)
    ensures |Joined(t)| <= |t|
    ensures HasPair(t) <==> |Joined(t)| < |t|
    ensures !HasPair(t) ==> Joined(t) == t
  {
    if t != [] {
      if PairAt(t, 0) {
        JoinedIff(t[2..]);
      } else {
        JoinedIff(t[1..]);
        assert forall i: nat :: PairAt(t[1..], i) <==> PairAt(t, i + 1);
        if HasPair(t) {
          var i :| 0 <= i < |t| - 1 && PairAt(t, i);
          assert PairAt(t[1..], i - 1);
        }
        if HasPair(t[1..]) {
          var i :| 0 <= i < |t[1..]| - 1 && PairAt(t[1..], i);
          assert PairAt(t, i + 1);
        }
      }
    }
  }

  lemma HexBack(n: int, more: Text)
    requires 0 <= n < 0x10000
    ensures ReadHex4(Hex4(n) + more) == Some(n)
  {
    var s := Hex4(n) + more;
    assert s[0] == Hex4(n)[0] && s[1] == Hex4(n)[1] && s[2] == Hex4(n)[2] && s[3] == Hex4(n)[3];
    Digits(n);
  }

  lemma Digits(n: int)
    requires 0 <= n < 0x10000
    ensures n / 4096 * 4096 + n / 256 % 16 * 256 + n / 16 % 16 * 16 + n % 16 == n
    ensures n / 4096 < 16
  {
    assert n / 16 == n / 256 * 16 + n / 16 % 16;
    assert n / 256 == n / 4096 * 16 + n / 256 % 16;
  }

  /** What is not a low surrogate's escape. */
  predicate NotLow(s: Text) {
    |s| >= 2 && s[0] == BACKSLASH && s[1] == LETTER_U ==> ReadHex4(s[2..]).Some? && !IsLow(ReadHex4(s[2..]).value)
  }

  lemma ScanOfUnicode(n: int, more: Text)
    requires 0 <= n < 0x10000 && (IsHigh(n) ==> NotLow(more))
    ensures Scan(Unicode(n) + more) == Prepend(n, Scan(more))
  {
    var s := Unicode(n) + more;
    assert s[0] == BACKSLASH && s[1] == LETTER_U && s[2..] == Hex4(n) + more;
    HexBack(n, more);
    assert s[2..][4..] == more;
    assert |more| >= 2 ==> s[2..][4] == more[0] && s[2..][5] == more[1] && s[2..][6..] == more[2..];
  }

  lemma ScanOfPair(high: int, low: int, more: Text)
    requires IsHigh(high) && IsLow(low)
    ensures Scan(Unicode(high) + Unicode(low) + more) == Prepend(Combine(high, low), Scan(more))
  {
    var s := Unicode(high) + Unicode(low) + more;
    assert s[0] == BACKSLASH && s[1] == LETTER_U && s[2..] == Hex4(high) + (Unicode(low) + more);
    HexBack(high, Unicode(low) + more);
    assert s[2..][4] == BACKSLASH && s[2..][5] == LETTER_U && s[2..][6..] == Hex4(low) + more;
    HexBack(low, more);
    assert s[2..][10..] == more;
  }

  /** A character read back from its escape. */
  lemma ScanOfEscape(c: CodePoint, more: Text)
    requires IsHigh(c) ==> NotLow(more)
    ensures Scan(Escape(c) + more) == Prepend(c, Scan(more))
  {
    if ShortEscape(c).Some? {
      var s := Escape(c) + more;
      assert s[0] == BACKSLASH && s[1] == ShortEscape(c).value && s[2..] == more;
    } else if 32 <= c <= 126 {
      var s := Escape(c) + more;
      assert s[0] == c && s[1..] == more;
    } else if c < 0x10000 {
      ScanOfUnicode(c, more);
    } else {
      ScanOfPair(HighOf(c), LowOf(c), more);
    }
  }

  lemma UnicodeBegins(n: int, rest: Text)
    requires 0 <= n < 0x10000 && !IsLow(n)
    ensures NotLow(Unicode(n) + rest)
  {
    assert (Unicode(n) + rest)[2..] == Hex4(n) + rest;
    HexBack(n, rest);
  }

  /** What a character's escape begins with, unless it is a low surrogate. */
  lemma EscapeBegins(c: CodePoint, rest: Text)
    requires !IsLow(c)
    ensures NotLow(Escape(c) + rest)
  {
    if ShortEscape(c).Some? {
      assert (Escape(c) + rest)[1] == ShortEscape(c).value;
    } else if 32 <= c <= 126 {
      assert (Escape(c) + rest)[0] == c;
    } else if c < 0x10000 {
      UnicodeBegins(c, rest);
    } else {
      var high, low := HighOf(c), LowOf(c);
      UnicodeBegins(high, Unicode(low) + rest);
      assert Escape(c) + rest == Unicode(high) + (Unicode(low) + rest);
    }
  }

  function Escaped(t: Text, more: Text): Text {
    Collect(t, Escape) + ([QUOTE] + more)
  }

  lemma EscapedFirst(t: Text, more: Text)
    requires t != []
    ensures Escaped(t, more) == Escape(t[0]) + Escaped(t[1..], more)
  {
  }

  lemma RestBegins(t: Text, more: Text)
    requires t != [] ==> !IsLow(t[0])
    ensures NotLow(Escaped(t, more))
  {
    if t != [] {
      EscapedFirst(t, more);
      EscapeBegins(t[0], Escaped(t[1..], more));
    }
  }

  lemma PairFirst(t: Text, more: Text)
    requires PairAt(t, 0)
    ensures Scan(Escaped(t, more)) == Prepend(Combine(t[0], t[1]), Scan(Escaped(t[2..], more)))
  {
    EscapedFirst(t, more);
    EscapedFirst(t[1..], more);
    assert t[1..][1..] == t[2..] && t[1..][0] == t[1];
    var rest := Escaped(t[2..], more);
    assert Escaped(t, more) == Unicode(t[0]) + Unicode(t[1]) + rest;
    ScanOfPair(t[0], t[1], rest);
  }

  lemma OneFirst(t: Text, more: Text)
    requires t != [] && !PairAt(t, 0)
    ensures Scan(Escaped(t, more)) == Prepend(t[0], Scan(Escaped(t[1..], more)))
  {
    EscapedFirst(t, more);
    if IsHigh(t[0]) {
      assert t[1..] != [] ==> t[1..][0] == t[1];
      RestBegins(t[1..], more);
    }
    ScanOfEscape(t[0], Escaped(t[1..], more));
  }

  /** A text's escapes and a quote read back as the text, its pairs joined, and leave what follows. */
  lemma {:induction false} ScanOfEscapes(t: Text, more: Text)
    ensures Scan(Escaped(t, more)) == Some((Joined(t), more))
    decreases |t|
  {
    if t == [] {
      assert Escaped(t, more) == [QUOTE] + more && ([QUOTE] + more)[1..] == more;
    } else if PairAt(t, 0) {
      PairFirst(t, more);
      ScanOfEscapes(t[2..], more);
    } else {
      OneFirst(t, more);
      ScanOfEscapes(t[1..], more);
    }
  }

  lemma LoadsOfDumps(t: Text)
    ensures Loads(Dumps(t)) == Some(Joined(t))
  {
    ScanOfEscapes(t, []);
    assert Dumps(t)[1..] == Collect(t, Escape) + ([QUOTE] + []);
  }

  /** What a value reads back as, whatever it is. */
  function ReadsAs(v: Value): Value {
    match v
    case Null => Str(NULL)
    case Bool(_) => v
    case Str(t) => if t == TRUE || t == FALSE then Bool(t == TRUE) else Str(Joined(t))
  }

  lemma UnshowOfShow(v: Value)
    ensures Unshow(Show(v)) == ReadsAs(v)
  {
    if v.Str? {
      if IsWord(v.t) {
        assert forall i | 0 <= i < |v.t| :: v.t[i] in v.t;
        JoinedIff(v.t);
      } else {
        LoadsOfDumps(v.t);
        assert Dumps(v.t)[0] == QUOTE;
      }
    }
  }

  /** A value comes back as it was except for null, the words true and false, and a text with a surrogate pair
      written as two characters. */
  lemma RoundTripIff(v: Value)
    ensures Unshow(Show(v)) == v <==> !v.Null? && (v.Str? ==> v.t != TRUE && v.t != FALSE && !HasPair(v.t))
  {
    UnshowOfShow(v);
    if v.Str? {
      JoinedIff(v.t);
    }
  }

  /** Values that do not come back: null, the word true, and an emoji written as its two surrogates. */
  lemma DoNotComeBack() returns (pair: Text)
    ensures pair == [0xD83D, 0xDE00] && HasPair(pair)
    ensures Unshow(Show(Str(pair))) == Str([0x1F600])
    ensures Unshow(Show(Str(TRUE))) == Bool(true) && Unshow(Show(Null)) == Str(NULL)
  {
    pair := [0xD83D, 0xDE00];
    assert PairAt(pair, 0) && pair[2..] == [];
    UnshowOfShow(Str(pair));
    UnshowOfShow(Str(TRUE));
    UnshowOfShow(Null);
  }

  // ----- as JSON writes it -----

  /** A literal's code points. */
  function Points(s: string): Text {
    seq(|s|, i requires 0 <= i < |s| => PointOf(s[i]))
  }

  function PointOf(c: char): CodePoint {
    c as int
  }

  /** The short escapes, by their letters. */
  lemma ShortEscapes()
    ensures Escape(PointOf('\n')) == Points("\\n") && Escape(PointOf('\r')) == Points("\\r")
    ensures Escape(PointOf('\t')) == Points("\\t") && Escape(8) == Points("\\b") && Escape(12) == Points("\\f")
    ensures Escape(PointOf('"')) == Points("\\\"") && Escape(PointOf('\\')) == Points("\\\\")
  {
  }

  /** Any other character of one unit that is not printable ASCII is its four hexadecimal digits after `\u`. */
  lemma HexEscape(c: CodePoint) returns (a: int, b: int, d: int, e: int)
    requires ShortEscape(c).None? && !(32 <= c <= 126) && c < 0x10000
    ensures 0 <= a < 16 && 0 <= b < 16 && 0 <= d < 16 && 0 <= e < 16 && c == a * 4096 + b * 256 + d * 16 + e
    ensures Escape(c) == Points("\\u") + [HexOf(a), HexOf(b), HexOf(d), HexOf(e)]
  {
    a, b, d, e := HexParts(c);
    assert Escape(c) == Unicode(c);
    HexIs(a);
    HexIs(b);
    HexIs(d);
    HexIs(e);
    assert Points("\\u") == [BACKSLASH, LETTER_U];
  }

  lemma HexParts(c: int) returns (a: int, b: int, d: int, e: int)
    requires 0 <= c < 0x10000
    ensures 0 <= a < 16 && 0 <= b < 16 && 0 <= d < 16 && 0 <= e < 16 && c == a * 4096 + b * 256 + d * 16 + e
    ensures Hex4(c) == [HexDigit(a), HexDigit(b), HexDigit(d), HexDigit(e)]
  {
    a, b, d, e := c / 4096, c / 256 % 16, c / 16 % 16, c % 16;
    Sixteens(c);
    Sixteens(c / 16);
    Sixteens(c / 16 / 16);
  }

  lemma Sixteens(n: int)
    requires 0 <= n
    ensures n == 16 * (n / 16) + n % 16
    ensures n / 16 / 16 == n / 256 && n / 16 / 16 / 16 == n / 4096
  {
  }

  /** One of two units is its surrogates' escapes, high then low. */
  lemma PairEscape(c: CodePoint) returns (h: CodePoint, l: CodePoint)
    requires c >= 0x10000
    ensures 0xD800 <= h <= 0xDBFF && 0xDC00 <= l <= 0xDFFF && c == 0x10000 + (h - 0xD800) * 0x400 + (l - 0xDC00)
    ensures Escape(c) == Escape(h) + Escape(l)
  {
    h, l := HighOf(c), LowOf(c);
    assert Escape(h) == Unicode(h) && Escape(l) == Unicode(l);
  }

  function HexOf(n: int): CodePoint
    requires 0 <= n < 16
  {
    PointOf("0123456789abcdef"[n])
  }

  lemma HexIs(n: int)
    requires 0 <= n < 16
    ensures HexDigit(n) == HexOf(n)
  {
  }

  /** Null and the booleans are shown as their words, a word of letters, digits, `_`, `.`, `:` and `-` as it is, and any
      other text as a JSON string of it. */
  lemma ShownAs(t: Text)
    ensures Show(Null) == Points("null") && Show(Bool(true)) == Points("true") && Show(Bool(false)) == Points("false")
    ensures Show(Str(t)) ==
            if t != [] && forall c | c in t :: IsWordCharacter(c) then t
            else Points("\"") + Collect(t, Escape) + Points("\"")
  {
    assert Points("\"") == [QUOTE];
  }

  predicate IsWordCharacter(c: CodePoint) {
    || PointOf('a') <= c <= PointOf('z') || PointOf('A') <= c <= PointOf('Z') || PointOf('0') <= c <= PointOf('9')
    || c in [PointOf('_'), PointOf('.'), PointOf(':'), PointOf('-')]
  }

  // ----- one line -----

  predicate IsPrintable(t: Text) {
    forall c | c in t :: 32 <= c <= 126
  }

  lemma {:induction false} EscapesPrintable(t: Text)
    ensures IsPrintable(Collect(t, Escape))
  {
    if t != [] {
      EscapesPrintable(t[1..]);
      assert IsPrintable(Escape(t[0]));
    }
  }

  /** A shown value is one line of printable ASCII, so no newline in it can end the line it is written on. */
  lemma ShownIsOneLine(v: Value)
    ensures IsPrintable(Show(v)) && Show(v) != []
  {
    if v.Str? && !IsWord(v.t) {
      EscapesPrintable(v.t);
    }
  }
}
