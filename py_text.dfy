/** The parts of Python's `str` that the comic viewer relies on: `strip()`,
    `split(sep)`, `split()`, `sep.join(...)`, `replace`, `startswith`/`endswith`,
    `lower()`, `str(int)`, `int(s)` and `int(float(s))`, each with the laws the
    rest of the model needs. Strings are sequences of Unicode scalar values. */
module PyText {
  import opened Wrappers
  import opened Seqs

  // ---------------------------------------------------------------------------
  // Whitespace and strip()
  // ---------------------------------------------------------------------------

  /** Python's `str.isspace()` for one character. */
  predicate IsSpace(c: char) {
    c == ' ' || '\t' <= c <= '\r' || '\U{1C}' <= c <= '\U{1F}' || c == '\U{85}' || c == '\U{A0}'
    || c == '\U{1680}' || '\U{2000}' <= c <= '\U{200A}' || c == '\U{2028}' || c == '\U{2029}'
    || c == '\U{202F}' || c == '\U{205F}' || c == '\U{3000}'
  }

  /** Every character of `s` belongs to `cs`. */
  predicate CharsIn(s: string, cs: set<char>) {
    forall i :: 0 <= i < |s| ==> s[i] in cs
  }

  /** No character of `s` belongs to `cs`. */
  predicate Avoids(s: string, cs: set<char>) {
    forall i :: 0 <= i < |s| ==> s[i] !in cs
  }

  lemma CharsInConcat(a: string, b: string, cs: set<char>)
    ensures CharsIn(a + b, cs) <==> CharsIn(a, cs) && CharsIn(b, cs)
  {
    if CharsIn(a + b, cs) {
      forall i | 0 <= i < |a|
        ensures a[i] in cs
      {
        assert a[i] == (a + b)[i];
      }
      forall i | 0 <= i < |b|
        ensures b[i] in cs
      {
        assert b[i] == (a + b)[|a| + i];
      }
    }
  }

  /** Text drawn from `cs` avoids every character outside `cs`. */
  lemma AvoidsOutside(s: string, cs: set<char>, bad: set<char>)
    requires CharsIn(s, cs) && cs * bad == {}
    ensures Avoids(s, bad)
  {
    forall i | 0 <= i < |s|
      ensures s[i] !in bad
    {
      var c := s[i];
      assert c in cs;
      assert c !in cs * bad;
    }
  }

  lemma AvoidsConcat(a: string, b: string, bad: set<char>)
    requires Avoids(a, bad) && Avoids(b, bad)
    ensures Avoids(a + b, bad)
  {
    forall i | 0 <= i < |a + b|
      ensures (a + b)[i] !in bad
    {
      if i >= |a| {
        assert (a + b)[i] == b[i - |a|];
      }
    }
  }

  predicate NoSpace(s: string) {
    forall i :: 0 <= i < |s| ==> !IsSpace(s[i])
  }

  /** `s.lstrip()`. */
  function LStrip(s: string): string {
    if s != [] && IsSpace(s[0]) then LStrip(s[1..]) else s
  }

  /** `lstrip` drops the leading whitespace and nothing else. */
  lemma {:induction false} LStripSpec(s: string)
    ensures |LStrip(s)| <= |s| && LStrip(s) == s[|s| - |LStrip(s)|..]
    ensures LStrip(s) == [] || !IsSpace(LStrip(s)[0])
    ensures forall i :: 0 <= i < |s| - |LStrip(s)| ==> IsSpace(s[i])
  {
    if s != [] && IsSpace(s[0]) {
      LStripSpec(s[1..]);
      var r := LStrip(s);
      assert s[1..][|s| - 1 - |r|..] == s[|s| - |r|..];
    }
  }

  /** `s.rstrip()`. */
  function RStrip(s: string): string {
    if s != [] && IsSpace(s[|s| - 1]) then RStrip(s[..|s| - 1]) else s
  }

  /** `rstrip` drops the trailing whitespace and nothing else. */
  lemma {:induction false} RStripSpec(s: string)
    ensures |RStrip(s)| <= |s| && RStrip(s) == s[..|RStrip(s)|]
    ensures RStrip(s) == [] || !IsSpace(RStrip(s)[|RStrip(s)| - 1])
    ensures forall i :: |RStrip(s)| <= i < |s| ==> IsSpace(s[i])
  {
    if s != [] && IsSpace(s[|s| - 1]) {
      RStripSpec(s[..|s| - 1]);
      var r := RStrip(s);
      assert s[..|s| - 1][..|r|] == s[..|r|];
    }
  }

  /** `s.strip()` with no argument. */
  function Strip(s: string): string {
    RStrip(LStrip(s))
  }

  /** A string that neither starts nor ends with whitespace is its own strip. */
  lemma StripUnchanged(s: string)
    requires s == [] || (!IsSpace(s[0]) && !IsSpace(s[|s| - 1]))
    ensures Strip(s) == s
  {
  }

  /** Leading and trailing blanks are what strip removes. */
  lemma StripSurrounded(a: string, s: string, b: string)
    requires forall i :: 0 <= i < |a| ==> IsSpace(a[i])
    requires forall i :: 0 <= i < |b| ==> IsSpace(b[i])
    requires s == [] || (!IsSpace(s[0]) && !IsSpace(s[|s| - 1]))
    ensures Strip(a + s + b) == s
  {
    assert a + s + b == a + (s + b);
    if s == [] {
      assert a + s + b == a + b;
      AllBlankStrip(a + b);
    } else {
      LStripBlankPrefix(a, s + b);
      RStripBlankSuffix(s, b);
    }
  }

  lemma AllBlankStrip(s: string)
    requires forall i :: 0 <= i < |s| ==> IsSpace(s[i])
    ensures Strip(s) == []
  {
    LStripAllBlank(s);
  }

  lemma {:induction false} LStripAllBlank(s: string)
    requires forall i :: 0 <= i < |s| ==> IsSpace(s[i])
    ensures LStrip(s) == []
  {
    if s != [] {
      LStripAllBlank(s[1..]);
    }
  }

  lemma {:induction false} LStripBlankPrefix(a: string, t: string)
    requires forall i :: 0 <= i < |a| ==> IsSpace(a[i])
    requires t == [] || !IsSpace(t[0])
    ensures LStrip(a + t) == t
  {
    if a != [] {
      assert (a + t)[1..] == a[1..] + t;
      LStripBlankPrefix(a[1..], t);
    }
  }

  lemma {:induction false} RStripBlankSuffix(s: string, b: string)
    requires forall i :: 0 <= i < |b| ==> IsSpace(b[i])
    requires s == [] || !IsSpace(s[|s| - 1])
    ensures RStrip(s + b) == s
  {
    if b != [] {
      assert (s + b)[..|s + b| - 1] == s + b[..|b| - 1];
      RStripBlankSuffix(s, b[..|b| - 1]);
    } else {
      assert s + b == s;
    }
  }

  // ---------------------------------------------------------------------------
  // split(sep) and sep.join(parts)
  // ---------------------------------------------------------------------------

  /** `s.split(c)` where `seps` holds the separator character `c` (a set so that
      a reader splitting at several line-end characters can use it too).
      There is always at least one piece, and no piece holds a separator. */
  function Split(s: string, seps: set<char>): (r: seq<string>)
    ensures |r| >= 1
  {
    if s == [] then [""]
    else
      var rest := Split(s[1..], seps);
      if s[0] in seps then [""] + rest
      else [[s[0]] + rest[0]] + rest[1..]
  }

  /** No piece of a split holds a separator. */
  lemma {:induction false} SplitPiecesAvoid(s: string, seps: set<char>)
    ensures forall k :: 0 <= k < |Split(s, seps)| ==> Avoids(Split(s, seps)[k], seps)
  {
    if s != [] {
      var rest := Split(s[1..], seps);
      SplitPiecesAvoid(s[1..], seps);
      assert forall k :: 0 <= k < |rest| ==> Avoids(rest[k], seps);
      var r := Split(s, seps);
      if s[0] !in seps {
        assert r[0] == [s[0]] + rest[0];
        assert Avoids([s[0]], seps);
        AvoidsConcat([s[0]], rest[0], seps);
        assert forall k :: 1 <= k < |r| ==> r[k] == rest[k];
      } else {
        assert forall k :: 1 <= k < |r| ==> r[k] == rest[k - 1];
      }
    }
  }

  /** `c.join(parts)` for a one-character separator. */
  function Join(parts: seq<string>, c: char): string {
    if parts == [] then ""
    else if |parts| == 1 then parts[0]
    else parts[0] + [c] + Join(parts[1..], c)
  }

  /** A piece free of separators joins the first piece of what follows it. */
  lemma {:induction false} SplitPrepend(a: string, b: string, seps: set<char>)
    requires Avoids(a, seps)
    ensures Split(a + b, seps) == [a + Split(b, seps)[0]] + Split(b, seps)[1..]
  {
    if a != [] {
      assert (a + b)[1..] == a[1..] + b;
      SplitPrepend(a[1..], b, seps);
      assert [a[0]] + (a[1..] + Split(b, seps)[0]) == a + Split(b, seps)[0];
    } else {
      assert a + b == b;
      assert a + Split(b, seps)[0] == Split(b, seps)[0];
    }
  }

  /** Text without separators is a single piece. */
  lemma SplitNone(a: string, seps: set<char>)
    requires Avoids(a, seps)
    ensures Split(a, seps) == [a]
  {
    SplitPrepend(a, "", seps);
    assert Split("", seps) == [""];
    assert a + "" == a;
  }

  /** A separator closes the piece before it. */
  lemma SplitAtSeparator(a: string, c: char, b: string, seps: set<char>)
    requires Avoids(a, seps) && c in seps
    ensures Split(a + [c] + b, seps) == [a] + Split(b, seps)
  {
    assert a + [c] + b == a + ([c] + b);
    SplitPrepend(a, [c] + b, seps);
    assert ([c] + b)[0] == c && ([c] + b)[1..] == b;
    assert Split([c] + b, seps) == [""] + Split(b, seps);
    assert a + "" == a;
  }

  /** Each line followed by the terminator `c`, as a file written line by line. */
  function Terminated(lines: seq<string>, c: char): (t: string)
    ensures |t| >= |lines|
  {
    if lines == [] then "" else lines[0] + [c] + Terminated(lines[1..], c)
  }

  /** Splitting a file of terminated lines gives the lines back, then the empty
      rest after the last terminator. */
  lemma {:induction false} SplitTerminated(lines: seq<string>, c: char, seps: set<char>)
    requires c in seps
    requires forall i :: 0 <= i < |lines| ==> Avoids(lines[i], seps)
    ensures Split(Terminated(lines, c), seps) == lines + [""]
  {
    if lines != [] {
      SplitTerminated(lines[1..], c, seps);
      SplitAtSeparator(lines[0], c, Terminated(lines[1..], c), seps);
      assert lines == [lines[0]] + lines[1..];
    }
  }

  /** Splitting a join gives back the parts, when no part holds the separator. */
  lemma {:induction false} SplitJoin(parts: seq<string>, c: char, seps: set<char>)
    requires |parts| >= 1 && c in seps
    requires forall k :: 0 <= k < |parts| ==> Avoids(parts[k], seps)
    ensures Split(Join(parts, c), seps) == parts
  {
    if |parts| == 1 {
      SplitNone(parts[0], seps);
    } else {
      SplitJoin(parts[1..], c, seps);
      SplitAtSeparator(parts[0], c, Join(parts[1..], c), seps);
      assert parts == [parts[0]] + parts[1..];
    }
  }

  /** Joining the pieces of a split gives back the text. */
  lemma {:induction false} JoinSplit(s: string, c: char)
    ensures Join(Split(s, {c}), c) == s
  {
    if s != [] {
      JoinSplit(s[1..], c);
      var rest := Split(s[1..], {c});
      if s[0] == c {
        assert Split(s, {c}) == [""] + rest;
        assert ([""] + rest)[1..] == rest;
      } else {
        var r := Split(s, {c});
        assert r == [[s[0]] + rest[0]] + rest[1..];
        if |rest| == 1 {
          assert Join(r, c) == [s[0]] + rest[0];
        } else {
          assert r[1..] == rest[1..];
          assert Join(rest, c) == rest[0] + [c] + Join(rest[1..], c);
        }
        assert s == [s[0]] + s[1..];
      }
    }
  }

  /** The character classes of the parts and of the separator bound those of the join. */
  lemma {:induction false} JoinCharsIn(parts: seq<string>, c: char, cs: set<char>)
    requires c in cs
    requires forall k :: 0 <= k < |parts| ==> CharsIn(parts[k], cs)
    ensures CharsIn(Join(parts, c), cs)
  {
    if |parts| > 1 {
      JoinCharsIn(parts[1..], c, cs);
    }
  }

  /** Appending a part to a join. */
  lemma {:induction false} JoinSnoc(parts: seq<string>, p: string, c: char)
    requires parts != []
    ensures Join(parts + [p], c) == Join(parts, c) + [c] + p
  {
    if |parts| == 1 {
      assert (parts + [p])[1..] == [p];
    } else {
      assert (parts + [p])[1..] == parts[1..] + [p];
      JoinSnoc(parts[1..], p, c);
    }
  }

  // ---------------------------------------------------------------------------
  // split() with no argument: the whitespace-separated words
  // ---------------------------------------------------------------------------

  /** Length of the run of non-whitespace characters that starts `s`. */
  function WordLength(s: string): (n: nat)
    ensures n <= |s| && NoSpace(s[..n])
    ensures n < |s| ==> IsSpace(s[n])
  {
    if s == [] || IsSpace(s[0]) then 0
    else
      var m := WordLength(s[1..]);
      assert s[..m + 1] == [s[0]] + s[1..][..m];
      m + 1
  }

  /** `s.split()`: the maximal runs of non-whitespace characters, in order. */
  function Words(s: string): (r: seq<string>)
    ensures forall k :: 0 <= k < |r| ==> r[k] != [] && NoSpace(r[k])
    decreases |s|
  {
    if s == [] then []
    else if IsSpace(s[0]) then Words(s[1..])
    else
      var n := WordLength(s);
      [s[..n]] + Words(s[n..])
  }

  /** A word followed by whitespace (or by nothing) is read whole. */
  lemma {:induction false} WordLengthOfWord(w: string, rest: string)
    requires NoSpace(w)
    requires rest == [] || IsSpace(rest[0])
    ensures WordLength(w + rest) == |w|
  {
    if w != [] {
      assert (w + rest)[1..] == w[1..] + rest;
      WordLengthOfWord(w[1..], rest);
    } else {
      assert w + rest == rest;
    }
  }

  /** Appending whitespace and more text does not lengthen a word that does not reach the end. */
  lemma {:induction false} WordLengthAppend(a: string, c: char, b: string)
    requires a != [] && IsSpace(c)
    ensures WordLength(a + [c] + b) == WordLength(a)
  {
    var s := a + [c] + b;
    if !IsSpace(a[0]) {
      assert s[1..] == a[1..] + [c] + b;
      if a[1..] != [] {
        WordLengthAppend(a[1..], c, b);
      } else {
        assert s[1..] == [c] + b;
      }
    }
  }

  /** A whitespace character separates the words on its two sides. */
  lemma {:induction false} WordsAroundSpace(a: string, c: char, b: string)
    requires IsSpace(c)
    ensures Words(a + [c] + b) == Words(a) + Words(b)
    decreases |a|
  {
    var s := a + [c] + b;
    if a == [] {
      assert s == [c] + b;
      assert s[1..] == b;
    } else if IsSpace(a[0]) {
      assert s[1..] == a[1..] + [c] + b;
      WordsAroundSpace(a[1..], c, b);
    } else {
      WordsAroundSpaceInWord(a, c, b);
    }
  }

  lemma {:induction false} WordsAroundSpaceInWord(a: string, c: char, b: string)
    requires IsSpace(c) && a != [] && !IsSpace(a[0])
    ensures Words(a + [c] + b) == Words(a) + Words(b)
    decreases |a|, 0
  {
    var s := a + [c] + b;
    var n := WordLength(a);
    var w, tail := a[..n], a[n..];
    assert Words(s) == [w] + Words(tail + [c] + b) by {
      WordLengthAppend(a, c, b);
      assert s[0] == a[0];
      assert s[..n] == w;
      assert s[n..] == tail + [c] + b;
    }
    assert Words(a) == [w] + Words(tail);
    WordsAroundSpace(tail, c, b);
    AppendAssoc3([w], Words(tail), Words(b));
  }

  /** Joining words with single spaces and splitting again gives back the words. */
  lemma {:induction false} WordsOfJoin(ws: seq<string>)
    requires forall k :: 0 <= k < |ws| ==> ws[k] != [] && NoSpace(ws[k])
    ensures Words(Join(ws, ' ')) == ws
    decreases |ws|
  {
    if |ws| == 1 {
      WordLengthOfWord(ws[0], "");
      assert ws[0] + "" == ws[0];
      assert ws[0][|ws[0]|..] == [];
    } else if |ws| > 1 {
      WordsOfJoin(ws[1..]);
      WordsAroundSpace(ws[0], ' ', Join(ws[1..], ' '));
      WordsOfJoin([ws[0]]);
      assert ws == [ws[0]] + ws[1..];
    }
  }

  /** The words of all lines, line after line. */
  function ConcatWords(lines: seq<string>): seq<string> {
    if lines == [] then [] else Words(lines[0]) + ConcatWords(lines[1..])
  }

  /** The words of a text are the words of its lines taken in order. */
  lemma {:induction false} WordsByLine(text: string)
    ensures Words(text) == ConcatWords(Split(text, {'\n'}))
  {
    JoinSplit(text, '\n');
    WordsOfJoinedLines(Split(text, {'\n'}));
  }

  lemma {:induction false} WordsOfJoinedLines(lines: seq<string>)
    ensures Words(Join(lines, '\n')) == ConcatWords(lines)
  {
    if |lines| == 1 {
      assert ConcatWords(lines[1..]) == [];
    } else if |lines| > 1 {
      WordsOfJoinedLines(lines[1..]);
      WordsAroundSpace(lines[0], '\n', Join(lines[1..], '\n'));
    }
  }

  // ---------------------------------------------------------------------------
  // startswith, endswith, replace, lower
  // ---------------------------------------------------------------------------

  predicate StartsWith(s: string, p: string) {
    |p| <= |s| && s[..|p|] == p
  }

  predicate EndsWith(s: string, p: string) {
    |p| <= |s| && s[|s| - |p|..] == p
  }

  /** `s.replace(pat, rep)` for a non-empty `pat`: every occurrence, scanning
      from the left, without overlaps. */
  function Replace(s: string, pat: string, rep: string): string
    requires pat != []
    decreases |s|
  {
    if |s| < |pat| then s
    else if s[..|pat|] == pat then rep + Replace(s[|pat|..], pat, rep)
    else [s[0]] + Replace(s[1..], pat, rep)
  }

  /** Text that never holds the first character of the pattern is left alone. */
  lemma {:induction false} ReplaceAbsent(s: string, pat: string, rep: string)
    requires pat != [] && forall i :: 0 <= i < |s| ==> s[i] != pat[0]
    ensures Replace(s, pat, rep) == s
    decreases |s|
  {
    if |s| >= |pat| {
      assert s[..|pat|][0] == s[0];
      ReplaceAbsent(s[1..], pat, rep);
      assert s == [s[0]] + s[1..];
    }
  }

  /** An occurrence at the front is replaced. */
  lemma ReplaceAtFront(s: string, pat: string, rep: string)
    requires pat != []
    ensures Replace(pat + s, pat, rep) == rep + Replace(s, pat, rep)
  {
    assert (pat + s)[..|pat|] == pat;
    assert (pat + s)[|pat|..] == s;
  }

  function LowerChar(c: char): char {
    if 'A' <= c <= 'Z' then (c as int + 32) as char else c
  }

  /** `s.lower()` on the ASCII letters (the only ones the file-name tests compare against). */
  function Lower(s: string): (r: string)
    ensures |r| == |s| && forall i :: 0 <= i < |s| ==> r[i] == LowerChar(s[i])
  {
    seq(|s|, i requires 0 <= i < |s| => LowerChar(s[i]))
  }

  // ---------------------------------------------------------------------------
  // Lexicographic order, Python's comparison of two str values
  // ---------------------------------------------------------------------------

  /** `a <= b` for Python strings: code point by code point, a proper prefix first. */
  predicate LexLe(a: string, b: string)
    decreases |a|
  {
    a == [] || (b != [] && (a[0] < b[0] || (a[0] == b[0] && LexLe(a[1..], b[1..]))))
  }

  lemma {:induction false} LexLeTotal(a: string, b: string)
    ensures LexLe(a, b) || LexLe(b, a)
    decreases |a|
  {
    if a != [] && b != [] && a[0] == b[0] {
      LexLeTotal(a[1..], b[1..]);
    }
  }

  lemma {:induction false} LexLeTransitive(a: string, b: string, c: string)
    requires LexLe(a, b) && LexLe(b, c)
    ensures LexLe(a, c)
    decreases |a|
  {
    if a != [] && a[0] == b[0] && b[0] == c[0] {
      LexLeTransitive(a[1..], b[1..], c[1..]);
    }
  }

  // ---------------------------------------------------------------------------
  // Numbers: str(int), int(s), int(float(s))
  // ---------------------------------------------------------------------------

  predicate IsDigit(c: char) {
    '0' <= c <= '9'
  }

  predicate AllDigits(s: string) {
    forall i :: 0 <= i < |s| ==> IsDigit(s[i])
  }

  const DigitChars: set<char> := {'0', '1', '2', '3', '4', '5', '6', '7', '8', '9'}

  lemma DigitsIn(s: string)
    requires AllDigits(s)
    ensures CharsIn(s, DigitChars)
  {
    forall i | 0 <= i < |s|
      ensures s[i] in DigitChars
    {
      DigitIn(s[i]);
    }
  }

  lemma DigitIn(c: char)
    requires IsDigit(c)
    ensures c in DigitChars
  {
  }

  /** The decimal value of a digit string ("" reads as 0). */
  function DigitsValue(s: string): nat
    requires AllDigits(s)
  {
    if s == [] then 0 else 10 * DigitsValue(s[..|s| - 1]) + (s[|s| - 1] as int - '0' as int)
  }

  /** `str(n)` for a natural number: its shortest decimal numeral. */
  function NatToStr(n: nat): (r: string)
    ensures r != []
  {
    if n < 10 then [('0' as int + n) as char]
    else NatToStr(n / 10) + [('0' as int + n % 10) as char]
  }

  /** `str(n)` writes decimal digits that read back as `n`. */
  lemma {:induction false} NatToStrDigits(n: nat)
    ensures AllDigits(NatToStr(n)) && CharsIn(NatToStr(n), DigitChars)
    ensures DigitsValue(NatToStr(n)) == n
  {
    if n >= 10 {
      var p := NatToStr(n / 10);
      var d := ('0' as int + n % 10) as char;
      NatToStrDigits(n / 10);
      var r := NatToStr(n);
      assert r == p + [d];
      assert AllDigits(r) by {
        forall i | 0 <= i < |r|
          ensures IsDigit(r[i])
        {
          if i < |p| {
            assert r[i] == p[i];
          }
        }
      }
      assert DigitsValue(r) == n by {
        assert r[..|r| - 1] == p;
        assert d as int - '0' as int == n % 10;
      }
    }
    DigitsIn(NatToStr(n));
  }

  /** `str(n)` for an integer: a minus sign for negative values, then the digits. */
  function IntToStr(n: int): (r: string)
    ensures r != []
  {
    if n < 0 then "-" + NatToStr(-n) else NatToStr(n)
  }

  /** What `str(n)` can contain: digits, and a minus sign only in front. */
  lemma IntToStrShape(n: int)
    ensures var r := IntToStr(n);
      r != [] && IsDigit(r[|r| - 1]) && CharsIn(r, DigitChars + {'-'})
      && (r[0] == '-' || IsDigit(r[0]))
      && (forall i :: 0 < i < |r| ==> IsDigit(r[i]))
  {
    NatToStrDigits(if n < 0 then -n else n);
  }

  /** `int(s)` on a str: optional surrounding whitespace, an optional sign, then
      ASCII digits. `None` where Python raises ValueError. */
  function ParseInt(s: string): Option<int> {
    var t := Strip(s);
    if t != [] && (t[0] == '-' || t[0] == '+') then
      var body := t[1..];
      if body != [] && AllDigits(body) then
        var value: int := if t[0] == '-' then -(DigitsValue(body) as int) else DigitsValue(body);
        Some(value)
      else None
    else if t != [] && AllDigits(t) then Some(DigitsValue(t))
    else None
  }

  /** The integer part of an unsigned decimal numeral "ddd", "ddd.", "ddd.ddd" or ".ddd". */
  function DecimalWholePart(body: string): Option<nat> {
    var pieces := Split(body, {'.'});
    if |pieces| == 1 then
      if body != [] && AllDigits(body) then Some(DigitsValue(body)) else None
    else if |pieces| == 2 then
      if AllDigits(pieces[0]) && AllDigits(pieces[1]) && (pieces[0] != [] || pieces[1] != [])
      then Some(DigitsValue(pieces[0])) else None
    else None
  }

  /** `int(float(s))` for decimal numerals without an exponent: whitespace, an
      optional sign, digits with an optional fraction. Dropping the fraction
      truncates toward zero for either sign. `None` where Python raises ValueError. */
  function ParseTruncatedFloat(s: string): Option<int> {
    var t := Strip(s);
    var signed := t != [] && (t[0] == '-' || t[0] == '+');
    var body := if signed then t[1..] else t;
    match DecimalWholePart(body)
    case None => None
    case Some(v) =>
      var value: int := if signed && t[0] == '-' then -(v as int) else v;
      Some(value)
  }

  /** `int` reads back what `str` writes. */
  lemma ParseIntOfIntToStr(n: int)
    ensures ParseInt(IntToStr(n)) == Some(n)
  {
    var r := IntToStr(n);
    IntToStrShape(n);
    NatToStrDigits(if n < 0 then -n else n);
    StripUnchanged(r);
    if n < 0 {
      assert r[1..] == NatToStr(-n);
    }
  }

  /** `int(float(...))` reads back what `str` writes for an integer. */
  lemma ParseTruncatedFloatOfIntToStr(n: int)
    ensures ParseTruncatedFloat(IntToStr(n)) == Some(n)
  {
    var r := IntToStr(n);
    IntToStrShape(n);
    StripUnchanged(r);
    var m := NatToStr(if n < 0 then -n else n);
    NatToStrDigits(if n < 0 then -n else n);
    DigitsWholePart(m);
    if n < 0 {
      ConsTail('-', m);
    }
  }

  /** A plain digit string is its own whole part. */
  lemma DigitsWholePart(body: string)
    requires body != [] && AllDigits(body)
    ensures DecimalWholePart(body) == Some(DigitsValue(body))
  {
    assert Avoids(body, {'.'});
    SplitNone(body, {'.'});
  }

  /** The whole part of "ddd.fff" is "ddd". */
  lemma WholePartOfFraction(whole: string, fraction: string)
    requires AllDigits(whole) && AllDigits(fraction) && whole != []
    ensures DecimalWholePart(whole + "." + fraction) == Some(DigitsValue(whole))
  {
    assert Avoids(whole, {'.'});
    assert Avoids(fraction, {'.'});
    assert whole + "." + fraction == whole + ['.'] + fraction;
    SplitAtSeparator(whole, '.', fraction, {'.'});
    SplitNone(fraction, {'.'});
  }

  /** A numeral with a fraction part is cut toward zero: "12.9" reads as 12. */
  lemma TruncatesPositive(whole: string, fraction: string)
    requires whole != [] && AllDigits(whole) && AllDigits(fraction)
    ensures ParseTruncatedFloat(whole + "." + fraction) == Some(DigitsValue(whole))
  {
    var s := whole + "." + fraction;
    assert s[0] == whole[0] && !IsSpace(s[|s| - 1]);
    StripUnchanged(s);
    WholePartOfFraction(whole, fraction);
  }

  lemma {:induction false} MinusNumeral(t: string, v: nat)
    requires t != [] && t[0] == '-' && Strip(t) == t
    requires DecimalWholePart(t[1..]) == Some(v)
    ensures ParseTruncatedFloat(t) == Some(-(v as int))
  {
  }

  lemma NumeralEnd(whole: string, fraction: string)
    requires AllDigits(fraction)
    ensures var body := whole + "." + fraction; !IsSpace(body[|body| - 1])
  {
    var body := whole + "." + fraction;
    assert body[|body| - 1] == (if fraction == [] then '.' else fraction[|fraction| - 1]);
  }

  /** A minus sign in front of an unsigned numeral negates what it reads as. */
  lemma {:induction false} NegatedNumeral(body: string, v: nat)
    requires body != [] && !IsSpace(body[|body| - 1])
    requires DecimalWholePart(body) == Some(v)
    ensures ParseTruncatedFloat("-" + body) == Some(-(v as int))
  {
    var s := "-" + body;
    ConsTail('-', body);
    ConcatLast("-", body);
    StripUnchanged(s);
    MinusNumeral(s, v);
  }

  /** ... and for a negative numeral, "-3.7" reads as -3 rather than -4. */
  lemma {:induction false} TruncatesNegative(whole: string, fraction: string)
    requires whole != [] && AllDigits(whole) && AllDigits(fraction)
    ensures ParseTruncatedFloat("-" + (whole + "." + fraction)) == Some(-(DigitsValue(whole) as int))
  {
    var body := whole + "." + fraction;
    var v := DigitsValue(whole);
    NumeralEnd(whole, fraction);
    WholePartOfFraction(whole, fraction);
    NegatedNumeral(body, v);
    assert ParseTruncatedFloat("-" + body) == Some(-(v as int));
    assert "-" + body == "-" + (whole + "." + fraction);
    assert ParseTruncatedFloat("-" + (whole + "." + fraction)) == Some(-(v as int));
    assert -(v as int) == -(DigitsValue(whole) as int);
  }
}
