/**
 * The parts of Python's text handling that the tracker relies on:
 * `str.strip()` with no argument, the universal-newline translation applied
 * when a file is opened for reading in text mode, `readlines()`, and
 * `"".join(lines)`.
 */
module Text {

  /** Python's `str.isspace` for one character: the characters `str.strip()` removes. */
  predicate IsSpace(c: char)
  {
    ('\t' <= c <= '\r') || ('\U{1C}' <= c <= '\U{1F}') || c == ' ' ||
    c == '\U{85}' || c == '\U{A0}' || c == '\U{1680}' ||
    ('\U{2000}' <= c <= '\U{200A}') || c == '\U{2028}' || c == '\U{2029}' ||
    c == '\U{202F}' || c == '\U{205F}' || c == '\U{3000}'
  }

  predicate AllSpace(s: string)
  {
    forall i :: 0 <= i < |s| ==> IsSpace(s[i])
  }

  predicate NoLineBreak(s: string)
  {
    '\n' !in s && '\r' !in s
  }

  /** Neither the first nor the last character is whitespace. */
  predicate IsStripped(s: string)
  {
    s == [] || (!IsSpace(s[0]) && !IsSpace(s[|s| - 1]))
  }

  /** How many whitespace characters `s` starts with. */
  function LeadingSpaces(s: string): (n: nat)
    ensures n <= |s|
    ensures forall i :: 0 <= i < n ==> IsSpace(s[i])
    ensures n < |s| ==> !IsSpace(s[n])
  {
    if s != [] && IsSpace(s[0]) then
      assert forall i :: 1 <= i < |s| ==> s[i] == s[1..][i - 1];
      1 + LeadingSpaces(s[1..])
    else 0
  }

  /** How many whitespace characters `s` ends with. */
  function TrailingSpaces(s: string): (n: nat)
    ensures n <= |s|
    ensures forall i :: |s| - n <= i < |s| ==> IsSpace(s[i])
    ensures n < |s| ==> !IsSpace(s[|s| - 1 - n])
  {
    if s != [] && IsSpace(s[|s| - 1]) then
      assert forall i :: 0 <= i < |s| - 1 ==> s[i] == s[..|s| - 1][i];
      1 + TrailingSpaces(s[..|s| - 1])
    else 0
  }

  /** Where `Strip(s)` starts inside `s`. */
  function StripStart(s: string): (k: nat)
    ensures k <= |s|
  {
    LeadingSpaces(s)
  }

  /**
   * `s.strip()`: the infix of `s` left once whitespace is removed from both
   * ends; everything removed is whitespace, and the result is empty exactly
   * when `s` is whitespace only.
   */
  function Strip(s: string): (r: string)
    ensures IsStripped(r)
    ensures StripStart(s) + |r| <= |s| && r == s[StripStart(s)..StripStart(s) + |r|]
    ensures forall i :: 0 <= i < StripStart(s) ==> IsSpace(s[i])
    ensures forall i :: StripStart(s) + |r| <= i < |s| ==> IsSpace(s[i])
    ensures r == [] <==> AllSpace(s)
  {
    var a := LeadingSpaces(s);
    if a == |s| then []
    else
      var n := TrailingSpaces(s);
      s[a..|s| - n]
  }

  /**
   * Strip is the unique way to cut whitespace off both ends: whatever
   * stripped text `x` is padded with whitespace, stripping gives `x` back.
   */
  lemma StripPadded(p: string, x: string, q: string)
    requires AllSpace(p) && AllSpace(q) && IsStripped(x)
    ensures Strip(p + x + q) == x
  {
    var s := p + x + q;
    if x == [] {
      assert forall i :: 0 <= i < |s| ==> s[i] == if i < |p| then p[i] else q[i - |p|];
    } else {
      assert s[|p|] == x[0];
      assert forall i :: 0 <= i < |p| ==> s[i] == p[i];
      assert LeadingSpaces(s) == |p|;
      assert s[|s| - 1 - |q|] == x[|x| - 1];
      assert forall i :: |s| - |q| <= i < |s| ==> s[i] == q[i - (|p| + |x|)];
      assert TrailingSpaces(s) == |q|;
      assert s[|p|..|s| - |q|] == x;
    }
  }

  /** Stripping already stripped text changes nothing; in particular Strip is idempotent. */
  lemma StripStripped(x: string)
    requires IsStripped(x)
    ensures Strip(x) == x
  {
    StripPadded([], x, []);
    assert [] + x + [] == x;
  }

  /** Whitespace appended to text is cut off again by stripping. */
  lemma StripTrailingSpace(x: string, q: string)
    requires AllSpace(q)
    ensures Strip(x + q) == Strip(x)
  {
    var r := Strip(x);
    var k := StripStart(x);
    if r == [] {
      assert forall i :: 0 <= i < |x + q| ==> (x + q)[i] == if i < |x| then x[i] else q[i - |x|];
    } else {
      var p, t := x[..k], x[k + |r|..] + q;
      assert forall i :: 0 <= i < |p| ==> p[i] == x[i];
      assert forall i :: 0 <= i < |t| ==> t[i] == if k + |r| + i < |x| then x[k + |r| + i] else q[k + |r| + i - |x|];
      assert p + r + t == x + q;
      StripPadded(p, r, t);
    }
  }

  /** Stripping never introduces a line break. */
  lemma StripNoLineBreak(s: string)
    requires NoLineBreak(s)
    ensures NoLineBreak(Strip(s))
  {
    var r := Strip(s);
    var k := StripStart(s);
    assert forall i :: 0 <= i < |r| ==> r[i] == s[k + i];
    assert forall c :: c in r ==> c in s;
  }

  /**
   * The universal-newline translation of a text-mode read: `"\r\n"` and a
   * lone `"\r"` both become `"\n"`.
   */
  function Translate(s: string): (r: string)
    ensures '\r' !in r
    ensures '\r' !in s ==> r == s
  {
    if s == [] then []
    else if s[0] == '\r' then
      if |s| > 1 && s[1] == '\n' then "\n" + Translate(s[2..]) else "\n" + Translate(s[1..])
    else
      assert '\r' !in s ==> '\r' !in s[1..];
      [s[0]] + Translate(s[1..])
  }

  /** Text without `'\r'` passes through the translation unchanged, ahead of whatever follows. */
  lemma {:induction false} TranslatePrefix(x: string, rest: string)
    requires '\r' !in x
    ensures Translate(x + rest) == x + Translate(rest)
    decreases |x|
  {
    if x == [] {
      assert x + rest == rest;
    } else {
      assert '\r' !in x[1..];
      TranslatePrefix(x[1..], rest);
      TranslateConsPrefix(x[0], x[1..], rest);
      assert [x[0]] + x[1..] == x;
    }
  }

  lemma TranslateConsPrefix(c: char, y: string, rest: string)
    requires c != '\r' && Translate(y + rest) == y + Translate(rest)
    ensures Translate([c] + y + rest) == [c] + y + Translate(rest)
  {
    TranslateCons(c, y + rest);
    assert [c] + y + rest == [c] + (y + rest);
  }

  /** A character other than `'\r'` is read as itself. */
  lemma TranslateCons(c: char, t: string)
    requires c != '\r'
    ensures Translate([c] + t) == [c] + Translate(t)
  {
    assert ([c] + t)[1..] == t;
  }

  /** A `"\r\n"` line end reads as `"\n"`. */
  lemma CarriageReturnLineEnd(x: string, rest: string)
    requires '\r' !in x
    ensures Translate(x + "\r\n" + rest) == x + "\n" + Translate(rest)
  {
    TranslatePrefix(x, "\r\n" + rest);
    assert x + "\r\n" + rest == x + ("\r\n" + rest);
    assert ("\r\n" + rest)[2..] == rest;
  }

  /** A lone `"\r"`, not followed by `"\n"`, also ends a line and reads as `"\n"`. */
  lemma LoneCarriageReturn(x: string, rest: string)
    requires '\r' !in x && (rest == [] || rest[0] != '\n')
    ensures Translate(x + "\r" + rest) == x + "\n" + Translate(rest)
  {
    TranslatePrefix(x, "\r" + rest);
    assert x + "\r" + rest == x + ("\r" + rest);
    assert ("\r" + rest)[1..] == rest;
  }

  /** Length of the first line of `s` as `readline()` returns it, its `'\n'` included. */
  function LineLength(s: string): (n: nat)
    ensures n <= |s|
    ensures s != [] ==> 0 < n
    ensures forall i :: 0 <= i < n - 1 ==> s[i] != '\n'
    ensures n < |s| ==> 0 < n && s[n - 1] == '\n'
    ensures 0 < n < |s| || (0 < n && s[n - 1] == '\n') || '\n' !in s
  {
    if s == [] then 0
    else if s[0] == '\n' then 1
    else 1 + LineLength(s[1..])
  }

  /** `"".join(lines)`: every line appears whole, in order, with nothing between. */
  function Join(lines: seq<string>): (r: string)
    ensures |lines| == 1 ==> r == lines[0]
    ensures lines != [] ==> |lines[0]| <= |r|
  {
    if lines == [] then "" else lines[0] + Join(lines[1..])
  }

  /** A line as `readlines()` returns it: non-empty, with `'\n'` at most at its end. */
  predicate IsLine(line: string)
  {
    line != [] && '\n' !in line[..|line| - 1]
  }

  predicate EndsWithNewline(line: string)
  {
    line != [] && line[|line| - 1] == '\n'
  }

  /**
   * `readlines()` on text that is already newline-translated: every line
   * ends with `'\n'` except possibly the last, no line holds `'\n'` anywhere
   * else, and the lines put back together are the text.
   */
  function ReadLines(s: string): (lines: seq<string>)
    ensures forall j :: 0 <= j < |lines| ==> IsLine(lines[j])
    ensures forall j :: 0 <= j < |lines| - 1 ==> EndsWithNewline(lines[j])
    ensures Join(lines) == s
    ensures '\r' !in s ==> forall j :: 0 <= j < |lines| ==> '\r' !in lines[j]
    decreases |s|
  {
    if s == [] then []
    else
      var n := LineLength(s);
      FirstLine(s, n);
      var rest := ReadLines(s[n..]);
      ConsLine(s[..n], rest);
      [s[..n]] + rest
  }

  /** Putting one more line in front keeps the shape `readlines()` promises. */
  lemma ConsLine(line: string, rest: seq<string>)
    ensures Join([line] + rest) == line + Join(rest)
    ensures forall j :: 1 <= j < |[line] + rest| ==> ([line] + rest)[j] == rest[j - 1]
  {
    assert ([line] + rest)[1..] == rest;
  }

  lemma FirstLine(s: string, n: nat)
    requires s != [] && n == LineLength(s)
    ensures IsLine(s[..n])
    ensures n < |s| ==> EndsWithNewline(s[..n])
    ensures s == s[..n] + s[n..]
    ensures '\r' !in s ==> '\r' !in s[..n] && '\r' !in s[n..]
  {
    FirstLineIsLine(s, n);
    FirstLineNoReturn(s, n);
  }

  lemma FirstLineIsLine(s: string, n: nat)
    requires s != [] && n == LineLength(s)
    ensures IsLine(s[..n])
  {
    assert s[..n][..n - 1] == s[..n - 1];
  }

  lemma FirstLineNoReturn(s: string, n: nat)
    requires s != [] && n == LineLength(s)
    ensures '\r' !in s ==> '\r' !in s[..n] && '\r' !in s[n..]
  {
    assert forall c :: c in s[..n] ==> c in s;
    assert forall c :: c in s[n..] ==> c in s;
  }

  /** Joining distributes over concatenation of line sequences. */
  lemma {:induction false} JoinAppend(a: seq<string>, b: seq<string>)
    ensures Join(a + b) == Join(a) + Join(b)
  {
    if a == [] {
      assert a + b == b;
    } else {
      assert (a + b)[1..] == a[1..] + b;
      JoinAppend(a[1..], b);
    }
  }

  /** A line without `'\n'` followed by `'\n'` is read back as one whole line. */
  lemma {:induction false} LineLengthOfTerminated(x: string, rest: string)
    requires '\n' !in x
    ensures LineLength(x + "\n" + rest) == |x| + 1
    decreases |x|
  {
    if x != [] {
      assert (x + "\n" + rest)[1..] == x[1..] + "\n" + rest;
      LineLengthOfTerminated(x[1..], rest);
    }
  }
}
