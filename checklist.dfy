/**
 * The checklist store: the list of item labels kept in a text file, one
 * label per line, seeded with a fixed default list when the file is absent.
 */
module Checklist {
  import opened Text

  /** The placeholder entry at the head of the delete drop-down; choosing it deletes nothing. */
  const Sentinel: string := "-- Select --"

  /** The list written to a fresh checklist file, in this order. */
  const Defaults: seq<string> := [
    "Avoided Social Media",
    "No movies/YouTube (weekdays only)",
    "Ate healthy (no junk/sugar)",
    "Exercised (even light)",
    "1 or less cigarettes only",
    "No alcohol today (except weekend)",
    "Worked on something I love",
    "Explored something new",
    "Got at least 1 new idea today",
    // written in two parts only to keep the verifier's per-character checks short
    "Reflected for 2 mins " + "(notes / thought dump)",
    "Do I feel satisfied today?"
  ]

  /** A label that survives a save and a load unchanged. */
  predicate WellFormedLabel(x: string)
  {
    x != [] && IsStripped(x) && NoLineBreak(x)
  }

  predicate AllWellFormed(items: seq<string>)
  {
    forall i :: 0 <= i < |items| ==> WellFormedLabel(items[i])
  }

  /** The file content `save_checklist` writes: every label followed by a newline. */
  function Serialize(items: seq<string>): (content: string)
    ensures content == [] <==> items == []
    ensures items != [] ==> content[|content| - 1] == '\n'
  {
    if items == [] then "" else items[0] + "\n" + Serialize(items[1..])
  }

  /** Writing one more label extends the content by that label's line. */
  lemma {:induction false} SerializeSnoc(items: seq<string>, x: string)
    ensures Serialize(items + [x]) == Serialize(items) + x + "\n"
  {
    if items == [] {
      assert items + [x] == [x];
    } else {
      assert (items + [x])[1..] == items[1..] + [x];
      SerializeSnoc(items[1..], x);
    }
  }

  /** A physical line as `readlines()` yields it from newline-translated text. */
  predicate LineShaped(line: string)
  {
    IsLine(line) && '\r' !in line
  }

  /**
   * The list comprehension of the loader: the stripped lines, in file order,
   * with every line that strips to nothing dropped.
   */
  function NonBlankLabels(lines: seq<string>): (labels: seq<string>)
    ensures |labels| <= |lines|
    ensures forall i :: 0 <= i < |labels| ==> labels[i] != [] && IsStripped(labels[i])
  {
    if lines == [] then []
    else if Strip(lines[0]) != [] then [Strip(lines[0])] + NonBlankLabels(lines[1..])
    else NonBlankLabels(lines[1..])
  }

  /** Labels parsed from physical lines hold no line break. */
  lemma {:induction false} NonBlankLabelsWellFormed(lines: seq<string>)
    requires forall j :: 0 <= j < |lines| ==> LineShaped(lines[j])
    ensures AllWellFormed(NonBlankLabels(lines))
  {
    if lines != [] {
      assert LineShaped(lines[0]);
      LabelOfLine(lines[0]);
      assert forall j :: 0 <= j < |lines[1..]| ==> lines[1..][j] == lines[j + 1];
      NonBlankLabelsWellFormed(lines[1..]);
    }
  }

  /** Stripping a physical line removes its newline, so the label holds no line break. */
  lemma LabelOfLine(line: string)
    requires LineShaped(line)
    ensures NoLineBreak(Strip(line))
  {
    var r := Strip(line);
    var k := StripStart(line);
    forall m | 0 <= m < |r|
      ensures r[m] != '\n' && r[m] != '\r'
    {
      assert r[m] == line[k + m];
      if k + m < |line| - 1 {
        assert line[..|line| - 1][k + m] == line[k + m];
      } else {
        assert m == |r| - 1;
      }
    }
  }

  /** `load_checklist` on an existing file: parse its text. Every label it returns is well formed. */
  function ParseChecklist(content: string): (items: seq<string>)
    ensures AllWellFormed(items)
  {
    var lines := ReadLines(Translate(content));
    assert forall j :: 0 <= j < |lines| ==> LineShaped(lines[j]);
    NonBlankLabelsWellFormed(lines);
    NonBlankLabels(lines)
  }

  /** What one line contributes to the parsed checklist: nothing when blank, its stripped text otherwise. */
  function LabelsOfLine(x: string): (labels: seq<string>)
    ensures |labels| <= 1
    ensures labels == [] <==> AllSpace(x)
  {
    if Strip(x) == [] then [] else [Strip(x)]
  }

  /**
   * Loading reads the file line by line in order: a line ended by `'\n'`
   * contributes its stripped text, or nothing when it is blank, ahead of
   * the labels of the rest of the file.
   */
  lemma ParseLine(x: string, rest: string)
    requires NoLineBreak(x)
    ensures ParseChecklist(x + "\n" + rest) == LabelsOfLine(x) + ParseChecklist(rest)
  {
    TranslatePrefix(x + "\n", rest);
    assert x + "\n" + rest == (x + "\n") + rest;
    var t := Translate(rest);
    ReadLinesTerminated(x, t);
    StripTrailingSpace(x, "\n");
    assert ([x + "\n"] + ReadLines(t))[1..] == ReadLines(t);
  }

  /** The same holds for a line ended by `"\r\n"`, as a text-mode read translates it. */
  lemma ParseWindowsLine(x: string, rest: string)
    requires NoLineBreak(x)
    ensures ParseChecklist(x + "\r\n" + rest) == LabelsOfLine(x) + ParseChecklist(rest)
  {
    CarriageReturnLineEnd(x, rest);
    var t := Translate(rest);
    ReadLinesTerminated(x, t);
    StripTrailingSpace(x, "\n");
    assert ([x + "\n"] + ReadLines(t))[1..] == ReadLines(t);
  }

  /** And for a line ended by a lone `"\r"`, which a text-mode read also treats as a line end. */
  lemma ParseMacLine(x: string, rest: string)
    requires NoLineBreak(x) && (rest == [] || rest[0] != '\n')
    ensures ParseChecklist(x + "\r" + rest) == LabelsOfLine(x) + ParseChecklist(rest)
  {
    LoneCarriageReturn(x, rest);
    var t := Translate(rest);
    ReadLinesTerminated(x, t);
    StripTrailingSpace(x, "\n");
    assert ([x + "\n"] + ReadLines(t))[1..] == ReadLines(t);
  }

  /** A last line without a line end counts like any other; an empty file gives the empty list. */
  lemma ParseLastLine(x: string)
    requires NoLineBreak(x)
    ensures ParseChecklist(x) == LabelsOfLine(x)
  {
    if x != [] {
      assert LineLength(x) == |x|;
      assert x[..|x|] == x;
      assert ([x] + ReadLines(x[|x|..]))[1..] == [];
    }
  }

  lemma {:induction false} SerializeNoCarriageReturn(items: seq<string>)
    requires AllWellFormed(items)
    ensures '\r' !in Serialize(items)
  {
    if items != [] {
      SerializeNoCarriageReturn(items[1..]);
      assert WellFormedLabel(items[0]);
    }
  }

  lemma {:induction false} ReadBackSerialized(items: seq<string>)
    requires AllWellFormed(items)
    ensures NonBlankLabels(ReadLines(Serialize(items))) == items
  {
    if items != [] {
      assert WellFormedLabel(items[0]);
      assert forall i :: 0 <= i < |items[1..]| ==> items[1..][i] == items[i + 1];
      ReadBackStep(items[0], Serialize(items[1..]));
      ReadBackSerialized(items[1..]);
      assert items == [items[0]] + items[1..];
    }
  }

  /** A well-formed label's line reads back as that label, ahead of whatever follows. */
  lemma ReadBackStep(x: string, rest: string)
    requires WellFormedLabel(x)
    ensures NonBlankLabels(ReadLines(x + "\n" + rest)) == [x] + NonBlankLabels(ReadLines(rest))
  {
    ReadLinesTerminated(x, rest);
    StripPadded([], x, "\n");
    assert [] + x + "\n" == x + "\n";
    NonBlankCons(x + "\n", ReadLines(rest));
  }

  lemma NonBlankCons(line: string, lines: seq<string>)
    requires Strip(line) != []
    ensures NonBlankLabels([line] + lines) == [Strip(line)] + NonBlankLabels(lines)
  {
    assert ([line] + lines)[1..] == lines;
  }

  /** The first line of a serialised list is its first label with its newline. */
  lemma ReadLinesTerminated(x: string, rest: string)
    requires '\n' !in x
    ensures ReadLines(x + "\n" + rest) == [x + "\n"] + ReadLines(rest)
  {
    var s := x + "\n" + rest;
    LineLengthOfTerminated(x, rest);
    assert s[..|x| + 1] == x + "\n";
    assert s[|x| + 1..] == rest;
  }

  /**
   * Saving a list of well-formed labels and loading the file again gives
   * back exactly that list.
   */
  lemma RoundTrip(items: seq<string>)
    requires AllWellFormed(items)
    ensures ParseChecklist(Serialize(items)) == items
  {
    SerializeNoCarriageReturn(items);
    ReadBackSerialized(items);
  }

  /**
   * A label holding a line break does not survive: saved and loaded
   * again, it comes back as the two labels either side of the break.
   */
  lemma MultiLineLabelSplits(a: string, b: string)
    requires WellFormedLabel(a) && WellFormedLabel(b)
    ensures ParseChecklist(Serialize([a + "\n" + b])) == [a, b]
  {
    SerializeSnoc([], a + "\n" + b);
    assert [] + [a + "\n" + b] == [a + "\n" + b];
    assert Serialize([]) + (a + "\n" + b) + "\n" == a + "\n" + (b + "\n" + []);
    ParseTwoLines(a, b);
  }

  lemma ParseTwoLines(a: string, b: string)
    requires WellFormedLabel(a) && WellFormedLabel(b)
    ensures ParseChecklist(a + "\n" + (b + "\n" + [])) == [a, b]
  {
    StripStripped(b);
    assert LabelsOfLine(b) == [b];
    ParseLastLine([]);
    ParseLine(b, []);
    assert ParseChecklist(b + "\n" + []) == [b];
    StripStripped(a);
    assert LabelsOfLine(a) == [a];
    ParseLine(a, b + "\n" + []);
  }

  /** Whatever a load returns, saving it and loading again returns the same list. */
  lemma ReloadStable(content: string)
    ensures ParseChecklist(Serialize(ParseChecklist(content))) == ParseChecklist(content)
  {
    RoundTrip(ParseChecklist(content));
  }

  /** The default labels are well formed, so a fresh file reads back as the defaults. */
  lemma DefaultsWellFormed()
    ensures AllWellFormed(Defaults)
    ensures ParseChecklist(Serialize(Defaults)) == Defaults
  {
    DefaultsAllWellFormed();
    RoundTrip(Defaults);
  }

  lemma DefaultsAllWellFormed()
    ensures AllWellFormed(Defaults)
  {
    Default0WellFormed(); Default1WellFormed(); Default2WellFormed(); Default3WellFormed();
    Default4WellFormed(); Default5WellFormed(); Default6WellFormed(); Default7WellFormed();
    Default8WellFormed(); Default9WellFormed(); Default10WellFormed();
  }

  /** Text made of characters at or above the space character holds no line break. */
  predicate NoControlChars(s: string)
  {
    forall i :: 0 <= i < |s| ==> ' ' <= s[i]
  }

  lemma ControlFree(x: string)
    requires NoControlChars(x)
    ensures NoLineBreak(x)
  {
    assert forall k :: 0 <= k < |x| ==> x[k] != '\n' && x[k] != '\r';
  }

  lemma NoControlConcat(a: string, b: string)
    requires NoControlChars(a) && NoControlChars(b)
    ensures NoLineBreak(a + b)
  {
    ControlFree(a);
    ControlFree(b);
    assert forall c :: c in a + b ==> c in a || c in b;
  }

  // One lemma per default label keeps each character-by-character check small.
  lemma Default0WellFormed() ensures WellFormedLabel(Defaults[0]) { ControlFree(Defaults[0]); }
  lemma Default1WellFormed() ensures WellFormedLabel(Defaults[1]) { ControlFree(Defaults[1]); }
  lemma Default2WellFormed() ensures WellFormedLabel(Defaults[2]) { ControlFree(Defaults[2]); }
  lemma Default3WellFormed() ensures WellFormedLabel(Defaults[3]) { ControlFree(Defaults[3]); }
  lemma Default4WellFormed() ensures WellFormedLabel(Defaults[4]) { ControlFree(Defaults[4]); }
  lemma Default5WellFormed() ensures WellFormedLabel(Defaults[5]) { ControlFree(Defaults[5]); }
  lemma Default6WellFormed() ensures WellFormedLabel(Defaults[6]) { ControlFree(Defaults[6]); }
  lemma Default7WellFormed() ensures WellFormedLabel(Defaults[7]) { ControlFree(Defaults[7]); }
  lemma Default8WellFormed() ensures WellFormedLabel(Defaults[8]) { ControlFree(Defaults[8]); }
  lemma Default9WellFormed() ensures WellFormedLabel(Defaults[9])
  {
    var a, b := "Reflected for 2 mins ", "(notes / thought dump)";
    assert NoControlChars(a);
    assert NoControlChars(b);
    NoControlConcat(a, b);
    assert (a + b)[0] == a[0] && (a + b)[|a + b| - 1] == b[|b| - 1];
  }
  lemma Default10WellFormed() ensures WellFormedLabel(Defaults[10]) { ControlFree(Defaults[10]); }

  /** Position of the first occurrence of `x` in `s`. */
  function FirstIndex(s: seq<string>, x: string): (i: nat)
    requires x in s
    ensures i < |s| && s[i] == x && x !in s[..i]
  {
    if s[0] == x then 0
    else
      var i := 1 + FirstIndex(s[1..], x);
      assert s[..i] == [s[0]] + s[1..][..i - 1];
      i
  }

  /**
   * `list.remove(x)`: exactly the first occurrence of `x` goes, the other
   * labels keep their relative order.
   */
  function RemoveFirst(s: seq<string>, x: string): (r: seq<string>)
    requires x in s
    ensures |r| == |s| - 1
    ensures r == s[..FirstIndex(s, x)] + s[FirstIndex(s, x) + 1..]
  {
    if s[0] == x then s[1..]
    else
      var rest := RemoveFirst(s[1..], x);
      RemoveFirstStep(s, x);
      [s[0]] + rest
  }

  lemma RemoveFirstStep(s: seq<string>, x: string)
    requires x in s && s[0] != x
    ensures FirstIndex(s, x) == FirstIndex(s[1..], x) + 1
    ensures var i := FirstIndex(s[1..], x);
      [s[0]] + (s[1..][..i] + s[1..][i + 1..]) == s[..i + 1] + s[i + 2..]
  {
    var i := FirstIndex(s[1..], x);
    assert [s[0]] + s[1..][..i] == s[..i + 1];
    assert s[1..][i + 1..] == s[i + 2..];
  }

  /** Deleting takes exactly one copy of the label out of the list's contents. */
  lemma RemoveFirstMultiset(s: seq<string>, x: string)
    requires x in s
    ensures multiset(RemoveFirst(s, x)) == multiset(s) - multiset{x}
  {
    var i := FirstIndex(s, x);
    assert s == s[..i] + [x] + s[i + 1..];
  }

  /** Removing a label that was just appended, and occurs nowhere else, restores the list. */
  lemma AddThenDelete(s: seq<string>, x: string)
    requires x !in s
    ensures RemoveFirst(s + [x], x) == s
  {
    var t := s + [x];
    assert t[..|s|] == s;
  }

  /** Deleting keeps every remaining label well formed. */
  lemma RemoveFirstWellFormed(s: seq<string>, x: string)
    requires x in s && AllWellFormed(s)
    ensures AllWellFormed(RemoveFirst(s, x))
  {
    var r := RemoveFirst(s, x);
    RemoveFirstMultiset(s, x);
    forall i | 0 <= i < |r|
      ensures WellFormedLabel(r[i])
    {
      assert r[i] in multiset(r);
      assert r[i] in s;
    }
  }
}
