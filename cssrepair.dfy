/** The stylesheet repair of fix_css.js, as a pure function of the file's
    content: split into lines, find the first corrupted line at or after
    index 1850, keep what comes before it, strip NUL characters from the
    rest, collapse spaced-out text when the rest looks spaced out, and
    reassemble. `None` stands for the run that finds no corruption and
    leaves the file as it is. */
module CssRepair {
  import opened Wrappers
  import opened JsText

  // ===== Lines =====

  /** The characters `.` does not match in a JavaScript regular expression. */
  predicate IsLineTerminator(c: char) {
    c == '\n' || c == '\r' || c == '\U{2028}' || c == '\U{2029}'
  }

  /** `split(/\r?\n/)`: the text between separators, where a separator is a
      line feed together with a carriage return just before it, if any. */
  function SplitLines(s: string): (lines: seq<string>)
    ensures |lines| >= 1
    decreases |s|
  {
    if s == [] then [""]
    else if s[0] == '\n' then [""] + SplitLines(s[1..])
    else if |s| >= 2 && s[0] == '\r' && s[1] == '\n' then [""] + SplitLines(s[2..])
    else
      var rest := SplitLines(s[1..]);
      [[s[0]] + rest[0]] + rest[1..]
  }

  /** No line holds a line feed. */
  lemma {:induction false} SplitLinesHaveNoLineFeed(s: string)
    ensures forall i :: 0 <= i < |SplitLines(s)| ==> '\n' !in SplitLines(s)[i]
    decreases |s|
  {
    if s == [] {
    } else if s[0] == '\n' {
      SplitLinesHaveNoLineFeed(s[1..]);
    } else if |s| >= 2 && s[0] == '\r' && s[1] == '\n' {
      SplitLinesHaveNoLineFeed(s[2..]);
    } else {
      SplitLinesHaveNoLineFeed(s[1..]);
      var rest := SplitLines(s[1..]);
      assert '\n' !in [s[0]] + rest[0];
    }
  }

  /** `Array.prototype.join(sep)` on strings. */
  function Join(parts: seq<string>, sep: string): string {
    if |parts| == 0 then ""
    else if |parts| == 1 then parts[0]
    else parts[0] + sep + Join(parts[1..], sep)
  }

  /** Each carriage return directly before a line feed removed. */
  function CrlfToLf(s: string): string
    decreases |s|
  {
    if s == [] then []
    else if |s| >= 2 && s[0] == '\r' && s[1] == '\n' then "\n" + CrlfToLf(s[2..])
    else [s[0]] + CrlfToLf(s[1..])
  }

  /** A character put in front of the first part goes in front of the
      joined text. */
  lemma JoinPrepend(c: char, parts: seq<string>, sep: string)
    requires |parts| >= 1
    ensures Join([[c] + parts[0]] + parts[1..], sep) == [c] + Join(parts, sep)
  {
    var cons := [[c] + parts[0]] + parts[1..];
    if |parts| > 1 {
      assert cons[1..] == parts[1..];
    }
  }

  /** An empty first part leaves just the separator in front. */
  lemma JoinEmptyFirst(parts: seq<string>, sep: string)
    requires |parts| >= 1
    ensures Join([""] + parts, sep) == sep + Join(parts, sep)
  {
    assert ([""] + parts)[1..] == parts;
  }

  /** Splitting into lines and joining them with line feeds turns every CRLF
      into LF and changes nothing else. */
  lemma {:induction false} JoinSplitLines(s: string)
    ensures Join(SplitLines(s), "\n") == CrlfToLf(s)
    decreases |s|
  {
    if s == [] {
    } else if s[0] == '\n' {
      JoinSplitLines(s[1..]);
      JoinEmptyFirst(SplitLines(s[1..]), "\n");
    } else if |s| >= 2 && s[0] == '\r' && s[1] == '\n' {
      JoinSplitLines(s[2..]);
      JoinEmptyFirst(SplitLines(s[2..]), "\n");
    } else {
      JoinSplitLines(s[1..]);
      JoinPrepend(s[0], SplitLines(s[1..]), "\n");
    }
  }

  /** Joining the parts before `k` and those from `k` with one more separator
      gives the whole join. */
  lemma {:induction false} JoinSplitAt(parts: seq<string>, k: nat, sep: string)
    requires 0 < k < |parts|
    ensures Join(parts[..k], sep) + sep + Join(parts[k..], sep) == Join(parts, sep)
    decreases k
  {
    if k > 1 {
      JoinSplitAt(parts[1..], k - 1, sep);
      assert parts[1..][..k - 1] == parts[..k][1..];
      assert parts[1..][k - 1..] == parts[k..];
    } else {
      assert parts[..1] == [parts[0]];
    }
  }

  // ===== Character removal =====

  /** `replace(/c/g, '')` for a single character `c`. */
  function Without(s: string, c: char): string
    decreases |s|
  {
    if s == [] then []
    else if s[0] == c then Without(s[1..], c)
    else [s[0]] + Without(s[1..], c)
  }

  /** Nothing of `c` is left, nothing new appears, and a text without `c`
      comes back unchanged. */
  lemma {:induction false} WithoutMeaning(s: string, c: char)
    ensures c !in Without(s, c)
    ensures |Without(s, c)| <= |s|
    ensures forall d :: d in Without(s, c) ==> d in s
    ensures c !in s ==> Without(s, c) == s
    decreases |s|
  {
    if s != [] {
      WithoutMeaning(s[1..], c);
    }
  }

  lemma {:induction false} WithoutAppend(a: string, b: string, c: char)
    ensures Without(a + b, c) == Without(a, c) + Without(b, c)
    decreases |a|
  {
    if a == [] {
      assert a + b == b;
    } else {
      assert (a + b)[0] == a[0] && (a + b)[1..] == a[1..] + b;
      WithoutAppend(a[1..], b, c);
    }
  }

  // ===== Collapsing spaced-out text =====

  /** `replace(/(.) /g, '$1')`, scanning left to right: a character other
      than a line terminator followed by a space keeps the character and
      loses the space, and the scan resumes after the pair. */
  function Collapse(s: string): string
    decreases |s|
  {
    if s == [] then []
    else if |s| >= 2 && !IsLineTerminator(s[0]) && s[1] == ' ' then [s[0]] + Collapse(s[2..])
    else [s[0]] + Collapse(s[1..])
  }

  /** The corruption the collapse undoes: a space after every character. */
  function SpaceOut(s: string): string
    decreases |s|
  {
    if s == [] then [] else [s[0], ' '] + SpaceOut(s[1..])
  }

  /** On a single line, collapsing undoes spacing out. */
  lemma {:induction false} CollapseSpaceOut(s: string)
    requires forall i :: 0 <= i < |s| ==> !IsLineTerminator(s[i])
    ensures Collapse(SpaceOut(s)) == s
    decreases |s|
  {
    if s != [] {
      var t := SpaceOut(s);
      assert t[0] == s[0] && t[1] == ' ';
      assert t[2..] == SpaceOut(s[1..]);
      CollapseSpaceOut(s[1..]);
    }
  }

  /** A line break that was spaced out too leaves a space at the start of the
      next line: the round trip holds for single lines only. */
  lemma SpacedOutLineBreak()
    ensures Collapse(SpaceOut("a\nb")) == "a\n b"
  {
    var t := SpaceOut("a\nb");
    assert t == "a \n b ";
    assert t[2..] == "\n b ";
    assert t[3..] == " b ";
    assert t[4..] == "b ";
  }

  /** Only spaces go: every other character stays, in order. */
  lemma {:induction false} CollapseKeepsNonSpaces(s: string)
    ensures Without(Collapse(s), ' ') == Without(s, ' ')
    decreases |s|
  {
    if s != [] {
      if |s| >= 2 && !IsLineTerminator(s[0]) && s[1] == ' ' {
        CollapseKeepsNonSpaces(s[2..]);
        assert s[1..][1..] == s[2..];
        WithoutAppend([s[0]], Collapse(s[2..]), ' ');
      } else {
        CollapseKeepsNonSpaces(s[1..]);
        WithoutAppend([s[0]], Collapse(s[1..]), ' ');
      }
    }
  }

  /** The line terminators of a text, in order. */
  function LineTerminators(s: string): string
    decreases |s|
  {
    if s == [] then []
    else if IsLineTerminator(s[0]) then [s[0]] + LineTerminators(s[1..])
    else LineTerminators(s[1..])
  }

  lemma {:induction false} LineTerminatorsWithoutSpaces(s: string)
    ensures LineTerminators(Without(s, ' ')) == LineTerminators(s)
    decreases |s|
  {
    if s != [] {
      LineTerminatorsWithoutSpaces(s[1..]);
      if s[0] != ' ' {
        var w := Without(s, ' ');
        assert w[0] == s[0] && w[1..] == Without(s[1..], ' ');
      }
    }
  }

  /** The collapse keeps every line terminator, so the text keeps its lines. */
  lemma CollapseKeepsLineTerminators(s: string)
    ensures LineTerminators(Collapse(s)) == LineTerminators(s)
  {
    CollapseKeepsNonSpaces(s);
    LineTerminatorsWithoutSpaces(s);
    LineTerminatorsWithoutSpaces(Collapse(s));
  }

  /** The collapse never lengthens the text and brings in no new character. */
  lemma {:induction false} CollapseShrinks(s: string)
    ensures |Collapse(s)| <= |s|
    ensures forall c :: c in Collapse(s) ==> c in s
    decreases |s|
  {
    if s != [] {
      if |s| >= 2 && !IsLineTerminator(s[0]) && s[1] == ' ' {
        CollapseShrinks(s[2..]);
        assert forall c :: c in s[2..] ==> c in s by {
          assert s == s[..2] + s[2..];
        }
      } else {
        CollapseShrinks(s[1..]);
        assert forall c :: c in s[1..] ==> c in s by {
          assert s == [s[0]] + s[1..];
        }
      }
    }
  }

  /** A double space becomes a single one. */
  lemma CollapseDoubleSpace()
    ensures Collapse("a  b") == "a b"
  {
    var s := "a  b";
    assert s[2..] == " b";
    assert s[2..][1..] == "b";
  }

  // ===== The script =====

  /** The first index the search looks at. */
  const ScanStart: nat := 1850

  /** A line holding a NUL character or a spaced-out comment opener. */
  predicate Corrupted(line: string) {
    Contains(line, "\0") || Contains(line, "/ *")
  }

  /** The first corrupted line at or after `from`, if any. */
  function FirstCorrupted(lines: seq<string>, from: nat): (r: Option<nat>)
    ensures r.Some? ==> from <= r.value < |lines| && Corrupted(lines[r.value])
    ensures r.Some? ==> forall j :: from <= j < r.value ==> !Corrupted(lines[j])
    ensures r.None? <==> forall j :: from <= j < |lines| ==> !Corrupted(lines[j])
    decreases |lines| - from
  {
    if from >= |lines| then None
    else if Corrupted(lines[from]) then Some(from)
    else FirstCorrupted(lines, from + 1)
  }

  /** The search loop: the index of the first corrupted line at or after
      `ScanStart`, or -1. */
  method FindCorruption(lines: seq<string>) returns (index: int)
    ensures index == match FirstCorrupted(lines, ScanStart) case None => -1 case Some(k) => k
  {
    index := -1;
    var i := ScanStart;
    while i < |lines|
      invariant ScanStart <= i
      invariant FirstCorrupted(lines, i) == FirstCorrupted(lines, ScanStart)
    {
      if Corrupted(lines[i]) {
        index := i;
        break;
      }
      i := i + 1;
    }
  }

  /** The test that the text is spaced out. */
  predicate LooksSpacedOut(s: string) {
    Contains(s, " / * ") || Contains(s, " d i s p l a y ")
  }

  /** The tail after cleaning: NUL characters stripped, then collapsed if it
      looks spaced out. */
  function CleanTail(bad: string): string {
    var noNul := Without(bad, '\0');
    if LooksSpacedOut(noNul) then Collapse(noNul) else noNul
  }

  /** What the script writes back, or `None` when it leaves the file alone. */
  function Repaired(content: string): Option<string> {
    var lines := SplitLines(content);
    match FirstCorrupted(lines, ScanStart)
    case None => None
    case Some(k) => Some(Join(lines[..k], "\n") + "\n" + CleanTail(Join(lines[k..], "\n")))
  }

  /** The script, step by step. */
  method Repair(content: string) returns (result: Option<string>)
    ensures result == Repaired(content)
  {
    var lines := SplitLines(content);
    var corruptionIndex := FindCorruption(lines);
    if corruptionIndex == -1 {
      return None;
    }
    var goodPart := Join(lines[..corruptionIndex], "\n");
    var badPart := Join(lines[corruptionIndex..], "\n");
    var cleaned := Without(badPart, '\0');
    if Contains(cleaned, " / * ") || Contains(cleaned, " d i s p l a y ") {
      cleaned := Collapse(cleaned);
    }
    result := Some(goodPart + "\n" + cleaned);
  }

  /** The file is rewritten exactly when some line at or after `ScanStart`
      is corrupted; what comes before is never looked at, so a file of at
      most `ScanStart` lines is always left alone. */
  lemma RepairedWhenCorrupted(content: string)
    ensures Repaired(content).Some? <==>
      exists j :: ScanStart <= j < |SplitLines(content)| && Corrupted(SplitLines(content)[j])
    ensures |SplitLines(content)| <= ScanStart ==> Repaired(content).None?
  {
    var lines := SplitLines(content);
    var r := FirstCorrupted(lines, ScanStart);
    if r.Some? {
      assert Corrupted(lines[r.value]);
    }
  }

  /** The cleaned tail holds no NUL character. */
  lemma CleanTailHasNoNul(bad: string)
    ensures '\0' !in CleanTail(bad)
  {
    var noNul := Without(bad, '\0');
    WithoutMeaning(bad, '\0');
    CollapseShrinks(noNul);
  }

  /** The output is the lines before the first corrupted one, joined by line
      feeds, then one line feed, then a tail without NUL characters. */
  lemma RepairedShape(content: string)
    requires Repaired(content).Some?
    ensures exists k ::
      && ScanStart <= k < |SplitLines(content)|
      && FirstCorrupted(SplitLines(content), ScanStart) == Some(k)
      && var good := Join(SplitLines(content)[..k], "\n");
      && Repaired(content).value[..|good| + 1] == good + "\n"
      && '\0' !in Repaired(content).value[|good| + 1..]
  {
    var lines := SplitLines(content);
    var k := FirstCorrupted(lines, ScanStart).value;
    var good := Join(lines[..k], "\n");
    var tail := CleanTail(Join(lines[k..], "\n"));
    CleanTailHasNoNul(Join(lines[k..], "\n"));
    var out := Repaired(content).value;
    assert out == good + "\n" + tail;
    assert out[..|good| + 1] == good + "\n";
    assert out[|good| + 1..] == tail;
  }

  /** When the tail from the corrupted line on has no NUL character and does
      not look spaced out, the only change is CRLF to LF. */
  lemma RepairOfCleanTail(content: string, k: nat)
    requires FirstCorrupted(SplitLines(content), ScanStart) == Some(k)
    requires '\0' !in Join(SplitLines(content)[k..], "\n")
    requires !LooksSpacedOut(Join(SplitLines(content)[k..], "\n"))
    ensures Repaired(content) == Some(CrlfToLf(content))
  {
    var lines := SplitLines(content);
    var bad := Join(lines[k..], "\n");
    WithoutMeaning(bad, '\0');
    assert CleanTail(bad) == bad;
    JoinSplitAt(lines, k, "\n");
    JoinSplitLines(content);
  }
}
