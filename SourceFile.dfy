/**
 * The line normaliser of SourceFile.cpp: block comments are stripped with a
 * counter that carries from one raw line to the next, line comments are cut
 * per file type, and what is left becomes a SourceLine only when it passes
 * the isSourceLine filter. The file's raw lines, its type, the minimum
 * number of characters and the preprocessor switch are parameters (the
 * source reads the file and keeps the last two in class statics).
 */
module SourceFiles {
  import StringUtil

  /** The file types the normaliser distinguishes (FileType::GetFileType is not part of this model). */
  datatype FileType = C | Cpp | Cxx | H | Hpp | Java | CSharp | VB | Qml | Unknown

  /** The types whose comments are written with slashes and stars. */
  predicate IsBraceType(t: FileType)
  {
    t.C? || t.Cpp? || t.Cxx? || t.H? || t.Hpp? || t.Java? || t.CSharp? || t.Qml?
  }

  /** The brace types that isSourceLine treats alike under ignorePrepStuff: all but C#. */
  predicate IsHashPreprocessorType(t: FileType)
  {
    IsBraceType(t) && !t.CSharp?
  }

  /** A kept line: its cleaned text and the 0-based index of the raw line it came from. */
  datatype SourceLine = SourceLine(text: string, lineNumber: nat)

  // ---------------------------------------------------------------------
  // Block comments (SourceFile.cpp:41-79)
  // ---------------------------------------------------------------------

  /** A comment opener (slash, star) starts at j. */
  predicate OpensAt(line: string, j: nat)
  {
    j + 1 < |line| && line[j] == '/' && line[j + 1] == '*'
  }

  /** A comment closer (star, slash) ends at j. */
  predicate ClosesAt(line: string, j: nat)
  {
    0 < j < |line| && line[j - 1] == '*' && line[j] == '/'
  }

  /** The comment counter after positions 0 .. j-1 of line, starting from c0. */
  function CounterAfter(line: string, c0: int, j: nat): int
    requires j <= |line|
  {
    if j == 0 then c0
    else CounterAfter(line, c0, j - 1) + (if OpensAt(line, j - 1) then 1 else 0) - (if ClosesAt(line, j - 1) then 1 else 0)
  }

  /** Position j survives: the counter, after the opener test at j and before the closer test, is at most 0. */
  predicate KeptAt(line: string, c0: int, j: nat)
    requires j < |line|
  {
    CounterAfter(line, c0, j) + (if OpensAt(line, j) then 1 else 0) <= 0
  }

  /** The characters of line[..j] that survive block-comment removal, in order. */
  function StripBlock(line: string, c0: int, j: nat): string
    requires j <= |line|
  {
    if j == 0 then []
    else StripBlock(line, c0, j - 1) + (if KeptAt(line, c0, j - 1) then [line[j - 1]] else [])
  }

  /** The character loop of the constructor for one brace-type line. */
  method StripBlockComments(line: string, counter: int) returns (tmp: string, counterOut: int)
    ensures tmp == StripBlock(line, counter, |line|)
    ensures counterOut == CounterAfter(line, counter, |line|)
  {
    tmp := [];
    counterOut := counter;
    for j := 0 to |line|
      invariant counterOut == CounterAfter(line, counter, j)
      invariant tmp == StripBlock(line, counter, j)
    {
      if j < |line| - 1 && line[j] == '/' && line[j + 1] == '*' {
        counterOut := counterOut + 1;
      }
      if counterOut <= 0 {
        tmp := tmp + [line[j]];
      }
      if j > 0 && line[j - 1] == '*' && line[j] == '/' {
        counterOut := counterOut - 1;
      }
    }
  }

  /** Outside any comment, a line without an opener is kept whole, and the counter does not rise. */
  lemma {:induction false} NoOpenerKeepsLine(line: string, c0: int, j: nat)
    requires c0 <= 0 && j <= |line|
    requires forall k: nat :: k < |line| ==> !OpensAt(line, k)
    ensures StripBlock(line, c0, j) == line[..j]
    ensures CounterAfter(line, c0, j) <= c0
  {
    if j > 0 {
      NoOpenerKeepsLine(line, c0, j - 1);
      assert !OpensAt(line, j - 1);
      assert line[..j] == line[..j - 1] + [line[j - 1]];
    }
  }

  /** Inside a comment, a line without a closer contributes nothing, and the counter does not fall. */
  lemma {:induction false} NoCloserDropsLine(line: string, c0: int, j: nat)
    requires c0 >= 1 && j <= |line|
    requires forall k: nat :: k < |line| ==> !ClosesAt(line, k)
    ensures StripBlock(line, c0, j) == []
    ensures CounterAfter(line, c0, j) >= c0
  {
    if j > 0 {
      NoCloserDropsLine(line, c0, j - 1);
      assert !ClosesAt(line, j - 1);
    }
  }

  /** Nothing survives that was not in the line: the result is a subsequence no longer than the line. */
  lemma {:induction false} StripBlockShorter(line: string, c0: int, j: nat)
    requires j <= |line|
    ensures |StripBlock(line, c0, j)| <= j
  {
    if j > 0 {
      StripBlockShorter(line, c0, j - 1);
    }
  }

  /**
   * A stray closer outside any comment drives the counter below zero, and a
   * later comment on the same line is then kept.
   */
  lemma StrayCloserKeepsLaterComment()
    ensures CounterAfter("*/a", 0, 3) == -1
    ensures StripBlock("*/a/*b*/", 0, 8) == "*/a/*b*/"
  {
    var s := "*/a/*b*/";
    assert ClosesAt(s, 1) && OpensAt(s, 3) && ClosesAt(s, 7);
    assert !OpensAt(s, 0) && !OpensAt(s, 1) && !OpensAt(s, 2) && !OpensAt(s, 4);
    assert !OpensAt(s, 5) && !OpensAt(s, 6) && !OpensAt(s, 7);
    assert !ClosesAt(s, 0) && !ClosesAt(s, 2) && !ClosesAt(s, 3);
    assert !ClosesAt(s, 4) && !ClosesAt(s, 5) && !ClosesAt(s, 6);
    assert ClosesAt("*/a", 1) && !OpensAt("*/a", 0) && !OpensAt("*/a", 1) && !OpensAt("*/a", 2);
    assert !ClosesAt("*/a", 0) && !ClosesAt("*/a", 2);
  }

  // ---------------------------------------------------------------------
  // Line comments (SourceFile.cpp:102-136)
  // ---------------------------------------------------------------------

  /** A line comment starts at i: "//" for brace types, a quote that is not the last character for VB. */
  predicate MarkerAt(line: string, t: FileType, i: nat)
  {
    if IsBraceType(t) then i + 1 < |line| && line[i] == '/' && line[i + 1] == '/'
    else if t.VB? then i + 1 < |line| && line[i] == '\''
    else false
  }

  /** The first position at or after i where a line comment starts, or |line|. */
  function CutFrom(line: string, t: FileType, i: nat): (k: nat)
    requires i <= |line|
    ensures i <= k <= |line|
    decreases |line| - i
  {
    if i == |line| || MarkerAt(line, t, i) then i else CutFrom(line, t, i + 1)
  }

  /** getCleanLine's result: the line up to its first line-comment marker. */
  function CleanLine(line: string, t: FileType): string
  {
    line[..CutFrom(line, t, 0)]
  }

  /** getCleanLine: copies characters until a line-comment marker, then stops. */
  method GetCleanLine(line: string, t: FileType) returns (cleaned: string)
    ensures cleaned == CleanLine(line, t)
  {
    cleaned := [];
    for i := 0 to |line|
      invariant cleaned == line[..i]
      invariant CutFrom(line, t, 0) == CutFrom(line, t, i)
    {
      if IsBraceType(t) {
        if i < |line| - 1 && line[i] == '/' && line[i + 1] == '/' {
          return;
        }
      } else if t.VB? {
        if i < |line| - 1 && line[i] == '\'' {
          return;
        }
      }
      cleaned := cleaned + [line[i]];
    }
  }

  /** CutFrom finds the first marker: none before it, one at it unless it is the end. */
  lemma {:induction false} CutFromIsFirst(line: string, t: FileType, i: nat)
    requires i <= |line|
    ensures forall k: nat :: i <= k < CutFrom(line, t, i) ==> !MarkerAt(line, t, k)
    ensures CutFrom(line, t, i) < |line| ==> MarkerAt(line, t, CutFrom(line, t, i))
    decreases |line| - i
  {
    if i < |line| && !MarkerAt(line, t, i) {
      CutFromIsFirst(line, t, i + 1);
    }
  }

  /**
   * The cleaned line is a prefix of the line with no marker in it, and it
   * stops short of the line only at a marker; a type with no line comments
   * keeps the whole line.
   */
  lemma CleanLineIsPrefixToFirstMarker(line: string, t: FileType)
    ensures CleanLine(line, t) <= line
    ensures forall k: nat :: k < |CleanLine(line, t)| ==> !MarkerAt(line, t, k)
    ensures |CleanLine(line, t)| < |line| ==> MarkerAt(line, t, |CleanLine(line, t)|)
    ensures !IsBraceType(t) && !t.VB? ==> CleanLine(line, t) == line
  {
    CutFromIsFirst(line, t, 0);
  }

  // ---------------------------------------------------------------------
  // isSourceLine (SourceFile.cpp:138-198)
  // ---------------------------------------------------------------------

  /** tolower in the C locale. */
  function LowerChar(c: char): char
  {
    if 'A' <= c <= 'Z' then (c as int + 32) as char else c
  }

  /** isalpha in the C locale. */
  predicate IsAlpha(c: char)
  {
    'a' <= c <= 'z' || 'A' <= c <= 'Z'
  }

  function Lower(s: string): (r: string)
    ensures |r| == |s|
    ensures forall i :: 0 <= i < |s| ==> r[i] == LowerChar(s[i])
  {
    seq(|s|, i requires 0 <= i < |s| => LowerChar(s[i]))
  }

  predicate HasAlpha(s: string)
  {
    exists i :: 0 <= i < |s| && IsAlpha(s[i])
  }

  /** The C# words whose presence anywhere in the token rejects a line under ignorePrepStuff. */
  predicate HasCSharpKeyword(s: string)
  {
    StringUtil.Contains(s, "using") || StringUtil.Contains(s, "private")
    || StringUtil.Contains(s, "protected") || StringUtil.Contains(s, "public")
  }

  /**
   * isSourceLine. The token is trim's result, the first whitespace-delimited
   * word of the line; the source's own check that the token is still long
   * enough always holds, so only the alphabetic test remains at the end.
   */
  predicate IsSourceLine(line: string, t: FileType, minChars: nat, ignorePrep: bool)
  {
    var tok := StringUtil.Trim(line);
    if |tok| < minChars then false
    else
      var low := Lower(tok);
      if ignorePrep && IsHashPreprocessorType(t) && |low| > 0 && low[0] == '#' then false
      else if ignorePrep && t.CSharp? && ((|low| > 0 && low[0] == '#') || HasCSharpKeyword(low)) then false
      else if ignorePrep && t.VB? then !StringUtil.Contains(low, "imports")
      else HasAlpha(low)
  }

  /** A token shorter than minChars never makes a source line. */
  lemma ShortLinesRejected(line: string, t: FileType, minChars: nat, ignorePrep: bool)
    requires |StringUtil.Trim(line)| < minChars
    ensures !IsSourceLine(line, t, minChars, ignorePrep)
  {
  }

  /** Under ignorePrepStuff, a C-family, Java or QML token beginning with '#' is rejected. */
  lemma PreprocessorRejected(line: string, t: FileType, minChars: nat)
    requires IsHashPreprocessorType(t) || t.CSharp?
    requires |StringUtil.Trim(line)| > 0 && StringUtil.Trim(line)[0] == '#'
    ensures !IsSourceLine(line, t, minChars, true)
  {
    assert Lower(StringUtil.Trim(line))[0] == '#';
  }

  /** Under ignorePrepStuff, a C# token holding one of the access or using keywords is rejected. */
  lemma CSharpKeywordRejected(line: string, minChars: nat)
    requires HasCSharpKeyword(Lower(StringUtil.Trim(line)))
    ensures !IsSourceLine(line, CSharp, minChars, true)
  {
  }

  /** Under ignorePrepStuff, a long enough VB token is a source line exactly when it holds no "imports", letters or not. */
  lemma VBImportsDecides(line: string, minChars: nat)
    requires |StringUtil.Trim(line)| >= minChars
    ensures IsSourceLine(line, VB, minChars, true) <==> !StringUtil.Contains(Lower(StringUtil.Trim(line)), "imports")
  {
  }

  /** Lowercasing keeps letters letters. */
  lemma LowerKeepsAlpha(s: string)
    ensures HasAlpha(Lower(s)) <==> HasAlpha(s)
  {
    if HasAlpha(s) {
      var i :| 0 <= i < |s| && IsAlpha(s[i]);
      assert IsAlpha(Lower(s)[i]);
    }
    if HasAlpha(Lower(s)) {
      var i :| 0 <= i < |s| && IsAlpha(Lower(s)[i]);
      assert IsAlpha(s[i]);
    }
  }

  /**
   * Outside the ignorePrepStuff VB case, a source line has a letter in it:
   * its first token has one, and the first token is part of the line.
   */
  lemma SourceLineHasLetter(line: string, t: FileType, minChars: nat, ignorePrep: bool)
    requires IsSourceLine(line, t, minChars, ignorePrep)
    requires !(ignorePrep && t.VB?)
    ensures exists k :: 0 <= k < |line| && IsAlpha(line[k])
  {
    var tok := StringUtil.Trim(line);
    LowerKeepsAlpha(tok);
    var i :| 0 <= i < |tok| && IsAlpha(tok[i]);
    var s := StringUtil.SkipSpace(line, 0);
    assert tok == line[s..StringUtil.SkipToken(line, s)];
    assert line[s + i] == tok[i];
  }

  /** Without ignorePrepStuff the filter is: the token is long enough and has a letter. */
  lemma PlainFilter(line: string, t: FileType, minChars: nat)
    ensures IsSourceLine(line, t, minChars, false) <==>
      |StringUtil.Trim(line)| >= minChars && HasAlpha(StringUtil.Trim(line))
  {
    LowerKeepsAlpha(StringUtil.Trim(line));
  }

  // ---------------------------------------------------------------------
  // The constructor and AddToLines (SourceFile.cpp:29-100)
  // ---------------------------------------------------------------------

  /** The comment counter after the first k raw lines: it carries over between lines and only brace types move it. */
  function CommentStateAfter(lines: seq<string>, t: FileType, k: nat): int
    requires k <= |lines|
  {
    if k == 0 then 0
    else
      var c := CommentStateAfter(lines, t, k - 1);
      if IsBraceType(t) then CounterAfter(lines[k - 1], c, |lines[k - 1]|) else c
  }

  /** The text the constructor hands to AddToLines for raw line k. */
  function RawText(lines: seq<string>, t: FileType, k: nat): string
    requires k < |lines|
  {
    if IsBraceType(t) then StripBlock(lines[k], CommentStateAfter(lines, t, k), |lines[k]|)
    else if t.VB? then lines[k]
    else ""
  }

  /** What AddToLines adds for a text at a raw index: one SourceLine or nothing. */
  function LineEntry(tmp: string, index: nat, t: FileType, minChars: nat, ignorePrep: bool): seq<SourceLine>
  {
    var cleaned := CleanLine(tmp, t);
    if IsSourceLine(cleaned, t, minChars, ignorePrep) then [SourceLine(cleaned, index)] else []
  }

  /** The source lines collected from the first k raw lines. */
  function Collected(lines: seq<string>, t: FileType, minChars: nat, ignorePrep: bool, k: nat): seq<SourceLine>
    requires k <= |lines|
  {
    if k == 0 then []
    else Collected(lines, t, minChars, ignorePrep, k - 1) + LineEntry(RawText(lines, t, k - 1), k - 1, t, minChars, ignorePrep)
  }

  /** Line numbers strictly increase and stay below n. */
  ghost predicate Numbered(s: seq<SourceLine>, n: nat)
  {
    && (forall i :: 0 <= i < |s| ==> s[i].lineNumber < n)
    && (forall i, j :: 0 <= i < j < |s| ==> s[i].lineNumber < s[j].lineNumber)
  }

  /** Entry i is the cleaned text of the raw line it names, and that text passes the filter. */
  ghost predicate EntryOk(lines: seq<string>, t: FileType, minChars: nat, ignorePrep: bool, e: SourceLine)
  {
    && e.lineNumber < |lines|
    && e.text == CleanLine(RawText(lines, t, e.lineNumber), t)
    && IsSourceLine(e.text, t, minChars, ignorePrep)
  }

  /** Raw line k yields a source line. */
  ghost predicate Yields(lines: seq<string>, t: FileType, minChars: nat, ignorePrep: bool, k: nat)
    requires k < |lines|
  {
    IsSourceLine(CleanLine(RawText(lines, t, k), t), t, minChars, ignorePrep)
  }

  /** Some entry of s names raw line k. */
  ghost predicate Names(s: seq<SourceLine>, k: nat)
  {
    exists i :: 0 <= i < |s| && s[i].lineNumber == k
  }

  /** Every entry of s is the cleaned text of the raw line it names, and that text passes the filter. */
  ghost predicate AllEntriesOk(lines: seq<string>, t: FileType, minChars: nat, ignorePrep: bool, s: seq<SourceLine>)
  {
    forall i :: 0 <= i < |s| ==> EntryOk(lines, t, minChars, ignorePrep, s[i])
  }

  /** Every raw line below k that passes the filter is named by an entry of s. */
  ghost predicate AllYieldsNamed(lines: seq<string>, t: FileType, minChars: nat, ignorePrep: bool, s: seq<SourceLine>, k: nat)
    requires k <= |lines|
  {
    forall j: nat :: j < k && Yields(lines, t, minChars, ignorePrep, j) ==> Names(s, j)
  }

  /**
   * Each raw line contributes at most one source line, in order and tagged
   * with its 0-based index; every entry is the cleaned text of its raw line
   * and passes the filter, and every raw line that passes appears.
   */
  lemma {:induction false} CollectedFaithful(lines: seq<string>, t: FileType, minChars: nat, ignorePrep: bool, k: nat)
    requires k <= |lines|
    ensures |Collected(lines, t, minChars, ignorePrep, k)| <= k
    ensures Numbered(Collected(lines, t, minChars, ignorePrep, k), k)
    ensures AllEntriesOk(lines, t, minChars, ignorePrep, Collected(lines, t, minChars, ignorePrep, k))
    ensures AllYieldsNamed(lines, t, minChars, ignorePrep, Collected(lines, t, minChars, ignorePrep, k), k)
  {
    if k > 0 {
      CollectedFaithful(lines, t, minChars, ignorePrep, k - 1);
      var prev := Collected(lines, t, minChars, ignorePrep, k - 1);
      var e := LineEntry(RawText(lines, t, k - 1), k - 1, t, minChars, ignorePrep);
      assert Collected(lines, t, minChars, ignorePrep, k) == prev + e;
      CollectedStep(lines, t, minChars, ignorePrep, k - 1, prev, e);
    }
  }

  /** Appending the entry of raw line k keeps the four properties, now up to k + 1. */
  lemma CollectedStep(lines: seq<string>, t: FileType, minChars: nat, ignorePrep: bool, k: nat,
                      prev: seq<SourceLine>, e: seq<SourceLine>)
    requires k < |lines|
    requires |prev| <= k && Numbered(prev, k)
    requires AllEntriesOk(lines, t, minChars, ignorePrep, prev)
    requires AllYieldsNamed(lines, t, minChars, ignorePrep, prev, k)
    requires e == LineEntry(RawText(lines, t, k), k, t, minChars, ignorePrep)
    ensures |prev + e| <= k + 1 && Numbered(prev + e, k + 1)
    ensures AllEntriesOk(lines, t, minChars, ignorePrep, prev + e)
    ensures AllYieldsNamed(lines, t, minChars, ignorePrep, prev + e, k + 1)
  {
    var cur := prev + e;
    forall i | 0 <= i < |cur| ensures EntryOk(lines, t, minChars, ignorePrep, cur[i]) {
      if i < |prev| {
        assert cur[i] == prev[i];
      }
    }
    forall j: nat | j < k + 1 && Yields(lines, t, minChars, ignorePrep, j)
      ensures Names(cur, j)
    {
      if j < k {
        assert Names(prev, j);
        var i :| 0 <= i < |prev| && prev[i].lineNumber == j;
        assert cur[i] == prev[i];
      } else {
        assert cur[|prev|].lineNumber == j;
      }
    }
  }

  /** A file of a type the normaliser does not know yields no source lines. */
  lemma {:induction false} UnknownTypeYieldsNothing(lines: seq<string>, minChars: nat, ignorePrep: bool, k: nat)
    requires k <= |lines|
    ensures Collected(lines, Unknown, minChars, ignorePrep, k) == []
  {
    if k > 0 {
      UnknownTypeYieldsNothing(lines, minChars, ignorePrep, k - 1);
      assert CleanLine("", Unknown) == "";
      assert !HasAlpha(Lower(""));
    }
  }

  /** VB lines reach AddToLines unchanged, whatever they contain. */
  lemma VBLinesPassThrough(lines: seq<string>, k: nat)
    requires k < |lines|
    ensures RawText(lines, VB, k) == lines[k]
  {
  }

  /** A block comment spread over three lines of a C file leaves nothing. */
  lemma ThreeLineCommentYieldsNothing(minChars: nat, ignorePrep: bool)
    ensures Collected(["/* start", "mid", "end */"], C, minChars, ignorePrep, 3) == []
  {
    var lines := ["/* start", "mid", "end */"];
    OpeningLine();
    MiddleLine();
    ClosingLine();
    assert CommentStateAfter(lines, C, 1) == 1;
    assert CommentStateAfter(lines, C, 2) == 1;
    assert RawText(lines, C, 0) == "" && RawText(lines, C, 1) == "" && RawText(lines, C, 2) == "";
    assert !IsSourceLine(CleanLine("", C), C, minChars, ignorePrep) by {
      assert CleanLine("", C) == "";
      assert !HasAlpha(Lower(""));
    }
    assert Collected(lines, C, minChars, ignorePrep, 1) == [];
    assert Collected(lines, C, minChars, ignorePrep, 2) == [];
  }

  /** The first line of the example opens a comment it does not close. */
  lemma OpeningLine()
    ensures StripBlock("/* start", 0, 8) == [] && CounterAfter("/* start", 0, 8) == 1
  {
  }

  /** The middle line of the example, inside the comment, contributes nothing. */
  lemma MiddleLine()
    ensures StripBlock("mid", 1, 3) == [] && CounterAfter("mid", 1, 3) == 1
  {
  }

  /** The last line of the example contributes nothing, its closer included. */
  lemma ClosingLine()
    ensures StripBlock("end */", 1, 6) == []
  {
  }

  /** With minChars 10, "int x;" (whose first token is "int") is dropped. */
  lemma ShortLineDropped(t: FileType, ignorePrep: bool)
    ensures !IsSourceLine("int x;", t, 10, ignorePrep)
  {
    var s := "int x;";
    assert StringUtil.SkipSpace(s, 0) == 0;
    assert StringUtil.SkipToken(s, 0) == 3;
  }

  /**
   * A source file: its name, type, number of raw lines, and the source lines
   * kept from them.
   */
  class SourceFile {
    var fileName: string
    var fileType: FileType
    var linesOfFile: nat
    var sourceLines: seq<SourceLine>

    /** Each raw line gave at most one source line, in order, numbered below the raw line count. */
    ghost predicate Valid()
      reads this
    {
      |sourceLines| <= linesOfFile && Numbered(sourceLines, linesOfFile)
    }

    /** The constructor: strips block comments line by line with one counter, then hands each line to AddToLines. */
    constructor (fileName: string, fileType: FileType, lines: seq<string>, minChars: nat, ignorePrep: bool)
      ensures this.fileName == fileName && this.fileType == fileType
      ensures linesOfFile == |lines|
      ensures sourceLines == Collected(lines, fileType, minChars, ignorePrep, |lines|)
      ensures Valid()
    {
      this.fileName := fileName;
      this.fileType := fileType;
      linesOfFile := |lines|;
      sourceLines := [];
      new;
      var openBlockComments := 0;
      var index := 0;
      while index < |lines|
        invariant index <= |lines|
        invariant this.fileType == fileType && linesOfFile == |lines| && this.fileName == fileName
        invariant openBlockComments == CommentStateAfter(lines, fileType, index)
        invariant sourceLines == Collected(lines, fileType, minChars, ignorePrep, index)
      {
        var tmp := "";
        if IsBraceType(fileType) {
          tmp, openBlockComments := StripBlockComments(lines[index], openBlockComments);
        }
        if fileType.VB? {
          tmp := lines[index];
        }
        AddToLines(tmp, index, minChars, ignorePrep);
        index := index + 1;
      }
      CollectedFaithful(lines, fileType, minChars, ignorePrep, |lines|);
    }

    /** AddToLines: the cleaned text becomes a source line tagged with index when it passes the filter. */
    method AddToLines(tmp: string, index: nat, minChars: nat, ignorePrep: bool)
      modifies this`sourceLines
      ensures sourceLines == old(sourceLines) + LineEntry(tmp, index, fileType, minChars, ignorePrep)
    {
      var cleaned := GetCleanLine(tmp, fileType);
      if IsSourceLine(cleaned, fileType, minChars, ignorePrep) {
        sourceLines := sourceLines + [SourceLine(cleaned, index)];
      }
    }

    /** getNumOfLinesOfCode: never more than the raw line count. */
    function NumOfLinesOfCode(): (r: nat)
      reads this
      requires Valid()
      ensures r <= linesOfFile
    {
      |sourceLines|
    }

    /** getNumOfLinesOfFile. */
    function NumOfLinesOfFile(): nat
      reads this
    {
      linesOfFile
    }
  }
}
