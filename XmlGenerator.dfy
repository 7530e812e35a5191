/**
 * The XML writer's reportSeq (XMLGenerator.cpp): one <set> element per
 * duplicate block, naming both files and start lines, whose <line> entries
 * carry the block's lines of the first file with the characters that would
 * upset an XML parser rewritten by four StrSub calls. The stream is modelled
 * as the sequence of elements written, not their formatted text.
 */
module XmlGenerator {
  import opened StringUtil
  import SourceFiles

  // ---------------------------------------------------------------------
  // The escape chain
  // ---------------------------------------------------------------------

  /** The writer's escape chain: " becomes ', then & becomes &amp;, < becomes &lt; and > becomes &gt;. */
  function XmlEscape(line: string): string
  {
    var quoted := StrSubbed(line, "'", "\"", -1);
    var amped := StrSubbed(quoted, "&amp;", "&", -1);
    var lessened := StrSubbed(amped, "&lt;", "<", -1);
    StrSubbed(lessened, "&gt;", ">", -1)
  }

  /** The reference definition: what each character of a line is written as. */
  function EscapeChar(c: char): string
  {
    if c == '"' then "'"
    else if c == '&' then "&amp;"
    else if c == '<' then "&lt;"
    else if c == '>' then "&gt;"
    else [c]
  }

  function EscapeChars(s: string): string
  {
    if s == [] then [] else EscapeChar(s[0]) + EscapeChars(s[1..])
  }

  /** The four replacements one after the other, each over the whole string. */
  function Chain(s: string): string
  {
    ReplaceChar(ReplaceChar(ReplaceChar(ReplaceChar(s, '"', "'"), '&', "&amp;"), '<', "&lt;"), '>', "&gt;")
  }

  lemma ReplaceCharSingle(c: char, d: char, sub: string)
    ensures ReplaceChar([c], d, sub) == if c == d then sub else [c]
  {
    assert [c][1..] == [];
  }

  lemma ReplaceCharNonEmpty(s: string, c: char, sub: string)
    requires s != [] && sub != []
    ensures ReplaceChar(s, c, sub) != []
  {
  }

  lemma ChainAppend(a: string, b: string)
    ensures Chain(a + b) == Chain(a) + Chain(b)
  {
    ReplaceCharAppend(a, b, '"', "'");
    var a1, b1 := ReplaceChar(a, '"', "'"), ReplaceChar(b, '"', "'");
    ReplaceCharAppend(a1, b1, '&', "&amp;");
    var a2, b2 := ReplaceChar(a1, '&', "&amp;"), ReplaceChar(b1, '&', "&amp;");
    ReplaceCharAppend(a2, b2, '<', "&lt;");
    var a3, b3 := ReplaceChar(a2, '<', "&lt;"), ReplaceChar(b2, '<', "&lt;");
    ReplaceCharAppend(a3, b3, '>', "&gt;");
  }

  /** The three replacements after the first leave a character they do not rewrite alone. */
  lemma ChainTail(c: char)
    requires c != '&' && c != '<' && c != '>'
    ensures ReplaceChar(ReplaceChar(ReplaceChar([c], '&', "&amp;"), '<', "&lt;"), '>', "&gt;") == [c]
  {
    ReplaceCharSingle(c, '&', "&amp;");
    ReplaceCharSingle(c, '<', "&lt;");
    ReplaceCharSingle(c, '>', "&gt;");
  }

  lemma ChainAmp()
    ensures ReplaceChar(ReplaceChar(ReplaceChar("&", '&', "&amp;"), '<', "&lt;"), '>', "&gt;") == "&amp;"
  {
    ReplaceCharSingle('&', '&', "&amp;");
    TailKeeps("&amp;");
  }

  /** The last two replacements leave a string without '<' and '>' as it is. */
  lemma TailKeeps(s: string)
    requires '<' !in s && '>' !in s
    ensures ReplaceChar(ReplaceChar(s, '<', "&lt;"), '>', "&gt;") == s
  {
    ReplaceCharAbsent(s, '<', "&lt;");
    ReplaceCharAbsent(s, '>', "&gt;");
  }

  lemma ChainLt()
    ensures ReplaceChar(ReplaceChar(ReplaceChar("<", '&', "&amp;"), '<', "&lt;"), '>', "&gt;") == "&lt;"
  {
    ReplaceCharSingle('<', '&', "&amp;");
    ReplaceCharSingle('<', '<', "&lt;");
    ReplaceCharAbsent("&lt;", '>', "&gt;");
  }

  lemma ChainGt()
    ensures ReplaceChar(ReplaceChar(ReplaceChar(">", '&', "&amp;"), '<', "&lt;"), '>', "&gt;") == "&gt;"
  {
    ReplaceCharSingle('>', '&', "&amp;");
    ReplaceCharSingle('>', '<', "&lt;");
    ReplaceCharSingle('>', '>', "&gt;");
  }

  lemma ChainChar(c: char)
    ensures Chain([c]) == EscapeChar(c)
  {
    ReplaceCharSingle(c, '"', "'");
    if c == '"' {
      ChainTail('\'');
    } else if c == '&' {
      ChainAmp();
    } else if c == '<' {
      ChainLt();
    } else if c == '>' {
      ChainGt();
    } else {
      ChainTail(c);
    }
  }

  lemma {:induction false} ChainIsEscapeChars(s: string)
    ensures Chain(s) == EscapeChars(s)
  {
    if s == [] {
      assert Chain(s) == [];
    } else {
      assert s == [s[0]] + s[1..];
      ChainAppend([s[0]], s[1..]);
      ChainChar(s[0]);
      ChainIsEscapeChars(s[1..]);
    }
  }

  /** On any non-empty line the chain of StrSub calls is the per-character escape. */
  lemma XmlEscapeIsEscapeChars(s: string)
    requires s != []
    ensures XmlEscape(s) == EscapeChars(s)
  {
    StrSubAllIsReplaceChar(s, "'", '"');
    var s1 := ReplaceChar(s, '"', "'");
    ReplaceCharNonEmpty(s, '"', "'");
    StrSubAllIsReplaceChar(s1, "&amp;", '&');
    var s2 := ReplaceChar(s1, '&', "&amp;");
    ReplaceCharNonEmpty(s1, '&', "&amp;");
    StrSubAllIsReplaceChar(s2, "&lt;", '<');
    var s3 := ReplaceChar(s2, '<', "&lt;");
    ReplaceCharNonEmpty(s2, '<', "&lt;");
    StrSubAllIsReplaceChar(s3, "&gt;", '>');
    ChainIsEscapeChars(s);
  }

  lemma OtherCharAbsent(c: char, d: char)
    requires c != d
    ensures !Contains([c], [d])
  {
    ContainsMeansOccurs([c], [d]);
    forall p: nat ensures !OccursAt([c], [d], p) {
      if p + 1 <= 1 {
        assert [c][p..p + 1] == [c];
      }
    }
  }

  /** An empty line is written as a single apostrophe: StrSub turns an empty string into its replacement. */
  lemma EmptyLineBecomesApostrophe()
    ensures XmlEscape("") == "'"
  {
    OtherCharAbsent('\'', '&');
    OtherCharAbsent('\'', '<');
    OtherCharAbsent('\'', '>');
    StrSubNoMatch("'", "&amp;", "&", -1);
    StrSubNoMatch("'", "&lt;", "<", -1);
    StrSubNoMatch("'", "&gt;", ">", -1);
  }

  // ---------------------------------------------------------------------
  // What the escaped text looks like
  // ---------------------------------------------------------------------

  /** None of the characters the chain rewrites. */
  predicate Plain(s: string)
  {
    forall i :: 0 <= i < |s| ==> s[i] != '"' && s[i] != '&' && s[i] != '<' && s[i] != '>'
  }

  /** An entity the chain writes starts at position i of r. */
  predicate EntityAt(r: string, i: nat)
  {
    OccursAt(r, "&amp;", i) || OccursAt(r, "&lt;", i) || OccursAt(r, "&gt;", i)
  }

  /** The escaped text has no double quote and no angle bracket. */
  lemma {:induction false} EscapedHasNoMarkup(s: string)
    ensures forall i :: 0 <= i < |EscapeChars(s)| ==> EscapeChars(s)[i] != '"' && EscapeChars(s)[i] != '<' && EscapeChars(s)[i] != '>'
  {
    if s != [] {
      EscapedHasNoMarkup(s[1..]);
      var e, rest := EscapeChar(s[0]), EscapeChars(s[1..]);
      assert forall i :: 0 <= i < |e| ==> e[i] != '"' && e[i] != '<' && e[i] != '>';
      forall i | 0 <= i < |e + rest| ensures (e + rest)[i] != '"' && (e + rest)[i] != '<' && (e + rest)[i] != '>' {
        if i >= |e| {
          assert (e + rest)[i] == rest[i - |e|];
        }
      }
    }
  }

  lemma OccursShift(e: string, rest: string, pat: string, j: nat)
    requires OccursAt(rest, pat, j)
    ensures OccursAt(e + rest, pat, |e| + j)
  {
    assert (e + rest)[|e| + j..|e| + j + |pat|] == rest[j..j + |pat|];
  }

  /** Every & of the escaped text begins one of the three entities, because & is rewritten before < and >. */
  lemma {:induction false} AmpersandsStartEntities(s: string)
    ensures forall i :: 0 <= i < |EscapeChars(s)| && EscapeChars(s)[i] == '&' ==> EntityAt(EscapeChars(s), i)
  {
    if s != [] {
      AmpersandsStartEntities(s[1..]);
      var e, rest := EscapeChar(s[0]), EscapeChars(s[1..]);
      var r := e + rest;
      assert r == EscapeChars(s);
      forall i | 0 <= i < |r| && r[i] == '&' ensures EntityAt(r, i) {
        if i < |e| {
          assert r[..|e|] == e;
          assert i == 0 && (e == "&amp;" || e == "&lt;" || e == "&gt;");
          assert r[0..|e|] == e;
        } else {
          assert rest[i - |e|] == r[i];
          var j := i - |e|;
          if OccursAt(rest, "&amp;", j) {
            OccursShift(e, rest, "&amp;", j);
          } else if OccursAt(rest, "&lt;", j) {
            OccursShift(e, rest, "&lt;", j);
          } else {
            OccursShift(e, rest, "&gt;", j);
          }
        }
      }
    }
  }

  /** A line with none of the rewritten characters is written as it is. */
  lemma {:induction false} PlainUnchanged(s: string)
    requires Plain(s)
    ensures EscapeChars(s) == s
  {
    if s != [] {
      assert Plain(s[1..]) by {
        assert forall i :: 0 <= i < |s[1..]| ==> s[1..][i] == s[i + 1];
      }
      PlainUnchanged(s[1..]);
      assert s == [s[0]] + s[1..];
    }
  }

  // ---------------------------------------------------------------------
  // Reading the text back
  // ---------------------------------------------------------------------

  /** What an XML reader makes of the text: the three entities decoded, everything else kept. */
  function Unescape(r: string): string
    decreases |r|
  {
    if r == [] then []
    else if OccursAt(r, "&amp;", 0) then "&" + Unescape(r[5..])
    else if OccursAt(r, "&lt;", 0) then "<" + Unescape(r[4..])
    else if OccursAt(r, "&gt;", 0) then ">" + Unescape(r[4..])
    else [r[0]] + Unescape(r[1..])
  }

  lemma UnescapeAmp(rest: string)
    ensures Unescape("&amp;" + rest) == "&" + Unescape(rest)
  {
    var r := "&amp;" + rest;
    assert r[0..5] == "&amp;" && r[5..] == rest;
  }

  lemma UnescapeLt(rest: string)
    ensures Unescape("&lt;" + rest) == "<" + Unescape(rest)
  {
    var r := "&lt;" + rest;
    assert r[1] == 'l' && r[0..4] == "&lt;" && r[4..] == rest;
  }

  lemma UnescapeGt(rest: string)
    ensures Unescape("&gt;" + rest) == ">" + Unescape(rest)
  {
    var r := "&gt;" + rest;
    assert r[1] == 'g' && r[0..4] == "&gt;" && r[4..] == rest;
  }

  lemma UnescapeOther(c: char, rest: string)
    requires c != '&'
    ensures Unescape([c] + rest) == [c] + Unescape(rest)
  {
    var r := [c] + rest;
    assert r[0] == c && r[1..] == rest;
  }

  lemma UnescapeStep(c: char, rest: string)
    ensures Unescape(EscapeChar(c) + rest) == (if c == '"' then "'" else [c]) + Unescape(rest)
  {
    if c == '&' {
      UnescapeAmp(rest);
    } else if c == '<' {
      UnescapeLt(rest);
    } else if c == '>' {
      UnescapeGt(rest);
    } else if c == '"' {
      UnescapeOther('\'', rest);
    } else {
      UnescapeOther(c, rest);
    }
  }

  /** Round trip: reading the escaped text back gives the line with its double quotes turned into apostrophes. */
  lemma {:induction false} UnescapeEscapeChars(s: string)
    ensures Unescape(EscapeChars(s)) == ReplaceChar(s, '"', "'")
  {
    if s != [] {
      UnescapeStep(s[0], EscapeChars(s[1..]));
      UnescapeEscapeChars(s[1..]);
    }
  }

  /** A non-empty line without double quotes is read back exactly as it was. */
  lemma XmlEscapeRoundTrip(s: string)
    requires s != [] && '"' !in s
    ensures Unescape(XmlEscape(s)) == s
  {
    XmlEscapeIsEscapeChars(s);
    UnescapeEscapeChars(s);
    ReplaceCharAbsent(s, '"', "'");
  }

  // ---------------------------------------------------------------------
  // The writer
  // ---------------------------------------------------------------------

  /** The elements reportSeq writes, in the order it writes them. */
  datatype XmlItem =
    | SetOpen(lineCount: int)
    | BlockRef(sourceFile: string, startLineNumber: nat)
    | LinesOpen
    | Line(text: string)
    | LinesClose
    | SetClose

  /** The <line> entries for count lines of a file starting at index from: each one's escaped text, in order. */
  function LineItems(lines: seq<SourceFiles.SourceLine>, from: nat, count: nat): (r: seq<XmlItem>)
    requires from + count <= |lines|
    ensures |r| == count
    ensures forall j :: 0 <= j < count ==> r[j] == Line(XmlEscape(lines[from + j].text))
  {
    if count == 0 then [] else LineItems(lines, from, count - 1) + [Line(XmlEscape(lines[from + count - 1].text))]
  }

  /** The four unbounded substitutions reportSeq applies to each line, in order. */
  method EscapeLine(text: string) returns (tmpstr: string)
    ensures tmpstr == XmlEscape(text)
  {
    tmpstr := StrSub(text, "'", "\"", -1);
    tmpstr := StrSub(tmpstr, "&amp;", "&", -1);
    tmpstr := StrSub(tmpstr, "&lt;", "<", -1);
    tmpstr := StrSub(tmpstr, "&gt;", ">", -1);
  }

  /** One more line entry after the first count. */
  lemma LineItemsNext(head: seq<XmlItem>, lines: seq<SourceFiles.SourceLine>, from: nat, count: nat)
    requires from + count < |lines|
    ensures head + LineItems(lines, from, count) + [Line(XmlEscape(lines[from + count].text))]
            == head + LineItems(lines, from, count + 1)
  {
    var items := LineItems(lines, from, count);
    var next := [Line(XmlEscape(lines[from + count].text))];
    assert LineItems(lines, from, count + 1) == items + next;
    assert head + items + next == head + (items + next);
  }

  /** Every line of a set reads back as the source line, double quotes turned into apostrophes. */
  lemma LineItemsReadBack(lines: seq<SourceFiles.SourceLine>, from: nat, count: nat)
    requires from + count <= |lines|
    requires forall j :: from <= j < from + count ==> lines[j].text != []
    ensures forall j :: 0 <= j < count ==>
              var item := LineItems(lines, from, count)[j];
              item.Line? && Unescape(item.text) == ReplaceChar(lines[from + j].text, '"', "'")
  {
    forall k | from <= k < from + count
      ensures Unescape(XmlEscape(lines[k].text)) == ReplaceChar(lines[k].text, '"', "'")
    {
      XmlEscapeIsEscapeChars(lines[k].text);
      UnescapeEscapeChars(lines[k].text);
    }
  }

  class XmlGenerator {
    /** Everything written to the output stream so far. */
    var written: seq<XmlItem>

    constructor ()
      ensures written == []
    {
      written := [];
    }

    /**
     * reportSeq: one set whose LineCount is count, the two files with the
     * line numbers of the block's first lines, then count line entries
     * taken from src1 starting at line1.
     */
    method ReportSeq(line1: int, line2: int, count: int, src1: SourceFiles.SourceFile, src2: SourceFiles.SourceFile)
      requires 0 <= line1 < |src1.sourceLines| && 0 <= line2 < |src2.sourceLines|
      requires count <= 0 || line1 + count <= |src1.sourceLines|
      modifies this
      ensures written == old(written)
                + [SetOpen(count), BlockRef(src1.fileName, src1.sourceLines[line1].lineNumber),
                   BlockRef(src2.fileName, src2.sourceLines[line2].lineNumber), LinesOpen]
                + LineItems(src1.sourceLines, line1, if count < 0 then 0 else count)
                + [LinesClose, SetClose]
    {
      written := written + [SetOpen(count), BlockRef(src1.fileName, src1.sourceLines[line1].lineNumber),
                            BlockRef(src2.fileName, src2.sourceLines[line2].lineNumber), LinesOpen];
      ghost var head := written;
      ghost var n: nat := if count < 0 then 0 else count;
      var lines := src1.sourceLines;
      var j := 0;
      while j < count
        invariant 0 <= j <= n
        invariant written == head + LineItems(lines, line1, j)
      {
        var tmpstr := EscapeLine(lines[line1 + j].text);
        written := written + [Line(tmpstr)];
        LineItemsNext(head, lines, line1, j);
        j := j + 1;
      }
      written := written + [LinesClose, SetClose];
    }
  }
}
