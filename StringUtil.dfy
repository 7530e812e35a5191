/**
 * The string helpers of StringUtil.cpp: trim (which is really "first
 * whitespace-delimited token"), split, substitute and StrSub, together with
 * the std::string operations they rely on (find, rfind).
 */
module StringUtil {

  datatype Option<T> = None | Some(value: T)

  // ---------------------------------------------------------------------
  // std::string primitives
  // ---------------------------------------------------------------------

  /** The characters the C locale's isspace accepts; a stringstream skips and stops at these. */
  predicate IsSpace(c: char)
  {
    c == ' ' || c == '\t' || c == '\n' || c == '\r' || c == '\U{0B}' || c == '\U{0C}'
  }

  /** pat occurs in s starting at position p. */
  predicate OccursAt(s: string, pat: string, p: nat)
  {
    p + |pat| <= |s| && s[p..p + |pat|] == pat
  }


  /**
   * std::string::find(pat, from): the first position at or after `from`
   * where pat occurs, or None (npos). A start beyond the end finds nothing,
   * an empty pattern is found at `from` itself when from <= |s|.
   */
  function Find(s: string, pat: string, from: nat): Option<nat>
    decreases |s| - from
  {
    if from + |pat| > |s| then None
    else if s[from..from + |pat|] == pat then Some(from)
    else Find(s, pat, from + 1)
  }

  /** Find returns the first occurrence at or after `from`, and None only when there is none. */
  lemma {:induction false} FindIsFirst(s: string, pat: string, from: nat)
    ensures var r := Find(s, pat, from);
      && (r.Some? ==> from <= r.value && OccursAt(s, pat, r.value))
      && (r.Some? ==> forall q: nat :: from <= q < r.value ==> !OccursAt(s, pat, q))
      && (r.None? ==> forall q: nat :: from <= q ==> !OccursAt(s, pat, q))
    decreases |s| - from
  {
    if from + |pat| <= |s| && s[from..from + |pat|] != pat {
      FindIsFirst(s, pat, from + 1);
    }
  }

  /** s contains pat: std::string::find(pat, 0) != npos. */
  predicate Contains(s: string, pat: string)
  {
    Find(s, pat, 0).Some?
  }

  /** Contains means that the pattern occurs at some position. */
  lemma ContainsMeansOccurs(s: string, pat: string)
    ensures Contains(s, pat) <==> exists p: nat :: OccursAt(s, pat, p)
  {
    FindIsFirst(s, pat, 0);
  }

  /** std::string::rfind(c): the last position holding c, or None. */
  function LastIndexOf(s: string, c: char): (r: Option<nat>)
    ensures r.Some? ==> r.value < |s| && s[r.value] == c
    ensures r.Some? ==> forall k :: r.value < k < |s| ==> s[k] != c
    ensures r.None? ==> c !in s
  {
    if s == [] then None
    else if s[|s| - 1] == c then Some(|s| - 1)
    else LastIndexOf(s[..|s| - 1], c)
  }

  // ---------------------------------------------------------------------
  // trim (StringUtil.cpp:27-38)
  // ---------------------------------------------------------------------

  /** The first position at or after i that is not whitespace, or |s|. */
  function SkipSpace(s: string, i: nat): (j: nat)
    requires i <= |s|
    ensures i <= j <= |s|
    ensures forall k :: i <= k < j ==> IsSpace(s[k])
    ensures j < |s| ==> !IsSpace(s[j])
    decreases |s| - i
  {
    if i == |s| || !IsSpace(s[i]) then i else SkipSpace(s, i + 1)
  }

  /** The first position at or after i that is whitespace, or |s|. */
  function SkipToken(s: string, i: nat): (j: nat)
    requires i <= |s|
    ensures i <= j <= |s|
    ensures forall k :: i <= k < j ==> !IsSpace(s[k])
    ensures j < |s| ==> IsSpace(s[j])
    decreases |s| - i
  {
    if i == |s| || IsSpace(s[i]) then i else SkipToken(s, i + 1)
  }

  /**
   * trim: the source streams the input into a stringstream and reads one
   * string back, so the result is the first whitespace-delimited token of
   * the input (empty when the input is all whitespace), not the input with
   * its ends trimmed.
   */
  function Trim(input: string): (r: string)
    ensures forall k :: 0 <= k < |r| ==> !IsSpace(r[k])
    ensures r == [] <==> forall k :: 0 <= k < |input| ==> IsSpace(input[k])
  {
    var i := SkipSpace(input, 0);
    input[i..SkipToken(input, i)]
  }

  /** r is the first token of s: it follows only whitespace and is followed by whitespace or the end. */
  ghost predicate IsFirstToken(s: string, r: string)
  {
    exists i :: TokenAt(s, r, i)
  }

  /** r stands at position i of s, after nothing but whitespace and before whitespace or the end. */
  ghost predicate TokenAt(s: string, r: string, i: int)
  {
    && 0 <= i <= |s| - |r|
    && s[i..i + |r|] == r
    && (forall k :: 0 <= k < i ==> IsSpace(s[k]))
    && (i + |r| < |s| ==> IsSpace(s[i + |r|]))
    && (r == [] ==> i == |s|)
  }

  lemma TrimIsFirstToken(input: string)
    ensures IsFirstToken(input, Trim(input))
  {
    var i := SkipSpace(input, 0);
    var j := SkipToken(input, i);
    assert TokenAt(input, Trim(input), i);
  }

  lemma {:induction false} SkipSpaceNone(s: string, i: nat)
    requires i <= |s|
    requires forall k :: 0 <= k < |s| ==> !IsSpace(s[k])
    ensures SkipSpace(s, i) == i
  {
  }

  lemma {:induction false} SkipTokenAll(s: string, i: nat)
    requires i <= |s|
    requires forall k :: 0 <= k < |s| ==> !IsSpace(s[k])
    ensures SkipToken(s, i) == |s|
    decreases |s| - i
  {
    if i < |s| {
      SkipTokenAll(s, i + 1);
    }
  }

  /** Trimming an already trimmed string changes nothing. */
  lemma TrimIdempotent(s: string)
    ensures Trim(Trim(s)) == Trim(s)
  {
    var t := Trim(s);
    SkipSpaceNone(t, 0);
    SkipTokenAll(t, 0);
  }

  // ---------------------------------------------------------------------
  // split (StringUtil.cpp:50-99)
  // ---------------------------------------------------------------------

  /**
   * The positions split's search loop collects, starting its search at
   * `from`: each next search starts one delimiter length after the last
   * find, so the positions never overlap.
   */
  function Occurrences(input: string, delimiter: string, from: nat): seq<nat>
    requires |delimiter| > 0
    decreases |input| + 1 - from
  {
    FindIsFirst(input, delimiter, from);
    match Find(input, delimiter, from)
    case None => []
    case Some(p) => [p] + Occurrences(input, delimiter, p + |delimiter|)
  }

  /** Every position of ps is an occurrence at or after `from`, and consecutive ones do not overlap. */
  ghost predicate PositionsOk(input: string, delimiter: string, from: nat, ps: seq<nat>)
  {
    && (forall k :: 0 <= k < |ps| ==> from <= ps[k] && OccursAt(input, delimiter, ps[k]))
    && (forall k :: 0 < k < |ps| ==> ps[k - 1] + |delimiter| <= ps[k])
  }

  /** The positions split's search collects are occurrences, in order and without overlap. */
  lemma {:induction false} OccurrencesFacts(input: string, delimiter: string, from: nat)
    requires |delimiter| > 0
    ensures PositionsOk(input, delimiter, from, Occurrences(input, delimiter, from))
    decreases |input| + 1 - from
  {
    match Find(input, delimiter, from)
    case None =>
      OccurrencesNone(input, delimiter, from);
    case Some(p) =>
      FoundOccurs(input, delimiter, from, p);
      OccurrencesFacts(input, delimiter, p + |delimiter|);
      OccurrencesCons(input, delimiter, from, p);
  }

  /** Nothing is collected, soundly, once the search fails. */
  lemma OccurrencesNone(input: string, delimiter: string, from: nat)
    requires |delimiter| > 0 && Find(input, delimiter, from).None?
    ensures PositionsOk(input, delimiter, from, Occurrences(input, delimiter, from))
  {
    OccurrencesStep(input, delimiter, from);
  }

  /** The positions collected from `from` are sound when those collected after its first find are. */
  lemma OccurrencesCons(input: string, delimiter: string, from: nat, p: nat)
    requires |delimiter| > 0 && Find(input, delimiter, from) == Some(p)
    ensures PositionsOk(input, delimiter, p + |delimiter|, Occurrences(input, delimiter, p + |delimiter|)) ==>
      PositionsOk(input, delimiter, from, Occurrences(input, delimiter, from))
  {
    OccurrencesStep(input, delimiter, from);
    FoundOccurs(input, delimiter, from, p);
    PositionsCons(input, delimiter, from, p, Occurrences(input, delimiter, p + |delimiter|));
  }

  /** An occurrence at p in front of positions collected from p + |delimiter| on. */
  lemma PositionsCons(input: string, delimiter: string, from: nat, p: nat, rest: seq<nat>)
    requires from <= p && OccursAt(input, delimiter, p)
    ensures PositionsOk(input, delimiter, p + |delimiter|, rest) ==> PositionsOk(input, delimiter, from, [p] + rest)
  {
    if PositionsOk(input, delimiter, p + |delimiter|, rest) {
      PositionsConsOk(input, delimiter, from, p, rest);
    }
  }

  lemma PositionsConsOk(input: string, delimiter: string, from: nat, p: nat, rest: seq<nat>)
    requires from <= p && OccursAt(input, delimiter, p)
    requires PositionsOk(input, delimiter, p + |delimiter|, rest)
    ensures PositionsOk(input, delimiter, from, [p] + rest)
  {
    var ps := [p] + rest;
    forall k | 0 <= k < |ps|
      ensures from <= ps[k] && OccursAt(input, delimiter, ps[k])
    {
      if k > 0 {
        assert ps[k] == rest[k - 1];
      }
    }
    forall k | 0 < k < |ps|
      ensures ps[k - 1] + |delimiter| <= ps[k]
    {
      if k > 1 {
        assert ps[k - 1] == rest[k - 2] && ps[k] == rest[k - 1];
      }
    }
  }

  /** One step of the search loop: a find either ends the list or heads it. */
  lemma OccurrencesStep(input: string, delimiter: string, from: nat)
    requires |delimiter| > 0
    ensures Find(input, delimiter, from).None? ==> Occurrences(input, delimiter, from) == []
    ensures Find(input, delimiter, from).Some? ==>
      var p := Find(input, delimiter, from).value;
      && from <= p && p + |delimiter| <= |input|
      && Occurrences(input, delimiter, from) == [p] + Occurrences(input, delimiter, p + |delimiter|)
  {
    if Find(input, delimiter, from).Some? {
      FoundOccurs(input, delimiter, from, Find(input, delimiter, from).value);
    }
  }

  /** A search that finds p heads the list of positions with p, and the rest comes from after the match. */
  lemma OccurrencesFound(input: string, delimiter: string, from: nat, p: nat)
    requires |delimiter| > 0 && Find(input, delimiter, from) == Some(p)
    ensures from <= p && p + |delimiter| <= |input|
    ensures Occurrences(input, delimiter, from) == [p] + Occurrences(input, delimiter, p + |delimiter|)
  {
    FoundOccurs(input, delimiter, from, p);
  }

  /**
   * The state of split's search loop: the positions collected so far, then
   * those the searches from pos + |delimiter| on will find, make up the
   * marker list without its end marker; pos is -1 once a search has failed.
   */
  ghost predicate Collecting(input: string, delimiter: string, positions: seq<int>, pos: int)
    requires |delimiter| > 0
  {
    if pos == -1 then positions == [-|delimiter|] + Occurrences(input, delimiter, |delimiter|)
    else (0 <= pos <= |input| &&
          positions + Occurrences(input, delimiter, pos + |delimiter|) == [-|delimiter|] + Occurrences(input, delimiter, |delimiter|))
  }

  /** A search of the loop that finds a position moves it to those collected; it lies further on. */
  lemma CollectingFound(input: string, delimiter: string, positions: seq<int>, pos: int, p: nat)
    requires |delimiter| > 0 && pos != -1 && Collecting(input, delimiter, positions, pos)
    requires Find(input, delimiter, pos + |delimiter|) == Some(p)
    ensures pos < p <= |input| && Collecting(input, delimiter, positions + [p], p)
  {
    var from := pos + |delimiter|;
    OccurrencesFound(input, delimiter, from, p);
    assert positions + Occurrences(input, delimiter, from) == (positions + [p]) + Occurrences(input, delimiter, p + |delimiter|);
  }

  /** A search of the loop that fails ends it with every position collected. */
  lemma CollectingDone(input: string, delimiter: string, positions: seq<int>, pos: int)
    requires |delimiter| > 0 && pos != -1 && Collecting(input, delimiter, positions, pos)
    requires Find(input, delimiter, pos + |delimiter|).None?
    ensures Collecting(input, delimiter, positions, -1)
  {
    var from := pos + |delimiter|;
    assert Occurrences(input, delimiter, from) == [];
    assert positions + [] == positions;
  }

  /** The marker list split builds: -|delimiter|, the positions found from |delimiter| on, and |input|. */
  function Markers(input: string, delimiter: string): (ms: seq<int>)
    requires |delimiter| > 0
  {
    [-|delimiter|] + Occurrences(input, delimiter, |delimiter|) + [|input|]
  }

  /** The pieces between consecutive markers (StringUtil.cpp:84-92). */
  function Pieces(input: string, delimiter: string): (r: seq<string>)
    requires |delimiter| > 0
    ensures |r| == |Markers(input, delimiter)| - 1
  {
    var ms := Markers(input, delimiter);
    MarkersWellFormed(input, delimiter);
    seq(|ms| - 1, i requires 0 <= i < |ms| - 1 =>
      assert PieceBounds(ms, i, |delimiter|, |input|);
      input[ms[i] + |delimiter|..ms[i + 1]])
  }

  /** Consecutive markers are at least d apart, and each piece between them lies within [0, n). */
  ghost predicate MarkersSpaced(ms: seq<int>, d: nat, n: nat)
  {
    && 2 <= |ms| && ms[0] == -(d as int) && ms[|ms| - 1] == n
    && (forall i :: 0 <= i < |ms| - 1 ==> PieceBounds(ms, i, d, n))
  }

  /** The piece after marker i starts at or after 0 and ends at or before n. */
  ghost predicate PieceBounds(ms: seq<int>, i: nat, d: nat, n: nat)
    requires i < |ms| - 1
  {
    0 <= ms[i] + d <= ms[i + 1] <= n
  }

  /** Consecutive markers are at least one delimiter apart and all lie within the input. */
  lemma MarkersWellFormed(input: string, delimiter: string)
    requires |delimiter| > 0
    ensures MarkersSpaced(Markers(input, delimiter), |delimiter|, |input|)
  {
    var os := Occurrences(input, delimiter, |delimiter|);
    var ms := Markers(input, delimiter);
    OccurrencesFacts(input, delimiter, |delimiter|);
    assert PositionsOk(input, delimiter, |delimiter|, os);
    forall i | 0 <= i < |ms| - 1
      ensures PieceBounds(ms, i, |delimiter|, |input|)
    {
      if 0 < i {
        assert ms[i] == os[i - 1];
        assert OccursAt(input, delimiter, os[i - 1]);
      }
      if i + 1 < |ms| - 1 {
        assert ms[i + 1] == os[i];
        assert OccursAt(input, delimiter, os[i]);
      }
    }
  }

  /** The pieces joined back together with the delimiter between them. */
  function Join(pieces: seq<string>, delimiter: string): string
  {
    if |pieces| == 0 then []
    else if |pieces| == 1 then pieces[0]
    else Join(pieces[..|pieces| - 1], delimiter) + delimiter + pieces[|pieces| - 1]
  }

  /**
   * Joining the first k pieces gives the input up to the k-th marker: the
   * text between pieces is exactly a delimiter because every inner marker is
   * an occurrence.
   */
  lemma {:induction false} JoinPrefix(input: string, delimiter: string, k: nat)
    requires |delimiter| > 0
    requires 1 <= k <= |Pieces(input, delimiter)|
    ensures 0 <= Markers(input, delimiter)[k] <= |input|
    ensures Join(Pieces(input, delimiter)[..k], delimiter) == input[..Markers(input, delimiter)[k]]
  {
    MarkersWellFormed(input, delimiter);
    var ps := Pieces(input, delimiter);
    var ms := Markers(input, delimiter);
    assert PieceBounds(ms, k - 1, |delimiter|, |input|);
    assert ps[k - 1] == input[ms[k - 1] + |delimiter|..ms[k]];
    if k == 1 {
      assert ps[..1] == [ps[0]];
    } else {
      JoinPrefix(input, delimiter, k - 1);
      assert ps[..k][..k - 1] == ps[..k - 1];
      MarkerIsOccurrence(input, delimiter, k - 1);
      JoinStep(input, delimiter, ms[k - 1], ms[k]);
    }
  }

  /** Every marker strictly between the first and the last is an occurrence of the delimiter. */
  lemma MarkerIsOccurrence(input: string, delimiter: string, i: nat)
    requires |delimiter| > 0
    requires 0 < i < |Markers(input, delimiter)| - 1
    ensures 0 <= Markers(input, delimiter)[i] && OccursAt(input, delimiter, Markers(input, delimiter)[i])
  {
    var os := Occurrences(input, delimiter, |delimiter|);
    OccurrencesFacts(input, delimiter, |delimiter|);
    assert PositionsOk(input, delimiter, |delimiter|, os);
    assert Markers(input, delimiter)[i] == os[i - 1];
  }

  /** The text up to an occurrence at a, the delimiter, and the text after it up to m make up input[..m]. */
  lemma JoinStep(input: string, delimiter: string, a: int, m: int)
    requires 0 <= a && OccursAt(input, delimiter, a) && a + |delimiter| <= m <= |input|
    ensures input[..a] + delimiter + input[a + |delimiter|..m] == input[..m]
  {
    assert input[..a] + input[a..a + |delimiter|] == input[..a + |delimiter|];
    assert input[..a + |delimiter|] + input[a + |delimiter|..m] == input[..m];
  }

  /** split without trimming loses nothing: its pieces joined with the delimiter give back the input. */
  lemma JoinPieces(input: string, delimiter: string)
    requires |delimiter| > 0
    ensures Join(Pieces(input, delimiter), delimiter) == input
  {
    var ps := Pieces(input, delimiter);
    MarkersWellFormed(input, delimiter);
    JoinPrefix(input, delimiter, |ps|);
    assert ps[..|ps|] == ps;
  }

  /** The pieces as split appends them: trimmed when doTrim is set. */
  function Appended(pieces: seq<string>, doTrim: bool): (r: seq<string>)
    ensures |r| == |pieces|
    ensures forall i :: 0 <= i < |pieces| ==> r[i] == if doTrim then Trim(pieces[i]) else pieces[i]
  {
    if doTrim then seq(|pieces|, i requires 0 <= i < |pieces| => Trim(pieces[i])) else pieces
  }

  /**
   * split: appends the pieces of input between occurrences of delimiter to
   * results and returns how many it appended; when the delimiter does not
   * occur at all, it appends the whole input (or its trim) and returns 0.
   * A non-empty delimiter is required: with an empty one the search loop
   * of the source never ends.
   */
  method Split(input: string, delimiter: string, results: seq<string>, doTrim: bool)
    returns (newResults: seq<string>, numFound: int)
    requires |delimiter| > 0
    ensures |results| <= |newResults| && newResults[..|results|] == results
    ensures !Contains(input, delimiter) ==>
      numFound == 0 && newResults == results + [if doTrim then Trim(input) else input]
    ensures Contains(input, delimiter) ==>
      numFound == |Pieces(input, delimiter)| && newResults == results + Appended(Pieces(input, delimiter), doTrim)
  {
    var newPos := Find(input, delimiter, 0);
    if newPos.None? {
      if doTrim {
        newResults := results + [Trim(input)];
      } else {
        newResults := results + [input];
      }
      return newResults, 0;
    }
    var positions;
    positions, numFound := SearchMarkers(input, delimiter);
    newResults := AppendPieces(input, delimiter, positions, results, doTrim);
  }

  /**
   * The first loop of split: the marker -|delimiter|, every position the
   * repeated find reports, and the marker |input|; numFound counts the
   * finds including the last, failing one.
   */
  method SearchMarkers(input: string, delimiter: string) returns (positions: seq<int>, numFound: int)
    requires |delimiter| > 0
    ensures positions == Markers(input, delimiter)
    ensures numFound == |positions| - 1
  {
    var sizeDelim := |delimiter|;
    numFound := 0;
    positions := [-sizeDelim];
    var pos: int := 0;
    while pos != -1
      invariant Collecting(input, delimiter, positions, pos)
      invariant numFound == |positions| - (if pos == -1 then 0 else 1)
      decreases if pos == -1 then 0 else |input| + 2 - pos
    {
      numFound := numFound + 1;
      var found := Find(input, delimiter, pos + sizeDelim);
      if found.Some? {
        CollectingFound(input, delimiter, positions, pos, found.value);
        positions, pos := positions + [found.value], found.value;
      } else {
        CollectingDone(input, delimiter, positions, pos);
        pos := -1;
      }
    }
    assert positions == [-sizeDelim] + Occurrences(input, delimiter, sizeDelim);
    positions := positions + [|input|];
  }

  /** The second loop of split: cut the input between consecutive markers and append each piece. */
  method AppendPieces(input: string, delimiter: string, positions: seq<int>, results: seq<string>, doTrim: bool)
    returns (newResults: seq<string>)
    requires |delimiter| > 0 && positions == Markers(input, delimiter)
    ensures newResults == results + Appended(Pieces(input, delimiter), doTrim)
  {
    var sizeDelim := |delimiter|;
    MarkersWellFormed(input, delimiter);
    ghost var pieces := Pieces(input, delimiter);
    ghost var ap := Appended(pieces, doTrim);
    newResults := results;
    var i := 0;
    while i < |positions| - 1
      invariant 0 <= i <= |positions| - 1
      invariant newResults == results + ap[..i]
    {
      var s := "";
      var start := positions[i] + sizeDelim;
      var size := positions[i + 1] - positions[i] - sizeDelim;
      assert PieceBounds(positions, i, sizeDelim, |input|);
      if size > 0 {
        s := input[start..start + size];
      }
      assert s == pieces[i];
      if doTrim {
        newResults := newResults + [Trim(s)];
      } else {
        newResults := newResults + [s];
      }
      AppendNext(results, ap, i);
      i := i + 1;
    }
    assert ap[..i] == ap;
  }

  /** One more element of `more` appended after a prefix of it. */
  lemma AppendNext(results: seq<string>, more: seq<string>, i: nat)
    requires i < |more|
    ensures results + more[..i] + [more[i]] == results + more[..i + 1]
  {
    assert more[..i + 1] == more[..i] + [more[i]];
  }

  // ---------------------------------------------------------------------
  // substitute (StringUtil.cpp:102-112)
  // ---------------------------------------------------------------------

  /** str with every occurrence of the character s replaced by d. */
  function Substituted(s: char, d: char, str: string): (r: string)
    ensures |r| == |str|
    ensures forall i :: 0 <= i < |str| ==> r[i] == if str[i] == s then d else str[i]
  {
    if str == [] then []
    else [if str[0] == s then d else str[0]] + Substituted(s, d, str[1..])
  }

  /** substitute: rewrites a copy of str in place, one position at a time. */
  method Substitute(s: char, d: char, str: string) returns (tmp: string)
    ensures tmp == Substituted(s, d, str)
  {
    tmp := str;
    var i := 0;
    while i < |tmp|
      invariant 0 <= i <= |tmp| == |str|
      invariant forall k :: 0 <= k < i ==> tmp[k] == if str[k] == s then d else str[k]
      invariant forall k :: i <= k < |tmp| ==> tmp[k] == str[k]
    {
      if tmp[i] == s {
        tmp := tmp[i := d];
      }
      i := i + 1;
    }
  }

  // ---------------------------------------------------------------------
  // StrSub (StringUtil.cpp:117-137)
  // ---------------------------------------------------------------------

  /** Number of occurrences of c in s. */
  function Count(s: string, c: char): nat
  {
    if s == [] then 0 else (if s[0] == c then 1 else 0) + Count(s[1..], c)
  }

  lemma {:induction false} CountAppend(a: string, b: string, c: char)
    ensures Count(a + b, c) == Count(a, c) + Count(b, c)
  {
    if a != [] {
      assert (a + b)[0] == a[0];
      assert (a + b)[1..] == a[1..] + b;
      CountAppend(a[1..], b, c);
    } else {
      assert a + b == b;
    }
  }

  lemma {:induction false} CountZero(s: string, c: char)
    ensures Count(s, c) == 0 <==> c !in s
  {
    if s != [] {
      CountZero(s[1..], c);
      assert s == [s[0]] + s[1..];
    }
  }

  /**
   * A negative num_times means "until the pattern is no longer found". That
   * loop ends exactly when the pattern is a single character that does not
   * reappear in the replacement after its first character: the search
   * resumes one character past the match, inside the replacement.
   */
  predicate UnboundedSafe(subThis: string, forThis: string)
  {
    |forThis| == 1 && forall k :: 1 <= k < |subThis| ==> subThis[k] != forThis[0]
  }

  /** Occurrences of the (single-character) pattern left at or after loc: what an unbounded StrSub still has to replace. */
  function Pending(cp: string, forThis: string, loc: nat): nat
  {
    if |forThis| == 1 && loc <= |cp| then Count(cp[loc..], forThis[0]) else 0
  }

  /** One replacement at a found position p makes progress for a safe unbounded substitution. */
  lemma PendingDecreases(cp: string, subThis: string, forThis: string, loc: nat, p: nat)
    requires loc <= p && OccursAt(cp, forThis, p)
    ensures UnboundedSafe(subThis, forThis) ==>
      Pending(cp[..p] + subThis + cp[p + |forThis|..], forThis, p + |forThis|) < Pending(cp, forThis, loc)
  {
    if UnboundedSafe(subThis, forThis) {
      PendingDecreasesSafe(cp, subThis, forThis, loc, p);
    }
  }

  lemma PendingDecreasesSafe(cp: string, subThis: string, forThis: string, loc: nat, p: nat)
    requires UnboundedSafe(subThis, forThis)
    requires loc <= p && OccursAt(cp, forThis, p)
    ensures Pending(cp[..p] + subThis + cp[p + 1..], forThis, p + 1) < Pending(cp, forThis, loc)
  {
    var c := forThis[0];
    var cp' := cp[..p] + subThis + cp[p + 1..];
    assert cp[p] == c;
    assert cp[loc..] == cp[loc..p] + [cp[p]] + cp[p + 1..];
    CountAppend(cp[loc..p] + [cp[p]], cp[p + 1..], c);
    CountAppend(cp[loc..p], [cp[p]], c);
    assert Count([cp[p]], c) == 1;
    if |subThis| == 0 {
      if p + 1 <= |cp'| {
        assert cp'[p + 1..] == cp[p + 2..];
        assert cp[p + 1..] == [cp[p + 1]] + cp[p + 2..];
        CountAppend([cp[p + 1]], cp[p + 2..], c);
      }
    } else {
      assert cp'[p + 1..] == subThis[1..] + cp[p + 1..];
      CountAppend(subThis[1..], cp[p + 1..], c);
      CountZero(subThis[1..], c);
    }
  }

  /**
   * The state of StrSub's loop from search position loc with `left` more
   * rounds (negative: unlimited): find the pattern at or after loc, replace
   * it, resume the search |forThis| characters after the match start, stop
   * at the first search that finds nothing. Returns the final text and the
   * positions at which replacements were made.
   */
  function SubLoop(cp: string, subThis: string, forThis: string, loc: nat, left: int): (r: (string, seq<nat>))
    requires left >= 0 || UnboundedSafe(subThis, forThis)
    decreases if left >= 0 then left else 0, Pending(cp, forThis, loc)
  {
    if left == 0 then (cp, [])
    else
      FindIsFirst(cp, forThis, loc);
      match Find(cp, forThis, loc)
      case None => (cp, [])
      case Some(p) =>
        var cp' := cp[..p] + subThis + cp[p + |forThis|..];
        PendingDecreases(cp, subThis, forThis, loc, p);
        var rest := SubLoop(cp', subThis, forThis, p + |forThis|, left - 1);
        (rest.0, [p] + rest.1)
  }

  /**
   * The shape of a run of StrSub's loop from loc with `left` rounds, given
   * its final text and replacement positions: at most `left` replacements
   * when left is not negative, none before loc, left to right with each
   * search resuming |forThis| after the previous match, none at all leaving
   * the text as it was, and the loop ending early only because the final
   * text has no occurrence left from where the last search started.
   */
  ghost predicate TraceOk(cp: string, forThis: string, loc: nat, left: int, r: (string, seq<nat>))
  {
    && (left >= 0 ==> |r.1| <= left)
    && (r.1 == [] ==> r.0 == cp)
    && (forall k :: 0 <= k < |r.1| ==> loc <= r.1[k])
    && (forall k :: 0 < k < |r.1| ==> r.1[k - 1] + |forThis| <= r.1[k])
    && ((left < 0 || |r.1| < left) ==>
          Exhausted(r.0, forThis, if r.1 == [] then loc else r.1[|r.1| - 1] + |forThis|))
  }

  /** pat occurs nowhere at or after `from`: what a failed find reports. */
  ghost predicate Exhausted(s: string, pat: string, from: nat)
  {
    forall q: nat :: from <= q ==> !OccursAt(s, pat, q)
  }

  /** A failed find means the pattern is exhausted from the start position on. */
  lemma NotFoundExhausted(s: string, pat: string, from: nat)
    requires Find(s, pat, from).None?
    ensures Exhausted(s, pat, from)
  {
    FindIsFirst(s, pat, from);
  }

  /** Where the search of round k starts: loc for the first round, |forThis| past the previous match after that. */
  function Resume(ps: seq<nat>, d: nat, loc: nat, k: nat): nat
    requires k <= |ps|
  {
    if k == 0 then loc else ps[k - 1] + d
  }

  /** One round of StrSub's loop: the first occurrence at or after `from` is at p, and it is replaced by subThis. */
  ghost predicate ReplacedAt(before: string, after: string, subThis: string, forThis: string, from: nat, p: nat)
  {
    && Find(before, forThis, from) == Some(p)
    && p + |forThis| <= |before|
    && after == before[..p] + subThis + before[p + |forThis|..]
  }

  /**
   * texts are the successive contents of the buffer, one more than the
   * replacements: the first round finds its match at ps[0] searching
   * texts[0] from loc and replaces it, giving texts[1]; the remaining rounds
   * do the same from |forThis| past that match.
   */
  ghost predicate RoundsOk(texts: seq<string>, ps: seq<nat>, subThis: string, forThis: string, loc: nat)
    decreases ps
  {
    && |texts| == |ps| + 1
    && (ps != [] ==>
          && ReplacedAt(texts[0], texts[1], subThis, forThis, loc, ps[0])
          && RoundsOk(texts[1..], ps[1..], subThis, forThis, ps[0] + |forThis|))
  }

  /** texts run from cp to the final text r.0 through the replacements recorded in r.1. */
  ghost predicate RunOk(texts: seq<string>, cp: string, r: (string, seq<nat>), subThis: string, forThis: string, loc: nat)
  {
    RoundsOk(texts, r.1, subThis, forThis, loc) && texts[0] == cp && texts[|texts| - 1] == r.0
  }

  /** Round k of a run read off by index: it searches texts[k] from where it resumed and replaces the match at ps[k]. */
  lemma {:induction false} RoundAt(texts: seq<string>, ps: seq<nat>, subThis: string, forThis: string, loc: nat, k: nat)
    requires RoundsOk(texts, ps, subThis, forThis, loc) && k < |ps|
    ensures ReplacedAt(texts[k], texts[k + 1], subThis, forThis, Resume(ps, |forThis|, loc, k), ps[k])
    decreases k
  {
    if k > 0 {
      RoundAt(texts[1..], ps[1..], subThis, forThis, ps[0] + |forThis|, k - 1);
      assert Resume(ps[1..], |forThis|, ps[0] + |forThis|, k - 1) == Resume(ps, |forThis|, loc, k);
    }
  }

  /**
   * The shape of a run of StrSub's loop: at most `left` rounds, left to
   * right, none before loc, and an early end only where the search fails.
   */
  lemma {:induction false} SubLoopTrace(cp: string, subThis: string, forThis: string, loc: nat, left: int)
    requires left >= 0 || UnboundedSafe(subThis, forThis)
    ensures TraceOk(cp, forThis, loc, left, SubLoop(cp, subThis, forThis, loc, left))
    decreases if left >= 0 then left else 0, Pending(cp, forThis, loc)
  {
    if left != 0 {
      match Find(cp, forThis, loc)
      case None =>
        NotFoundExhausted(cp, forThis, loc);
      case Some(p) =>
        FoundOccurs(cp, forThis, loc, p);
        var cp' := cp[..p] + subThis + cp[p + |forThis|..];
        SubLoopReplaces(cp, subThis, forThis, loc, left, p, cp', p + |forThis|, left - 1);
        SubLoopTrace(cp', subThis, forThis, p + |forThis|, left - 1);
        TraceCons(cp, cp', forThis, loc, left, p, SubLoop(cp', subThis, forThis, p + |forThis|, left - 1));
    }
  }

  /**
   * The run of StrSub's loop from loc with `left` rounds, as the sequence
   * of buffer contents from cp to the final text: every recorded position
   * is the occurrence that round's search finds, and every round replaces
   * exactly that occurrence.
   */
  lemma {:induction false} SubLoopRounds(cp: string, subThis: string, forThis: string, loc: nat, left: int) returns (texts: seq<string>)
    requires left >= 0 || UnboundedSafe(subThis, forThis)
    ensures RunOk(texts, cp, SubLoop(cp, subThis, forThis, loc, left), subThis, forThis, loc)
    decreases if left >= 0 then left else 0, Pending(cp, forThis, loc)
  {
    var found, p, next := NextRound(cp, subThis, forThis, loc, left);
    if !found {
      RoundsNone(cp, SubLoop(cp, subThis, forThis, loc, left), subThis, forThis, loc);
      texts := [cp];
    } else {
      var rest := SubLoopRounds(next, subThis, forThis, p + |forThis|, left - 1);
      RoundsCons(cp, next, subThis, forThis, loc, p, SubLoop(next, subThis, forThis, p + |forThis|, left - 1), SubLoop(cp, subThis, forThis, loc, left), rest);
      texts := [cp] + rest;
    }
  }

  /**
   * One round of StrSub's loop: either it stops (no rounds left, or the
   * search fails) with the text as it was, or its search finds p, and the
   * run is the replacement at p, giving next, followed by the run resumed
   * after it.
   */
  lemma NextRound(cp: string, subThis: string, forThis: string, loc: nat, left: int) returns (found: bool, p: nat, next: string)
    requires left >= 0 || UnboundedSafe(subThis, forThis)
    ensures !found ==> SubLoop(cp, subThis, forThis, loc, left) == (cp, [])
    ensures found ==> left != 0 && ReplacedAt(cp, next, subThis, forThis, loc, p)
    ensures found ==> UnboundedSafe(subThis, forThis) ==> Pending(next, forThis, p + |forThis|) < Pending(cp, forThis, loc)
    ensures found ==> SubLoop(cp, subThis, forThis, loc, left).0 == SubLoop(next, subThis, forThis, p + |forThis|, left - 1).0
    ensures found ==> SubLoop(cp, subThis, forThis, loc, left).1 == [p] + SubLoop(next, subThis, forThis, p + |forThis|, left - 1).1
  {
    if left == 0 || Find(cp, forThis, loc).None? {
      found, p, next := false, 0, cp;
      SubLoopEnds(cp, subThis, forThis, loc, left);
    } else {
      found, p := true, Find(cp, forThis, loc).value;
      FoundOccurs(cp, forThis, loc, p);
      next := cp[..p] + subThis + cp[p + |forThis|..];
      SubLoopReplaces(cp, subThis, forThis, loc, left, p, next, p + |forThis|, left - 1);
    }
  }

  /** StrSub's loop with no rounds left, or whose search fails, records nothing and leaves the text as it was. */
  lemma SubLoopEnds(cp: string, subThis: string, forThis: string, loc: nat, left: int)
    requires left >= 0 || UnboundedSafe(subThis, forThis)
    requires left == 0 || Find(cp, forThis, loc).None?
    ensures SubLoop(cp, subThis, forThis, loc, left) == (cp, [])
  {
  }

  /** A run with no rounds: the text stays as it was. */
  lemma RoundsNone(cp: string, r: (string, seq<nat>), subThis: string, forThis: string, loc: nat)
    requires r == (cp, [])
    ensures RunOk([cp], cp, r, subThis, forThis, loc)
  {
  }

  /**
   * A round that replaced the match at p, in front of the rounds that
   * resumed at p + |forThis| and ended with r'; r is the whole run.
   */
  lemma RoundsCons(cp: string, next: string, subThis: string, forThis: string, loc: nat, p: nat, r': (string, seq<nat>), r: (string, seq<nat>), texts: seq<string>)
    requires ReplacedAt(cp, next, subThis, forThis, loc, p)
    requires RunOk(texts, next, r', subThis, forThis, p + |forThis|)
    requires r.0 == r'.0 && r.1 == [p] + r'.1
    ensures RunOk([cp] + texts, cp, r, subThis, forThis, loc)
  {
    var ts := [cp] + texts;
    assert ts[1..] == texts && r.1[1..] == r'.1;
  }

  /** A replacement at p in front of the trace of the rest of the loop, which resumed at p + |forThis|. */
  lemma TraceCons(cp: string, cp': string, forThis: string, loc: nat, left: int, p: nat, rest: (string, seq<nat>))
    requires left != 0 && loc <= p
    requires TraceOk(cp', forThis, p + |forThis|, left - 1, rest)
    ensures TraceOk(cp, forThis, loc, left, (rest.0, [p] + rest.1))
  {
    var tr := [p] + rest.1;
    ConsFrom(loc, p, |forThis|, rest.1);
    ConsSpaced(p, |forThis|, rest.1);
    var resumed := if rest.1 == [] then p + |forThis| else rest.1[|rest.1| - 1] + |forThis|;
    assert (if tr == [] then loc else tr[|tr| - 1] + |forThis|) == resumed;
    assert (left < 0 || |tr| < left) ==> (left - 1 < 0 || |rest.1| < left - 1);
  }

  /** Putting p in front of positions that all lie at least d past it keeps every position at or after loc. */
  lemma ConsFrom(loc: nat, p: nat, d: nat, ps: seq<nat>)
    requires loc <= p && forall k :: 0 <= k < |ps| ==> p + d <= ps[k]
    ensures forall k :: 0 <= k < |[p] + ps| ==> loc <= ([p] + ps)[k]
  {
    var tr := [p] + ps;
    forall k | 0 < k < |tr| ensures loc <= tr[k] {
      assert tr[k] == ps[k - 1];
    }
  }

  /** Putting p in front of positions at least d apart, the first d past p, keeps them at least d apart. */
  lemma ConsSpaced(p: nat, d: nat, ps: seq<nat>)
    requires forall k :: 0 <= k < |ps| ==> p + d <= ps[k]
    requires forall k :: 0 < k < |ps| ==> ps[k - 1] + d <= ps[k]
    ensures forall k :: 0 < k < |[p] + ps| ==> ([p] + ps)[k - 1] + d <= ([p] + ps)[k]
  {
    var tr := [p] + ps;
    forall k | 0 < k < |tr| ensures tr[k - 1] + d <= tr[k] {
      assert tr[k] == ps[k - 1];
      if k > 1 {
        assert tr[k - 1] == ps[k - 2];
      }
    }
  }

  /** What StrSub(cp, subThis, forThis, numTimes) leaves in cp. */
  function StrSubbed(cp: string, subThis: string, forThis: string, numTimes: int): string
    requires numTimes >= 0 || UnboundedSafe(subThis, forThis)
  {
    if cp == [] then subThis else SubLoop(cp, subThis, forThis, 0, numTimes).0
  }

  /**
   * StrSub: replaces, left to right, up to num_times occurrences of forThis
   * in cp by subThis (all findable ones when num_times is negative); an
   * empty cp becomes subThis whatever forThis is.
   */
  method StrSub(cp: string, subThis: string, forThis: string, numTimes: int) returns (r: string)
    requires numTimes >= 0 || UnboundedSafe(subThis, forThis)
    ensures r == StrSubbed(cp, subThis, forThis, numTimes)
  {
    var loc: nat := 0;
    if cp == [] {
      return subThis;
    }
    r := cp;
    var i := 0;
    ghost var final := SubLoop(cp, subThis, forThis, 0, numTimes).0;
    while i != numTimes
      invariant 0 <= i && (numTimes >= 0 ==> i <= numTimes)
      invariant SubLoop(r, subThis, forThis, loc, numTimes - i).0 == final
      decreases if numTimes >= 0 then numTimes - i else 0, Pending(r, forThis, loc)
    {
      var found := Find(r, forThis, loc);
      if found.None? {
        SubLoopStops(r, subThis, forThis, loc, numTimes - i);
        return;
      }
      var p := found.value;
      FoundOccurs(r, forThis, loc, p);
      ghost var prev, prevLoc, prevLeft := r, loc, numTimes - i;
      r, loc, i := r[..p] + subThis + r[p + |forThis|..], p + |forThis|, i + 1;
      SubLoopReplaces(prev, subThis, forThis, prevLoc, prevLeft, p, r, loc, numTimes - i);
    }
  }

  /** A position find returns lies at or after the start, and the pattern occurs there. */
  lemma {:induction false} FoundOccurs(cp: string, forThis: string, loc: nat, p: nat)
    requires Find(cp, forThis, loc) == Some(p)
    ensures loc <= p && OccursAt(cp, forThis, p)
    decreases |cp| - loc
  {
    if loc + |forThis| <= |cp| && cp[loc..loc + |forThis|] != forThis {
      FoundOccurs(cp, forThis, loc + 1, p);
    }
  }

  /** A round of StrSub's loop whose search fails ends it with the text unchanged. */
  lemma SubLoopStops(cp: string, subThis: string, forThis: string, loc: nat, left: int)
    requires left != 0 && (left >= 0 || UnboundedSafe(subThis, forThis))
    requires Find(cp, forThis, loc).None?
    ensures SubLoop(cp, subThis, forThis, loc, left).0 == cp
  {
  }

  /** A round of StrSub's loop that finds p replaces there and resumes after the match, with fewer occurrences pending. */
  lemma SubLoopReplaces(cp: string, subThis: string, forThis: string, loc: nat, left: int, p: nat, next: string, loc': nat, left': int)
    requires left != 0 && (left >= 0 || UnboundedSafe(subThis, forThis)) && left' == left - 1
    requires Find(cp, forThis, loc) == Some(p) && p + |forThis| <= |cp|
    requires next == cp[..p] + subThis + cp[p + |forThis|..] && loc' == p + |forThis|
    ensures UnboundedSafe(subThis, forThis) ==> Pending(next, forThis, loc') < Pending(cp, forThis, loc)
    ensures SubLoop(cp, subThis, forThis, loc, left).0 == SubLoop(next, subThis, forThis, loc', left').0
    ensures SubLoop(cp, subThis, forThis, loc, left).1 == [p] + SubLoop(next, subThis, forThis, loc', left').1
  {
    FoundOccurs(cp, forThis, loc, p);
    PendingDecreases(cp, subThis, forThis, loc, p);
    var rest := SubLoop(next, subThis, forThis, loc', left');
    assert SubLoop(cp, subThis, forThis, loc, left) == (rest.0, [p] + rest.1);
  }

  /** StrSub on a string in which forThis never occurs leaves it unchanged. */
  lemma StrSubNoMatch(cp: string, subThis: string, forThis: string, numTimes: int)
    requires numTimes >= 0 || UnboundedSafe(subThis, forThis)
    requires cp != [] && !Contains(cp, forThis)
    ensures StrSubbed(cp, subThis, forThis, numTimes) == cp
  {
    FindIsFirst(cp, forThis, 0);
  }

  // ---------------------------------------------------------------------
  // Unbounded single-character StrSub as a per-character replacement
  // ---------------------------------------------------------------------

  /** The reference definition: every c in s replaced by sub, everything else kept. */
  function ReplaceChar(s: string, c: char, sub: string): string
  {
    if s == [] then [] else (if s[0] == c then sub else [s[0]]) + ReplaceChar(s[1..], c, sub)
  }

  lemma {:induction false} ReplaceCharAppend(a: string, b: string, c: char, sub: string)
    ensures ReplaceChar(a + b, c, sub) == ReplaceChar(a, c, sub) + ReplaceChar(b, c, sub)
  {
    if a != [] {
      assert (a + b)[0] == a[0];
      assert (a + b)[1..] == a[1..] + b;
      ReplaceCharAppend(a[1..], b, c, sub);
    } else {
      assert a + b == b;
    }
  }

  lemma {:induction false} ReplaceCharAbsent(s: string, c: char, sub: string)
    requires c !in s
    ensures ReplaceChar(s, c, sub) == s
  {
    if s != [] {
      assert s[1..] == s[1..];
      assert forall k :: 0 <= k < |s[1..]| ==> s[1..][k] == s[k + 1];
      ReplaceCharAbsent(s[1..], c, sub);
      assert s == [s[0]] + s[1..];
    }
  }

  /** pat occurs nowhere from loc up to (not including) p. */
  ghost predicate NoHit(cp: string, pat: string, loc: nat, p: nat)
  {
    forall q: nat :: loc <= q < p ==> !OccursAt(cp, pat, q)
  }

  /** No search hit between loc and p means no c there. */
  lemma NoCharBefore(cp: string, c: char, loc: nat, p: nat)
    requires loc <= p <= |cp|
    requires NoHit(cp, [c], loc, p)
    ensures c !in cp[loc..p]
  {
    forall k | 0 <= k < p - loc ensures cp[loc..p][k] != c {
      assert !OccursAt(cp, [c], loc + k);
      assert cp[loc + k..loc + k + 1] == [cp[loc + k]];
    }
  }

  /** The part of a safe replacement after its first character contains no c. */
  lemma SafeTail(sub: string, c: char)
    requires UnboundedSafe(sub, [c]) && |sub| >= 1
    ensures c !in sub[1..]
  {
    forall k | 0 <= k < |sub| - 1 ensures sub[1..][k] != c {
      assert sub[1..][k] == sub[k + 1];
    }
  }

  /**
   * An unbounded StrSub of a single character c by a non-empty replacement
   * in which c does not reappear after its first character replaces every c
   * from the start position on, exactly as ReplaceChar does.
   */
  lemma {:induction false} UnboundedSubIsReplaceChar(cp: string, sub: string, c: char, loc: nat, left: int)
    requires left < 0 && UnboundedSafe(sub, [c]) && |sub| >= 1 && loc <= |cp|
    ensures SubLoop(cp, sub, [c], loc, left).0 == cp[..loc] + ReplaceChar(cp[loc..], c, sub)
    decreases Pending(cp, [c], loc)
  {
    match Find(cp, [c], loc)
    case None =>
      SubLoopStops(cp, sub, [c], loc, left);
      NothingToReplace(cp, sub, c, loc);
    case Some(p) =>
      FoundOccurs(cp, [c], loc, p);
      var cp' := cp[..p] + sub + cp[p + 1..];
      SubLoopReplaces(cp, sub, [c], loc, left, p, cp', p + 1, left - 1);
      UnboundedSubIsReplaceChar(cp', sub, c, p + 1, left - 1);
      ReplaceFound(cp, sub, c, loc, p);
  }

  /** When the search from loc fails, replacing from loc on changes nothing. */
  lemma NothingToReplace(cp: string, sub: string, c: char, loc: nat)
    requires loc <= |cp| && Find(cp, [c], loc).None?
    ensures cp == cp[..loc] + ReplaceChar(cp[loc..], c, sub)
  {
    NotFoundNoHit(cp, [c], loc);
    NoCharBefore(cp, c, loc, |cp|);
    ReplaceCharAbsent(cp[loc..], c, sub);
    assert cp[..loc] + cp[loc..] == cp;
  }

  /** ReplaceStep at the position the search from loc finds. */
  lemma ReplaceFound(cp: string, sub: string, c: char, loc: nat, p: nat)
    requires UnboundedSafe(sub, [c]) && |sub| >= 1
    requires Find(cp, [c], loc) == Some(p)
    ensures p < |cp|
    ensures var cp' := cp[..p] + sub + cp[p + 1..];
      cp'[..p + 1] + ReplaceChar(cp'[p + 1..], c, sub) == cp[..loc] + ReplaceChar(cp[loc..], c, sub)
  {
    FoundOccurs(cp, [c], loc, p);
    FoundNoHitBefore(cp, [c], loc, p);
    assert cp[p..p + 1] == [cp[p]];
    ReplaceStep(cp, sub, c, loc, p);
  }

  /** A failed search from loc means no hit up to the end. */
  lemma NotFoundNoHit(cp: string, pat: string, loc: nat)
    requires Find(cp, pat, loc).None?
    ensures NoHit(cp, pat, loc, |cp|)
  {
    FindIsFirst(cp, pat, loc);
  }

  /** A search from loc that finds p saw no hit before p. */
  lemma FoundNoHitBefore(cp: string, pat: string, loc: nat, p: nat)
    requires Find(cp, pat, loc) == Some(p)
    ensures NoHit(cp, pat, loc, p)
  {
    FindIsFirst(cp, pat, loc);
  }

  /** Past the first character of a safe replacement there is nothing left to replace. */
  lemma ReplaceTail(sub: string, c: char, t: string)
    requires UnboundedSafe(sub, [c]) && |sub| >= 1
    ensures ReplaceChar(sub[1..] + t, c, sub) == sub[1..] + ReplaceChar(t, c, sub)
  {
    ReplaceCharAppend(sub[1..], t, c, sub);
    SafeTail(sub, c);
    ReplaceCharAbsent(sub[1..], c, sub);
  }

  /** Replacing through the first c: the text before it is kept and the c becomes sub. */
  lemma ReplaceAtHit(b: string, c: char, sub: string, t: string)
    requires c !in b
    ensures ReplaceChar(b + [c] + t, c, sub) == b + sub + ReplaceChar(t, c, sub)
  {
    ReplaceCharAppend(b + [c], t, c, sub);
    ReplaceCharAppend(b, [c], c, sub);
    ReplaceCharAbsent(b, c, sub);
    assert [c][1..] == [];
    assert ReplaceChar([c], c, sub) == sub + ReplaceChar([], c, sub);
  }

  /** The equation behind one round: replacing the c found at p and continuing after it. */
  lemma ReplaceStep(cp: string, sub: string, c: char, loc: nat, p: nat)
    requires UnboundedSafe(sub, [c]) && |sub| >= 1
    requires loc <= p < |cp| && cp[p] == c
    requires NoHit(cp, [c], loc, p)
    ensures var cp' := cp[..p] + sub + cp[p + 1..];
      cp'[..p + 1] + ReplaceChar(cp'[p + 1..], c, sub) == cp[..loc] + ReplaceChar(cp[loc..], c, sub)
  {
    var cp' := cp[..p] + sub + cp[p + 1..];
    var t := cp[p + 1..];
    var rt := ReplaceChar(t, c, sub);
    assert cp'[..p + 1] == cp[..p] + [sub[0]];
    assert cp'[p + 1..] == sub[1..] + t;
    ReplaceTail(sub, c, t);
    NoCharBefore(cp, c, loc, p);
    assert cp[loc..] == cp[loc..p] + [c] + t;
    ReplaceAtHit(cp[loc..p], c, sub, t);
    assert cp[..p] == cp[..loc] + cp[loc..p];
    ConcatShape(cp[..loc], cp[loc..p], sub, rt);
  }

  /** Regrouping of the concatenations in ReplaceStep. */
  lemma ConcatShape(a: string, b: string, sub: string, rt: string)
    requires |sub| >= 1
    ensures (a + b) + [sub[0]] + (sub[1..] + rt) == a + (b + sub + rt)
  {
    assert [sub[0]] + sub[1..] == sub;
  }

  /** The whole-string form used by the XML writer: StrSub(cp, sub, [c], -1) replaces every c of a non-empty cp. */
  lemma StrSubAllIsReplaceChar(cp: string, sub: string, c: char)
    requires UnboundedSafe(sub, [c]) && |sub| >= 1 && cp != []
    ensures StrSubbed(cp, sub, [c], -1) == ReplaceChar(cp, c, sub)
  {
    UnboundedSubIsReplaceChar(cp, sub, c, 0, -1);
    assert cp[0..] == cp;
  }
}
