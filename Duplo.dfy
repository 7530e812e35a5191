/**
 * The pairwise duplicate-block scanner of Duplo (Duplo.cpp): the match
 * matrix of two files' source lines, the effective block-size threshold,
 * the vertical and horizontal diagonal sweeps that report blocks, the
 * report accumulator, the file-name helpers, Clamp and the order in which
 * run compares the files of a corpus.
 *
 * The blocks one comparison reports are specified by PairScan, a function
 * of the two line sequences; the imperative class Duplo is proved to
 * report exactly those, in that order.
 */
module Duplo {
  import StringUtil
  import SourceFiles
  import opened DiagonalRuns

  /** One reported block: count lines from line1 of file1 equal count lines from line2 of file2 (0-based). */
  datatype Block = Block(file1: string, line1: int, file2: string, line2: int, count: nat)

  function Min(a: int, b: int): int { if a <= b then a else b }
  function Max(a: int, b: int): int { if a >= b then a else b }

  // ---------------------------------------------------------------------
  // Clamp and the block-size threshold
  // ---------------------------------------------------------------------

  /** Clamp: value limited to the range lower .. upper. */
  function Clamp(upper: int, lower: int, value: int): (r: int)
    ensures r >= lower
    ensures lower <= upper ==> r <= upper
    ensures lower <= value <= upper ==> r == value
    ensures value < lower ==> r == lower
    ensures lower <= upper < value ==> r == upper
  {
    Max(lower, Min(upper, value))
  }

  /**
   * The effective minimum block length of one comparison of an m-line and
   * an n-line file: the configured minimum, lowered to the given percentage
   * of the longer file, and never below one line.
   */
  function Threshold(minBlockSize: nat, pct: nat, m: nat, n: nat): (t: nat)
    requires pct > 0
    ensures t >= 1
    ensures t <= Max(1, minBlockSize)
    ensures t <= Max(1, Max(n, m) * 100 / pct)
    ensures minBlockSize >= 1 && minBlockSize <= Max(n, m) * 100 / pct ==> t == minBlockSize
    ensures 1 <= Max(n, m) * 100 / pct < minBlockSize ==> t == Max(n, m) * 100 / pct
    ensures minBlockSize == 0 || Max(n, m) * 100 / pct == 0 ==> t == 1
  {
    Max(1, Min(minBlockSize, Max(n, m) * 100 / pct))
  }

  /** At 100 percent the threshold is the configured minimum, capped by the longer file's length. */
  lemma ThresholdFullPercent(minBlockSize: nat, m: nat, n: nat)
    ensures Threshold(minBlockSize, 100, m, n) == Max(1, Min(minBlockSize, Max(n, m)))
  {
    assert Max(n, m) * 100 / 100 == Max(n, m);
  }

  lemma {:induction false} MulMonotone(a: nat, p: nat, q: nat)
    requires p <= q
    ensures a * p <= a * q
  {
    if a > 0 {
      MulMonotone(a - 1, p, q);
      assert a * p == (a - 1) * p + p;
      assert a * q == (a - 1) * q + q;
    }
  }

  lemma DivAntitone(x: nat, p: nat, q: nat)
    requires 0 < p <= q
    ensures x / q <= x / p
  {
    var a, b := x / q, x / p;
    assert x == q * a + x % q;
    assert x == p * b + x % p;
    MulMonotone(a, p, q);
    if a > b {
      MulMonotone(p, b + 1, a);
      assert false;
    }
  }

  /** A larger percentage never raises the threshold. */
  lemma ThresholdMonotone(minBlockSize: nat, p: nat, q: nat, m: nat, n: nat)
    requires 0 < p <= q
    ensures Threshold(minBlockSize, q, m, n) <= Threshold(minBlockSize, p, m, n)
  {
    DivAntitone(Max(n, m) * 100, p, q);
  }

  /** Two 10-line files at 50 percent: the cap is 20 lines, so any configured minimum up to 20 stands. */
  lemma ThresholdHalfOfTen(minBlockSize: nat)
    requires 1 <= minBlockSize <= 20
    ensures Threshold(minBlockSize, 50, 10, 10) == minBlockSize
  {
  }

  /** The command line passes Clamp(100, 0, v) as the percentage: a zero reaches the threshold's division. */
  lemma ZeroPercentPassesClamp()
    ensures Clamp(100, 0, 0) == 0
    ensures exists v :: Clamp(100, 0, v) == 0
  {
    assert Clamp(100, 0, -5) == 0;
  }

  /** The percentage argument as it should be clamped: into 1 .. 100, so the threshold is always defined. */
  function PercentArgument(value: int): (pct: nat)
    ensures 1 <= pct <= 100
    ensures 1 <= value <= 100 ==> pct == value
  {
    Clamp(100, 1, value)
  }

  // ---------------------------------------------------------------------
  // File names
  // ---------------------------------------------------------------------

  /**
   * getFilenamePart: the base name of a path, with either separator. The
   * result is the longest suffix of the path that holds no separator.
   */
  function FilenamePart(fullpath: string): (r: string)
    ensures |r| <= |fullpath|
    ensures r == fullpath[|fullpath| - |r|..]
    ensures '/' !in r && '\\' !in r
    ensures |r| < |fullpath| ==> fullpath[|fullpath| - |r| - 1] in {'/', '\\'}
  {
    var path := StringUtil.Substituted('\\', '/', fullpath);
    assert '\\' !in path;
    match StringUtil.LastIndexOf(path, '/')
    case None =>
      assert path == fullpath;
      path
    case Some(idx) =>
      assert path[idx + 1..] == fullpath[idx + 1..];
      path[idx + 1..]
  }

  /** isSameFilename: the two paths name files of the same base name. */
  predicate IsSameFilename(filename1: string, filename2: string)
  {
    FilenamePart(filename1) == FilenamePart(filename2)
  }

  /** Same base name is an equivalence on paths. */
  lemma SameFilenameEquivalence(f1: string, f2: string, f3: string)
    ensures IsSameFilename(f1, f1)
    ensures IsSameFilename(f1, f2) == IsSameFilename(f2, f1)
    ensures IsSameFilename(f1, f2) && IsSameFilename(f2, f3) ==> IsSameFilename(f1, f3)
  {
  }

  /** The directory part, with either separator, does not matter; the base name does. */
  lemma SameFilenameExamples()
    ensures IsSameFilename("d/a", "e\\a")
    ensures IsSameFilename("a", "d/e/a")
    ensures !IsSameFilename("d/a", "d/b")
  {
    BaseNameOf("d/a", 1);
    BaseNameOf("e\\a", 1);
    BaseNameOf("d/e/a", 3);
    BaseNameOf("d/b", 1);
  }

  /** A separator at position i followed by none: the base name is what follows i. */
  lemma BaseNameOf(path: string, i: nat)
    requires i < |path| && path[i] in {'/', '\\'}
    requires forall k :: i < k < |path| ==> path[k] !in {'/', '\\'}
    ensures FilenamePart(path) == path[i + 1..]
  {
  }

  // ---------------------------------------------------------------------
  // The blocks one comparison reports
  // ---------------------------------------------------------------------

  /** The comparison text of each source line; two lines are equal when their texts are. */
  function Texts(lines: seq<SourceFiles.SourceLine>): (r: seq<string>)
    ensures |r| == |lines|
    ensures forall i :: 0 <= i < |lines| ==> r[i] == lines[i].text
  {
    seq(|lines|, i requires 0 <= i < |lines| => lines[i].text)
  }

  /** The diagonal that starts at line y of a and line 0 of b, as match bits. */
  function VDiag(a: seq<string>, b: seq<string>, y: nat): seq<bool>
    requires y <= |a|
  {
    seq(Min(|b|, |a| - y), x requires 0 <= x < Min(|b|, |a| - y) => a[y + x] == b[x])
  }

  /** The diagonal that starts at line 0 of a and line x of b, as match bits. */
  function HDiag(a: seq<string>, b: seq<string>, x: nat): seq<bool>
    requires x <= |b|
  {
    seq(Min(|a|, |b| - x), y requires 0 <= y < Min(|a|, |b| - x) => a[y] == b[x + y])
  }

  /** A block that compares a file with itself at the same place. */
  predicate IsIdentity(blk: Block)
  {
    blk.line1 == blk.line2 && blk.file1 == blk.file2
  }

  /** The vertical sweep's filter: identity blocks are not reported. */
  function Kept(blk: Block): seq<Block>
  {
    if IsIdentity(blk) then [] else [blk]
  }

  /** The blocks the vertical sweep reports, at mismatches, for the runs rs of diagonal y. */
  function VBlocks(rs: seq<Run>, y: nat, f1: string, f2: string): seq<Block>
  {
    if rs == [] then []
    else
      var r := rs[|rs| - 1];
      VBlocks(rs[..|rs| - 1], y, f1, f2) + Kept(Block(f1, y + r.end - r.len, f2, r.end - r.len, r.len))
  }

  /** The blocks the horizontal sweep reports, at mismatches, for the runs rs of diagonal x. */
  function HBlocks(rs: seq<Run>, x: nat, f1: string, f2: string): seq<Block>
  {
    if rs == [] then []
    else
      var r := rs[|rs| - 1];
      HBlocks(rs[..|rs| - 1], x, f1, f2) + [Block(f1, r.end - r.len, f2, x + r.end - r.len, r.len)]
  }

  /**
   * The block reported for the run still open at the end of vertical
   * diagonal y. As written (fixed false) it is placed at the last lines of
   * both files, wherever the diagonal ends; fixed places it on the diagonal.
   */
  function VTrail(a: seq<string>, b: seq<string>, y: nat, f1: string, f2: string, t: nat, fixed: bool): seq<Block>
    requires y <= |a|
  {
    var d := VDiag(a, b, y);
    var l := OpenRun(d);
    if l < t then []
    else if fixed then Kept(Block(f1, y + |d| - l, f2, |d| - l, l))
    else Kept(Block(f1, |a| - l, f2, |b| - l, l))
  }

  /** The same for horizontal diagonal x, which has no identity filter. */
  function HTrail(a: seq<string>, b: seq<string>, x: nat, f1: string, f2: string, t: nat, fixed: bool): seq<Block>
    requires x <= |b|
  {
    var d := HDiag(a, b, x);
    var l := OpenRun(d);
    if l < t then []
    else if fixed then [Block(f1, |d| - l, f2, x + |d| - l, l)]
    else [Block(f1, |a| - l, f2, |b| - l, l)]
  }

  /** Everything the vertical sweep reports for diagonal y, in order. */
  function VScan(a: seq<string>, b: seq<string>, y: nat, f1: string, f2: string, t: nat, fixed: bool): seq<Block>
    requires y <= |a|
  {
    VBlocks(ClosedRuns(VDiag(a, b, y), t), y, f1, f2) + VTrail(a, b, y, f1, f2, t, fixed)
  }

  /** Everything the horizontal sweep reports for diagonal x, in order. */
  function HScan(a: seq<string>, b: seq<string>, x: nat, f1: string, f2: string, t: nat, fixed: bool): seq<Block>
    requires x <= |b|
  {
    HBlocks(ClosedRuns(HDiag(a, b, x), t), x, f1, f2) + HTrail(a, b, x, f1, f2, t, fixed)
  }

  /** The concatenation, in order, of what the diagonals lo .. k-1 report. */
  function Sweep(f: nat -> seq<Block>, lo: nat, k: nat): seq<Block>
  {
    if k <= lo then [] else Sweep(f, lo, k - 1) + f(k - 1)
  }

  /** Diagonal y's report in the vertical sweep (nothing beyond the last line of a). */
  function VScans(a: seq<string>, b: seq<string>, f1: string, f2: string, t: nat, fixed: bool): nat -> seq<Block>
  {
    (y: nat) => if y < |a| then VScan(a, b, y, f1, f2, t, fixed) else []
  }

  /** Diagonal x's report in the horizontal sweep (nothing beyond the last line of b). */
  function HScans(a: seq<string>, b: seq<string>, f1: string, f2: string, t: nat, fixed: bool): nat -> seq<Block>
  {
    (x: nat) => if x < |b| then HScan(a, b, x, f1, f2, t, fixed) else []
  }

  /** Both sweeps: every vertical diagonal, then, for files of different names, horizontal diagonals 1 .. |b|-1. */
  function Scan(a: seq<string>, b: seq<string>, f1: string, f2: string, t: nat, fixed: bool): seq<Block>
  {
    Sweep(VScans(a, b, f1, f2, t, fixed), 0, |a|) + (if f1 != f2 then Sweep(HScans(a, b, f1, f2, t, fixed), 1, |b|) else [])
  }

  lemma {:induction false} SweepHas(f: nat -> seq<Block>, lo: nat, k: nat, i: nat, blk: Block)
    requires lo <= i < k && blk in f(i)
    ensures blk in Sweep(f, lo, k)
  {
    if i < k - 1 {
      SweepHas(f, lo, k - 1, i, blk);
    }
  }

  lemma {:induction false} SweepFrom(f: nat -> seq<Block>, lo: nat, k: nat, blk: Block) returns (i: nat)
    requires blk in Sweep(f, lo, k)
    ensures lo <= i < k && blk in f(i)
  {
    if blk in f(k - 1) {
      i := k - 1;
    } else {
      i := SweepFrom(f, lo, k - 1, blk);
    }
  }

  /** The blocks process reports for a file a named f1 against a file b named f2 at threshold t, as written. */
  function PairScan(a: seq<string>, b: seq<string>, f1: string, f2: string, t: nat): seq<Block>
  {
    Scan(a, b, f1, f2, t, false)
  }

  /** The same with the run open at a diagonal's end placed on that diagonal. */
  function CorrectedPairScan(a: seq<string>, b: seq<string>, f1: string, f2: string, t: nat): seq<Block>
  {
    Scan(a, b, f1, f2, t, true)
  }

  /** The number of duplicated lines a sequence of blocks adds up to. */
  function TotalLines(bs: seq<Block>): nat
  {
    if bs == [] then 0 else TotalLines(bs[..|bs| - 1]) + bs[|bs| - 1].count
  }

  lemma {:induction false} TotalLinesAppend(p: seq<Block>, q: seq<Block>)
    ensures TotalLines(p + q) == TotalLines(p) + TotalLines(q)
  {
    if q != [] {
      var q' := q[..|q| - 1];
      assert (p + q)[..|p + q| - 1] == p + q';
      TotalLinesAppend(p, q');
    } else {
      assert p + q == p;
    }
  }

  // ---------------------------------------------------------------------
  // What a reported block means
  // ---------------------------------------------------------------------

  /** count lines of a from l1 equal count lines of b from l2. */
  ghost predicate Matches(a: seq<string>, b: seq<string>, l1: int, l2: int, count: nat)
  {
    && 0 <= l1 && l1 + count <= |a| && 0 <= l2 && l2 + count <= |b|
    && forall k :: l1 <= k < l1 + count ==> a[k] == b[k - l1 + l2]
  }

  /** A match that cannot be extended along its diagonal in either direction. */
  ghost predicate MaximalMatch(a: seq<string>, b: seq<string>, l1: int, l2: int, count: nat)
  {
    && Matches(a, b, l1, l2, count)
    && (l1 == 0 || l2 == 0 || a[l1 - 1] != b[l2 - 1])
    && (l1 + count == |a| || l2 + count == |b| || a[l1 + count] != b[l2 + count])
  }

  /**
   * blk is a duplicate the comparison of a (named f1) with b (named f2)
   * should report: a maximal match of at least t lines, and, when the two
   * names are equal, strictly below the main diagonal (one file compared
   * with itself reports each duplicate once, and never a line with itself).
   */
  ghost predicate Duplicate(a: seq<string>, b: seq<string>, f1: string, f2: string, t: nat, blk: Block)
  {
    && blk.file1 == f1 && blk.file2 == f2 && blk.count >= t
    && MaximalMatch(a, b, blk.line1, blk.line2, blk.count)
    && (f1 != f2 || blk.line1 > blk.line2)
  }

  /** What every reported block satisfies, trailing ones included. */
  ghost predicate InBounds(a: seq<string>, b: seq<string>, f1: string, f2: string, t: nat, blk: Block)
  {
    && blk.file1 == f1 && blk.file2 == f2 && blk.count >= t
    && 0 <= blk.line1 && blk.line1 + blk.count <= |a|
    && 0 <= blk.line2 && blk.line2 + blk.count <= |b|
    && !(f1 == f2 && blk.line1 == blk.line2)
  }

  /** Where the code as written places the run open at a diagonal's end: at the last lines of both files. */
  ghost predicate AtCorner(a: seq<string>, b: seq<string>, blk: Block)
  {
    blk.line1 == |a| - blk.count && blk.line2 == |b| - blk.count
  }

  /** The soundness claim about one reported block: a duplicate, or (as written only) a trailing block at the corner. */
  ghost predicate Sound(a: seq<string>, b: seq<string>, f1: string, f2: string, t: nat, fixed: bool, blk: Block)
  {
    InBounds(a, b, f1, f2, t, blk) && (Duplicate(a, b, f1, f2, t, blk) || (!fixed && AtCorner(a, b, blk)))
  }

  // ---------------------------------------------------------------------
  // Soundness of the sweeps
  // ---------------------------------------------------------------------

  /** A maximal closed run of vertical diagonal y is a maximal match y lines apart, unless it is the identity. */
  lemma VRunBlock(a: seq<string>, b: seq<string>, y: nat, f1: string, f2: string, t: nat, r: Run)
    requires y < |a| && MaximalClosedRun(VDiag(a, b, y), r) && r.len >= t
    ensures var blk := Block(f1, y + r.end - r.len, f2, r.end - r.len, r.len);
      blk.line1 - blk.line2 == y && (IsIdentity(blk) || Duplicate(a, b, f1, f2, t, blk))
  {
    var d := VDiag(a, b, y);
    var l1, l2 := y + r.end - r.len, r.end - r.len;
    forall k | l1 <= k < l1 + r.len
      ensures a[k] == b[k - l1 + l2]
    {
      assert d[k - y] == (a[k] == b[k - y]);
    }
    assert d[r.end] == (a[l1 + r.len] == b[l2 + r.len]);
    if r.end != r.len {
      assert d[r.end - r.len - 1] == (a[l1 - 1] == b[l2 - 1]);
    }
  }

  /** The same for horizontal diagonal x, which is never the identity. */
  lemma HRunBlock(a: seq<string>, b: seq<string>, x: nat, f1: string, f2: string, t: nat, r: Run)
    requires 1 <= x < |b| && f1 != f2 && MaximalClosedRun(HDiag(a, b, x), r) && r.len >= t
    ensures var blk := Block(f1, r.end - r.len, f2, x + r.end - r.len, r.len);
      blk.line2 - blk.line1 == x && Duplicate(a, b, f1, f2, t, blk)
  {
    var d := HDiag(a, b, x);
    var l1, l2 := r.end - r.len, x + r.end - r.len;
    forall k | l1 <= k < l1 + r.len
      ensures a[k] == b[k - l1 + l2]
    {
      assert d[k] == (a[k] == b[x + k]);
    }
    assert d[r.end] == (a[l1 + r.len] == b[l2 + r.len]);
    if r.end != r.len {
      assert d[r.end - r.len - 1] == (a[l1 - 1] == b[l2 - 1]);
    }
  }

  /** Vertical blocks ended by a mismatch are duplicates lying y lines apart. */
  lemma {:induction false} VBlocksSound(a: seq<string>, b: seq<string>, y: nat, f1: string, f2: string, t: nat, rs: seq<Run>)
    requires y < |a| && RunsOk(VDiag(a, b, y), t, rs)
    ensures forall blk :: blk in VBlocks(rs, y, f1, f2) ==> Duplicate(a, b, f1, f2, t, blk) && blk.line1 - blk.line2 == y
  {
    if rs != [] {
      var rest, r := rs[..|rs| - 1], rs[|rs| - 1];
      RunsOkPrefix(VDiag(a, b, y), t, rs, |rs| - 1);
      VBlocksSound(a, b, y, f1, f2, t, rest);
      VRunBlock(a, b, y, f1, f2, t, r);
      var blk := Block(f1, y + r.end - r.len, f2, r.end - r.len, r.len);
      DuplicatesAppend(a, b, f1, f2, t, y, VBlocks(rest, y, f1, f2), blk);
    }
  }

  /** Appending what the identity filter keeps of a duplicate y lines apart keeps a list of such duplicates. */
  lemma DuplicatesAppend(a: seq<string>, b: seq<string>, f1: string, f2: string, t: nat, y: int, bs: seq<Block>, blk: Block)
    requires forall k :: k in bs ==> Duplicate(a, b, f1, f2, t, k) && k.line1 - k.line2 == y
    requires blk.line1 - blk.line2 == y && (IsIdentity(blk) || Duplicate(a, b, f1, f2, t, blk))
    ensures forall k :: k in bs + Kept(blk) ==> Duplicate(a, b, f1, f2, t, k) && k.line1 - k.line2 == y
  {
  }

  /** Horizontal blocks ended by a mismatch are duplicates lying x lines apart. */
  lemma {:induction false} HBlocksSound(a: seq<string>, b: seq<string>, x: nat, f1: string, f2: string, t: nat, rs: seq<Run>)
    requires 1 <= x < |b| && f1 != f2 && RunsOk(HDiag(a, b, x), t, rs)
    ensures forall blk :: blk in HBlocks(rs, x, f1, f2) ==> Duplicate(a, b, f1, f2, t, blk) && blk.line2 - blk.line1 == x
  {
    if rs != [] {
      RunsOkPrefix(HDiag(a, b, x), t, rs, |rs| - 1);
      HBlocksSound(a, b, x, f1, f2, t, rs[..|rs| - 1]);
      HRunBlock(a, b, x, f1, f2, t, rs[|rs| - 1]);
    }
  }

  /** The trailing block of a vertical diagonal: at the corner as written, a duplicate on its diagonal when fixed. */
  lemma VTrailSound(a: seq<string>, b: seq<string>, y: nat, f1: string, f2: string, t: nat, fixed: bool)
    requires y < |a|
    ensures forall blk :: blk in VTrail(a, b, y, f1, f2, t, fixed) ==> Sound(a, b, f1, f2, t, fixed, blk)
    ensures fixed ==> forall blk :: blk in VTrail(a, b, y, f1, f2, t, fixed) ==> blk.line1 - blk.line2 == y
  {
    var d := VDiag(a, b, y);
    var l := OpenRun(d);
    VTrailIs(a, b, y, f1, f2, t, fixed);
    VOpenRunMatch(a, b, y);
    TrailSound(a, b, f1, f2, t, fixed, VTrail(a, b, y, f1, f2, t, fixed), y, |d|, l);
  }

  lemma VTrailIs(a: seq<string>, b: seq<string>, y: nat, f1: string, f2: string, t: nat, fixed: bool)
    requires y < |a|
    ensures var d := VDiag(a, b, y); var l := OpenRun(d);
       VTrail(a, b, y, f1, f2, t, fixed)
         == if l < t then [] else if fixed then Kept(Block(f1, y + |d| - l, f2, |d| - l, l))
                                  else Kept(Block(f1, |a| - l, f2, |b| - l, l))
  {
  }

  /** The trail of a vertical diagonal of length n whose open run, l lines long, is a maximal match, is sound. */
  lemma TrailSound(a: seq<string>, b: seq<string>, f1: string, f2: string, t: nat, fixed: bool, trail: seq<Block>, y: nat, n: nat, l: nat)
    requires l <= n && y + n <= |a| && n <= |b|
    requires MaximalMatch(a, b, y + n - l, n - l, l)
    requires trail == if l < t then [] else if fixed then Kept(Block(f1, y + n - l, f2, n - l, l))
                                                     else Kept(Block(f1, |a| - l, f2, |b| - l, l))
    ensures forall blk :: blk in trail ==> Sound(a, b, f1, f2, t, fixed, blk)
    ensures fixed ==> forall blk :: blk in trail ==> blk.line1 - blk.line2 == y
  {
    if l >= t {
      if fixed {
        KeptDuplicate(a, b, f1, f2, t, Block(f1, y + n - l, f2, n - l, l), y);
      } else {
        KeptAtCorner(a, b, f1, f2, t, Block(f1, |a| - l, f2, |b| - l, l));
      }
    }
  }

  /** A maximal match y >= 0 lines apart survives the identity filter only as a duplicate. */
  lemma KeptDuplicate(a: seq<string>, b: seq<string>, f1: string, f2: string, t: nat, blk: Block, y: nat)
    requires blk.file1 == f1 && blk.file2 == f2 && blk.count >= t && blk.line1 - blk.line2 == y
    requires MaximalMatch(a, b, blk.line1, blk.line2, blk.count)
    ensures forall k :: k in Kept(blk) ==> Sound(a, b, f1, f2, t, true, k) && k.line1 - k.line2 == y
  {
  }

  /** A block of at least t lines at the last lines of both files survives the identity filter only as a corner block. */
  lemma KeptAtCorner(a: seq<string>, b: seq<string>, f1: string, f2: string, t: nat, blk: Block)
    requires blk.file1 == f1 && blk.file2 == f2 && blk.count >= t && blk.count <= |a| && blk.count <= |b|
    requires AtCorner(a, b, blk)
    ensures forall k :: k in Kept(blk) ==> Sound(a, b, f1, f2, t, false, k)
  {
  }

  /** The run open at the end of vertical diagonal y is a maximal match (it ends where a diagonal ends). */
  lemma VOpenRunMatch(a: seq<string>, b: seq<string>, y: nat)
    requires y < |a|
    ensures var d := VDiag(a, b, y); var l := OpenRun(d);
      MaximalMatch(a, b, y + |d| - l, |d| - l, l)
  {
    var d := VDiag(a, b, y);
    var l := OpenRun(d);
    var l1, l2 := y + |d| - l, |d| - l;
    forall k | l1 <= k < l1 + l
      ensures a[k] == b[k - l1 + l2]
    {
      assert d[k - y] == (a[k] == b[k - y]);
    }
    if l < |d| {
      assert d[|d| - 1 - l] == (a[l1 - 1] == b[l2 - 1]);
    }
  }

  /** The trailing block of a horizontal diagonal likewise. */
  lemma HTrailSound(a: seq<string>, b: seq<string>, x: nat, f1: string, f2: string, t: nat, fixed: bool)
    requires 1 <= x < |b| && f1 != f2
    ensures forall blk :: blk in HTrail(a, b, x, f1, f2, t, fixed) ==> Sound(a, b, f1, f2, t, fixed, blk)
    ensures fixed ==> forall blk :: blk in HTrail(a, b, x, f1, f2, t, fixed) ==> blk.line2 - blk.line1 == x
  {
    var d := HDiag(a, b, x);
    var l := OpenRun(d);
    HTrailIs(a, b, x, f1, f2, t, fixed);
    HOpenRunMatch(a, b, x);
    HTrailBlockSound(a, b, f1, f2, t, fixed, HTrail(a, b, x, f1, f2, t, fixed), x, |d|, l);
  }

  lemma HTrailIs(a: seq<string>, b: seq<string>, x: nat, f1: string, f2: string, t: nat, fixed: bool)
    requires x < |b|
    ensures var d := HDiag(a, b, x); var l := OpenRun(d);
       HTrail(a, b, x, f1, f2, t, fixed)
         == if l < t then [] else if fixed then [Block(f1, |d| - l, f2, x + |d| - l, l)]
                                  else [Block(f1, |a| - l, f2, |b| - l, l)]
  {
  }

  /** The run open at the end of horizontal diagonal x is a maximal match. */
  lemma HOpenRunMatch(a: seq<string>, b: seq<string>, x: nat)
    requires x < |b|
    ensures var d := HDiag(a, b, x); var l := OpenRun(d);
      MaximalMatch(a, b, |d| - l, x + |d| - l, l)
  {
    var d := HDiag(a, b, x);
    var l := OpenRun(d);
    var l1, l2 := |d| - l, x + |d| - l;
    forall k | l1 <= k < l1 + l
      ensures a[k] == b[k - l1 + l2]
    {
      assert d[k] == (a[k] == b[x + k]);
    }
    if l < |d| {
      assert d[|d| - 1 - l] == (a[l1 - 1] == b[l2 - 1]);
    }
  }

  /** The trail of a horizontal diagonal of length n, for two different files, whose open run is a maximal match, is sound. */
  lemma HTrailBlockSound(a: seq<string>, b: seq<string>, f1: string, f2: string, t: nat, fixed: bool, trail: seq<Block>, x: nat, n: nat, l: nat)
    requires f1 != f2 && l <= n && n <= |a| && x + n <= |b|
    requires MaximalMatch(a, b, n - l, x + n - l, l)
    requires trail == if l < t then [] else if fixed then [Block(f1, n - l, f2, x + n - l, l)]
                                                     else [Block(f1, |a| - l, f2, |b| - l, l)]
    ensures forall blk :: blk in trail ==> Sound(a, b, f1, f2, t, fixed, blk)
    ensures fixed ==> forall blk :: blk in trail ==> blk.line2 - blk.line1 == x
  {
  }

  lemma VScanSound(a: seq<string>, b: seq<string>, y: nat, f1: string, f2: string, t: nat, fixed: bool)
    requires y < |a|
    ensures forall blk :: blk in VScan(a, b, y, f1, f2, t, fixed) ==> Sound(a, b, f1, f2, t, fixed, blk)
  {
    ClosedRunsSound(VDiag(a, b, y), t);
    VBlocksSound(a, b, y, f1, f2, t, ClosedRuns(VDiag(a, b, y), t));
    VTrailSound(a, b, y, f1, f2, t, fixed);
  }

  lemma HScanSound(a: seq<string>, b: seq<string>, x: nat, f1: string, f2: string, t: nat, fixed: bool)
    requires 1 <= x < |b| && f1 != f2
    ensures forall blk :: blk in HScan(a, b, x, f1, f2, t, fixed) ==> Sound(a, b, f1, f2, t, fixed, blk)
  {
    ClosedRunsSound(HDiag(a, b, x), t);
    HBlocksSound(a, b, x, f1, f2, t, ClosedRuns(HDiag(a, b, x), t));
    HTrailSound(a, b, x, f1, f2, t, fixed);
  }

  lemma ScanSound(a: seq<string>, b: seq<string>, f1: string, f2: string, t: nat, fixed: bool)
    ensures forall blk :: blk in Scan(a, b, f1, f2, t, fixed) ==> Sound(a, b, f1, f2, t, fixed, blk)
  {
    var v := Sweep(VScans(a, b, f1, f2, t, fixed), 0, |a|);
    var h := if f1 != f2 then Sweep(HScans(a, b, f1, f2, t, fixed), 1, |b|) else [];
    forall blk | blk in v + h
      ensures Sound(a, b, f1, f2, t, fixed, blk)
    {
      if blk in v {
        var y := SweepFrom(VScans(a, b, f1, f2, t, fixed), 0, |a|, blk);
        VScanSound(a, b, y, f1, f2, t, fixed);
      } else {
        var x := SweepFrom(HScans(a, b, f1, f2, t, fixed), 1, |b|, blk);
        HScanSound(a, b, x, f1, f2, t, fixed);
      }
    }
  }

  /**
   * process as written: every block it reports has at least t lines, lies
   * within both files, is not a line against itself, and is a maximal
   * duplicate, except that a run still open at a diagonal's end is placed
   * at the last lines of both files.
   */
  lemma PairScanSound(a: seq<string>, b: seq<string>, f1: string, f2: string, t: nat)
    ensures forall blk :: blk in PairScan(a, b, f1, f2, t) ==>
      InBounds(a, b, f1, f2, t, blk) && (Duplicate(a, b, f1, f2, t, blk) || AtCorner(a, b, blk))
  {
    ScanSound(a, b, f1, f2, t, false);
  }

  /** With the trailing run placed on its diagonal, every reported block is a maximal duplicate. */
  lemma CorrectedPairScanSound(a: seq<string>, b: seq<string>, f1: string, f2: string, t: nat)
    ensures forall blk :: blk in CorrectedPairScan(a, b, f1, f2, t) ==> Duplicate(a, b, f1, f2, t, blk)
  {
    ScanSound(a, b, f1, f2, t, true);
  }

  // ---------------------------------------------------------------------
  // Completeness of the sweeps
  // ---------------------------------------------------------------------

  /** The block of a closed run s .. s+c-1 of vertical diagonal y, when not the identity. */
  lemma VStretchIn(rs: seq<Run>, s: nat, c: nat, y: nat, f1: string, f2: string)
    requires Run(s + c, c) in rs && !IsIdentity(Block(f1, y + s, f2, s, c))
    ensures Block(f1, y + s, f2, s, c) in VBlocks(rs, y, f1, f2)
  {
    VBlocksHas(rs, Run(s + c, c), y, f1, f2);
  }

  lemma {:induction false} VBlocksHas(rs: seq<Run>, r: Run, y: nat, f1: string, f2: string)
    requires r in rs && !IsIdentity(Block(f1, y + r.end - r.len, f2, r.end - r.len, r.len))
    ensures Block(f1, y + r.end - r.len, f2, r.end - r.len, r.len) in VBlocks(rs, y, f1, f2)
  {
    if r != rs[|rs| - 1] {
      assert rs == rs[..|rs| - 1] + [rs[|rs| - 1]];
      VBlocksHas(rs[..|rs| - 1], r, y, f1, f2);
    }
  }

  /** The block of a closed run s .. s+c-1 of horizontal diagonal x. */
  lemma HStretchIn(rs: seq<Run>, s: nat, c: nat, x: nat, f1: string, f2: string)
    requires Run(s + c, c) in rs
    ensures Block(f1, s, f2, x + s, c) in HBlocks(rs, x, f1, f2)
  {
    HBlocksHas(rs, Run(s + c, c), x, f1, f2);
  }

  lemma {:induction false} HBlocksHas(rs: seq<Run>, r: Run, x: nat, f1: string, f2: string)
    requires r in rs
    ensures Block(f1, r.end - r.len, f2, x + r.end - r.len, r.len) in HBlocks(rs, x, f1, f2)
  {
    if r != rs[|rs| - 1] {
      assert rs == rs[..|rs| - 1] + [rs[|rs| - 1]];
      HBlocksHas(rs[..|rs| - 1], r, x, f1, f2);
    }
  }

  lemma InLeft(p: seq<Block>, q: seq<Block>, blk: Block)
    requires blk in p
    ensures blk in p + q
  {
  }

  lemma InRight(p: seq<Block>, q: seq<Block>, blk: Block)
    requires blk in q
    ensures blk in p + q
  {
  }

  /** A duplicate ends at a mismatch, or at the end of both files, or at the end of just one. */
  predicate EndsWell(a: seq<string>, b: seq<string>, fixed: bool, blk: Block)
  {
    fixed || ((blk.line1 + blk.count == |a|) == (blk.line2 + blk.count == |b|))
  }

  /** A duplicate seen on its diagonal d, where it starts at s: a maximal stretch of matches there. */
  ghost predicate OnDiagonal(d: seq<bool>, s: nat, c: nat)
  {
    && s + c <= |d|
    && (forall k :: s <= k < s + c ==> d[k])
    && (s == 0 || !d[s - 1])
    && (s + c < |d| ==> !d[s + c])
  }

  lemma VDiagOfDuplicate(a: seq<string>, b: seq<string>, f1: string, f2: string, t: nat, blk: Block)
    requires Duplicate(a, b, f1, f2, t, blk) && blk.line1 >= blk.line2
    ensures OnDiagonal(VDiag(a, b, blk.line1 - blk.line2), blk.line2, blk.count)
  {
    var y: nat := blk.line1 - blk.line2;
    var d := VDiag(a, b, y);
    var l1, l2, c := blk.line1, blk.line2, blk.count;
    forall k | l2 <= k < l2 + c ensures d[k] {
      assert a[y + k] == b[y + k - l1 + l2];
    }
    if l2 != 0 {
      assert d[l2 - 1] == (a[l1 - 1] == b[l2 - 1]);
    }
    if l2 + c < |d| {
      assert d[l2 + c] == (a[l1 + c] == b[l2 + c]);
    }
  }

  lemma HDiagOfDuplicate(a: seq<string>, b: seq<string>, f1: string, f2: string, t: nat, blk: Block)
    requires Duplicate(a, b, f1, f2, t, blk) && blk.line1 < blk.line2
    ensures OnDiagonal(HDiag(a, b, blk.line2 - blk.line1), blk.line1, blk.count)
  {
    var x: nat := blk.line2 - blk.line1;
    var d := HDiag(a, b, x);
    var l1, l2, c := blk.line1, blk.line2, blk.count;
    forall k | l1 <= k < l1 + c ensures d[k] {
      assert a[k] == b[k - l1 + l2];
    }
    if l1 != 0 {
      assert d[l1 - 1] == (a[l1 - 1] == b[l2 - 1]);
    }
    if l1 + c < |d| {
      assert d[l1 + c] == (a[l1 + c] == b[l2 + c]);
    }
  }

  /** A maximal stretch ended by a mismatch is one of the diagonal's closed runs. */
  lemma ClosedStretch(d: seq<bool>, s: nat, c: nat, t: nat)
    requires OnDiagonal(d, s, c) && s + c < |d| && c >= t
    ensures Run(s + c, c) in ClosedRuns(d, t)
  {
    MaximalIsOpenRun(d, Run(s + c, c));
    ClosedRunsComplete(d, t, s + c);
  }

  /** A maximal stretch reaching the diagonal's end is its open run. */
  lemma OpenStretch(d: seq<bool>, s: nat, c: nat)
    requires OnDiagonal(d, s, c) && s + c == |d|
    ensures OpenRun(d) == c
  {
    OpenRunExact(d, c);
  }

  /** A stretch of vertical diagonal y ended by a mismatch is reported by the vertical sweep, unless it is the identity. */
  lemma VClosedFound(a: seq<string>, b: seq<string>, y: nat, f1: string, f2: string, t: nat, fixed: bool, s: nat, c: nat)
    requires y < |a| && OnDiagonal(VDiag(a, b, y), s, c) && s + c < |VDiag(a, b, y)| && c >= t
    requires !IsIdentity(Block(f1, y + s, f2, s, c))
    ensures Block(f1, y + s, f2, s, c) in VScan(a, b, y, f1, f2, t, fixed)
  {
    var d := VDiag(a, b, y);
    ClosedStretch(d, s, c, t);
    VStretchIn(ClosedRuns(d, t), s, c, y, f1, f2);
    InLeft(VBlocks(ClosedRuns(d, t), y, f1, f2), VTrail(a, b, y, f1, f2, t, fixed), Block(f1, y + s, f2, s, c));
  }

  /** A stretch reaching the end of vertical diagonal y is its trailing block, when fixed or when that end is the corner. */
  lemma VTrailFound(a: seq<string>, b: seq<string>, y: nat, f1: string, f2: string, t: nat, fixed: bool, s: nat, c: nat)
    requires y < |a| && OnDiagonal(VDiag(a, b, y), s, c) && s + c == |VDiag(a, b, y)| && c >= t
    requires !IsIdentity(Block(f1, y + s, f2, s, c))
    requires fixed || (y + s + c == |a| && s + c == |b|)
    ensures Block(f1, y + s, f2, s, c) in VScan(a, b, y, f1, f2, t, fixed)
  {
    var d := VDiag(a, b, y);
    OpenStretch(d, s, c);
    assert VTrail(a, b, y, f1, f2, t, fixed) == [Block(f1, y + s, f2, s, c)];
    InRight(VBlocks(ClosedRuns(d, t), y, f1, f2), VTrail(a, b, y, f1, f2, t, fixed), Block(f1, y + s, f2, s, c));
  }

  /** A stretch of horizontal diagonal x ended by a mismatch is reported by the horizontal sweep. */
  lemma HClosedFound(a: seq<string>, b: seq<string>, x: nat, f1: string, f2: string, t: nat, fixed: bool, s: nat, c: nat)
    requires x < |b| && OnDiagonal(HDiag(a, b, x), s, c) && s + c < |HDiag(a, b, x)| && c >= t
    ensures Block(f1, s, f2, x + s, c) in HScan(a, b, x, f1, f2, t, fixed)
  {
    var d := HDiag(a, b, x);
    ClosedStretch(d, s, c, t);
    HStretchIn(ClosedRuns(d, t), s, c, x, f1, f2);
    InLeft(HBlocks(ClosedRuns(d, t), x, f1, f2), HTrail(a, b, x, f1, f2, t, fixed), Block(f1, s, f2, x + s, c));
  }

  /** A stretch reaching the end of horizontal diagonal x is its trailing block, when fixed or when that end is the corner. */
  lemma HTrailFound(a: seq<string>, b: seq<string>, x: nat, f1: string, f2: string, t: nat, fixed: bool, s: nat, c: nat)
    requires x < |b| && OnDiagonal(HDiag(a, b, x), s, c) && s + c == |HDiag(a, b, x)| && c >= t
    requires fixed || (s + c == |a| && x + s + c == |b|)
    ensures Block(f1, s, f2, x + s, c) in HScan(a, b, x, f1, f2, t, fixed)
  {
    var d := HDiag(a, b, x);
    OpenStretch(d, s, c);
    assert HTrail(a, b, x, f1, f2, t, fixed) == [Block(f1, s, f2, x + s, c)];
    InRight(HBlocks(ClosedRuns(d, t), x, f1, f2), HTrail(a, b, x, f1, f2, t, fixed), Block(f1, s, f2, x + s, c));
  }

  /** A duplicate on or below the main diagonal is found by the vertical sweep. */
  lemma VerticalComplete(a: seq<string>, b: seq<string>, f1: string, f2: string, t: nat, fixed: bool, blk: Block) returns (y: nat)
    requires t >= 1 && Duplicate(a, b, f1, f2, t, blk) && blk.line1 >= blk.line2 && EndsWell(a, b, fixed, blk)
    ensures y == blk.line1 - blk.line2 && y < |a|
    ensures blk in VScan(a, b, y, f1, f2, t, fixed)
  {
    DuplicateBounds(a, b, f1, f2, t, blk);
    y := blk.line1 - blk.line2;
    var s: nat, c := blk.line2, blk.count;
    VDiagOfDuplicate(a, b, f1, f2, t, blk);
    assert blk == Block(f1, y + s, f2, s, c);
    if s + c < |VDiag(a, b, y)| {
      VClosedFound(a, b, y, f1, f2, t, fixed, s, c);
    } else {
      VTrailFound(a, b, y, f1, f2, t, fixed, s, c);
    }
  }

  /** A duplicate above the main diagonal (files of different names) is found by the horizontal sweep. */
  lemma HorizontalComplete(a: seq<string>, b: seq<string>, f1: string, f2: string, t: nat, fixed: bool, blk: Block) returns (x: nat)
    requires t >= 1 && Duplicate(a, b, f1, f2, t, blk) && blk.line1 < blk.line2 && EndsWell(a, b, fixed, blk)
    ensures x == blk.line2 - blk.line1 && 1 <= x < |b|
    ensures blk in HScan(a, b, x, f1, f2, t, fixed)
  {
    DuplicateBounds(a, b, f1, f2, t, blk);
    x := blk.line2 - blk.line1;
    var s: nat, c := blk.line1, blk.count;
    HDiagOfDuplicate(a, b, f1, f2, t, blk);
    assert blk == Block(f1, s, f2, x + s, c);
    if s + c < |HDiag(a, b, x)| {
      HClosedFound(a, b, x, f1, f2, t, fixed, s, c);
    } else {
      HTrailFound(a, b, x, f1, f2, t, fixed, s, c);
    }
  }

  lemma DuplicateBounds(a: seq<string>, b: seq<string>, f1: string, f2: string, t: nat, blk: Block)
    requires Duplicate(a, b, f1, f2, t, blk)
    ensures 0 <= blk.line1 && blk.line1 + blk.count <= |a| && 0 <= blk.line2 && blk.line2 + blk.count <= |b|
    ensures blk.count >= t
  {
  }

  lemma VScansAt(a: seq<string>, b: seq<string>, f1: string, f2: string, t: nat, fixed: bool, y: nat)
    requires y < |a|
    ensures VScans(a, b, f1, f2, t, fixed)(y) == VScan(a, b, y, f1, f2, t, fixed)
  {
  }

  lemma HScansAt(a: seq<string>, b: seq<string>, f1: string, f2: string, t: nat, fixed: bool, x: nat)
    requires x < |b|
    ensures HScans(a, b, f1, f2, t, fixed)(x) == HScan(a, b, x, f1, f2, t, fixed)
  {
  }

  lemma VerticalFound(a: seq<string>, b: seq<string>, f1: string, f2: string, t: nat, fixed: bool, blk: Block)
    requires t >= 1 && Duplicate(a, b, f1, f2, t, blk) && blk.line1 >= blk.line2 && EndsWell(a, b, fixed, blk)
    ensures blk in Sweep(VScans(a, b, f1, f2, t, fixed), 0, |a|)
  {
    var y := VerticalComplete(a, b, f1, f2, t, fixed, blk);
    VScanInSweep(a, b, f1, f2, t, fixed, y, blk);
  }

  lemma VScanInSweep(a: seq<string>, b: seq<string>, f1: string, f2: string, t: nat, fixed: bool, y: nat, blk: Block)
    requires y < |a| && blk in VScan(a, b, y, f1, f2, t, fixed)
    ensures blk in Sweep(VScans(a, b, f1, f2, t, fixed), 0, |a|)
  {
    VScansAt(a, b, f1, f2, t, fixed, y);
    SweepHas(VScans(a, b, f1, f2, t, fixed), 0, |a|, y, blk);
  }

  lemma HorizontalFound(a: seq<string>, b: seq<string>, f1: string, f2: string, t: nat, fixed: bool, blk: Block)
    requires t >= 1 && Duplicate(a, b, f1, f2, t, blk) && blk.line1 < blk.line2 && EndsWell(a, b, fixed, blk)
    ensures blk in Sweep(HScans(a, b, f1, f2, t, fixed), 1, |b|)
  {
    var x := HorizontalComplete(a, b, f1, f2, t, fixed, blk);
    HScanInSweep(a, b, f1, f2, t, fixed, x, blk);
  }

  lemma HScanInSweep(a: seq<string>, b: seq<string>, f1: string, f2: string, t: nat, fixed: bool, x: nat, blk: Block)
    requires 1 <= x < |b| && blk in HScan(a, b, x, f1, f2, t, fixed)
    ensures blk in Sweep(HScans(a, b, f1, f2, t, fixed), 1, |b|)
  {
    HScansAt(a, b, f1, f2, t, fixed, x);
    SweepHas(HScans(a, b, f1, f2, t, fixed), 1, |b|, x, blk);
  }

  lemma ScanComplete(a: seq<string>, b: seq<string>, f1: string, f2: string, t: nat, fixed: bool, blk: Block)
    requires t >= 1 && Duplicate(a, b, f1, f2, t, blk) && EndsWell(a, b, fixed, blk)
    ensures blk in Scan(a, b, f1, f2, t, fixed)
  {
    var v := Sweep(VScans(a, b, f1, f2, t, fixed), 0, |a|);
    var h := if f1 != f2 then Sweep(HScans(a, b, f1, f2, t, fixed), 1, |b|) else [];
    if blk.line1 >= blk.line2 {
      VerticalFound(a, b, f1, f2, t, fixed, blk);
      InLeft(v, h, blk);
    } else {
      HorizontalFound(a, b, f1, f2, t, fixed, blk);
      InRight(v, h, blk);
    }
  }

  /**
   * process as written finds every duplicate that ends at a mismatch or
   * at the last lines of both files; one that ends at the end of only one
   * of the files is the trailing case it misplaces.
   */
  lemma PairScanComplete(a: seq<string>, b: seq<string>, f1: string, f2: string, t: nat, blk: Block)
    requires t >= 1 && Duplicate(a, b, f1, f2, t, blk)
    requires (blk.line1 + blk.count == |a|) == (blk.line2 + blk.count == |b|)
    ensures blk in PairScan(a, b, f1, f2, t)
  {
    ScanComplete(a, b, f1, f2, t, false, blk);
  }

  /** With the trailing run placed on its diagonal, every duplicate is reported. */
  lemma CorrectedPairScanComplete(a: seq<string>, b: seq<string>, f1: string, f2: string, t: nat, blk: Block)
    requires t >= 1 && Duplicate(a, b, f1, f2, t, blk)
    ensures blk in CorrectedPairScan(a, b, f1, f2, t)
  {
    ScanComplete(a, b, f1, f2, t, true, blk);
  }

  /** The corrected scan reports exactly the duplicates. */
  lemma CorrectedPairScanExact(a: seq<string>, b: seq<string>, f1: string, f2: string, t: nat, blk: Block)
    requires t >= 1
    ensures blk in CorrectedPairScan(a, b, f1, f2, t) <==> Duplicate(a, b, f1, f2, t, blk)
  {
    CorrectedPairScanSound(a, b, f1, f2, t);
    if Duplicate(a, b, f1, f2, t, blk) {
      CorrectedPairScanComplete(a, b, f1, f2, t, blk);
    }
  }

  // ---------------------------------------------------------------------
  // The trailing-run placement, on examples
  // ---------------------------------------------------------------------

  /**
   * A file compared with itself (same name, same lines): as written, every
   * trailing block lands on the main diagonal and is filtered, so what is
   * reported is all genuine duplicates.
   */
  lemma SelfComparisonSound(a: seq<string>, f: string, t: nat)
    ensures forall blk :: blk in PairScan(a, a, f, f, t) ==> Duplicate(a, a, f, f, t, blk)
  {
    PairScanSound(a, a, f, f, t);
  }

  /** ... but a duplicate that reaches the end of the file is lost: p q p q repeats its first two lines, and nothing is reported. */
  lemma TrailingRunLost(p: string, q: string, f: string)
    requires p != q
    ensures var a := [p, q, p, q];
      && PairScan(a, a, f, f, 2) == []
      && Duplicate(a, a, f, f, 2, Block(f, 2, f, 0, 2))
      && Block(f, 2, f, 0, 2) in CorrectedPairScan(a, a, f, f, 2)
  {
    var a := [p, q, p, q];
    LostScan(p, q, f);
    assert Duplicate(a, a, f, f, 2, Block(f, 2, f, 0, 2));
    CorrectedPairScanComplete(a, a, f, f, 2, Block(f, 2, f, 0, 2));
  }

  /** process as written reports nothing for p q p q against itself at threshold 2. */
  lemma LostScan(p: string, q: string, f: string)
    requires p != q
    ensures PairScan([p, q, p, q], [p, q, p, q], f, f, 2) == []
  {
    LostDiagonals(p, q, f);
    SweepOfFour(VScans([p, q, p, q], [p, q, p, q], f, f, 2, false));
  }

  lemma LostDiagonals(p: string, q: string, f: string)
    requires p != q
    ensures var g := VScans([p, q, p, q], [p, q, p, q], f, f, 2, false);
      g(0) == [] && g(1) == [] && g(2) == [] && g(3) == []
  {
    LostMatching(p, q, f, 0);
    LostMismatching(p, q, f, 1);
    LostMatching(p, q, f, 2);
    LostMismatching(p, q, f, 3);
  }

  /** Diagonals 0 and 2 match throughout; their trailing runs are misplaced onto identical lines and dropped. */
  lemma LostMatching(p: string, q: string, f: string, y: nat)
    requires y == 0 || y == 2
    ensures VScans([p, q, p, q], [p, q, p, q], f, f, 2, false)(y) == []
  {
    var a := [p, q, p, q];
    assert forall k :: 0 <= k < Min(|a|, |a| - y) ==> a[y + k] == a[k];
    VScanAllMatch(a, a, y, f, f, 2, false);
  }

  /** Diagonals 1 and 3 match nowhere. */
  lemma LostMismatching(p: string, q: string, f: string, y: nat)
    requires p != q && (y == 1 || y == 3)
    ensures VScans([p, q, p, q], [p, q, p, q], f, f, 2, false)(y) == []
  {
    var a := [p, q, p, q];
    assert forall k :: 0 <= k < Min(|a|, |a| - y) ==> a[y + k] != a[k];
    VScanNoMatch(a, a, y, f, f, 2, false);
  }

  /**
   * Two files of different names where a run ends at the end of one file
   * only: for a = p q r and b = q r s u, the block q r is placed at lines
   * 1 and 2, which differ, instead of lines 1 and 0.
   */
  lemma TrailingRunMisplaced(p: string, q: string, r: string, s: string, u: string, f1: string, f2: string)
    requires q != s && f1 != f2
    ensures var a, b := [p, q, r], [q, r, s, u];
      && Block(f1, 1, f2, 2, 2) in PairScan(a, b, f1, f2, 2)
      && a[1] != b[2]
      && Block(f1, 1, f2, 0, 2) in CorrectedPairScan(a, b, f1, f2, 2)
  {
    var a, b := [p, q, r], [q, r, s, u];
    var f := VScans(a, b, f1, f2, 2, false);
    VScanAllMatch(a, b, 1, f1, f2, 2, false);
    SweepHas(f, 0, 3, 1, Block(f1, 1, f2, 2, 2));
    InLeft(Sweep(f, 0, 3), Sweep(HScans(a, b, f1, f2, 2, false), 1, 4), Block(f1, 1, f2, 2, 2));
    assert MaximalMatch(a, b, 1, 0, 2);
    CorrectedPairScanComplete(a, b, f1, f2, 2, Block(f1, 1, f2, 0, 2));
  }

  /** Two files of the same three distinct lines under different names, at threshold 2: exactly one block of all three lines. */
  lemma ThreeEqualLines(u: string, v: string, w: string, f1: string, f2: string)
    requires u != v && v != w && u != w && f1 != f2
    ensures var a := [u, v, w];
      && Threshold(2, 100, 3, 3) == 2
      && PairScan(a, a, f1, f2, 2) == [Block(f1, 0, f2, 0, 3)]
  {
    ThreeLineDiagonals(u, v, w, f1, f2);
    SweepOfThree(VScans([u, v, w], [u, v, w], f1, f2, 2, false));
    SweepOfTwoFromOne(HScans([u, v, w], [u, v, w], f1, f2, 2, false));
  }

  lemma ThreeLineDiagonals(u: string, v: string, w: string, f1: string, f2: string)
    requires u != v && v != w && u != w && f1 != f2
    ensures var g, h := VScans([u, v, w], [u, v, w], f1, f2, 2, false), HScans([u, v, w], [u, v, w], f1, f2, 2, false);
      g(0) == [Block(f1, 0, f2, 0, 3)] && g(1) == [] && g(2) == [] && h(1) == [] && h(2) == []
  {
    var a := [u, v, w];
    VScanAllMatch(a, a, 0, f1, f2, 2, false);
    VScanNoMatch(a, a, 1, f1, f2, 2, false);
    VScanNoMatch(a, a, 2, f1, f2, 2, false);
    HScanNoMatch(a, a, 1, f1, f2, 2, false);
    HScanNoMatch(a, a, 2, f1, f2, 2, false);
  }

  lemma SweepOfFour(g: nat -> seq<Block>)
    ensures Sweep(g, 0, 4) == g(0) + g(1) + g(2) + g(3)
  {
  }

  lemma SweepOfThree(g: nat -> seq<Block>)
    ensures Sweep(g, 0, 3) == g(0) + g(1) + g(2)
  {
  }

  lemma SweepOfTwoFromOne(g: nat -> seq<Block>)
    ensures Sweep(g, 1, 3) == g(1) + g(2)
  {
  }

  /** A vertical diagonal without a match reports nothing. */
  lemma VScanNoMatch(a: seq<string>, b: seq<string>, y: nat, f1: string, f2: string, t: nat, fixed: bool)
    requires y < |a| && t >= 1 && forall k :: 0 <= k < Min(|b|, |a| - y) ==> a[y + k] != b[k]
    ensures VScans(a, b, f1, f2, t, fixed)(y) == []
  {
    var d := VDiag(a, b, y);
    assert forall k :: 0 <= k < |d| ==> !d[k];
    ClosedRunsNone(d, t);
  }

  /** A vertical diagonal of matches only reports its trailing block. */
  lemma VScanAllMatch(a: seq<string>, b: seq<string>, y: nat, f1: string, f2: string, t: nat, fixed: bool)
    requires y < |a| && forall k :: 0 <= k < Min(|b|, |a| - y) ==> a[y + k] == b[k]
    ensures var l := Min(|b|, |a| - y);
      VScans(a, b, f1, f2, t, fixed)(y)
        == if l < t then [] else if fixed then Kept(Block(f1, y, f2, 0, l)) else Kept(Block(f1, |a| - l, f2, |b| - l, l))
  {
    var d := VDiag(a, b, y);
    assert forall k :: 0 <= k < |d| ==> d[k];
    ClosedRunsAllMatch(d, t);
    VScanOneRun(a, b, y, f1, f2, t, fixed);
  }

  /** A vertical diagonal that is one run from its first line to its last reports that run alone. */
  lemma VScanOneRun(a: seq<string>, b: seq<string>, y: nat, f1: string, f2: string, t: nat, fixed: bool)
    requires y < |a|
    requires ClosedRuns(VDiag(a, b, y), t) == [] && OpenRun(VDiag(a, b, y)) == Min(|b|, |a| - y)
    ensures var l := Min(|b|, |a| - y);
      VScans(a, b, f1, f2, t, fixed)(y)
        == if l < t then [] else if fixed then Kept(Block(f1, y, f2, 0, l)) else Kept(Block(f1, |a| - l, f2, |b| - l, l))
  {
    var d := VDiag(a, b, y);
    var l := Min(|b|, |a| - y);
    assert |d| == l;
    assert VBlocks(ClosedRuns(d, t), y, f1, f2) == [];
    assert VScans(a, b, f1, f2, t, fixed)(y) == VScan(a, b, y, f1, f2, t, fixed);
  }

  /** A horizontal diagonal without a match reports nothing. */
  lemma HScanNoMatch(a: seq<string>, b: seq<string>, x: nat, f1: string, f2: string, t: nat, fixed: bool)
    requires x < |b| && t >= 1 && forall k :: 0 <= k < Min(|a|, |b| - x) ==> a[k] != b[x + k]
    ensures HScans(a, b, f1, f2, t, fixed)(x) == []
  {
    var d := HDiag(a, b, x);
    assert forall k :: 0 <= k < |d| ==> !d[k];
    ClosedRunsNone(d, t);
  }

  // ---------------------------------------------------------------------
  // The matrix capacity check
  // ---------------------------------------------------------------------

  /** The check process makes before filling the matrix, as written: the cell count strictly below the capacity. */
  predicate CapacityAssert(m: nat, n: nat, capacity: nat)
  {
    m * n < capacity
  }

  /**
   * The longest file of a corpus, every raw line of which is code, compared
   * with itself: its m * m cells fill the matrix run allocates exactly, yet
   * the check fails. A corpus of one one-line file is such a case.
   */
  lemma LongestFileFailsCapacityAssert(m: nat)
    ensures m * m <= MatrixSize(m)
    ensures !CapacityAssert(m, m, MatrixSize(m))
  {
  }

  /** The matrix size run allocates for files of at most n lines: one cell per pair of lines. */
  function MatrixSize(n: nat): (r: nat)
    ensures forall p: nat, q: nat :: p <= n && q <= n ==> p * q <= r
  {
    forall p: nat, q: nat | p <= n && q <= n ensures p * q <= n * n {
      CellsFit(p, q, n);
    }
    n * n
  }

  lemma {:induction false} CellsFit(m: nat, n: nat, maxLines: nat)
    requires m <= maxLines && n <= maxLines
    ensures m * n <= maxLines * maxLines
  {
    MulMonotone(m, n, maxLines);
    MulMonotone(maxLines, m, maxLines);
  }

  // ---------------------------------------------------------------------
  // The match matrix
  // ---------------------------------------------------------------------

  /** The match bit process stores at index i of the matrix: i is column i % |b| of row i / |b|. */
  function Cell(a: seq<string>, b: seq<string>, i: nat): bool
  {
    if |b| == 0 then false
    else
      var r := i / |b|;
      r < |a| && a[r] == b[i % |b|]
  }

  /** The matrix holds the match bits of a against b in its first |a| * |b| cells. */
  ghost predicate MatrixHolds(matrix: array<bool>, a: seq<string>, b: seq<string>)
    reads matrix
  {
    |a| * |b| <= matrix.Length && forall i :: 0 <= i < |a| * |b| ==> matrix[i] == Cell(a, b, i)
  }

  /** Cell (r, c) of an m-by-n matrix sits at index c + n * r, below m * n. */
  lemma CellIndex(m: nat, n: nat, r: nat, c: nat)
    requires r < m && c < n
    ensures c + n * r < m * n
    ensures (c + n * r) / n == r && (c + n * r) % n == c
  {
    MulMonotone(n, r + 1, m);
    var i := c + n * r;
    var q := i / n;
    assert i == n * q + i % n;
    if q < r {
      MulMonotone(n, q + 1, r);
    } else if q > r {
      MulMonotone(n, r + 1, q);
    }
  }

  /** Reading the matrix: the bit at index c + |b| * r tells whether line r of a equals line c of b. */
  lemma MatrixAt(matrix: array<bool>, a: seq<string>, b: seq<string>, r: nat, c: nat)
    requires MatrixHolds(matrix, a, b) && r < |a| && c < |b|
    ensures c + |b| * r < |a| * |b| <= matrix.Length
    ensures matrix[c + |b| * r] == (a[r] == b[c])
  {
    CellIndex(|a|, |b|, r, c);
  }

  /** The first lim of the size cells hold their match bits, the others are clear. */
  ghost predicate FilledBelow(matrix: array<bool>, a: seq<string>, b: seq<string>, size: nat, lim: nat)
    reads matrix
  {
    size <= matrix.Length && forall k :: 0 <= k < size ==> matrix[k] == (k < lim && Cell(a, b, k))
  }

  /** Row y of an m-by-n matrix starts at index n * y; the next row starts n cells later. */
  lemma RowStart(m: nat, n: nat, y: nat)
    ensures n * (y + 1) == n * y + n
    ensures y == m ==> n * y == m * n
  {
  }

  /** Cell (r, c) of the match matrix of a against b sits at index c + |b| * r and holds whether the lines match. */
  lemma CellAt(a: seq<string>, b: seq<string>, r: nat, c: nat)
    requires r < |a| && c < |b|
    ensures c + |b| * r < |a| * |b|
    ensures Cell(a, b, c + |b| * r) == (a[r] == b[c])
  {
    CellIndex(|a|, |b|, r, c);
  }

  // ---------------------------------------------------------------------
  // The corpus and the order of comparisons (Duplo::run)
  // ---------------------------------------------------------------------

  /** A loaded file as process sees it: its name, the texts of its kept lines, and its raw line count. */
  datatype Entry = Entry(name: string, code: seq<string>, lines: nat)

  /** The file run loads from one line of the file list, if it keeps it: a name longer than five characters, and a non-empty file. */
  function Load(name: string, typeOf: string -> SourceFiles.FileType, contents: string -> seq<string>, minChars: nat, ignorePrep: bool): (r: seq<Entry>)
    ensures |r| <= 1
    ensures |r| == 1 <==> |name| > 5 && |contents(name)| > 0
    ensures |r| == 1 ==> r[0].name == name && r[0].lines == |contents(name)| && |r[0].code| <= r[0].lines
  {
    if |name| > 5 && |contents(name)| > 0 then
      var lines := contents(name);
      SourceFiles.CollectedFaithful(lines, typeOf(name), minChars, ignorePrep, |lines|);
      [Entry(name, Texts(SourceFiles.Collected(lines, typeOf(name), minChars, ignorePrep, |lines|)), |lines|)]
    else []
  }

  /** The files run loads from the file list, in list order. */
  function Corpus(listing: seq<string>, typeOf: string -> SourceFiles.FileType, contents: string -> seq<string>, minChars: nat, ignorePrep: bool): seq<Entry>
  {
    if listing == [] then []
    else Corpus(listing[..|listing| - 1], typeOf, contents, minChars, ignorePrep) + Load(listing[|listing| - 1], typeOf, contents, minChars, ignorePrep)
  }

  /** Every loaded file comes from a list line longer than five characters naming a non-empty file, and every such line is loaded. */
  lemma {:induction false} CorpusMembers(listing: seq<string>, typeOf: string -> SourceFiles.FileType, contents: string -> seq<string>, minChars: nat, ignorePrep: bool)
    ensures |Corpus(listing, typeOf, contents, minChars, ignorePrep)| <= |listing|
    ensures forall e :: e in Corpus(listing, typeOf, contents, minChars, ignorePrep) ==>
              e.name in listing && |e.name| > 5 && e.lines == |contents(e.name)| > 0 && |e.code| <= e.lines
    ensures forall name :: name in listing && |name| > 5 && |contents(name)| > 0 ==>
              exists e :: e in Corpus(listing, typeOf, contents, minChars, ignorePrep) && e.name == name
  {
    if listing != [] {
      var init := listing[..|listing| - 1];
      var last := listing[|listing| - 1];
      assert listing == init + [last];
      CorpusMembers(init, typeOf, contents, minChars, ignorePrep);
      var l := Load(last, typeOf, contents, minChars, ignorePrep);
      if |l| == 1 {
        assert l[0] in Corpus(listing, typeOf, contents, minChars, ignorePrep);
      }
    }
  }

  /** The names of the loaded files, in order. */
  function Names(es: seq<Entry>): (r: seq<string>)
    ensures |r| == |es| && forall i :: 0 <= i < |es| ==> r[i] == es[i].name
  {
    seq(|es|, i requires 0 <= i < |es| => es[i].name)
  }

  /** The largest raw line count of the loaded files: the side of the square matrix run allocates. */
  function MaxLines(es: seq<Entry>): (r: nat)
    requires |es| > 0
    ensures forall i :: 0 <= i < |es| ==> es[i].lines <= r
    ensures exists i :: 0 <= i < |es| && es[i].lines == r
  {
    if |es| == 1 then es[0].lines
    else
      var r := MaxLines(es[..|es| - 1]);
      assert forall i :: 0 <= i < |es| - 1 ==> es[..|es| - 1][i] == es[i];
      Max(r, es[|es| - 1].lines)
  }

  /** The side of the matrix run needs: the largest raw line count, and no lines at all when nothing was loaded. */
  function Longest(es: seq<Entry>): (r: nat)
    ensures forall i :: 0 <= i < |es| ==> es[i].lines <= r
    ensures es == [] ==> r == 0
    ensures es != [] ==> exists i :: 0 <= i < |es| && es[i].lines == r
  {
    if es == [] then 0 else MaxLines(es)
  }

  /**
   * std::max_element over the loaded files by raw line count, as run calls
   * it: the first longest file, or None (the end iterator) when no file
   * was loaded.
   */
  function MaxElement(es: seq<Entry>): (r: StringUtil.Option<nat>)
    ensures r.None? <==> es == []
    ensures r.Some? ==> r.value < |es| && es[r.value].lines == MaxLines(es)
    ensures r.Some? ==> forall i :: 0 <= i < r.value ==> es[i].lines < es[r.value].lines
  {
    if es == [] then StringUtil.None
    else
      var init := es[..|es| - 1];
      assert forall i :: 0 <= i < |init| ==> init[i] == es[i];
      match MaxElement(init)
      case None => StringUtil.Some(0)
      case Some(i) => if es[i].lines < es[|es| - 1].lines then StringUtil.Some(|es| - 1) else StringUtil.Some(i)
  }

  /**
   * A file list whose only file is empty loads nothing, and max_element
   * then returns the end iterator, which run dereferences to size the
   * matrix.
   */
  lemma EmptyCorpusHasNoLongest()
    ensures Corpus(["main.c"], _ => SourceFiles.C, _ => [], 3, false) == []
    ensures MaxElement(Corpus(["main.c"], _ => SourceFiles.C, _ => [], 3, false)).None?
  {
    assert ["main.c"][..0] == [];
  }

  /** The sum of the raw line counts of the loaded files. */
  function LocsTotal(es: seq<Entry>): nat
  {
    if es == [] then 0 else LocsTotal(es[..|es| - 1]) + es[|es| - 1].lines
  }
  lemma {:induction false} LocsTotalAppend(p: seq<Entry>, q: seq<Entry>)
    ensures LocsTotal(p + q) == LocsTotal(p) + LocsTotal(q)
  {
    if q != [] {
      assert (p + q)[..|p + q| - 1] == p + q[..|q| - 1];
      LocsTotalAppend(p, q[..|q| - 1]);
    } else {
      assert p + q == p;
    }
  }

  /** The comparisons of file i with the later files i+1 .. k-1, skipping same-named ones when asked to. */
  function RowPairs(names: seq<string>, ignore: bool, i: nat, k: nat): seq<(nat, nat)>
    requires i < |names| && k <= |names|
  {
    if k <= i + 1 then []
    else RowPairs(names, ignore, i, k - 1) + (if ignore && IsSameFilename(names[i], names[k - 1]) then [] else [(i, k - 1)])
  }

  /** The comparisons of the first k rounds: round i compares file i with itself, then with the later files. */
  function PairsUpTo(names: seq<string>, ignore: bool, k: nat): seq<(nat, nat)>
    requires k <= |names|
  {
    if k == 0 then []
    else PairsUpTo(names, ignore, k - 1) + [(k - 1, k - 1)] + RowPairs(names, ignore, k - 1, |names|)
  }

  /** Every comparison run makes, in order. */
  function Pairs(names: seq<string>, ignore: bool): seq<(nat, nat)>
  {
    PairsUpTo(names, ignore, |names|)
  }

  /** Every pair indexes two files of an n-file corpus. */
  ghost predicate InRange(ps: seq<(nat, nat)>, n: nat)
  {
    forall k :: 0 <= k < |ps| ==> ps[k].0 <= ps[k].1 < n
  }

  /** p comes strictly before q in row-major order. */
  predicate Before(p: (nat, nat), q: (nat, nat))
  {
    p.0 < q.0 || (p.0 == q.0 && p.1 < q.1)
  }

  /** The pairs come in strictly increasing row-major order (so none is made twice). */
  ghost predicate Ascending(ps: seq<(nat, nat)>)
  {
    forall u, v :: 0 <= u < v < |ps| ==> Before(ps[u], ps[v])
  }

  lemma AscendingAppend(p: seq<(nat, nat)>, q: seq<(nat, nat)>, mid: (nat, nat))
    requires Ascending(p) && Ascending(q)
    requires forall k :: 0 <= k < |p| ==> Before(p[k], mid)
    requires forall k :: 0 <= k < |q| ==> !Before(q[k], mid)
    ensures Ascending(p + q)
  {
    var r := p + q;
    forall u, v | 0 <= u < v < |r| ensures Before(r[u], r[v]) {
      if v < |p| {
        assert r[u] == p[u] && r[v] == p[v];
      } else if u >= |p| {
        assert r[u] == q[u - |p|] && r[v] == q[v - |p|];
      } else {
        assert r[u] == p[u] && r[v] == q[v - |p|];
      }
    }
  }

  /** Round i: pairs (i, j) with i < j < k, ascending, each present unless skipped as same-named. */
  lemma {:induction false} RowPairsShape(names: seq<string>, ignore: bool, i: nat, k: nat)
    requires i < |names| && k <= |names|
    ensures Ascending(RowPairs(names, ignore, i, k))
    ensures forall u :: 0 <= u < |RowPairs(names, ignore, i, k)| ==>
              RowPairs(names, ignore, i, k)[u].0 == i && i < RowPairs(names, ignore, i, k)[u].1 < k
    ensures forall j: nat :: i < j < k ==>
              ((i, j) in RowPairs(names, ignore, i, k) <==> !(ignore && IsSameFilename(names[i], names[j])))
  {
    if k > i + 1 {
      RowPairsShape(names, ignore, i, k - 1);
      var p := RowPairs(names, ignore, i, k - 1);
      var q: seq<(nat, nat)> := if ignore && IsSameFilename(names[i], names[k - 1]) then [] else [(i, k - 1)];
      assert RowPairs(names, ignore, i, k) == p + q;
      AscendingAppend(p, q, (i, k - 1));
    }
  }

  /** The first k rounds make only pairs (i, j) with i < k and i <= j. */
  lemma {:induction false} PairsUpToBounds(names: seq<string>, ignore: bool, k: nat)
    requires k <= |names|
    ensures InRange(PairsUpTo(names, ignore, k), |names|)
    ensures forall u :: 0 <= u < |PairsUpTo(names, ignore, k)| ==> PairsUpTo(names, ignore, k)[u].0 < k
  {
    if k > 0 {
      PairsUpToBounds(names, ignore, k - 1);
      RowPairsShape(names, ignore, k - 1, |names|);
      var p := PairsUpTo(names, ignore, k - 1);
      var row := RowPairs(names, ignore, k - 1, |names|);
      var r := PairsUpTo(names, ignore, k);
      assert r == p + [(k - 1, k - 1)] + row;
      forall u | 0 <= u < |r| ensures r[u].0 <= r[u].1 < |names| && r[u].0 < k {
        if u < |p| {
          assert r[u] == p[u];
        } else if u > |p| {
          assert r[u] == row[u - |p| - 1];
        }
      }
    }
  }

  /** The first k rounds come in strictly increasing row-major order. */
  lemma {:induction false} PairsUpToAscending(names: seq<string>, ignore: bool, k: nat)
    requires k <= |names|
    ensures Ascending(PairsUpTo(names, ignore, k))
  {
    if k > 0 {
      PairsUpToAscending(names, ignore, k - 1);
      PairsUpToBounds(names, ignore, k - 1);
      RowPairsShape(names, ignore, k - 1, |names|);
      var p := PairsUpTo(names, ignore, k - 1);
      var self: seq<(nat, nat)> := [(k - 1, k - 1)];
      AscendingAppend(p, self, (k - 1, k - 1));
      AscendingAppend(p + self, RowPairs(names, ignore, k - 1, |names|), (k - 1, k));
    }
  }

  /** A pair (i, j) with i < k, i <= j is among the first k rounds exactly when it is a self-comparison or a kept cross-comparison. */
  lemma {:induction false} PairsUpToMember(names: seq<string>, ignore: bool, k: nat, i: nat, j: nat)
    requires k <= |names| && i < k && i <= j < |names|
    ensures (i, j) in PairsUpTo(names, ignore, k) <==> i == j || !(ignore && IsSameFilename(names[i], names[j]))
  {
    var p := PairsUpTo(names, ignore, k - 1);
    var row := RowPairs(names, ignore, k - 1, |names|);
    assert PairsUpTo(names, ignore, k) == p + [(k - 1, k - 1)] + row;
    RowPairsShape(names, ignore, k - 1, |names|);
    if i < k - 1 {
      PairsUpToMember(names, ignore, k - 1, i, j);
      if (i, j) in row {
        var u :| 0 <= u < |row| && row[u] == (i, j);
      }
    } else {
      PairsUpToBounds(names, ignore, k - 1);
      if (i, j) in p {
        var u :| 0 <= u < |p| && p[u] == (i, j);
      }
    }
  }

  /**
   * run's comparisons: each file with itself, then with every later file
   * unless same-named files are skipped and the two names share their
   * filename part; in row-major order, none twice.
   */
  lemma PairsOrder(names: seq<string>, ignore: bool)
    ensures InRange(Pairs(names, ignore), |names|)
    ensures Ascending(Pairs(names, ignore))
    ensures forall i: nat, j: nat :: i <= j < |names| ==>
              ((i, j) in Pairs(names, ignore) <==> i == j || !(ignore && IsSameFilename(names[i], names[j])))
  {
    PairsUpToBounds(names, ignore, |names|);
    PairsUpToAscending(names, ignore, |names|);
    forall i: nat, j: nat | i <= j < |names|
      ensures (i, j) in Pairs(names, ignore) <==> i == j || !(ignore && IsSameFilename(names[i], names[j]))
    {
      PairsUpToMember(names, ignore, |names|, i, j);
    }
  }

  /** process's report for file e1 against file e2: both sweeps at the threshold their line counts give. */
  function Compare(minBlockSize: nat, pct: nat, e1: Entry, e2: Entry): seq<Block>
    requires pct > 0
  {
    PairScan(e1.code, e2.code, e1.name, e2.name, Threshold(minBlockSize, pct, |e1.code|, |e2.code|))
  }

  /** The reports of the comparisons ps over the corpus es, in order. */
  function CorpusScan(minBlockSize: nat, pct: nat, es: seq<Entry>, ps: seq<(nat, nat)>): seq<Block>
    requires pct > 0 && InRange(ps, |es|)
  {
    if ps == [] then []
    else
      var p := ps[|ps| - 1];
      CorpusScan(minBlockSize, pct, es, ps[..|ps| - 1]) + Compare(minBlockSize, pct, es[p.0], es[p.1])
  }

  lemma CorpusScanSnoc(minBlockSize: nat, pct: nat, es: seq<Entry>, ps: seq<(nat, nat)>, p: (nat, nat))
    requires pct > 0 && InRange(ps, |es|) && p.0 <= p.1 < |es|
    ensures InRange(ps + [p], |es|)
    ensures CorpusScan(minBlockSize, pct, es, ps + [p]) == CorpusScan(minBlockSize, pct, es, ps) + Compare(minBlockSize, pct, es[p.0], es[p.1])
  {
    assert (ps + [p])[..|ps|] == ps;
  }

  /** Every block the corpus scan reports comes from one of its comparisons and is a sound report for it. */
  lemma {:induction false} CorpusScanSound(minBlockSize: nat, pct: nat, es: seq<Entry>, ps: seq<(nat, nat)>, blk: Block)
    requires pct > 0 && InRange(ps, |es|) && blk in CorpusScan(minBlockSize, pct, es, ps)
    ensures exists k :: 0 <= k < |ps| && blk in Compare(minBlockSize, pct, es[ps[k].0], es[ps[k].1])
  {
    var p := ps[|ps| - 1];
    var init := ps[..|ps| - 1];
    if blk in Compare(minBlockSize, pct, es[p.0], es[p.1]) {
      assert blk in Compare(minBlockSize, pct, es[ps[|ps| - 1].0], es[ps[|ps| - 1].1]);
    } else {
      CorpusScanSound(minBlockSize, pct, es, init, blk);
      var k :| 0 <= k < |init| && blk in Compare(minBlockSize, pct, es[init[k].0], es[init[k].1]);
      assert init[k] == ps[k];
    }
  }

  /** Everything run reports: the comparisons of every pair it makes, in order. */
  function Report(minBlockSize: nat, pct: nat, ignore: bool, es: seq<Entry>): seq<Block>
    requires pct > 0
  {
    PairsOrder(Names(es), ignore);
    CorpusScan(minBlockSize, pct, es, Pairs(Names(es), ignore))
  }

  /** Every block run reports comes from one of the comparisons it makes and is a sound report for those two files. */
  lemma ReportSound(minBlockSize: nat, pct: nat, ignore: bool, es: seq<Entry>, blk: Block)
    requires pct > 0 && blk in Report(minBlockSize, pct, ignore, es)
    ensures exists i: nat, j: nat :: i <= j < |es| && (i == j || !(ignore && IsSameFilename(es[i].name, es[j].name)))
              && blk in Compare(minBlockSize, pct, es[i], es[j])
  {
    var names := Names(es);
    var ps := Pairs(names, ignore);
    PairsOrder(names, ignore);
    CorpusScanSound(minBlockSize, pct, es, ps, blk);
    var k :| 0 <= k < |ps| && blk in Compare(minBlockSize, pct, es[ps[k].0], es[ps[k].1]);
    var i, j := ps[k].0, ps[k].1;
    assert (i, j) in ps;
  }

  /** The largest line count grows with the files considered. */
  lemma MaxLinesSnoc(es: seq<Entry>, k: nat)
    requires 1 <= k < |es|
    ensures MaxLines(es[..k + 1]) == Max(MaxLines(es[..k]), es[k].lines)
  {
    assert es[..k + 1][..k] == es[..k];
  }

  /** Round i's pairs up to file j + 1: those up to file j, then (i, j) unless skipped. */
  lemma RowPairsSnoc(names: seq<string>, ignore: bool, i: nat, j: nat, done: seq<(nat, nat)>)
    requires i < j < |names|
    ensures ignore && IsSameFilename(names[i], names[j]) ==> done + RowPairs(names, ignore, i, j + 1) == done + RowPairs(names, ignore, i, j)
    ensures !(ignore && IsSameFilename(names[i], names[j])) ==> done + RowPairs(names, ignore, i, j + 1) == (done + RowPairs(names, ignore, i, j)) + [(i, j)]
  {
    var row := RowPairs(names, ignore, i, j);
    if ignore && IsSameFilename(names[i], names[j]) {
      assert row + [] == row;
    } else {
      assert done + (row + [(i, j)]) == (done + row) + [(i, j)];
    }
  }

  /**
   * c tabulates process's report for every ordered pair of files. The loops
   * of run carry this table rather than the comparisons themselves, so that
   * they do not unfold the definition of every comparison.
   */
  ghost predicate ComparesAre(c: seq<seq<seq<Block>>>, minBlockSize: nat, pct: nat, es: seq<Entry>)
  {
    && pct > 0
    && |c| == |es|
    && (forall i :: 0 <= i < |es| ==> |c[i]| == |es|)
    && forall i, j {:trigger Compare(minBlockSize, pct, es[i], es[j])} ::
         0 <= i < |es| && 0 <= j < |es| ==> c[i][j] == Compare(minBlockSize, pct, es[i], es[j])
  }

  lemma CompareTable(minBlockSize: nat, pct: nat, es: seq<Entry>) returns (c: seq<seq<seq<Block>>>)
    requires pct > 0
    ensures ComparesAre(c, minBlockSize, pct, es)
  {
    c := seq(|es|, i requires 0 <= i < |es| => seq(|es|, j requires 0 <= j < |es| => Compare(minBlockSize, pct, es[i], es[j])));
  }

  /** The table's entries for the pairs ps, concatenated in order. */
  function FlatPairs(c: seq<seq<seq<Block>>>, ps: seq<(nat, nat)>): seq<Block>
  {
    if ps == [] then []
    else
      var p := ps[|ps| - 1];
      FlatPairs(c, ps[..|ps| - 1]) + (if p.0 < |c| && p.1 < |c[p.0]| then c[p.0][p.1] else [])
  }

  lemma FlatPairsSnoc(c: seq<seq<seq<Block>>>, ps: seq<(nat, nat)>, i: nat, j: nat)
    requires i < |c| && j < |c[i]|
    ensures FlatPairs(c, ps + [(i, j)]) == FlatPairs(c, ps) + c[i][j]
  {
    assert (ps + [(i, j)])[..|ps|] == ps;
  }

  lemma {:induction false} FlatPairsIsCorpusScan(c: seq<seq<seq<Block>>>, minBlockSize: nat, pct: nat, es: seq<Entry>, ps: seq<(nat, nat)>)
    requires ComparesAre(c, minBlockSize, pct, es) && InRange(ps, |es|)
    ensures FlatPairs(c, ps) == CorpusScan(minBlockSize, pct, es, ps)
  {
    if ps != [] {
      var p := ps[|ps| - 1];
      assert InRange(ps[..|ps| - 1], |es|);
      FlatPairsIsCorpusScan(c, minBlockSize, pct, es, ps[..|ps| - 1]);
      assert c[p.0][p.1] == Compare(minBlockSize, pct, es[p.0], es[p.1]);
    }
  }

  /** Run's report, read off the comparison table. */
  lemma ReportIsFlatPairs(c: seq<seq<seq<Block>>>, minBlockSize: nat, pct: nat, ignore: bool, es: seq<Entry>)
    requires ComparesAre(c, minBlockSize, pct, es)
    ensures Report(minBlockSize, pct, ignore, es) == FlatPairs(c, Pairs(Names(es), ignore))
  {
    PairsOrder(Names(es), ignore);
    FlatPairsIsCorpusScan(c, minBlockSize, pct, es, Pairs(Names(es), ignore));
  }

  // ---------------------------------------------------------------------
  // The finder (class Duplo)
  // ---------------------------------------------------------------------

  /** A vertical diagonal's report list grows by the block of its last run, unless that is an identity block. */
  lemma VBlocksSnoc(rs: seq<Run>, e: nat, l: nat, y: nat, f1: string, f2: string)
    ensures VBlocks(rs + [Run(e, l)], y, f1, f2) == VBlocks(rs, y, f1, f2) + Kept(Block(f1, y + e - l, f2, e - l, l))
  {
    assert (rs + [Run(e, l)])[..|rs|] == rs;
  }

  lemma HBlocksSnoc(rs: seq<Run>, e: nat, l: nat, x: nat, f1: string, f2: string)
    ensures HBlocks(rs + [Run(e, l)], x, f1, f2) == HBlocks(rs, x, f1, f2) + [Block(f1, e - l, f2, x + e - l, l)]
  {
    assert (rs + [Run(e, l)])[..|rs|] == rs;
  }

  lemma TotalLinesOne(blk: Block)
    ensures TotalLines([blk]) == blk.count
  {
    assert [blk][..0] == [];
  }

  /** One more cell of vertical diagonal d that is a match, or a mismatch after a short run, reports nothing. */
  lemma VSame(d: seq<bool>, x: nat, t: nat, y: nat, f1: string, f2: string)
    requires x < |d| && (d[x] || OpenRun(d[..x]) < t)
    ensures VBlocks(ClosedRuns(d[..x + 1], t), y, f1, f2) == VBlocks(ClosedRuns(d[..x], t), y, f1, f2)
  {
    ClosedRunsKeep(d, x, t);
  }

  /** A mismatch after a run of at least t reports that run's block, unless it is an identity block. */
  lemma VStep(d: seq<bool>, x: nat, t: nat, y: nat, f1: string, f2: string, l: nat)
    requires x < |d| && !d[x] && l == OpenRun(d[..x]) >= t
    ensures VBlocks(ClosedRuns(d[..x + 1], t), y, f1, f2) == VBlocks(ClosedRuns(d[..x], t), y, f1, f2) + Kept(Block(f1, y + x - l, f2, x - l, l))
  {
    ClosedRunsGrow(d, x, t, l);
    VBlocksSnoc(ClosedRuns(d[..x], t), x, l, y, f1, f2);
  }

  /** The same two steps for horizontal diagonal d at offset x, position y. */
  lemma HSame(d: seq<bool>, y: nat, t: nat, x: nat, f1: string, f2: string)
    requires y < |d| && (d[y] || OpenRun(d[..y]) < t)
    ensures HBlocks(ClosedRuns(d[..y + 1], t), x, f1, f2) == HBlocks(ClosedRuns(d[..y], t), x, f1, f2)
  {
    ClosedRunsKeep(d, y, t);
  }

  lemma HStep(d: seq<bool>, y: nat, t: nat, x: nat, f1: string, f2: string, l: nat)
    requires y < |d| && !d[y] && l == OpenRun(d[..y]) >= t
    ensures HBlocks(ClosedRuns(d[..y + 1], t), x, f1, f2) == HBlocks(ClosedRuns(d[..y], t), x, f1, f2) + [Block(f1, y - l, f2, x + y - l, l)]
  {
    ClosedRunsGrow(d, y, t, l);
    HBlocksSnoc(ClosedRuns(d[..y], t), y, l, x, f1, f2);
  }

  /** What cell x of vertical diagonal d (starting at line y of the first file) reports: the run a mismatch there ends, unless short or an identity block. */
  function VCell(d: seq<bool>, x: nat, t: nat, y: nat, f1: string, f2: string): seq<Block>
    requires x < |d|
  {
    if d[x] || OpenRun(d[..x]) < t then [] else Kept(Block(f1, y + x - OpenRun(d[..x]), f2, x - OpenRun(d[..x]), OpenRun(d[..x])))
  }

  /** The same for cell y of horizontal diagonal d (starting at line x of the second file). */
  function HCell(d: seq<bool>, y: nat, t: nat, x: nat, f1: string, f2: string): seq<Block>
    requires y < |d|
  {
    if d[y] || OpenRun(d[..y]) < t then [] else [Block(f1, y - OpenRun(d[..y]), f2, x + y - OpenRun(d[..y]), OpenRun(d[..y]))]
  }

  lemma VCellSilent(d: seq<bool>, x: nat, t: nat, y: nat, f1: string, f2: string)
    requires x < |d| && (d[x] || OpenRun(d[..x]) < t)
    ensures VCell(d, x, t, y, f1, f2) == []
  {
  }

  lemma VCellReports(d: seq<bool>, x: nat, t: nat, y: nat, f1: string, f2: string, l: nat)
    requires x < |d| && !d[x] && l == OpenRun(d[..x]) >= t
    ensures VCell(d, x, t, y, f1, f2) == Kept(Block(f1, y + x - l, f2, x - l, l))
  {
  }

  lemma HCellSilent(d: seq<bool>, y: nat, t: nat, x: nat, f1: string, f2: string)
    requires y < |d| && (d[y] || OpenRun(d[..y]) < t)
    ensures HCell(d, y, t, x, f1, f2) == []
  {
  }

  lemma HCellReports(d: seq<bool>, y: nat, t: nat, x: nat, f1: string, f2: string, l: nat)
    requires y < |d| && !d[y] && l == OpenRun(d[..y]) >= t
    ensures HCell(d, y, t, x, f1, f2) == [Block(f1, y - l, f2, x + y - l, l)]
  {
  }

  /** What cell x of vertical diagonal d does, given the run l open before it: the new open run and the cell's report. */
  lemma VCellIs(d: seq<bool>, x: nat, t: nat, y: nat, f1: string, f2: string, l: nat)
    requires x < |d| && l == OpenRun(d[..x])
    ensures OpenRun(d[..x + 1]) == if d[x] then l + 1 else 0
    ensures d[x] || l < t ==> VCell(d, x, t, y, f1, f2) == []
    ensures !d[x] && l >= t && (y + x - l != x - l || f1 != f2) ==> VCell(d, x, t, y, f1, f2) == [Block(f1, y + x - l, f2, x - l, l)]
    ensures !d[x] && l >= t && y + x - l == x - l && f1 == f2 ==> VCell(d, x, t, y, f1, f2) == []
  {
    OpenRunStep(d, x);
  }

  /** The same for cell y of horizontal diagonal d. */
  lemma HCellIs(d: seq<bool>, y: nat, t: nat, x: nat, f1: string, f2: string, l: nat)
    requires y < |d| && l == OpenRun(d[..y])
    ensures OpenRun(d[..y + 1]) == if d[y] then l + 1 else 0
    ensures d[y] || l < t ==> HCell(d, y, t, x, f1, f2) == []
    ensures !d[y] && l >= t ==> HCell(d, y, t, x, f1, f2) == [Block(f1, y - l, f2, x + y - l, l)]
  {
    OpenRunStep(d, y);
  }

  /** The reports of a vertical diagonal, cell by cell. */
  lemma VCellStep(d: seq<bool>, x: nat, t: nat, y: nat, f1: string, f2: string)
    requires x < |d|
    ensures VBlocks(ClosedRuns(d[..x + 1], t), y, f1, f2) == VBlocks(ClosedRuns(d[..x], t), y, f1, f2) + VCell(d, x, t, y, f1, f2)
  {
    var l := OpenRun(d[..x]);
    var before := VBlocks(ClosedRuns(d[..x], t), y, f1, f2);
    if d[x] || l < t {
      VSame(d, x, t, y, f1, f2);
      VCellSilent(d, x, t, y, f1, f2);
      assert before + [] == before;
    } else {
      VStep(d, x, t, y, f1, f2, l);
      VCellReports(d, x, t, y, f1, f2, l);
    }
  }

  /** The reports of a horizontal diagonal, cell by cell. */
  lemma HCellStep(d: seq<bool>, y: nat, t: nat, x: nat, f1: string, f2: string)
    requires y < |d|
    ensures HBlocks(ClosedRuns(d[..y + 1], t), x, f1, f2) == HBlocks(ClosedRuns(d[..y], t), x, f1, f2) + HCell(d, y, t, x, f1, f2)
  {
    var l := OpenRun(d[..y]);
    var before := HBlocks(ClosedRuns(d[..y], t), x, f1, f2);
    if d[y] || l < t {
      HSame(d, y, t, x, f1, f2);
      HCellSilent(d, y, t, x, f1, f2);
      assert before + [] == before;
    } else {
      HStep(d, y, t, x, f1, f2, l);
      HCellReports(d, y, t, x, f1, f2, l);
    }
  }

  /** cells lists what each cell of vertical diagonal d reports (carried by the loop over the cells, as VScansAre is over diagonals). */
  ghost predicate VCellsAre(cells: seq<seq<Block>>, d: seq<bool>, t: nat, y: nat, f1: string, f2: string)
  {
    && |cells| == |d|
    && forall x {:trigger VCell(d, x, t, y, f1, f2)} :: 0 <= x < |d| ==> cells[x] == VCell(d, x, t, y, f1, f2)
  }

  ghost predicate HCellsAre(cells: seq<seq<Block>>, d: seq<bool>, t: nat, x: nat, f1: string, f2: string)
  {
    && |cells| == |d|
    && forall y {:trigger HCell(d, y, t, x, f1, f2)} :: 0 <= y < |d| ==> cells[y] == HCell(d, y, t, x, f1, f2)
  }

  lemma VCellList(d: seq<bool>, t: nat, y: nat, f1: string, f2: string) returns (cells: seq<seq<Block>>)
    ensures VCellsAre(cells, d, t, y, f1, f2)
  {
    cells := seq(|d|, x requires 0 <= x < |d| => VCell(d, x, t, y, f1, f2));
  }

  lemma HCellList(d: seq<bool>, t: nat, x: nat, f1: string, f2: string) returns (cells: seq<seq<Block>>)
    ensures HCellsAre(cells, d, t, x, f1, f2)
  {
    cells := seq(|d|, y requires 0 <= y < |d| => HCell(d, y, t, x, f1, f2));
  }

  lemma VCellListIsVBlocks(d: seq<bool>, t: nat, y: nat, f1: string, f2: string, cells: seq<seq<Block>>, k: nat)
    requires VCellsAre(cells, d, t, y, f1, f2) && k <= |d|
    ensures Flatten(cells[..k]) == VBlocks(ClosedRuns(d[..k], t), y, f1, f2)
  {
    var stage := (i: nat) => if i <= |d| then VBlocks(ClosedRuns(d[..i], t), y, f1, f2) else [];
    forall i | 0 <= i < |cells| ensures stage(i + 1) == stage(i) + cells[i] {
      VCellStep(d, i, t, y, f1, f2);
      assert cells[i] == VCell(d, i, t, y, f1, f2);
    }
    assert d[..0] == [];
    FlattenStages(cells, stage, k);
  }

  lemma HCellListIsHBlocks(d: seq<bool>, t: nat, x: nat, f1: string, f2: string, cells: seq<seq<Block>>, k: nat)
    requires HCellsAre(cells, d, t, x, f1, f2) && k <= |d|
    ensures Flatten(cells[..k]) == HBlocks(ClosedRuns(d[..k], t), x, f1, f2)
  {
    var stage := (i: nat) => if i <= |d| then HBlocks(ClosedRuns(d[..i], t), x, f1, f2) else [];
    forall i | 0 <= i < |cells| ensures stage(i + 1) == stage(i) + cells[i] {
      HCellStep(d, i, t, x, f1, f2);
      assert cells[i] == HCell(d, i, t, x, f1, f2);
    }
    assert d[..0] == [];
    FlattenStages(cells, stage, k);
  }

  /** Lists appended one per step: the first k of them, flattened, are stage k. */
  lemma {:induction false} FlattenStages(cells: seq<seq<Block>>, stage: nat -> seq<Block>, k: nat)
    requires k <= |cells| && stage(0) == []
    requires forall i :: 0 <= i < |cells| ==> stage(i + 1) == stage(i) + cells[i]
    ensures Flatten(cells[..k]) == stage(k)
  {
    if k > 0 {
      FlattenStages(cells, stage, k - 1);
      FlattenSnoc(cells, k - 1);
    } else {
      assert cells[..0] == [];
    }
  }

  /** The vertical sweep's reports for diagonals 0 .. k-1, as a plain recursion. */
  function VSweep(a: seq<string>, b: seq<string>, f1: string, f2: string, t: nat, k: nat): seq<Block>
    requires k <= |a|
  {
    if k == 0 then [] else VSweep(a, b, f1, f2, t, k - 1) + VScan(a, b, k - 1, f1, f2, t, false)
  }

  /** The horizontal sweep's reports for diagonals 1 .. k-1, as a plain recursion. */
  function HSweep(a: seq<string>, b: seq<string>, f1: string, f2: string, t: nat, k: nat): seq<Block>
    requires k <= |b|
  {
    if k <= 1 then [] else HSweep(a, b, f1, f2, t, k - 1) + HScan(a, b, k - 1, f1, f2, t, false)
  }

  lemma SweepSnoc(f: nat -> seq<Block>, lo: nat, k: nat)
    requires lo < k
    ensures Sweep(f, lo, k) == Sweep(f, lo, k - 1) + f(k - 1)
  {
  }

  lemma {:induction false} VSweepIsSweep(a: seq<string>, b: seq<string>, f1: string, f2: string, t: nat, k: nat)
    requires k <= |a|
    ensures VSweep(a, b, f1, f2, t, k) == Sweep(VScans(a, b, f1, f2, t, false), 0, k)
  {
    if k > 0 {
      VSweepIsSweep(a, b, f1, f2, t, k - 1);
      VScansAt(a, b, f1, f2, t, false, k - 1);
      SweepSnoc(VScans(a, b, f1, f2, t, false), 0, k);
    }
  }

  lemma {:induction false} HSweepIsSweep(a: seq<string>, b: seq<string>, f1: string, f2: string, t: nat, k: nat)
    requires k <= |b|
    ensures HSweep(a, b, f1, f2, t, k) == Sweep(HScans(a, b, f1, f2, t, false), 1, k)
  {
    if k > 1 {
      HSweepIsSweep(a, b, f1, f2, t, k - 1);
      HScansAt(a, b, f1, f2, t, false, k - 1);
      SweepSnoc(HScans(a, b, f1, f2, t, false), 1, k);
    }
  }

  /** process's report is its vertical sweep followed, for files of different names, by its horizontal sweep. */
  lemma CompareBySweeps(minBlockSize: nat, pct: nat, e1: Entry, e2: Entry)
    requires pct > 0
    ensures var t := Threshold(minBlockSize, pct, |e1.code|, |e2.code|);
      Compare(minBlockSize, pct, e1, e2)
      == VSweep(e1.code, e2.code, e1.name, e2.name, t, |e1.code|)
         + (if e1.name != e2.name then HSweep(e1.code, e2.code, e1.name, e2.name, t, |e2.code|) else [])
  {
    var t := Threshold(minBlockSize, pct, |e1.code|, |e2.code|);
    VSweepIsSweep(e1.code, e2.code, e1.name, e2.name, t, |e1.code|);
    HSweepIsSweep(e1.code, e2.code, e1.name, e2.name, t, |e2.code|);
  }

  lemma AppendAssoc(p: seq<Block>, q: seq<Block>, r: seq<Block>)
    ensures (p + q) + r == p + (q + r)
  {
  }

  /** The concatenation, in order, of a list of report lists. */
  function Flatten(ss: seq<seq<Block>>): (r: seq<Block>)
    ensures forall i :: 0 <= i < |ss| ==> multiset(ss[i]) <= multiset(r)
  {
    if ss == [] then [] else Flatten(ss[..|ss| - 1]) + ss[|ss| - 1]
  }

  lemma FlattenSnoc(ss: seq<seq<Block>>, k: nat)
    requires k < |ss|
    ensures Flatten(ss[..k + 1]) == Flatten(ss[..k]) + ss[k]
  {
    assert ss[..k + 1][..k] == ss[..k];
  }

  /** One more report list appended to a trace that already holds the lists before it. */
  lemma FlattenStep(r0: seq<Block>, ss: seq<seq<Block>>, k: nat)
    requires k < |ss|
    ensures r0 + Flatten(ss[..k]) + ss[k] == r0 + Flatten(ss[..k + 1])
    ensures TotalLines(Flatten(ss[..k + 1])) == TotalLines(Flatten(ss[..k])) + TotalLines(ss[k])
    ensures |Flatten(ss[..k + 1])| == |Flatten(ss[..k])| + |ss[k]|
  {
    FlattenSnoc(ss, k);
    AppendAssoc(r0, Flatten(ss[..k]), ss[k]);
    TotalLinesAppend(Flatten(ss[..k]), ss[k]);
  }

  /**
   * scans lists, diagonal by diagonal, what the vertical sweep reports. The
   * sweep methods carry this list rather than the scans themselves, so that
   * their loops do not unfold the definition of every diagonal's report.
   */
  ghost predicate VScansAre(scans: seq<seq<Block>>, a: seq<string>, b: seq<string>, f1: string, f2: string, t: nat)
  {
    && |scans| == |a|
    && forall y {:trigger VScan(a, b, y, f1, f2, t, false)} :: 0 <= y < |a| ==> scans[y] == VScan(a, b, y, f1, f2, t, false)
  }

  /** The same for the horizontal sweep, whose diagonal 0 is not scanned. */
  ghost predicate HScansAre(scans: seq<seq<Block>>, a: seq<string>, b: seq<string>, f1: string, f2: string, t: nat)
  {
    && |scans| == |b|
    && (|b| > 0 ==> scans[0] == [])
    && forall x {:trigger HScan(a, b, x, f1, f2, t, false)} :: 1 <= x < |b| ==> scans[x] == HScan(a, b, x, f1, f2, t, false)
  }

  lemma VScanList(a: seq<string>, b: seq<string>, f1: string, f2: string, t: nat) returns (scans: seq<seq<Block>>)
    ensures VScansAre(scans, a, b, f1, f2, t)
  {
    scans := seq(|a|, y requires 0 <= y < |a| => VScan(a, b, y, f1, f2, t, false));
  }

  lemma HScanList(a: seq<string>, b: seq<string>, f1: string, f2: string, t: nat) returns (scans: seq<seq<Block>>)
    ensures HScansAre(scans, a, b, f1, f2, t)
  {
    scans := seq(|b|, x requires 0 <= x < |b| => if x == 0 then [] else HScan(a, b, x, f1, f2, t, false));
  }

  /** A list holding f(lo), f(lo + 1), ... from index lo on, and nothing before, flattens to the sweep of f. */
  lemma {:induction false} FlattenIsSweep(scans: seq<seq<Block>>, f: nat -> seq<Block>, lo: nat, k: nat)
    requires k <= |scans|
    requires forall y :: 0 <= y < |scans| ==> scans[y] == if y < lo then [] else f(y)
    ensures Flatten(scans[..k]) == Sweep(f, lo, k)
  {
    if k > 0 {
      FlattenIsSweep(scans, f, lo, k - 1);
      FlattenSnoc(scans, k - 1);
      if lo < k {
        SweepSnoc(f, lo, k);
      }
    }
  }

  lemma VScanListIsVSweep(a: seq<string>, b: seq<string>, f1: string, f2: string, t: nat, scans: seq<seq<Block>>, k: nat)
    requires VScansAre(scans, a, b, f1, f2, t) && k <= |a|
    ensures Flatten(scans[..k]) == VSweep(a, b, f1, f2, t, k)
  {
    var f := VScans(a, b, f1, f2, t, false);
    forall y | 0 <= y < |scans|
      ensures scans[y] == if y < 0 then [] else f(y)
    {
      VScansAt(a, b, f1, f2, t, false, y);
    }
    FlattenIsSweep(scans, f, 0, k);
    VSweepIsSweep(a, b, f1, f2, t, k);
  }

  lemma HScanListIsHSweep(a: seq<string>, b: seq<string>, f1: string, f2: string, t: nat, scans: seq<seq<Block>>, k: nat)
    requires HScansAre(scans, a, b, f1, f2, t) && k <= |b|
    ensures Flatten(scans[..k]) == HSweep(a, b, f1, f2, t, k)
  {
    var f := HScans(a, b, f1, f2, t, false);
    forall x | 0 <= x < |scans|
      ensures scans[x] == if x < 1 then [] else f(x)
    {
      HScansAt(a, b, f1, f2, t, false, x);
    }
    FlattenIsSweep(scans, f, 1, k);
    HSweepIsSweep(a, b, f1, f2, t, k);
  }

  class Duplo {
    const minBlockSize: nat
    const blockPercentThreshold: nat
    const minChars: nat
    const ignorePrepStuff: bool
    const ignoreSameFilename: bool
    var maxLinesPerFile: nat
    var duplicateLines: nat
    /** The match matrix, row-major: cell x + n * y compares line y of the first file with line x of the second. */
    var matrix: array<bool>
    /** The blocks handed to the report generator so far, in order. */
    var reports: seq<Block>

    constructor (minBlockSize: nat, blockPercentThreshold: nat, minChars: nat, ignorePrepStuff: bool, ignoreSameFilename: bool)
      ensures this.minBlockSize == minBlockSize && this.blockPercentThreshold == blockPercentThreshold
      ensures this.minChars == minChars && this.ignorePrepStuff == ignorePrepStuff && this.ignoreSameFilename == ignoreSameFilename
      ensures maxLinesPerFile == 0 && duplicateLines == 0 && reports == [] && matrix.Length == 0
    {
      this.minBlockSize := minBlockSize;
      this.blockPercentThreshold := blockPercentThreshold;
      this.minChars := minChars;
      this.ignorePrepStuff := ignorePrepStuff;
      this.ignoreSameFilename := ignoreSameFilename;
      maxLinesPerFile := 0;
      duplicateLines := 0;
      matrix := new bool[0];
      reports := [];
    }

    /** Hands one block to the report generator and adds its length to the duplicate line count. */
    method ReportSeq(line1: int, line2: int, count: nat, f1: string, f2: string)
      modifies this`reports, this`duplicateLines
      ensures reports == old(reports) + [Block(f1, line1, f2, line2, count)]
      ensures duplicateLines == old(duplicateLines) + count
    {
      reports := reports + [Block(f1, line1, f2, line2, count)];
      duplicateLines := duplicateLines + count;
    }

    /** Clears the first size cells of the matrix and leaves the rest alone. */
    method ClearCells(size: nat)
      requires size <= matrix.Length
      modifies matrix
      ensures forall k :: 0 <= k < size ==> !matrix[k]
      ensures forall k :: size <= k < matrix.Length ==> matrix[k] == old(matrix[k])
    {
      for i := 0 to size
        invariant forall k :: 0 <= k < i ==> !matrix[k]
        invariant forall k :: size <= k < matrix.Length ==> matrix[k] == old(matrix[k])
      {
        matrix[i] := false;
      }
    }

    /** Sets the cells of row y, which starts at index start, where line y of a equals a line of b. */
    method FillRow(a: seq<string>, b: seq<string>, size: nat, y: nat, start: nat)
      requires size == |a| * |b| <= matrix.Length && y < |a| && start == |b| * y
      requires FilledBelow(matrix, a, b, size, start)
      modifies matrix
      ensures FilledBelow(matrix, a, b, size, start + |b|)
      ensures forall k :: size <= k < matrix.Length ==> matrix[k] == old(matrix[k])
    {
      for x := 0 to |b|
        invariant FilledBelow(matrix, a, b, size, start + x)
        invariant forall k :: size <= k < matrix.Length ==> matrix[k] == old(matrix[k])
      {
        CellAt(a, b, y, x);
        if a[y] == b[x] {
          matrix[start + x] := true;
        }
      }
    }

    /** Clears the first |a| * |b| cells, then sets the cell of every pair of equal lines, row by row. */
    method FillMatrix(a: seq<string>, b: seq<string>)
      requires |a| * |b| <= matrix.Length
      modifies matrix
      ensures MatrixHolds(matrix, a, b)
      ensures forall k :: |a| * |b| <= k < matrix.Length ==> matrix[k] == old(matrix[k])
    {
      var size := |a| * |b|;
      ClearCells(size);
      var start := 0;
      for y := 0 to |a|
        invariant start == |b| * y && FilledBelow(matrix, a, b, size, start)
        invariant forall k :: size <= k < matrix.Length ==> matrix[k] == old(matrix[k])
      {
        FillRow(a, b, size, y, start);
        RowStart(|a|, |b|, y);
        start := start + |b|;
      }
      RowStart(|a|, |b|, |a|);
    }

    /** Reads the matrix cell of line r of the first file and line c of the second: whether the two lines match. */
    method Hit(a: seq<string>, b: seq<string>, r: nat, c: nat) returns (hit: bool)
      requires MatrixHolds(matrix, a, b) && r < |a| && c < |b|
      ensures hit == (a[r] == b[c])
    {
      MatrixAt(matrix, a, b, r, c);
      hit := matrix[c + |b| * r];
    }

    /** One cell of the vertical sweep: extends the open run on a match, reports it on a mismatch when long enough. */
    method VerticalCell(a: seq<string>, b: seq<string>, y: nat, f1: string, f2: string, t: nat, x: nat, seqLen: nat, ghost d: seq<bool>)
      returns (seqLen': nat, found: nat)
      requires y < |a| && MatrixHolds(matrix, a, b) && d == VDiag(a, b, y) && x < |d|
      requires seqLen == OpenRun(d[..x])
      modifies this`reports, this`duplicateLines
      ensures seqLen' == OpenRun(d[..x + 1])
      ensures reports == old(reports) + VCell(d, x, t, y, f1, f2)
      ensures duplicateLines == old(duplicateLines) + TotalLines(VCell(d, x, t, y, f1, f2))
      ensures found == |VCell(d, x, t, y, f1, f2)|
    {
      var hit := Hit(a, b, y + x, x);
      assert hit == d[x];
      VCellIs(d, x, t, y, f1, f2, seqLen);
      found := 0;
      if hit {
        seqLen' := seqLen + 1;
      } else {
        var line1 := y + x - seqLen;
        var line2 := x - seqLen;
        if seqLen >= t && !(line1 == line2 && f1 == f2) {
          TotalLinesOne(Block(f1, line1, f2, line2, seqLen));
          ReportSeq(line1, line2, seqLen, f1, f2);
          found := 1;
        }
        seqLen' := 0;
      }
    }

    /** The vertical sweep over diagonal y: reports every run a mismatch ends, then the run open at the end. */
    method ScanVertical(a: seq<string>, b: seq<string>, y: nat, f1: string, f2: string, t: nat) returns (found: nat)
      requires y < |a| && MatrixHolds(matrix, a, b)
      modifies this`reports, this`duplicateLines
      ensures reports == old(reports) + VScan(a, b, y, f1, f2, t, false)
      ensures duplicateLines == old(duplicateLines) + TotalLines(VScan(a, b, y, f1, f2, t, false))
      ensures found == |VScan(a, b, y, f1, f2, t, false)|
    {
      var seqLen, closed := VerticalRuns(a, b, y, f1, f2, t);
      var trailing := VerticalTrail(a, b, y, f1, f2, t, seqLen);
      TotalLinesAppend(VBlocks(ClosedRuns(VDiag(a, b, y), t), y, f1, f2), VTrail(a, b, y, f1, f2, t, false));
      found := closed + trailing;
    }

    /** The cells of vertical diagonal y in order: the runs mismatches end, and the length of the run left open. */
    method VerticalRuns(a: seq<string>, b: seq<string>, y: nat, f1: string, f2: string, t: nat) returns (seqLen: nat, found: nat)
      requires y < |a| && MatrixHolds(matrix, a, b)
      modifies this`reports, this`duplicateLines
      ensures seqLen == OpenRun(VDiag(a, b, y))
      ensures reports == old(reports) + VBlocks(ClosedRuns(VDiag(a, b, y), t), y, f1, f2)
      ensures duplicateLines == old(duplicateLines) + TotalLines(VBlocks(ClosedRuns(VDiag(a, b, y), t), y, f1, f2))
      ensures found == |VBlocks(ClosedRuns(VDiag(a, b, y), t), y, f1, f2)|
    {
      var m, n := |a|, |b|;
      ghost var d := VDiag(a, b, y);
      ghost var cells := VCellList(d, t, y, f1, f2);
      seqLen := 0;
      found := 0;
      var maxX := Min(n, m - y);
      for x := 0 to maxX
        invariant seqLen == OpenRun(d[..x])
        invariant reports == old(reports) + Flatten(cells[..x])
        invariant duplicateLines == old(duplicateLines) + TotalLines(Flatten(cells[..x]))
        invariant found == |Flatten(cells[..x])|
      {
        var k;
        seqLen, k := VerticalCell(a, b, y, f1, f2, t, x, seqLen, d);
        assert cells[x] == VCell(d, x, t, y, f1, f2);
        FlattenStep(old(reports), cells, x);
        found := found + k;
      }
      assert d[..maxX] == d;
      assert cells[..maxX] == cells;
      VCellListIsVBlocks(d, t, y, f1, f2, cells, maxX);
    }

    /** The end of the vertical sweep over diagonal y: reports the run still open, placed at the last lines of both files. */
    method VerticalTrail(a: seq<string>, b: seq<string>, y: nat, f1: string, f2: string, t: nat, seqLen: nat) returns (found: nat)
      requires y < |a| && seqLen == OpenRun(VDiag(a, b, y))
      modifies this`reports, this`duplicateLines
      ensures reports == old(reports) + VTrail(a, b, y, f1, f2, t, false)
      ensures duplicateLines == old(duplicateLines) + TotalLines(VTrail(a, b, y, f1, f2, t, false))
      ensures found == |VTrail(a, b, y, f1, f2, t, false)|
    {
      found := 0;
      var m, n := |a|, |b|;
      if seqLen >= t {
        var line1 := m - seqLen;
        var line2 := n - seqLen;
        if !(line1 == line2 && f1 == f2) {
          assert VTrail(a, b, y, f1, f2, t, false) == [Block(f1, line1, f2, line2, seqLen)];
          TotalLinesOne(Block(f1, line1, f2, line2, seqLen));
          ReportSeq(line1, line2, seqLen, f1, f2);
          found := 1;
        }
      }
    }

    /** One cell of the horizontal sweep: the same, without the identity filter. */
    method HorizontalCell(a: seq<string>, b: seq<string>, x: nat, f1: string, f2: string, t: nat, y: nat, seqLen: nat, ghost d: seq<bool>)
      returns (seqLen': nat, found: nat)
      requires x < |b| && MatrixHolds(matrix, a, b) && d == HDiag(a, b, x) && y < |d|
      requires seqLen == OpenRun(d[..y])
      modifies this`reports, this`duplicateLines
      ensures seqLen' == OpenRun(d[..y + 1])
      ensures reports == old(reports) + HCell(d, y, t, x, f1, f2)
      ensures duplicateLines == old(duplicateLines) + TotalLines(HCell(d, y, t, x, f1, f2))
      ensures found == |HCell(d, y, t, x, f1, f2)|
    {
      var hit := Hit(a, b, y, x + y);
      assert hit == d[y];
      HCellIs(d, y, t, x, f1, f2, seqLen);
      found := 0;
      if hit {
        seqLen' := seqLen + 1;
      } else {
        if seqLen >= t {
          TotalLinesOne(Block(f1, y - seqLen, f2, x + y - seqLen, seqLen));
          ReportSeq(y - seqLen, x + y - seqLen, seqLen, f1, f2);
          found := 1;
        }
        seqLen' := 0;
      }
    }

    /** The horizontal sweep over diagonal x: reports every run a mismatch ends, then the run open at the end. */
    method ScanHorizontal(a: seq<string>, b: seq<string>, x: nat, f1: string, f2: string, t: nat) returns (found: nat)
      requires x < |b| && MatrixHolds(matrix, a, b)
      modifies this`reports, this`duplicateLines
      ensures reports == old(reports) + HScan(a, b, x, f1, f2, t, false)
      ensures duplicateLines == old(duplicateLines) + TotalLines(HScan(a, b, x, f1, f2, t, false))
      ensures found == |HScan(a, b, x, f1, f2, t, false)|
    {
      var seqLen, closed := HorizontalRuns(a, b, x, f1, f2, t);
      var trailing := HorizontalTrail(a, b, x, f1, f2, t, seqLen);
      TotalLinesAppend(HBlocks(ClosedRuns(HDiag(a, b, x), t), x, f1, f2), HTrail(a, b, x, f1, f2, t, false));
      found := closed + trailing;
    }

    /** The cells of horizontal diagonal x in order: the runs mismatches end, and the length of the run left open. */
    method HorizontalRuns(a: seq<string>, b: seq<string>, x: nat, f1: string, f2: string, t: nat) returns (seqLen: nat, found: nat)
      requires x < |b| && MatrixHolds(matrix, a, b)
      modifies this`reports, this`duplicateLines
      ensures seqLen == OpenRun(HDiag(a, b, x))
      ensures reports == old(reports) + HBlocks(ClosedRuns(HDiag(a, b, x), t), x, f1, f2)
      ensures duplicateLines == old(duplicateLines) + TotalLines(HBlocks(ClosedRuns(HDiag(a, b, x), t), x, f1, f2))
      ensures found == |HBlocks(ClosedRuns(HDiag(a, b, x), t), x, f1, f2)|
    {
      var m, n := |a|, |b|;
      ghost var d := HDiag(a, b, x);
      ghost var cells := HCellList(d, t, x, f1, f2);
      seqLen := 0;
      found := 0;
      var maxY := Min(m, n - x);
      for y := 0 to maxY
        invariant seqLen == OpenRun(d[..y])
        invariant reports == old(reports) + Flatten(cells[..y])
        invariant duplicateLines == old(duplicateLines) + TotalLines(Flatten(cells[..y]))
        invariant found == |Flatten(cells[..y])|
      {
        var k;
        seqLen, k := HorizontalCell(a, b, x, f1, f2, t, y, seqLen, d);
        assert cells[y] == HCell(d, y, t, x, f1, f2);
        FlattenStep(old(reports), cells, y);
        found := found + k;
      }
      assert d[..maxY] == d;
      assert cells[..maxY] == cells;
      HCellListIsHBlocks(d, t, x, f1, f2, cells, maxY);
    }

    /** The end of the horizontal sweep over diagonal x: reports the run still open, placed at the last lines of both files. */
    method HorizontalTrail(a: seq<string>, b: seq<string>, x: nat, f1: string, f2: string, t: nat, seqLen: nat) returns (found: nat)
      requires x < |b| && seqLen == OpenRun(HDiag(a, b, x))
      modifies this`reports, this`duplicateLines
      ensures reports == old(reports) + HTrail(a, b, x, f1, f2, t, false)
      ensures duplicateLines == old(duplicateLines) + TotalLines(HTrail(a, b, x, f1, f2, t, false))
      ensures found == |HTrail(a, b, x, f1, f2, t, false)|
    {
      found := 0;
      var m, n := |a|, |b|;
      if seqLen >= t {
        assert HTrail(a, b, x, f1, f2, t, false) == [Block(f1, m - seqLen, f2, n - seqLen, seqLen)];
        TotalLinesOne(Block(f1, m - seqLen, f2, n - seqLen, seqLen));
        ReportSeq(m - seqLen, n - seqLen, seqLen, f1, f2);
        found := 1;
      }
    }

    /** The file as process sees it. */
    ghost function EntryOf(src: SourceFiles.SourceFile): Entry
      reads src
    {
      Entry(src.fileName, Texts(src.sourceLines), src.linesOfFile)
    }

    /**
     * The body of process on the two files' line texts: fills the matrix,
     * runs the vertical sweep and, for files of different names, the
     * horizontal one.
     */
    method ProcessTexts(a: seq<string>, b: seq<string>, f1: string, f2: string, t: nat) returns (blocks: nat)
      requires |a| * |b| <= matrix.Length
      modifies this`reports, this`duplicateLines, matrix
      ensures reports == old(reports) + (VSweep(a, b, f1, f2, t, |a|) + (if f1 != f2 then HSweep(a, b, f1, f2, t, |b|) else []))
      ensures duplicateLines == old(duplicateLines) + TotalLines(VSweep(a, b, f1, f2, t, |a|) + (if f1 != f2 then HSweep(a, b, f1, f2, t, |b|) else []))
      ensures blocks == |VSweep(a, b, f1, f2, t, |a|) + (if f1 != f2 then HSweep(a, b, f1, f2, t, |b|) else [])|
    {
      FillMatrix(a, b);
      blocks := VerticalSweep(a, b, f1, f2, t);
      ghost var vertical := VSweep(a, b, f1, f2, t, |a|);
      if f1 != f2 {
        var k := HorizontalSweep(a, b, f1, f2, t);
        TotalLinesAppend(vertical, HSweep(a, b, f1, f2, t, |b|));
        AppendAssoc(old(reports), vertical, HSweep(a, b, f1, f2, t, |b|));
        blocks := blocks + k;
      } else {
        assert vertical + [] == vertical;
      }
    }

    /**
     * process: fills the matrix, then reports the vertical sweep and, for
     * files of different names, the horizontal one; returns the number of
     * blocks reported.
     */
    method Process(src1: SourceFiles.SourceFile, src2: SourceFiles.SourceFile) returns (blocks: nat)
      requires src1.Valid() && src2.Valid() && blockPercentThreshold > 0
      requires |src1.sourceLines| * |src2.sourceLines| <= matrix.Length
      modifies this`reports, this`duplicateLines, matrix
      ensures reports == old(reports) + Compare(minBlockSize, blockPercentThreshold, EntryOf(src1), EntryOf(src2))
      ensures duplicateLines == old(duplicateLines) + TotalLines(Compare(minBlockSize, blockPercentThreshold, EntryOf(src1), EntryOf(src2)))
      ensures blocks == |Compare(minBlockSize, blockPercentThreshold, EntryOf(src1), EntryOf(src2))|
    {
      var m := src1.NumOfLinesOfCode();
      var n := src2.NumOfLinesOfCode();
      var a, b := Texts(src1.sourceLines), Texts(src2.sourceLines);
      var t := Threshold(minBlockSize, blockPercentThreshold, m, n);
      CompareBySweeps(minBlockSize, blockPercentThreshold, EntryOf(src1), EntryOf(src2));
      blocks := ProcessTexts(a, b, src1.fileName, src2.fileName, t);
    }

    /** One diagonal of the vertical sweep: its reports extend those of diagonals 0 .. y-1. */
    method VerticalStep(a: seq<string>, b: seq<string>, f1: string, f2: string, t: nat, y: nat, found: nat,
                        ghost scans: seq<seq<Block>>, ghost r0: seq<Block>, ghost d0: nat)
      returns (found': nat)
      requires y < |a| && MatrixHolds(matrix, a, b) && VScansAre(scans, a, b, f1, f2, t)
      requires reports == r0 + Flatten(scans[..y])
      requires duplicateLines == d0 + TotalLines(Flatten(scans[..y]))
      requires found == |Flatten(scans[..y])|
      modifies this`reports, this`duplicateLines
      ensures reports == r0 + Flatten(scans[..y + 1])
      ensures duplicateLines == d0 + TotalLines(Flatten(scans[..y + 1]))
      ensures found' == |Flatten(scans[..y + 1])|
    {
      ghost var before := Flatten(scans[..y]);
      var k := ScanVertical(a, b, y, f1, f2, t);
      assert scans[y] == VScan(a, b, y, f1, f2, t, false);
      FlattenSnoc(scans, y);
      AppendAssoc(r0, before, scans[y]);
      TotalLinesAppend(before, scans[y]);
      found' := found + k;
    }

    /** The vertical sweep: diagonals 0 .. |a|-1, in order. */
    method VerticalSweep(a: seq<string>, b: seq<string>, f1: string, f2: string, t: nat) returns (found: nat)
      requires MatrixHolds(matrix, a, b)
      modifies this`reports, this`duplicateLines
      ensures reports == old(reports) + VSweep(a, b, f1, f2, t, |a|)
      ensures duplicateLines == old(duplicateLines) + TotalLines(VSweep(a, b, f1, f2, t, |a|))
      ensures found == |VSweep(a, b, f1, f2, t, |a|)|
    {
      ghost var scans := VScanList(a, b, f1, f2, t);
      found := 0;
      for y := 0 to |a|
        invariant reports == old(reports) + Flatten(scans[..y])
        invariant duplicateLines == old(duplicateLines) + TotalLines(Flatten(scans[..y]))
        invariant found == |Flatten(scans[..y])|
      {
        found := VerticalStep(a, b, f1, f2, t, y, found, scans, old(reports), old(duplicateLines));
      }
      VScanListIsVSweep(a, b, f1, f2, t, scans, |a|);
      assert scans[..|a|] == scans;
    }

    /** One diagonal of the horizontal sweep: its reports extend those of diagonals 1 .. x-1. */
    method HorizontalStep(a: seq<string>, b: seq<string>, f1: string, f2: string, t: nat, x: nat, found: nat,
                          ghost scans: seq<seq<Block>>, ghost r0: seq<Block>, ghost d0: nat)
      returns (found': nat)
      requires 1 <= x < |b| && MatrixHolds(matrix, a, b) && HScansAre(scans, a, b, f1, f2, t)
      requires reports == r0 + Flatten(scans[..x])
      requires duplicateLines == d0 + TotalLines(Flatten(scans[..x]))
      requires found == |Flatten(scans[..x])|
      modifies this`reports, this`duplicateLines
      ensures reports == r0 + Flatten(scans[..x + 1])
      ensures duplicateLines == d0 + TotalLines(Flatten(scans[..x + 1]))
      ensures found' == |Flatten(scans[..x + 1])|
    {
      ghost var before := Flatten(scans[..x]);
      var k := ScanHorizontal(a, b, x, f1, f2, t);
      assert scans[x] == HScan(a, b, x, f1, f2, t, false);
      FlattenSnoc(scans, x);
      AppendAssoc(r0, before, scans[x]);
      TotalLinesAppend(before, scans[x]);
      found' := found + k;
    }

    /** The horizontal sweep: diagonals 1 .. |b|-1, in order. */
    method HorizontalSweep(a: seq<string>, b: seq<string>, f1: string, f2: string, t: nat) returns (found: nat)
      requires MatrixHolds(matrix, a, b)
      modifies this`reports, this`duplicateLines
      ensures reports == old(reports) + HSweep(a, b, f1, f2, t, |b|)
      ensures duplicateLines == old(duplicateLines) + TotalLines(HSweep(a, b, f1, f2, t, |b|))
      ensures found == |HSweep(a, b, f1, f2, t, |b|)|
    {
      ghost var scans := HScanList(a, b, f1, f2, t);
      found := 0;
      var n := |b|;
      if n > 0 {
        var x := 1;
        while x < n
          invariant 1 <= x <= n
          invariant reports == old(reports) + Flatten(scans[..x])
          invariant duplicateLines == old(duplicateLines) + TotalLines(Flatten(scans[..x]))
          invariant found == |Flatten(scans[..x])|
        {
          found := HorizontalStep(a, b, f1, f2, t, x, found, scans, old(reports), old(duplicateLines));
          x := x + 1;
        }
        assert scans[..n] == scans;
      }
      HScanListIsHSweep(a, b, f1, f2, t, scans, n);
    }

    /** One line of the file list: the file it names, loaded, when the name is longer than five characters and the file is not empty. */
    method LoadFile(line: string, typeOf: string -> SourceFiles.FileType, contents: string -> seq<string>)
      returns (loaded: seq<SourceFiles.SourceFile>, numLines: nat)
      ensures |loaded| == |Load(line, typeOf, contents, minChars, ignorePrepStuff)|
      ensures forall i :: 0 <= i < |loaded| ==>
                loaded[i].Valid() && EntryOf(loaded[i]) == Load(line, typeOf, contents, minChars, ignorePrepStuff)[i]
      ensures numLines == LocsTotal(Load(line, typeOf, contents, minChars, ignorePrepStuff))
    {
      loaded, numLines := [], 0;
      if |line| > 5 {
        var sf := new SourceFiles.SourceFile(line, typeOf(line), contents(line), minChars, ignorePrepStuff);
        var n := sf.NumOfLinesOfFile();
        if n > 0 {
          loaded, numLines := [sf], n;
          assert EntryOf(sf) == Load(line, typeOf, contents, minChars, ignorePrepStuff)[0];
        }
      }
    }

    /** The files run loads from the file list, as process sees them. */
    function Loaded(listing: seq<string>, typeOf: string -> SourceFiles.FileType, contents: string -> seq<string>): seq<Entry>
    {
      Corpus(listing, typeOf, contents, minChars, ignorePrepStuff)
    }

    /** One comparison of run: process on files i and j, whose reports extend those of the comparisons ps before it. */
    method CompareStep(src1: SourceFiles.SourceFile, src2: SourceFiles.SourceFile, i: nat, j: nat,
                       ghost c: seq<seq<seq<Block>>>, ghost es: seq<Entry>, ghost ps: seq<(nat, nat)>,
                       ghost r0: seq<Block>, ghost d0: nat)
      returns (blocks: nat)
      requires src1.Valid() && src2.Valid() && ComparesAre(c, minBlockSize, blockPercentThreshold, es)
      requires i < |es| && j < |es| && EntryOf(src1) == es[i] && EntryOf(src2) == es[j]
      requires src1.linesOfFile <= maxLinesPerFile && src2.linesOfFile <= maxLinesPerFile
      requires MatrixSize(maxLinesPerFile) <= matrix.Length
      requires reports == r0 + FlatPairs(c, ps)
      requires duplicateLines == d0 + TotalLines(FlatPairs(c, ps))
      modifies this`reports, this`duplicateLines, matrix
      ensures reports == r0 + FlatPairs(c, ps + [(i, j)])
      ensures duplicateLines == d0 + TotalLines(FlatPairs(c, ps + [(i, j)]))
      ensures |FlatPairs(c, ps + [(i, j)])| == |FlatPairs(c, ps)| + blocks
    {
      assert |src1.sourceLines| * |src2.sourceLines| <= MatrixSize(maxLinesPerFile);
      ghost var before := FlatPairs(c, ps);
      blocks := Process(src1, src2);
      assert c[i][j] == Compare(minBlockSize, blockPercentThreshold, es[i], es[j]);
      FlatPairsSnoc(c, ps, i, j);
      AppendAssoc(r0, before, c[i][j]);
      TotalLinesAppend(before, c[i][j]);
    }

    /** The largest raw line count among the loaded files (the max_element of run). */
    method MaxLinesOf(files: seq<SourceFiles.SourceFile>, ghost es: seq<Entry>) returns (max: nat)
      requires |files| == |es| > 0
      requires forall i :: 0 <= i < |files| ==> EntryOf(files[i]) == es[i]
      ensures max == MaxLines(es)
    {
      max := files[0].NumOfLinesOfFile();
      assert es[..1] == [es[0]];
      for k := 1 to |files|
        invariant max == MaxLines(es[..k])
      {
        var l := files[k].NumOfLinesOfFile();
        MaxLinesSnoc(es, k);
        if max < l {
          max := l;
        }
      }
      assert es[..|files|] == es;
    }

    /** The matrix side for the loaded files: max_element's file length, guarded for an empty corpus. */
    method LongestOf(files: seq<SourceFiles.SourceFile>, ghost es: seq<Entry>) returns (max: nat)
      requires |files| == |es|
      requires forall k :: 0 <= k < |files| ==> files[k].Valid() && EntryOf(files[k]) == es[k]
      ensures max == Longest(es)
    {
      if |files| == 0 {
        max := 0;
      } else {
        max := MaxLinesOf(files, es);
      }
    }

    /** files are the loaded files es, none longer than max lines. */
    ghost predicate FilesAre(files: seq<SourceFiles.SourceFile>, es: seq<Entry>, max: nat)
      reads files
    {
      && |files| == |es|
      && forall k :: 0 <= k < |files| ==> files[k].Valid() && EntryOf(files[k]) == es[k] && files[k].linesOfFile <= max
    }

    /** No loaded file is longer than the longest one. */
    lemma LoadedFilesAre(files: seq<SourceFiles.SourceFile>, es: seq<Entry>)
      requires |files| == |es|
      requires forall k :: 0 <= k < |files| ==> files[k].Valid() && EntryOf(files[k]) == es[k]
      ensures FilesAre(files, es, Longest(es))
    {
      forall k | 0 <= k < |files| ensures files[k].linesOfFile <= Longest(es) {
        assert EntryOf(files[k]).lines == es[k].lines;
      }
    }

    /** Round i of run: file i against itself, then against every later file it is not skipped for. */
    method CompareRound(files: seq<SourceFiles.SourceFile>, i: nat, ghost es: seq<Entry>, ghost names: seq<string>,
                        ghost c: seq<seq<seq<Block>>>, ghost ps: seq<(nat, nat)>, ghost r0: seq<Block>, ghost d0: nat)
      returns (blocks: nat, ghost ps': seq<(nat, nat)>)
      requires FilesAre(files, es, maxLinesPerFile) && i < |files| && names == Names(es)
      requires ComparesAre(c, minBlockSize, blockPercentThreshold, es)
      requires MatrixSize(maxLinesPerFile) <= matrix.Length
      requires ps == PairsUpTo(names, ignoreSameFilename, i)
      requires reports == r0 + FlatPairs(c, ps)
      requires duplicateLines == d0 + TotalLines(FlatPairs(c, ps))
      modifies this`reports, this`duplicateLines, matrix
      ensures ps' == PairsUpTo(names, ignoreSameFilename, i + 1)
      ensures reports == r0 + FlatPairs(c, ps')
      ensures duplicateLines == d0 + TotalLines(FlatPairs(c, ps'))
      ensures |FlatPairs(c, ps')| == |FlatPairs(c, ps)| + blocks
    {
      ghost var done := ps + [(i, i)];
      blocks := CompareStep(files[i], files[i], i, i, c, es, ps, r0, d0);
      var later := CompareLaterFiles(files, i, es, names, c, done, r0, d0);
      blocks := blocks + later;
      ps' := done + RowPairs(names, ignoreSameFilename, i, |names|);
    }

    /** The rest of round i: file i against every later file, in order. */
    method CompareLaterFiles(files: seq<SourceFiles.SourceFile>, i: nat, ghost es: seq<Entry>, ghost names: seq<string>,
                             ghost c: seq<seq<seq<Block>>>, ghost done: seq<(nat, nat)>, ghost r0: seq<Block>, ghost d0: nat)
      returns (blocks: nat)
      requires FilesAre(files, es, maxLinesPerFile) && i < |files| && names == Names(es)
      requires ComparesAre(c, minBlockSize, blockPercentThreshold, es)
      requires MatrixSize(maxLinesPerFile) <= matrix.Length
      requires reports == r0 + FlatPairs(c, done)
      requires duplicateLines == d0 + TotalLines(FlatPairs(c, done))
      modifies this`reports, this`duplicateLines, matrix
      ensures reports == r0 + FlatPairs(c, done + RowPairs(names, ignoreSameFilename, i, |names|))
      ensures duplicateLines == d0 + TotalLines(FlatPairs(c, done + RowPairs(names, ignoreSameFilename, i, |names|)))
      ensures |FlatPairs(c, done + RowPairs(names, ignoreSameFilename, i, |names|))| == |FlatPairs(c, done)| + blocks
    {
      blocks := 0;
      ghost var ps := done;
      assert done + RowPairs(names, ignoreSameFilename, i, i + 1) == done;
      for j := i + 1 to |files|
        invariant ps == done + RowPairs(names, ignoreSameFilename, i, j)
        invariant reports == r0 + FlatPairs(c, ps)
        invariant duplicateLines == d0 + TotalLines(FlatPairs(c, ps))
        invariant |FlatPairs(c, ps)| == |FlatPairs(c, done)| + blocks
      {
        var k;
        k, ps := CompareLater(files, i, j, es, names, c, done, ps, r0, d0);
        blocks := blocks + k;
      }
    }

    /** One step of round i: file i against the later file j, unless same-named files are skipped and these two are. */
    method CompareLater(files: seq<SourceFiles.SourceFile>, i: nat, j: nat, ghost es: seq<Entry>, ghost names: seq<string>,
                        ghost c: seq<seq<seq<Block>>>, ghost done: seq<(nat, nat)>, ghost ps: seq<(nat, nat)>,
                        ghost r0: seq<Block>, ghost d0: nat)
      returns (blocks: nat, ghost ps': seq<(nat, nat)>)
      requires FilesAre(files, es, maxLinesPerFile) && i < j < |files| && names == Names(es)
      requires ComparesAre(c, minBlockSize, blockPercentThreshold, es)
      requires MatrixSize(maxLinesPerFile) <= matrix.Length
      requires ps == done + RowPairs(names, ignoreSameFilename, i, j)
      requires reports == r0 + FlatPairs(c, ps)
      requires duplicateLines == d0 + TotalLines(FlatPairs(c, ps))
      modifies this`reports, this`duplicateLines, matrix
      ensures ps' == done + RowPairs(names, ignoreSameFilename, i, j + 1)
      ensures reports == r0 + FlatPairs(c, ps')
      ensures duplicateLines == d0 + TotalLines(FlatPairs(c, ps'))
      ensures |FlatPairs(c, ps')| == |FlatPairs(c, ps)| + blocks
    {
      RowPairsSnoc(names, ignoreSameFilename, i, j, done);
      assert EntryOf(files[i]) == es[i] && EntryOf(files[j]) == es[j];
      if !(ignoreSameFilename && IsSameFilename(files[i].fileName, files[j].fileName)) {
        blocks := CompareStep(files[i], files[j], i, j, c, es, ps, r0, d0);
        ps' := ps + [(i, j)];
      } else {
        blocks := 0;
        ps' := ps;
      }
    }

    /** The pair loops of run, over the loaded files; blocksTotal sums every round's count. */
    method ComparePairs(files: seq<SourceFiles.SourceFile>, ghost es: seq<Entry>, ghost c: seq<seq<seq<Block>>>)
      returns (blocksTotal: nat)
      requires FilesAre(files, es, maxLinesPerFile)
      requires ComparesAre(c, minBlockSize, blockPercentThreshold, es)
      requires MatrixSize(maxLinesPerFile) <= matrix.Length
      modifies this`reports, this`duplicateLines, matrix
      ensures reports == old(reports) + FlatPairs(c, Pairs(Names(es), ignoreSameFilename))
      ensures duplicateLines == old(duplicateLines) + TotalLines(FlatPairs(c, Pairs(Names(es), ignoreSameFilename)))
      ensures blocksTotal == |FlatPairs(c, Pairs(Names(es), ignoreSameFilename))|
    {
      ghost var names := Names(es);
      ghost var ps: seq<(nat, nat)> := [];
      blocksTotal := 0;
      for i := 0 to |files|
        invariant ps == PairsUpTo(names, ignoreSameFilename, i)
        invariant reports == old(reports) + FlatPairs(c, ps)
        invariant duplicateLines == old(duplicateLines) + TotalLines(FlatPairs(c, ps))
        invariant blocksTotal == |FlatPairs(c, ps)|
      {
        var blocks;
        blocks, ps := CompareRound(files, i, es, names, c, ps, old(reports), old(duplicateLines));
        blocksTotal := blocksTotal + blocks;
      }
    }

    /**
     * run: loads the listed files, sizes the matrix for the longest one,
     * then compares each file with itself and with every later file (unless
     * same-named files are skipped), in that order. Returns the number of
     * files, of blocks and of lines loaded; the reports and the duplicate
     * line count are those of every comparison, in order.
     */
    method Run(listing: seq<string>, typeOf: string -> SourceFiles.FileType, contents: string -> seq<string>)
      returns (fileCount: nat, blocksTotal: nat, locsTotal: nat)
      requires blockPercentThreshold > 0
      modifies this`reports, this`duplicateLines, this`matrix, this`maxLinesPerFile
      ensures fileCount == |Loaded(listing, typeOf, contents)|
      ensures locsTotal == LocsTotal(Loaded(listing, typeOf, contents))
      ensures maxLinesPerFile == Longest(Loaded(listing, typeOf, contents))
      ensures matrix.Length == maxLinesPerFile * maxLinesPerFile
      ensures reports == old(reports) + Report(minBlockSize, blockPercentThreshold, ignoreSameFilename, Loaded(listing, typeOf, contents))
      ensures duplicateLines == old(duplicateLines) + TotalLines(Report(minBlockSize, blockPercentThreshold, ignoreSameFilename, Loaded(listing, typeOf, contents)))
      ensures blocksTotal == |Report(minBlockSize, blockPercentThreshold, ignoreSameFilename, Loaded(listing, typeOf, contents))|
      ensures Loaded(listing, typeOf, contents) == [] ==> fileCount == 0 && blocksTotal == 0 && locsTotal == 0 && reports == old(reports)
    {
      ghost var es := Loaded(listing, typeOf, contents);
      var files;
      files, locsTotal := LoadFiles(listing, typeOf, contents);
      fileCount := |files|;
      blocksTotal := RunLoaded(files, es);
    }

    /** run after loading: sizing the matrix for the longest of the files es, then every comparison. */
    method RunLoaded(files: seq<SourceFiles.SourceFile>, ghost es: seq<Entry>) returns (blocksTotal: nat)
      requires blockPercentThreshold > 0 && |files| == |es|
      requires forall k :: 0 <= k < |files| ==> files[k].Valid() && EntryOf(files[k]) == es[k]
      modifies this`reports, this`duplicateLines, this`matrix, this`maxLinesPerFile
      ensures maxLinesPerFile == Longest(es)
      ensures matrix.Length == maxLinesPerFile * maxLinesPerFile
      ensures reports == old(reports) + Report(minBlockSize, blockPercentThreshold, ignoreSameFilename, es)
      ensures duplicateLines == old(duplicateLines) + TotalLines(Report(minBlockSize, blockPercentThreshold, ignoreSameFilename, es))
      ensures blocksTotal == |Report(minBlockSize, blockPercentThreshold, ignoreSameFilename, es)|
    {
      maxLinesPerFile := LongestOf(files, es);
      matrix := new bool[MatrixSize(maxLinesPerFile)];
      LoadedFilesAre(files, es);
      ghost var c := CompareTable(minBlockSize, blockPercentThreshold, es);
      blocksTotal := ComparePairs(files, es, c);
      ReportIsFlatPairs(c, minBlockSize, blockPercentThreshold, ignoreSameFilename, es);
    }

    /** Loads the files the list names, in list order, keeping those whose name is longer than five characters and that are not empty. */
    method LoadFiles(listing: seq<string>, typeOf: string -> SourceFiles.FileType, contents: string -> seq<string>)
      returns (files: seq<SourceFiles.SourceFile>, locsTotal: nat)
      ensures |files| == |Corpus(listing, typeOf, contents, minChars, ignorePrepStuff)|
      ensures forall i :: 0 <= i < |files| ==>
                files[i].Valid() && EntryOf(files[i]) == Corpus(listing, typeOf, contents, minChars, ignorePrepStuff)[i]
      ensures locsTotal == LocsTotal(Corpus(listing, typeOf, contents, minChars, ignorePrepStuff))
    {
      files := [];
      locsTotal := 0;
      for k := 0 to |listing|
        invariant |files| == |Corpus(listing[..k], typeOf, contents, minChars, ignorePrepStuff)|
        invariant forall i :: 0 <= i < |files| ==>
                    files[i].Valid() && EntryOf(files[i]) == Corpus(listing[..k], typeOf, contents, minChars, ignorePrepStuff)[i]
        invariant locsTotal == LocsTotal(Corpus(listing[..k], typeOf, contents, minChars, ignorePrepStuff))
      {
        ghost var before := Corpus(listing[..k], typeOf, contents, minChars, ignorePrepStuff);
        ghost var load := Load(listing[k], typeOf, contents, minChars, ignorePrepStuff);
        assert listing[..k + 1][..k] == listing[..k];
        assert Corpus(listing[..k + 1], typeOf, contents, minChars, ignorePrepStuff) == before + load;
        var loaded, numLines := LoadFile(listing[k], typeOf, contents);
        LocsTotalAppend(before, load);
        files := files + loaded;
        locsTotal := locsTotal + numLines;
      }
      assert listing[..|listing|] == listing;
    }
  }
}
