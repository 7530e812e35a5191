/**
 * Run detection along one diagonal of the match matrix, as both sweeps of
 * Duplo::process do it: a counter of consecutive matches that a mismatch
 * reports (when long enough) and resets, and the run still open when the
 * diagonal ends. A diagonal is the sequence of its cells' match bits.
 */
module DiagonalRuns {

  /** A run of `len` matches that ends just before position `end` of its diagonal. */
  datatype Run = Run(end: nat, len: nat)

  /** The run still open at the end of d: its number of trailing matches. */
  function OpenRun(d: seq<bool>): (l: nat)
    ensures l <= |d|
    ensures forall k :: |d| - l <= k < |d| ==> d[k]
    ensures l < |d| ==> !d[|d| - 1 - l]
  {
    if d == [] || !d[|d| - 1] then 0 else OpenRun(d[..|d| - 1]) + 1
  }

  /**
   * The runs a mismatch ends, in order, that are at least t long: each
   * mismatch at position e reports the run open just before it.
   */
  function ClosedRuns(d: seq<bool>, t: nat): seq<Run>
  {
    if d == [] then []
    else
      var p := d[..|d| - 1];
      if d[|d| - 1] then ClosedRuns(p, t)
      else ClosedRuns(p, t) + (if OpenRun(p) >= t then [Run(|d| - 1, OpenRun(p))] else [])
  }

  /**
   * r is a maximal run of d ended by a mismatch: every cell in it matches,
   * the cell at its end does not, and it starts at the start of d or just
   * after another mismatch.
   */
  ghost predicate MaximalClosedRun(d: seq<bool>, r: Run)
  {
    && r.len <= r.end < |d|
    && !d[r.end]
    && (forall k :: r.end - r.len <= k < r.end ==> d[k])
    && (r.end == r.len || !d[r.end - r.len - 1])
  }

  /** Every reported run is maximal, ended by a mismatch, at least t long, and they come in increasing order of end. */
  ghost predicate RunsOk(d: seq<bool>, t: nat, rs: seq<Run>)
  {
    && (forall i :: 0 <= i < |rs| ==> MaximalClosedRun(d, rs[i]) && rs[i].len >= t)
    && (forall i, j :: 0 <= i < j < |rs| ==> rs[i].end < rs[j].end)
  }

  /** A maximal run stays maximal in any longer diagonal that extends d. */
  lemma MaximalExtends(d: seq<bool>, b: bool, r: Run)
    requires MaximalClosedRun(d, r)
    ensures MaximalClosedRun(d + [b], r)
  {
    var d' := d + [b];
    assert forall k :: 0 <= k < |d| ==> d'[k] == d[k];
  }

  /** Well-formed runs of d stay well formed when d grows by one cell. */
  lemma RunsOkExtends(d: seq<bool>, bit: bool, t: nat, rs: seq<Run>)
    requires RunsOk(d, t, rs)
    ensures RunsOk(d + [bit], t, rs)
  {
    forall i | 0 <= i < |rs| ensures MaximalClosedRun(d + [bit], rs[i]) {
      MaximalExtends(d, bit, rs[i]);
    }
  }

  /** A maximal run ending after all of rs extends them to a well-formed list. */
  lemma RunsOkSnoc(d: seq<bool>, t: nat, rs: seq<Run>, r: Run)
    requires RunsOk(d, t, rs) && MaximalClosedRun(d, r) && r.len >= t
    requires forall i :: 0 <= i < |rs| ==> rs[i].end < r.end
    ensures RunsOk(d, t, rs + [r])
  {
    var cur := rs + [r];
    forall i | 0 <= i < |cur| ensures MaximalClosedRun(d, cur[i]) && cur[i].len >= t {
      if i < |rs| {
        assert cur[i] == rs[i];
      }
    }
    forall i, j | 0 <= i < j < |cur| ensures cur[i].end < cur[j].end {
      assert cur[i] == rs[i];
    }
  }

  /** A run of l trailing matches of p, preceded by a mismatch or the start of p, is maximal once a mismatch follows it. */
  lemma TrailingRunCloses(p: seq<bool>, l: nat)
    requires l <= |p|
    requires forall k :: |p| - l <= k < |p| ==> p[k]
    requires l < |p| ==> !p[|p| - 1 - l]
    ensures MaximalClosedRun(p + [false], Run(|p|, l))
  {
    var d := p + [false];
    forall k | |p| - l <= k < |p| ensures d[k] {
      assert d[k] == p[k];
    }
    if l < |p| {
      assert d[|p| - l - 1] == p[|p| - 1 - l];
    }
  }

  /** A mismatch after a run of at least t matches appends that run to a well-formed list. */
  lemma RunsOkClose(p: seq<bool>, t: nat, rs: seq<Run>)
    requires RunsOk(p, t, rs) && OpenRun(p) >= t
    ensures RunsOk(p + [false], t, rs + [Run(|p|, OpenRun(p))])
  {
    RunsOkExtends(p, false, t, rs);
    TrailingRunCloses(p, OpenRun(p));
    assert forall i :: 0 <= i < |rs| ==> rs[i].end < |p| by {
      forall i | 0 <= i < |rs| ensures rs[i].end < |p| {
        assert MaximalClosedRun(p, rs[i]);
      }
    }
    RunsOkSnoc(p + [false], t, rs, Run(|p|, OpenRun(p)));
  }

  /** Soundness: ClosedRuns reports only maximal runs ended by a mismatch, at least t long, in order. */
  lemma {:induction false} ClosedRunsSound(d: seq<bool>, t: nat)
    ensures RunsOk(d, t, ClosedRuns(d, t))
  {
    if d != [] {
      var p := d[..|d| - 1];
      assert d == p + [d[|d| - 1]];
      ClosedRunsSound(p, t);
      if !d[|d| - 1] && OpenRun(p) >= t {
        RunsOkClose(p, t, ClosedRuns(p, t));
      } else {
        RunsOkExtends(p, d[|d| - 1], t, ClosedRuns(p, t));
      }
    }
  }

  /** Completeness: every mismatch preceded by at least t matches reports its run. */
  lemma {:induction false} ClosedRunsComplete(d: seq<bool>, t: nat, e: nat)
    requires e < |d| && !d[e] && OpenRun(d[..e]) >= t
    ensures Run(e, OpenRun(d[..e])) in ClosedRuns(d, t)
  {
    var p := d[..|d| - 1];
    if e == |d| - 1 {
      assert p == d[..e];
    } else {
      assert p[..e] == d[..e];
      assert p[e] == d[e];
      ClosedRunsComplete(p, t, e);
    }
  }

  /** A maximal run ended by a mismatch is exactly the open run in front of that mismatch. */
  lemma MaximalIsOpenRun(d: seq<bool>, r: Run)
    requires MaximalClosedRun(d, r)
    ensures OpenRun(d[..r.end]) == r.len
  {
  }

  /** The open run of a diagonal that ends in a match grows by one. */
  lemma OpenRunStep(d: seq<bool>, x: nat)
    requires x < |d|
    ensures d[..x + 1][..x] == d[..x]
    ensures d[x] ==> OpenRun(d[..x + 1]) == OpenRun(d[..x]) + 1
    ensures !d[x] ==> OpenRun(d[..x + 1]) == 0
  {
    assert d[..x + 1][..x] == d[..x];
  }

  /** A match, or a mismatch after a run shorter than t, closes no run. */
  lemma ClosedRunsKeep(d: seq<bool>, x: nat, t: nat)
    requires x < |d| && (d[x] || OpenRun(d[..x]) < t)
    ensures ClosedRuns(d[..x + 1], t) == ClosedRuns(d[..x], t)
  {
    assert d[..x + 1][..x] == d[..x];
  }

  /** A mismatch after a run of l >= t matches closes exactly that run. */
  lemma ClosedRunsGrow(d: seq<bool>, x: nat, t: nat, l: nat)
    requires x < |d| && !d[x] && l == OpenRun(d[..x]) && l >= t
    ensures ClosedRuns(d[..x + 1], t) == ClosedRuns(d[..x], t) + [Run(x, l)]
  {
    assert d[..x + 1][..x] == d[..x];
  }

  /** The trailing matches of d, when preceded by a mismatch or the start of d, are exactly its open run. */
  lemma OpenRunExact(d: seq<bool>, c: nat)
    requires c <= |d|
    requires forall k :: |d| - c <= k < |d| ==> d[k]
    requires c == |d| || !d[|d| - c - 1]
    ensures OpenRun(d) == c
  {
  }

  /** Any prefix of a well-formed run list is well formed. */
  lemma RunsOkPrefix(d: seq<bool>, t: nat, rs: seq<Run>, k: nat)
    requires RunsOk(d, t, rs) && k <= |rs|
    ensures RunsOk(d, t, rs[..k])
  {
  }

  /** A diagonal without a match reports no run of positive length. */
  lemma {:induction false} ClosedRunsNone(d: seq<bool>, t: nat)
    requires t >= 1 && forall k :: 0 <= k < |d| ==> !d[k]
    ensures ClosedRuns(d, t) == []
  {
    if d != [] {
      ClosedRunsNone(d[..|d| - 1], t);
    }
  }

  /** A diagonal of matches only has no mismatch to close a run. */
  lemma {:induction false} ClosedRunsAllMatch(d: seq<bool>, t: nat)
    requires forall k :: 0 <= k < |d| ==> d[k]
    ensures ClosedRuns(d, t) == [] && OpenRun(d) == |d|
  {
    if d != [] {
      ClosedRunsAllMatch(d[..|d| - 1], t);
    }
  }
}
