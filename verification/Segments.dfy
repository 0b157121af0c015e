// Cutting the process image into datagram-sized segments.
module Segments {

  const EC_MAXECATFRAME: nat := 1518
  const EC_MAXLRWDATA: nat := EC_MAXECATFRAME - 14 - 2 - 10 - 2 - 4
  const EC_FIRSTDCDATAGRAM: nat := 20
  const EC_MAXIOSEGMENTS: nat := 64

  /** Bytes of process data that fit a datagram next to the clock datagram. */
  const SEGMENT_LIMIT: nat := EC_MAXLRWDATA - EC_FIRSTDCDATAGRAM

  function Sum(s: seq<nat>): nat {
    if s == [] then 0 else Sum(s[..|s| - 1]) + s[|s| - 1]
  }

  function Last(s: seq<nat>): nat
    requires s != []
  {
    s[|s| - 1]
  }

  /** Greedy packing of contributions into at most `limit` segments; the last one is still open.
      A contribution that needs one segment more is dropped. */
  function Pack(d: seq<nat>, limit: nat): (segs: seq<nat>)
    ensures |segs| >= 1
  {
    if d == [] then [0]
    else
      var segs, c := Pack(d[..|d| - 1], limit), Last(d);
      if Last(segs) + c <= SEGMENT_LIMIT then segs[|segs| - 1 := Last(segs) + c]
      else if |segs| < limit then segs + [c]
      else segs
  }

  /** The packing without a limit on the number of segments. */
  function PackAll(d: seq<nat>): (segs: seq<nat>)
    ensures |segs| >= 1
  {
    if d == [] then [0]
    else
      var segs, c := PackAll(d[..|d| - 1]), Last(d);
      if Last(segs) + c <= SEGMENT_LIMIT then segs[|segs| - 1 := Last(segs) + c] else segs + [c]
  }

  /** One contribution, as the group mapper books it. */
  method Book(segment: array<nat>, currentsegment: nat, segmentsize: nat, diff: nat, ghost d: seq<nat>)
    returns (current: nat, size: nat)
    requires segment.Length == EC_MAXIOSEGMENTS && currentsegment < EC_MAXIOSEGMENTS
    requires segment[..currentsegment] + [segmentsize] == Pack(d, EC_MAXIOSEGMENTS)
    modifies segment
    ensures current < EC_MAXIOSEGMENTS
    ensures segment[..current] + [size] == Pack(d + [diff], EC_MAXIOSEGMENTS)
  {
    ghost var segs := segment[..currentsegment] + [segmentsize];
    assert (d + [diff])[..|d|] == d;
    assert segs[..|segs| - 1] == segment[..currentsegment];
    current, size := currentsegment, segmentsize;
    if segmentsize + diff > SEGMENT_LIMIT {
      segment[current] := segmentsize;
      if current < EC_MAXIOSEGMENTS - 1 {
        current := current + 1;
        size := diff;
        assert segment[..current] == segs;
      } else {
        assert segment[..current] + [size] == segs;
      }
    } else {
      size := size + diff;
      assert segment[..current] + [size] == segs[|segs| - 1 := size];
    }
  }

  lemma {:induction false} SumAppend(s: seq<nat>, x: nat)
    ensures Sum(s + [x]) == Sum(s) + x
  {
    assert (s + [x])[..|s|] == s;
  }

  lemma {:induction false} SumConcat(s: seq<nat>, t: seq<nat>)
    ensures Sum(s + t) == Sum(s) + Sum(t)
  {
    if t == [] {
      assert s + t == s;
    } else {
      var u := t[..|t| - 1];
      SumConcat(s, u);
      SumAppend(s + u, Last(t));
      assert s + t == s + u + [Last(t)];
    }
  }

  lemma {:induction false} SumUpdateLast(s: seq<nat>, x: nat)
    requires s != []
    ensures Sum(s[|s| - 1 := x]) == Sum(s) - Last(s) + x
  {
    assert s[|s| - 1 := x][..|s| - 1] == s[..|s| - 1];
  }

  predicate AllFit(d: seq<nat>) {
    forall k :: 0 <= k < |d| ==> d[k] <= SEGMENT_LIMIT
  }

  /** Nothing is lost or duplicated by packing. */
  lemma {:induction false} PackAllKeepsSum(d: seq<nat>)
    ensures Sum(PackAll(d)) == Sum(d)
  {
    if d != [] {
      PackAllKeepsSum(d[..|d| - 1]);
      var segs, c := PackAll(d[..|d| - 1]), Last(d);
      SumAppend(segs, c);
      SumUpdateLast(segs, Last(segs) + c);
    } else {
      assert Sum([0]) == 0;
    }
  }

  /** Segments fit a datagram exactly when every contribution does. */
  lemma {:induction false} PackedSegmentsFit(d: seq<nat>)
    ensures AllFit(PackAll(d)) <==> AllFit(d)
  {
    if d != [] {
      var e := d[..|d| - 1];
      PackedSegmentsFit(e);
      var segs, c, all := PackAll(e), Last(d), PackAll(d);
      assert AllFit(d) <==> AllFit(e) && c <= SEGMENT_LIMIT;
      if Last(segs) + c <= SEGMENT_LIMIT {
        assert forall k :: 0 <= k < |segs| - 1 ==> all[k] == segs[k];
        assert AllFit(all) <==> AllFit(segs);
      } else {
        assert forall k :: 0 <= k < |segs| ==> all[k] == segs[k];
        assert all[|segs|] == c;
        assert AllFit(all) <==> AllFit(segs) && c <= SEGMENT_LIMIT;
      }
    }
  }

  /** The contributions in the order in which they come, cut into groups. */
  function Flatten(groups: seq<seq<nat>>): seq<nat> {
    if groups == [] then [] else Flatten(groups[..|groups| - 1]) + groups[|groups| - 1]
  }

  ghost predicate EachFits(groups: seq<seq<nat>>) {
    forall k :: 0 <= k < |groups| ==> Sum(groups[k]) <= SEGMENT_LIMIT
  }

  lemma {:induction false} LastOfGroup(groups: seq<seq<nat>>, d: seq<nat>) returns (fewer: seq<seq<nat>>)
    requires groups != [] && EachFits(groups) && Flatten(groups) == d && d != [] && groups[|groups| - 1] != []
    ensures var g := groups[|groups| - 1];
            && |fewer| == |groups| && EachFits(fewer) && Flatten(fewer) == d[..|d| - 1]
            && Sum(g) == Sum(fewer[|groups| - 1]) + Last(d)
  {
    var n := |groups| - 1;
    var g := groups[n];
    fewer := groups[n := g[..|g| - 1]];
    assert g == g[..|g| - 1] + [Last(d)];
    SumAppend(g[..|g| - 1], Last(d));
    assert fewer[..n] == groups[..n];
  }

  /** No way of cutting the contributions, in their order, into groups that fit a datagram needs fewer segments. */
  lemma {:induction false} PackingIsMinimal(d: seq<nat>, groups: seq<seq<nat>>)
    requires groups != [] && EachFits(groups) && Flatten(groups) == d
    ensures |PackAll(d)| <= |groups|
    ensures |PackAll(d)| == |groups| ==> Last(PackAll(d)) <= Sum(groups[|groups| - 1])
    decreases |d|, |groups|
  {
    if d != [] {
      var n := |groups| - 1;
      if groups[n] == [] {
        assert groups[..n] != [];
        PackingIsMinimal(d, groups[..n]);
      } else {
        var fewer := LastOfGroup(groups, d);
        PackingIsMinimal(d[..|d| - 1], fewer);
      }
    }
  }

  /** The table of 64 segments is the unlimited packing exactly as long as that needs no more. */
  lemma {:induction false} PackWithinLimit(d: seq<nat>, limit: nat)
    requires limit >= 1
    ensures |Pack(d, limit)| <= limit
    ensures |PackAll(d)| <= limit ==> Pack(d, limit) == PackAll(d)
    ensures AllFit(d) && |PackAll(d)| > limit ==> Sum(Pack(d, limit)) < Sum(d)
    ensures AllFit(d) ==> AllFit(Pack(d, limit))
  {
    hide AllFit;
    if d != [] {
      var e, c := d[..|d| - 1], Last(d);
      PackWithinLimit(e, limit);
      FitParts(d);
      var segs := Pack(e, limit);
      SumAppend(segs, c);
      SumUpdateLast(segs, Last(segs) + c);
      if AllFit(d) {
        FitStep(segs, c);
        PackAllKeepsSum(e);
      }
    } else {
      assert AllFit([0]) by { FitZero(); }
    }
  }

  lemma {:induction false} FitZero()
    ensures AllFit([0])
  {
  }

  lemma {:induction false} FitParts(d: seq<nat>)
    requires d != []
    ensures AllFit(d) ==> AllFit(d[..|d| - 1]) && Last(d) <= SEGMENT_LIMIT
  {
  }

  lemma {:induction false} FitStep(segs: seq<nat>, c: nat)
    requires segs != [] && AllFit(segs) && c <= SEGMENT_LIMIT
    ensures Last(segs) <= SEGMENT_LIMIT && AllFit(segs + [c])
    ensures Last(segs) + c <= SEGMENT_LIMIT ==> AllFit(segs[|segs| - 1 := Last(segs) + c])
  {
  }

  /** Later contributions leave closed segments alone and only add to the open one. */
  lemma {:induction false} PackExtends(d: seq<nat>, e: seq<nat>, limit: nat)
    ensures var p, q := Pack(d, limit), Pack(d + e, limit);
            |p| <= |q| && q[..|p| - 1] == p[..|p| - 1] && q[|p| - 1] >= Last(p)
  {
    if e == [] {
      assert d + e == d;
    } else {
      var f := e[..|e| - 1];
      PackExtends(d, f, limit);
      assert (d + e)[..|d + e| - 1] == d + f;
    }
  }

  /** Segment `j` of `segs` contains the bytes from `from` up to `until`. */
  ghost predicate Holds(segs: seq<nat>, j: nat, from: int, until: int) {
    j < |segs| && Sum(segs[..j]) <= from && until <= Sum(segs[..j]) + segs[j]
  }

  /** No contribution is cut: the open segment after booking it contains it entirely, and stays
      the place of it whatever follows. */
  lemma {:induction false} ContributionStaysWhole(d: seq<nat>, k: nat)
    requires k < |d| && |PackAll(d)| <= EC_MAXIOSEGMENTS
    ensures Holds(Pack(d, EC_MAXIOSEGMENTS), |Pack(d[..k + 1], EC_MAXIOSEGMENTS)| - 1, Sum(d[..k]), Sum(d[..k + 1]))
  {
    hide Pack, PackAll;
    var here := d[..k + 1];
    assert d == here + d[k + 1..];
    PackWithinLimit(d, EC_MAXIOSEGMENTS);
    FewerForPrefix(d, k + 1);
    PackWithinLimit(here, EC_MAXIOSEGMENTS);
    PackExtends(here, d[k + 1..], EC_MAXIOSEGMENTS);
    var p, q := Pack(here, EC_MAXIOSEGMENTS), Pack(d, EC_MAXIOSEGMENTS);
    var j := |p| - 1;
    assert q[..j] == p[..j];
    PackAllKeepsSum(here);
    PackAllKeepsSum(d[..k]);
    assert here[..k] == d[..k];
    OpenSegmentHolds(here);
    assert Holds(q, j, Sum(d[..k]), Sum(d[..k + 1]));
  }

  lemma {:induction false} OpenSegmentHolds(d: seq<nat>)
    requires d != []
    ensures var p := PackAll(d); Sum(p[..|p| - 1]) <= Sum(d[..|d| - 1]) && Sum(d) == Sum(p)
  {
    var segs, c := PackAll(d[..|d| - 1]), Last(d);
    PackAllKeepsSum(d);
    PackAllKeepsSum(d[..|d| - 1]);
    if Last(segs) + c <= SEGMENT_LIMIT {
      assert PackAll(d)[..|segs| - 1] == segs[..|segs| - 1];
    } else {
      assert PackAll(d)[..|segs|] == segs;
    }
  }

  lemma {:induction false} FewerForPrefix(d: seq<nat>, k: nat)
    requires k <= |d|
    ensures |PackAll(d[..k])| <= |PackAll(d)|
  {
    if k < |d| {
      FewerForPrefix(d[..|d| - 1], k);
      assert d[..|d| - 1][..k] == d[..k];
    } else {
      assert d[..k] == d;
    }
  }

  lemma {:induction false} SumStep(s: seq<nat>, k: nat)
    requires k < |s|
    ensures Sum(s[..k + 1]) == Sum(s[..k]) + s[k]
  {
    assert s[..k + 1][..k] == s[..k];
  }

  lemma {:induction false} SumGrows(s: seq<nat>, j: nat, k: nat)
    requires j <= k <= |s|
    ensures Sum(s[..j]) <= Sum(s[..k])
    decreases k
  {
    if j < k {
      SumGrows(s, j, k - 1);
      SumStep(s, k - 1);
    }
  }
}
