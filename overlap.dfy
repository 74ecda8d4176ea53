/**
 * The overlap detector: the elevation-scaled disk around a query point, the
 * per-county overlap flags (`point_overlaps`) and the names of the overlapped
 * counties (`counties_overlap`).
 */
module Overlap {
  import opened Outcomes
  import opened Raster

  /** Intersection areas strictly above this count as an overlap. */
  const AreaThreshold: real := 0.05

  /** The attribute holding a county's name in the shapefile records. */
  const NameKey: string := "NAME_TAG"

  /**
   * `make_circle(x, y)`: a disk centred on (x, y) whose radius is a fixed
   * function of `height`, the elevation sampled there.
   */
  datatype Disk = Disk(cx: real, cy: real, height: int)

  /** A shapefile record: its attribute table. */
  datatype Record = Record(attributes: map<string, string>)

  /**
   * `make_circle(x, y)` calls `elevation((y, x))`, and `elevation` indexes the
   * raster at (pt[1], pt[0]): the two swaps cancel, so the height comes from the
   * cell of (x, y) itself.
   */
  function MakeCircle(raster: Raster, x: real, y: real): (d: Result<Disk>)
    requires raster.band.Valid()
    ensures d.Ok? <==> Sample(raster.band, raster.index(x, y)).Ok?
    ensures d.Ok? ==> d.value == Disk(x, y, Sample(raster.band, raster.index(x, y)).value)
    ensures d.Ok? ==> d.value.height > 0
  {
    var h :- Elevation(raster, (y, x));
    Ok(Disk(x, y, h))
  }

  /** One flag per county, in county order: does its intersection with `p` exceed the threshold? */
  function Flags<G>(area: (G, Disk) -> real, counties: seq<G>, p: Disk): (overs: seq<bool>)
    ensures |overs| == |counties|
    ensures forall k :: 0 <= k < |counties| ==> (overs[k] <==> area(counties[k], p) > AreaThreshold)
  {
    if counties == [] then []
    else [area(counties[0], p) > AreaThreshold] + Flags(area, counties[1..], p)
  }

  /** `point_overlaps(x, y, counties)`. */
  function PointOverlaps<G>(raster: Raster, area: (G, Disk) -> real, x: real, y: real, counties: seq<G>)
    : (overs: Result<seq<bool>>)
    requires raster.band.Valid()
    ensures overs.Ok? <==> MakeCircle(raster, x, y).Ok?
    ensures overs.Ok? ==> |overs.value| == |counties|
    ensures overs.Ok? ==> forall k :: 0 <= k < |counties| ==>
      (overs.value[k] <==> area(counties[k], MakeCircle(raster, x, y).value) > AreaThreshold)
  {
    var p :- MakeCircle(raster, x, y);
    Ok(Flags(area, counties, p))
  }

  /** `sum(overlaps)`: the number of true flags. */
  function CountTrue(bs: seq<bool>): (n: nat)
    ensures n <= |bs|
    ensures n == 0 <==> forall k :: 0 <= k < |bs| ==> !bs[k]
    ensures n == |bs| <==> forall k :: 0 <= k < |bs| ==> bs[k]
  {
    if bs == [] then 0
    else (if bs[0] then 1 else 0) + CountTrue(bs[1..])
  }

  lemma {:induction false} CountTrueAppend(a: seq<bool>, b: seq<bool>)
    ensures CountTrue(a + b) == CountTrue(a) + CountTrue(b)
  {
    if a != [] {
      assert (a + b)[1..] == a[1..] + b;
      CountTrueAppend(a[1..], b);
    } else {
      assert a + b == b;
    }
  }

  /**
   * The count is over county entries, not distinct areas: listing every county
   * twice doubles the number of overlaps at any point.
   */
  lemma DuplicatedCountiesCountTwice<G>(raster: Raster, area: (G, Disk) -> real, x: real, y: real, counties: seq<G>)
    requires raster.band.Valid()
    requires PointOverlaps(raster, area, x, y, counties).Ok?
    ensures PointOverlaps(raster, area, x, y, counties + counties).Ok?
    ensures CountTrue(PointOverlaps(raster, area, x, y, counties + counties).value)
         == 2 * CountTrue(PointOverlaps(raster, area, x, y, counties).value)
  {
    var once := PointOverlaps(raster, area, x, y, counties).value;
    var twice := PointOverlaps(raster, area, x, y, counties + counties).value;
    assert twice == once + once;
    CountTrueAppend(once, once);
  }

  function Min(a: nat, b: nat): nat {
    if a <= b then a else b
  }

  /**
   * The comprehension of `counties_overlap`: walk `zip(records, overs)`, which
   * stops at the shorter list, and keep the name of every record whose flag is
   * set; a flagged record without the name attribute raises KeyError.
   */
  function Names(recs: seq<Record>, overs: seq<bool>): (names: Result<seq<string>>)
    ensures names.Ok? ==> |names.value| <= |recs| && |names.value| <= |overs|
    ensures names.Err? ==> names.error == KeyError
  {
    if recs == [] || overs == [] then Ok([])
    else if overs[0] then
      if NameKey in recs[0].attributes then
        var rest :- Names(recs[1..], overs[1..]);
        Ok([recs[0].attributes[NameKey]] + rest)
      else Err(KeyError)
    else Names(recs[1..], overs[1..])
  }

  /** `counties_overlap(x, y, counties, shps)`. */
  function CountiesOverlap<G>(raster: Raster, area: (G, Disk) -> real, x: real, y: real,
                              counties: seq<G>, recs: seq<Record>): (names: Result<seq<string>>)
    requires raster.band.Valid()
    ensures names.Ok? ==> PointOverlaps(raster, area, x, y, counties).Ok?
    ensures names.Ok? ==> |names.value| <= |counties| && |names.value| <= |recs|
    ensures MakeCircle(raster, x, y).Err? ==> names == Err(IndexError)
  {
    var overs :- PointOverlaps(raster, area, x, y, counties);
    Names(recs, overs)
  }

  // ----- a reference description of what `Names` keeps -----

  /** The positions k with lo <= k < hi whose flag is set, in increasing order. */
  function FlaggedFrom(overs: seq<bool>, lo: nat, hi: nat): (ks: seq<nat>)
    requires lo <= hi <= |overs|
    ensures forall a :: 0 <= a < |ks| ==> lo <= ks[a] < hi && overs[ks[a]]
    ensures forall a, b :: 0 <= a < b < |ks| ==> ks[a] < ks[b]
    ensures forall k :: lo <= k < hi && overs[k] ==> k in ks
    decreases hi - lo
  {
    if lo == hi then []
    else (if overs[lo] then [lo] else []) + FlaggedFrom(overs, lo + 1, hi)
  }

  /** Every flagged position among the first Min(|recs|, |overs|) carries a name. */
  ghost predicate NamesPresent(recs: seq<Record>, ks: seq<nat>)
  {
    forall a :: 0 <= a < |ks| ==> ks[a] < |recs| && NameKey in recs[ks[a]].attributes
  }

  /** r is the outcome of keeping the names of the records at positions ks, in that order. */
  ghost predicate Describes(r: Result<seq<string>>, recs: seq<Record>, ks: seq<nat>)
  {
    (r.Ok? <==> NamesPresent(recs, ks)) &&
    (r.Ok? ==> |r.value| == |ks| &&
               forall a :: 0 <= a < |ks| ==> r.value[a] == recs[ks[a]].attributes[NameKey])
  }

  /**
   * `Names` keeps exactly the names of the flagged records among the pairs `zip`
   * produces, in record order, and fails exactly when one of them has no name.
   */
  lemma {:induction false} NamesAreFlaggedRecords(recs: seq<Record>, overs: seq<bool>)
    ensures Describes(Names(recs, overs), recs, FlaggedFrom(overs, 0, Min(|recs|, |overs|)))
  {
    NamesFrom(recs, overs, 0);
    assert recs[0..] == recs && overs[0..] == overs;
  }

  /** Prefixing a named, flagged position to a described outcome. */
  lemma DescribesCons(r': Result<seq<string>>, recs: seq<Record>, k: nat, ks': seq<nat>)
    requires Describes(r', recs, ks')
    requires k < |recs| && NameKey in recs[k].attributes
    ensures Describes(if r'.Ok? then Ok([recs[k].attributes[NameKey]] + r'.value) else r', recs, [k] + ks')
  {
    var ks := [k] + ks';
    var r := if r'.Ok? then Ok([recs[k].attributes[NameKey]] + r'.value) else r';
    assert NamesPresent(recs, ks) <==> NamesPresent(recs, ks') by {
      assert forall a :: 1 <= a < |ks| ==> ks[a] == ks'[a - 1];
      if NamesPresent(recs, ks') {
        forall a | 0 <= a < |ks| ensures ks[a] < |recs| && NameKey in recs[ks[a]].attributes {
          if a > 0 { assert ks[a] == ks'[a - 1]; }
        }
      }
      if NamesPresent(recs, ks) {
        forall a | 0 <= a < |ks'| ensures ks'[a] < |recs| && NameKey in recs[ks'[a]].attributes {
          assert ks[a + 1] == ks'[a];
        }
      }
    }
    if r.Ok? {
      forall a | 0 <= a < |ks| ensures r.value[a] == recs[ks[a]].attributes[NameKey] {
        if a > 0 { assert r.value[a] == r'.value[a - 1] && ks[a] == ks'[a - 1]; }
      }
    }
  }

  lemma {:induction false} NamesFrom(recs: seq<Record>, overs: seq<bool>, lo: nat)
    requires lo <= Min(|recs|, |overs|)
    ensures Describes(Names(recs[lo..], overs[lo..]), recs, FlaggedFrom(overs, lo, Min(|recs|, |overs|)))
    decreases Min(|recs|, |overs|) - lo
  {
    var m := Min(|recs|, |overs|);
    if lo < m {
      NamesFrom(recs, overs, lo + 1);
      var ks, ks' := FlaggedFrom(overs, lo, m), FlaggedFrom(overs, lo + 1, m);
      var r, r' := Names(recs[lo..], overs[lo..]), Names(recs[lo + 1..], overs[lo + 1..]);
      assert recs[lo..][1..] == recs[lo + 1..] && overs[lo..][1..] == overs[lo + 1..];
      assert recs[lo..][0] == recs[lo] && overs[lo..][0] == overs[lo];
      if !overs[lo] {
        assert ks == ks' && r == r';
      } else if NameKey !in recs[lo].attributes {
        assert ks[0] == lo && r.Err?;
      } else {
        assert ks == [lo] + ks';
        assert r == if r'.Ok? then Ok([recs[lo].attributes[NameKey]] + r'.value) else r';
        DescribesCons(r', recs, lo, ks');
      }
    }
  }

  /** The number of names kept equals the number of set flags that `zip` reaches. */
  lemma {:induction false} NamesCount(recs: seq<Record>, overs: seq<bool>)
    requires Names(recs, overs).Ok?
    ensures |Names(recs, overs).value| == CountTrue(overs[..Min(|recs|, |overs|)])
  {
    if recs != [] && overs != [] {
      NamesCount(recs[1..], overs[1..]);
      var m := Min(|recs|, |overs|);
      assert overs[..m][1..] == overs[1..][..Min(|recs[1..]|, |overs[1..]|)];
    }
  }

  /**
   * `counties_overlap` end to end: the names returned are those of the records,
   * among the first Min(|recs|, |counties|), whose county meets the disk in an
   * area above the threshold, in record order; every such record's name is there.
   */
  lemma CountiesOverlapNames<G>(raster: Raster, area: (G, Disk) -> real, x: real, y: real,
                                counties: seq<G>, recs: seq<Record>)
    requires raster.band.Valid()
    requires CountiesOverlap(raster, area, x, y, counties, recs).Ok?
    ensures var names := CountiesOverlap(raster, area, x, y, counties, recs).value;
            var p := MakeCircle(raster, x, y).value;
            var ks := FlaggedFrom(PointOverlaps(raster, area, x, y, counties).value, 0, Min(|recs|, |counties|));
            |names| == |ks| &&
            (forall a :: 0 <= a < |ks| ==>
               ks[a] < |recs| && ks[a] < |counties| &&
               area(counties[ks[a]], p) > AreaThreshold &&
               NameKey in recs[ks[a]].attributes &&
               names[a] == recs[ks[a]].attributes[NameKey]) &&
            (forall k :: 0 <= k < |recs| && k < |counties| && area(counties[k], p) > AreaThreshold ==>
               NameKey in recs[k].attributes && recs[k].attributes[NameKey] in names)
  {
    var overs := PointOverlaps(raster, area, x, y, counties).value;
    var names := CountiesOverlap(raster, area, x, y, counties, recs).value;
    var ks := FlaggedFrom(overs, 0, Min(|recs|, |counties|));
    NamesAreFlaggedRecords(recs, overs);
    forall k | 0 <= k < |recs| && k < |counties| && area(counties[k], MakeCircle(raster, x, y).value) > AreaThreshold
      ensures NameKey in recs[k].attributes && recs[k].attributes[NameKey] in names
    {
      assert k in ks;
      var a :| 0 <= a < |ks| && ks[a] == k;
      assert names[a] == recs[k].attributes[NameKey];
    }
  }
}
