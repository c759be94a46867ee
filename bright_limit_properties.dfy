/** What the saturation cut promises about its output, proved of BrightLimit.Cut. */
module BrightLimitProperties {
  import opened Frames
  import opened BrightLimit

  /** Reference definition of the survivors: the rows that are not too bright, in order. */
  function Passing(f: Frame, filters: seq<string>, limit: Limit): (r: Frame)
    ensures forall row :: row in r <==> row in f && !TooBright(row.obs, filters, limit)
  {
    if f == [] then []
    else if TooBright(f[0].obs, filters, limit) then Passing(f[1..], filters, limit)
    else [f[0]] + Passing(f[1..], filters, limit)
  }

  /** Dropping by label removes exactly the too-bright rows whenever a row's label is listed
      just when that row is too bright. */
  lemma {:induction false} DropByRule(f: Frame, labels: seq<int>, filters: seq<string>, limit: Limit)
    requires forall i :: 0 <= i < |f| ==> (f[i].index in labels <==> TooBright(f[i].obs, filters, limit))
    ensures Drop(f, labels) == Passing(f, filters, limit)
  {
    if f != [] {
      assert forall i :: 1 <= i < |f| ==> f[1..][i - 1] == f[i];
      DropByRule(f[1..], labels, filters, limit);
      assert f[0].index in labels <==> TooBright(f[0].obs, filters, limit);
    }
  }

  /** With distinct index labels the cut keeps exactly the rows that are not too bright,
      in their order, and renumbers them from zero. */
  lemma CutKeepsExactlyPassing(f: Frame, filters: seq<string>, limit: Limit)
    requires UniqueLabels(f) && Applicable(filters, limit)
    ensures Cut(f, filters, limit) == Ok(ResetIndex(Passing(f, filters, limit)))
  {
    var labels := DropLabels(f, filters, limit);
    forall i | 0 <= i < |f|
      ensures f[i].index in labels <==> TooBright(f[i].obs, filters, limit)
    {
      if f[i].index in labels {
        var j :| 0 <= j < |f| && f[j].index == f[i].index && TooBright(f[j].obs, filters, limit);
        assert j == i;
      }
    }
    DropByRule(f, labels, filters, limit);
  }

  /** A single float limit: a row survives exactly when its magnitude is not below the
      limit, so a magnitude equal to the limit survives. */
  lemma SingleLimitCut(f: Frame, filters: seq<string>, l: real)
    requires UniqueLabels(f)
    ensures Cut(f, filters, Single(l)) == Ok(ResetIndex(Passing(f, filters, Single(l))))
    ensures forall i :: 0 <= i < |f| ==>
      (f[i] in Passing(f, filters, Single(l)) <==> l <= f[i].obs.observedPSFMag)
  {
    CutKeepsExactlyPassing(f, filters, Single(l));
  }

  /** The largest limit the list gives the filter, or None when the filter is not listed.
      Only the first |filters| limits are read. */
  function EffectiveLimit(filt: string, filters: seq<string>, limits: seq<real>): (r: Option<real>)
    requires |filters| <= |limits|
    ensures r.None? <==> filt !in filters
    ensures r.Some? ==> exists i :: 0 <= i < |filters| && filters[i] == filt && limits[i] == r.value
    ensures r.Some? ==> forall i :: 0 <= i < |filters| && filters[i] == filt ==> limits[i] <= r.value
  {
    if filters == [] then None
    else
      var rest := EffectiveLimit(filt, filters[1..], limits[1..]);
      assert forall i :: 1 <= i < |filters| ==> filters[1..][i - 1] == filters[i] && limits[1..][i - 1] == limits[i];
      if filters[0] != filt then rest
      else if rest.Some? && limits[0] < rest.value then rest
      else Some(limits[0])
  }

  /** Per-filter limits: a row is too bright exactly when its filter is listed and its
      magnitude is below the largest limit listed for that filter. */
  lemma PerFilterUsesLargestLimit(o: Observation, filters: seq<string>, ls: seq<real>)
    requires |filters| <= |ls|
    ensures TooBright(o, filters, PerFilter(ls)) <==>
      (var e := EffectiveLimit(o.optFilter, filters, ls); e.Some? && o.observedPSFMag < e.value)
  {
  }

  /** Per-filter limits: the survivors are the rows whose magnitude is not below their
      filter's largest limit, and a row whose filter is not listed always survives. */
  lemma PerFilterCut(f: Frame, filters: seq<string>, ls: seq<real>)
    requires UniqueLabels(f) && |filters| <= |ls|
    ensures Cut(f, filters, PerFilter(ls)) == Ok(ResetIndex(Passing(f, filters, PerFilter(ls))))
    ensures forall i :: 0 <= i < |f| ==>
      (f[i] in Passing(f, filters, PerFilter(ls)) <==>
        match EffectiveLimit(f[i].obs.optFilter, filters, ls)
        case None => true
        case Some(e) => e <= f[i].obs.observedPSFMag)
    ensures forall i :: 0 <= i < |f| && f[i].obs.optFilter !in filters ==>
      f[i] in Passing(f, filters, PerFilter(ls))
  {
    CutKeepsExactlyPassing(f, filters, PerFilter(ls));
    forall i | 0 <= i < |f| {
      PerFilterUsesLargestLimit(f[i].obs, filters, ls);
    }
  }

  /** The output holds input rows' columns unchanged, in input order, never more rows than
      the input, numbered 0..k-1. This holds whatever the input's index labels are. */
  lemma CutKeepsOrder(f: Frame, filters: seq<string>, limit: Limit)
    requires Applicable(filters, limit)
    ensures Cut(f, filters, limit).Ok?
    ensures SubsequenceOf(Observations(Cut(f, filters, limit).value), Observations(f))
    ensures |Cut(f, filters, limit).value| <= |f| && DenselyNumbered(Cut(f, filters, limit).value)
  {
    DropKeepsOrder(f, DropLabels(f, filters, limit));
  }

  /** Cutting the output again with the same filters and limit changes nothing: every row
      that survived already passes every test. */
  lemma CutIdempotent(f: Frame, filters: seq<string>, limit: Limit)
    requires Cut(f, filters, limit).Ok?
    ensures Cut(Cut(f, filters, limit).value, filters, limit) == Cut(f, filters, limit)
  {
    var out := Cut(f, filters, limit).value;
    var labels := DropLabels(out, filters, limit);
    DropNothing(out, labels);
    ResetIndexOfNumbered(out);
  }

  /** Limits beyond the last listed filter are never read. */
  lemma ExtraLimitsIgnored(f: Frame, filters: seq<string>, ls: seq<real>, extra: seq<real>)
    requires |filters| <= |ls|
    ensures Cut(f, filters, PerFilter(ls + extra)) == Cut(f, filters, PerFilter(ls))
  {
    assert DropIndex(f, filters, ls + extra) == DropIndex(f, filters, ls);
  }
}
