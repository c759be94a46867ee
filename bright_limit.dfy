/** The saturation ("bright limit") cut of sorcha's post-processing: observations whose
    apparent magnitude is brighter, that is numerically smaller, than the saturation
    limit are removed, and the survivors are renumbered from zero. */
module BrightLimit {
  import opened Frames

  /** What `bright_limit` holds, as far as the exact type test tells values apart. */
  datatype Limit =
    | Single(limit: real)           // a float: one limit for every row
    | PerFilter(limits: seq<real>)  // a list: limits[i] belongs to observing_filters[i]
    | Other                         // anything else, an int included: see ClassifyLimit

  /** The Python value passed as `bright_limit`, as far as the cut looks at it. */
  datatype PythonValue =
    | PyFloat(f: real)
    | PyInt(n: int)
    | PyList(items: seq<real>)
    | PyOtherType  // a tuple, None, a NumPy scalar, a float subclass, ...

  /** The exact type test: only a value whose type is exactly float or exactly list is
      accepted; an integer is not promoted to a float. */
  function ClassifyLimit(v: PythonValue): (l: Limit)
    ensures l.Single? <==> v.PyFloat?
    ensures l.PerFilter? <==> v.PyList?
    ensures l.Other? <==> v.PyInt? || v.PyOtherType?
    ensures v.PyFloat? ==> l.limit == v.f
    ensures v.PyList? ==> l.limits == v.items
  {
    match v
    case PyFloat(x) => Single(x)
    case PyList(xs) => PerFilter(xs)
    case _ => Other
  }

  datatype Error =
    | NotFloatOrList            // logged, then the process exits
    | IndexError(position: nat) // bright_limit[position] does not exist

  datatype Result<T> = Ok(value: T) | Err(error: Error)

  datatype Option<T> = None | Some(value: T)

  /** One boolean mask the cut builds over the table. */
  datatype Mask =
    | Brighter(limit: real)                   // observedPSFMag < limit
    | BrighterIn(filter: string, limit: real) // optFilter == filter and observedPSFMag < limit

  predicate Selects(m: Mask, o: Observation)
  {
    match m
    case Brighter(l) => o.observedPSFMag < l
    case BrighterIn(filt, l) => o.optFilter == filt && o.observedPSFMag < l
  }

  /** A limit the cut can apply to these filters without failing. */
  predicate Applicable(filters: seq<string>, limit: Limit)
  {
    limit.Single? || (limit.PerFilter? && |filters| <= |limit.limits|)
  }

  /** The rule each row is judged by: true when the cut is meant to remove it. */
  predicate TooBright(o: Observation, filters: seq<string>, limit: Limit)
  {
    match limit
    case Single(l) => o.observedPSFMag < l
    case PerFilter(ls) =>
      exists i :: 0 <= i < |filters| && i < |ls| && o.optFilter == filters[i] && o.observedPSFMag < ls[i]
    case Other => false
  }

  /** observations[mask].index: the labels of the rows the mask selects, in row order. */
  function MaskIndex(f: Frame, m: Mask): (r: seq<int>)
    ensures forall x :: x in r <==> exists i :: 0 <= i < |f| && f[i].index == x && Selects(m, f[i].obs)
  {
    if f == [] then []
    else
      var rest := MaskIndex(f[1..], m);
      assert forall i :: 1 <= i < |f| ==> f[1..][i - 1] == f[i];
      if Selects(m, f[0].obs) then [f[0].index] + rest else rest
  }

  /** [x for xs in xss for x in xs] */
  function Flatten(xss: seq<seq<int>>): (r: seq<int>)
    ensures forall x :: x in r <==> exists k :: 0 <= k < |xss| && x in xss[k]
  {
    if xss == [] then []
    else
      var rest := Flatten(xss[1..]);
      assert forall k :: 1 <= k < |xss| ==> xss[1..][k - 1] == xss[k];
      xss[0] + rest
  }

  /** drop_index once the loop over the filters has run: one list of labels per filter. */
  function DropIndex(f: Frame, filters: seq<string>, limits: seq<real>): seq<seq<int>>
    requires |filters| <= |limits|
  {
    seq(|filters|, i requires 0 <= i < |filters| => MaskIndex(f, BrighterIn(filters[i], limits[i])))
  }

  /** The labels the cut hands to DataFrame.drop. */
  function DropLabels(f: Frame, filters: seq<string>, limit: Limit): (r: seq<int>)
    requires Applicable(filters, limit)
    ensures forall x :: x in r <==> exists i :: 0 <= i < |f| && f[i].index == x && TooBright(f[i].obs, filters, limit)
  {
    match limit
    case Single(l) => MaskIndex(f, Brighter(l))
    case PerFilter(ls) =>
      FlattenedDropIndex(f, filters, ls);
      Flatten(DropIndex(f, filters, ls))
  }

  /** A label lands in flat_index exactly when some row carrying it is too bright for
      one of the listed filters. */
  lemma FlattenedDropIndex(f: Frame, filters: seq<string>, ls: seq<real>)
    requires |filters| <= |ls|
    ensures forall x :: x in Flatten(DropIndex(f, filters, ls)) <==>
      exists i :: 0 <= i < |f| && f[i].index == x && TooBright(f[i].obs, filters, PerFilter(ls))
  {
    var di := DropIndex(f, filters, ls);
    forall x ensures x in Flatten(di) <==>
      exists i :: 0 <= i < |f| && f[i].index == x && TooBright(f[i].obs, filters, PerFilter(ls))
    {
      if x in Flatten(di) {
        var k :| 0 <= k < |di| && x in di[k];
        var i :| 0 <= i < |f| && f[i].index == x && Selects(BrighterIn(filters[k], ls[k]), f[i].obs);
        assert TooBright(f[i].obs, filters, PerFilter(ls));
      }
      if exists i :: 0 <= i < |f| && f[i].index == x && TooBright(f[i].obs, filters, PerFilter(ls)) {
        var i :| 0 <= i < |f| && f[i].index == x && TooBright(f[i].obs, filters, PerFilter(ls));
        var k :| 0 <= k < |filters| && k < |ls| && f[i].obs.optFilter == filters[k] && f[i].obs.observedPSFMag < ls[k];
        assert x in di[k];
      }
    }
  }

  /** PPBrightLimit as a value: the surviving rows renumbered from zero, or the error the
      source raises. */
  function Cut(f: Frame, filters: seq<string>, limit: Limit): (r: Result<Frame>)
    ensures r.Ok? <==> Applicable(filters, limit)
    ensures limit.Other? ==> r == Err(NotFloatOrList)
    ensures limit.PerFilter? && |limit.limits| < |filters| ==> r == Err(IndexError(|limit.limits|))
    ensures r.Ok? ==> |r.value| <= |f| && DenselyNumbered(r.value)
    ensures r.Ok? ==> forall j :: 0 <= j < |r.value| ==> !TooBright(r.value[j].obs, filters, limit)
  {
    if !Applicable(filters, limit) then
      if limit.Other? then Err(NotFloatOrList) else Err(IndexError(|limit.limits|))
    else
      var kept := Drop(f, DropLabels(f, filters, limit));
      var out := ResetIndex(kept);
      assert forall j :: 0 <= j < |out| ==> out[j].obs == Observations(kept)[j] == kept[j].obs;
      assert forall j :: 0 <= j < |kept| ==> kept[j] in f;
      Ok(out)
  }

  /** An integer limit is rejected outright, although the same number written as a
      float is applied to every row. */
  lemma IntegerLimitRejected(f: Frame, filters: seq<string>, n: int)
    ensures Cut(f, filters, ClassifyLimit(PyInt(n))) == Err(NotFloatOrList)
    ensures Cut(f, filters, ClassifyLimit(PyFloat(n as real))).Ok?
  {
  }

  /** The function as the source writes it: branch on the type of the limit, drop the
      selected labels (collected filter by filter for a list), then reset the index. */
  method PPBrightLimit(observations: Frame, observingFilters: seq<string>, brightLimit: Limit)
    returns (r: Result<Frame>)
    ensures r == Cut(observations, observingFilters, brightLimit)
  {
    var out: Frame;
    match brightLimit {
      case Single(l) =>
        out := Drop(observations, MaskIndex(observations, Brighter(l)));
      case PerFilter(limits) =>
        var dropIndex: seq<seq<int>> := [];
        var i := 0;
        while i < |observingFilters|
          invariant 0 <= i <= |observingFilters| && i <= |limits|
          invariant |dropIndex| == i
          invariant forall k :: 0 <= k < i ==>
            dropIndex[k] == MaskIndex(observations, BrighterIn(observingFilters[k], limits[k]))
        {
          if i == |limits| {
            return Err(IndexError(i));
          }
          var ind := MaskIndex(observations, BrighterIn(observingFilters[i], limits[i]));
          dropIndex := dropIndex + [ind];
          i := i + 1;
        }
        assert dropIndex == DropIndex(observations, observingFilters, limits);
        var flatIndex := Flatten(dropIndex);
        out := Drop(observations, flatIndex);
      case Other =>
        return Err(NotFloatOrList);
    }
    out := ResetIndex(out);
    r := Ok(out);
  }
}
