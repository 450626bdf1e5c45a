/**
  The main loop over the route list's items: each item's strict extraction,
  the fallback to the item's single map link, the decision whether the stop
  becomes a waypoint, and what the run as a whole ends with.
 */
module Stops {
  import opened Optional
  import opened PyStr
  import opened Dom
  import opened PlaceIds
  import opened Decimal
  import opened Names
  import opened Route

  const FallbackLead := "Delivery no "

  /** `"Delivery no %d" % (index+1)`: the name of a stop whose item was not
      fully understood, numbering the items from 1. */
  function FallbackName(index: nat): string
  {
    FallbackLead + Show(index + 1)
  }

  /** The fallback's plus code: the identifier of the one map link below the
      item, or `None` when there is not exactly one. */
  function FallbackCode(item: Node, o: Oracles): (r: Option<string>)
    ensures r.Some? ==>
              && |MapLinksBelow(item)| == 1
              && RStrip(o.urlPath(MapLinksBelow(item)[0])) == PlacePrefix + r.value
              && '\n' !in r.value
  {
    var links := MapLinksBelow(item);
    if |links| == 1 then PlaceIdFromUrl(links[0], o.urlPath) else None
  }

  /** A stop's waypoint name and plus code, and which path produced them. */
  datatype Stop = Stop(name: Option<string>, code: Option<string>, strict: bool)

  /** What one item leads to: a stop, or the uncaught `IndexError` that ends
      the run. */
  datatype Decision = Decided(stop: Stop) | Aborts

  /** One pass of the loop body up to the plus-code test. */
  function Decide(index: nat, item: Node, o: Oracles): (d: Decision)
    ensures d.Aborts? <==> StrictExtract(item, o).Crash?
    ensures d.Decided? && d.stop.strict ==>
              && StrictExtract(item, o).Got?
              && d.stop.code.Some?
              && o.isValid(d.stop.code.value)
              && PlaceIdFromHref(StrictExtract(item, o).value.mapUrl, o) == d.stop.code
    ensures d.Decided? && !d.stop.strict ==>
              && d.stop.name == Some(FallbackName(index))
              && (d.stop.code.Some? ==> |MapLinksBelow(item)| == 1)
  {
    match StrictExtract(item, o)
    case Got(rec) => Decided(Stop(rec.shortName, Some(rec.code), true))
    case Fail(_) => Decided(Stop(Some(FallbackName(index)), FallbackCode(item, o), false))
    case Crash => Aborts
  }

  /** `placeid and olc.isValid(placeid) and olc.isFull(placeid)`. */
  predicate Emittable(code: Option<string>, o: Oracles)
  {
    code.Some? && code.value != "" && o.isValid(code.value) && o.isFull(code.value)
  }

  /** A decision whose stop becomes a waypoint. */
  predicate Emits(d: Decision, o: Oracles)
  {
    d.Decided? && Emittable(d.stop.code, o)
  }

  /** The decisions for the items, in list order. */
  function Decisions(items: seq<Node>, o: Oracles): (ds: seq<Decision>)
    ensures |ds| == |items|
    ensures forall i :: 0 <= i < |items| ==> ds[i] == Decide(i, items[i], o)
  {
    seq(|items|, i requires 0 <= i < |items| => Decide(i, items[i], o))
  }

  datatype Waypoint = Waypoint(name: Option<string>, at: LatLng)

  function WaypointOf(s: Stop, o: Oracles): Waypoint
    requires s.code.Some?
  {
    Waypoint(s.name, o.decode(s.code.value))
  }

  /** The run-level messages: no items at all, fewer points than items, no
      point to emit. */
  datatype Warning = EmptyRouteList | Incomplete(understood: nat, total: nat) | NothingToEmit

  /** Where in the script a warning is printed: the empty-list message
      before the loop, the other two after it, incomplete first. */
  function PrintOrder(w: Warning): nat
  {
    match w
    case EmptyRouteList => 0
    case Incomplete(_, _) => 1
    case NothingToEmit => 2
  }

  /** The end of a run: the uncaught exception at an item (by index), or the
      waypoints, the run-level warnings and the exit status. */
  datatype RunResult =
    | Aborted(index: nat)
    | Finished(points: seq<Waypoint>, warnings: seq<Warning>, status: nat)

  /** `idx` lists, in increasing order, exactly those of the first `n`
      decisions whose stop becomes a waypoint. */
  ghost predicate EnumeratesUpTo(idx: seq<nat>, ds: seq<Decision>, o: Oracles, n: nat)
    requires n <= |ds|
  {
    && (forall j :: 0 <= j < |idx| ==> idx[j] < n)
    && (forall j, k :: 0 <= j < k < |idx| ==> idx[j] < idx[k])
    && (forall i :: 0 <= i < n ==> (i in idx <==> Emits(ds[i], o)))
  }

  /** The waypoints are those of the stops `idx` lists, in that order. */
  ghost predicate PointsOf(points: seq<Waypoint>, idx: seq<nat>, ds: seq<Decision>, o: Oracles)
  {
    && |points| == |idx|
    && forall j :: 0 <= j < |idx| ==>
         && idx[j] < |ds|
         && ds[idx[j]].Decided?
         && ds[idx[j]].stop.code.Some?
         && points[j] == WaypointOf(ds[idx[j]].stop, o)
  }

  /** Looking at one more decision extends the enumeration by it exactly
      when its stop becomes a waypoint. */
  lemma EnumerationStep(idx: seq<nat>, ds: seq<Decision>, o: Oracles, n: nat)
    requires n < |ds| && EnumeratesUpTo(idx, ds, o, n)
    ensures Emits(ds[n], o) ==> EnumeratesUpTo(idx + [n], ds, o, n + 1)
    ensures !Emits(ds[n], o) ==> EnumeratesUpTo(idx, ds, o, n + 1)
  {
    var idx' := idx + [n];
    assert forall i :: 0 <= i < n ==> (i in idx' <==> i in idx);
    assert n !in idx;
  }

  /** The loop over the decisions: the index of the first one that ends the
      run, or the waypoints of the stops that become one, in list order. */
  method Gather(ds: seq<Decision>, o: Oracles) returns (aborted: Option<nat>, points: seq<Waypoint>)
    ensures aborted.Some? ==>
              && aborted.value < |ds|
              && ds[aborted.value].Aborts?
              && forall i :: 0 <= i < aborted.value ==> !ds[i].Aborts?
    ensures aborted.None? ==> forall i :: 0 <= i < |ds| ==> !ds[i].Aborts?
    ensures aborted.None? ==>
              exists idx :: EnumeratesUpTo(idx, ds, o, |ds|) && PointsOf(points, idx, ds, o)
  {
    points := [];
    ghost var idx: seq<nat> := [];
    var i := 0;
    while i < |ds|
      invariant 0 <= i <= |ds|
      invariant forall k :: 0 <= k < i ==> !ds[k].Aborts?
      invariant EnumeratesUpTo(idx, ds, o, i)
      invariant PointsOf(points, idx, ds, o)
    {
      if ds[i].Aborts? {
        return Some(i), [];
      }
      EnumerationStep(idx, ds, o, i);
      if Emittable(ds[i].stop.code, o) {
        points := points + [WaypointOf(ds[i].stop, o)];
        idx := idx + [i];
      }
      i := i + 1;
    }
    return None, points;
  }

  /** The main loop and its aftermath: the run ends at the first item whose
      extraction raises `IndexError`; otherwise the waypoints are exactly
      those of the items whose final code is valid and full, in list order,
      with a warning when some items gave no waypoint and exit status 1 when
      none did. */
  method Run(items: seq<Node>, o: Oracles) returns (r: RunResult)
    ensures r.Aborted? <==> exists i :: 0 <= i < |items| && Decide(i, items[i], o).Aborts?
    ensures r.Aborted? ==>
              && r.index < |items|
              && Decide(r.index, items[r.index], o).Aborts?
              && forall i :: 0 <= i < r.index ==> !Decide(i, items[i], o).Aborts?
    ensures r.Finished? ==>
              exists idx :: EnumeratesUpTo(idx, Decisions(items, o), o, |items|)
                            && PointsOf(r.points, idx, Decisions(items, o), o)
    ensures r.Finished? ==> (r.status == 1 <==> |r.points| == 0) && r.status <= 1
    ensures r.Finished? ==> (NothingToEmit in r.warnings <==> |r.points| == 0)
    ensures r.Finished? ==> (Incomplete(|r.points|, |items|) in r.warnings <==> |r.points| != |items|)
    ensures r.Finished? ==> (EmptyRouteList in r.warnings <==> |items| == 0)
    ensures r.Finished? ==>
              forall w :: w in r.warnings ==>
                w == EmptyRouteList || w == Incomplete(|r.points|, |items|) || w == NothingToEmit
    ensures r.Finished? ==>
              forall j, k :: 0 <= j < k < |r.warnings| ==> PrintOrder(r.warnings[j]) < PrintOrder(r.warnings[k])
  {
    var ds := Decisions(items, o);
    var aborted, points := Gather(ds, o);
    if aborted.Some? {
      return Aborted(aborted.value);
    }
    var warnings: seq<Warning> := if |items| == 0 then [EmptyRouteList] else [];
    if |points| != |items| {
      warnings := warnings + [Incomplete(|points|, |items|)];
    }
    if |points| == 0 {
      warnings := warnings + [NothingToEmit];
      r := Finished(points, warnings, 1);
    } else {
      r := Finished(points, warnings, 0);
    }
  }

  /** The stop keeps the strict name and code exactly when the layout
      matches and every content check passes; otherwise (short of the
      run-ending `IndexError`) it is named after its position and takes the
      fallback's code. */
  lemma StrictKeptIff(index: nat, item: Node, o: Oracles)
    ensures Decide(index, item, o).Aborts? <==> Layout(item, o).Crash?
    ensures (Decide(index, item, o).Decided? && Decide(index, item, o).stop.strict)
            <==> Layout(item, o).Got? && ChecksPass(Layout(item, o).value, o)
    ensures Decide(index, item, o).Decided? && Decide(index, item, o).stop.strict ==>
              var f := Layout(item, o).value;
              Decide(index, item, o).stop == Stop(FirstNameish(f.fullname), Some(f.codeText), true)
    ensures Decide(index, item, o).Decided? && !Decide(index, item, o).stop.strict ==>
              Decide(index, item, o).stop == Stop(Some(FallbackName(index)), FallbackCode(item, o), false)
  {
    StrictAcceptedIff(item, o);
  }

  /** An item with neither a child element nor non-blank text ends the run:
      its own decision aborts, so `Run` returns `Aborted` at that item or at
      an earlier one. */
  lemma ChildlessItemEndsRun(items: seq<Node>, i: nat, o: Oracles)
    requires i < |items| && SignificantChildren(ChildrenOf(items[i])) == []
    ensures Decide(i, items[i], o).Aborts?
    ensures exists j :: 0 <= j <= i && Decide(j, items[j], o).Aborts?
  {
    ChildlessItemCrashes(items[i], o);
  }

  /** The fallback finds a code exactly when the item has one map link and
      its decoded, right-stripped path is the place prefix followed by that
      code on one line. */
  lemma FallbackCodeIff(item: Node, o: Oracles, id: string)
    ensures FallbackCode(item, o) == Some(id)
            <==> && |MapLinksBelow(item)| == 1
                 && RStrip(o.urlPath(MapLinksBelow(item)[0])) == PlacePrefix + id
                 && '\n' !in id
  {
    var links := MapLinksBelow(item);
    if |links| == 1 {
      PlaceIdIff(o.urlPath(links[0]), id);
    }
  }

  /** A strict code that is valid but not full is dropped: no fallback is
      tried and no waypoint is emitted. */
  lemma ShortStrictCodeDropped(index: nat, item: Node, o: Oracles)
    requires StrictExtract(item, o).Got?
    requires !o.isFull(StrictExtract(item, o).value.code)
    ensures Decide(index, item, o).Decided? && Decide(index, item, o).stop.strict
    ensures !Emits(Decide(index, item, o), o)
  {
  }

  /** Every waypoint's code passed `isValid` and `isFull`. */
  lemma EmittedCodesValid(points: seq<Waypoint>, idx: seq<nat>, ds: seq<Decision>, o: Oracles)
    requires EnumeratesUpTo(idx, ds, o, |ds|)
    requires PointsOf(points, idx, ds, o)
    ensures forall j :: 0 <= j < |points| ==>
              var code := ds[idx[j]].stop.code.value;
              && code != "" && o.isValid(code) && o.isFull(code)
              && points[j].at == o.decode(code)
  {
    forall j | 0 <= j < |idx|
      ensures Emits(ds[idx[j]], o)
    {
      assert idx[j] in idx;
    }
  }

  /** The fallback name carries the item's position counted from 1, so
      distinct items get distinct fallback names. */
  lemma FallbackNameNumbers(index: nat)
    ensures StartsWith(FallbackName(index), FallbackLead)
    ensures var digits := FallbackName(index)[|FallbackLead|..];
            (forall k :: 0 <= k < |digits| ==> IsDigit(digits[k])) && Read(digits) == index + 1
  {
    assert FallbackName(index)[|FallbackLead|..] == Show(index + 1);
    ReadShow(index + 1);
  }

  lemma FallbackNamesDistinct(i: nat, j: nat)
    ensures FallbackName(i) == FallbackName(j) <==> i == j
  {
    FallbackNameNumbers(i);
    FallbackNameNumbers(j);
  }
}
