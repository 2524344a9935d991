/** Which error a route text is refused with, and when. */
module RouteErrors {
  import opened ResourceRoute
  import opened TextSplit
  import opened Wrappers

  /** Two separate occurrences of `::`. */
  ghost predicate TwoMarks(segment: string) {
    exists j: nat, k: nat :: DoubleAt(segment, j) && DoubleAt(segment, k) && j + 2 <= k
  }

  ghost predicate HasMark(segment: string) {
    exists k: nat :: DoubleAt(segment, k)
  }

  /** The first `::` ends the Facet and starts the selector. */
  ghost predicate Halves(segment: string, facet: string, selector: string) {
    segment == facet + "::" + selector && forall k: nat :: k < |facet| ==> !DoubleAt(segment, k)
  }

  /** What is wrong with a segment; only the last one may name a Facet without a selector. */
  ghost predicate BadSegment(segment: string, last: bool, error: RouteError) {
    match error
    case ManySelectors => TwoMarks(segment)
    case InvalidFacet =>
      && !TwoMarks(segment)
      && if HasMark(segment) then exists f, s :: Halves(segment, f, s) && !ValidFacetId(f) else !ValidFacetId(segment)
    case InvalidSelector =>
      && !TwoMarks(segment) && exists f, s :: Halves(segment, f, s) && ValidFacetId(f) && !ValidSelector(s)
    case IntermediateFacet => !HasMark(segment) && ValidFacetId(segment) && !last
    case _ => false
  }

  ghost predicate GoodSegment(segment: string, last: bool) {
    forall error :: !BadSegment(segment, last, error)
  }

  lemma SplitIsHalves(segment: string)
    ensures match SplitSegment(segment)
            case Err(error) => error == ManySelectors && TwoMarks(segment) && HasMark(segment)
            case Ok((facet, None)) => !HasMark(segment) && facet == segment && !TwoMarks(segment)
            case Ok((facet, Some(selector))) => HasMark(segment) && !TwoMarks(segment) && Halves(segment, facet, selector)
  {
    match FindDouble(segment, 0)
    case None =>
    case Some(k) =>
      assert segment == segment[..k] + "::" + segment[k + 2..];
      if FindDouble(segment, k + 2).Some? {
        assert DoubleAt(segment, FindDouble(segment, k + 2).value);
      }
  }

  lemma HalvesAreUnique(segment: string, facet: string, selector: string, f: string, s: string)
    requires Halves(segment, facet, selector) && Halves(segment, f, s)
    ensures facet == f && selector == s
  {
    MarkAt(segment, facet, selector);
    MarkAt(segment, f, s);
    assert |facet| == |f|;
    assert facet == segment[..|f|] && selector == segment[|f| + 2..];
  }

  lemma MarkAt(segment: string, facet: string, selector: string)
    requires segment == facet + "::" + selector
    ensures DoubleAt(segment, |facet|) && segment[..|facet|] == facet && segment[|facet| + 2..] == selector
  {
  }

  /** The error that the loop raises at a segment on its own, if any. */
  function Refusal(segment: string, last: bool): Option<RouteError> {
    match SplitSegment(segment)
    case Err(error) => Some(error)
    case Ok((facet, selector)) =>
      if !ValidFacetId(facet) then Some(InvalidFacet)
      else
        match selector
        case None => if last then None else Some(IntermediateFacet)
        case Some(name) => if ValidSelector(name) then None else Some(InvalidSelector)
  }

  lemma RefusalIsBad(segment: string, last: bool)
    ensures forall error :: Refusal(segment, last) == Some(error) <==> BadSegment(segment, last, error)
  {
    hide ValidFacetId, ValidSelector, SplitSegment, Halves, TwoMarks, HasMark;
    SplitIsHalves(segment);
    if SplitSegment(segment).Ok? && SplitSegment(segment).value.1.Some? {
      var (facet, selector) := (SplitSegment(segment).value.0, SplitSegment(segment).value.1.value);
      forall f, s | Halves(segment, f, s) ensures f == facet && s == selector {
        HalvesAreUnique(segment, facet, selector, f, s);
      }
    } else if SplitSegment(segment).Ok? {
      NoHalves(segment);
    }
  }

  lemma NoHalves(segment: string)
    requires !HasMark(segment)
    ensures forall f, s :: !Halves(segment, f, s)
  {
    forall f, s ensures !Halves(segment, f, s) {
      if Halves(segment, f, s) { MarkAt(segment, f, s); }
    }
  }

  /** A valid hop can be added unless the route has 32 already; its text is never the reason here. */
  lemma ChildIsLonger(hops: Hops, facet: string, selector: string)
    requires (forall hop :: hop in hops ==> ValidHop(hop)) && ValidFacetId(facet) && ValidSelector(selector)
    ensures Child(hops, facet, selector) == Ok(hops + [ResourceHop(facet, selector)])
            || (Child(hops, facet, selector) == Err(TooManyHops) && |hops| >= 32)
            || Child(hops, facet, selector) == Err(RouteTooLong)
    ensures |hops| >= 32 ==> Child(hops, facet, selector) == Err(TooManyHops)
  {
    hide ValidFacetId, ValidSelector, CanonicalResource;
    var longer := hops + [ResourceHop(facet, selector)];
    assert forall hop :: hop in longer ==> ValidHop(hop);
  }

  lemma FacetIsLast(hops: Hops, facet: string)
    requires (forall hop :: hop in hops ==> ValidHop(hop)) && ValidFacetId(facet) && |hops| <= 32
    ensures NewFacet(hops, facet).Ok? || NewFacet(hops, facet) == Err(RouteTooLong)
  {
    hide ValidFacetId, ValidHop, CanonicalResource;
  }

  lemma {:induction false} ParsedStops(segments: seq<string>, hops: Hops, k: int)
    requires 0 <= k <= |segments| && |hops| + |segments| <= 33 && (forall hop :: hop in hops ==> ValidHop(hop))
    requires ParsedSegments(segments, hops) != Err(RouteTooLong)
    requires forall i :: 0 <= i < k ==> Refusal(segments[i], i == |segments| - 1) == None
    requires k < |segments| ==> Refusal(segments[k], k == |segments| - 1).Some?
    ensures k < |segments| ==> ParsedSegments(segments, hops) == Err(Refusal(segments[k], k == |segments| - 1).value)
    ensures k == |segments| ==>
              (ParsedSegments(segments, hops).Ok? || ParsedSegments(segments, hops) == Err(TooManyHops))
    ensures k == |segments| ==>
              (ParsedSegments(segments, hops) == Err(TooManyHops) <==>
                 segments != [] && |hops| + |segments| == 33 && HasMark(segments[|segments| - 1]))
  {
    hide ValidFacetId, ValidSelector, SplitSegment, ValidHop, Child, NewFacet, HasMark, TwoMarks, Halves;
    if segments != [] { SplitIsHalves(segments[0]); }
    if segments != [] && k > 0 {
      var (facet, selector) := SplitSegment(segments[0]).value;
      match selector
      case None =>
        FacetIsLast(hops, facet);
      case Some(name) =>
        ChildIsLonger(hops, facet, name);
        if Child(hops, facet, name).Ok? {
          var longer := Child(hops, facet, name).value;
          ValidHopAdded(hops, facet, name);
          var rest := segments[1..];
          assert forall i :: 0 <= i < |rest| ==> rest[i] == segments[i + 1];
          ParsedStops(rest, longer, k - 1);
        }
    }
  }

  lemma ValidHopAdded(hops: Hops, facet: string, selector: string)
    requires (forall hop :: hop in hops ==> ValidHop(hop)) && ValidFacetId(facet) && ValidSelector(selector)
    ensures forall hop :: hop in hops + [ResourceHop(facet, selector)] ==> ValidHop(hop)
  {
    hide ValidFacetId, ValidSelector;
  }

  /** Not refused before its segments are looked at. */
  ghost predicate Rooted(route: string) {
    |route| <= 1024 && "$/" < route && |SplitOn(route[2..], '/')| <= 33
  }

  /** The errors that do not depend on any one segment. */
  lemma UnrootedRefusedFor(route: string)
    ensures Parsed(route) == Err(NoRoot) <==> |route| <= 1024 && route != "$" && !("$/" <= route)
    ensures Parsed(route) == Err(EmptyFacet) <==> route == "$/"
    ensures Parsed(route) == Err(TooManySegments) <==>
              |route| <= 1024 && "$/" < route && |SplitOn(route[2..], '/')| > 33
    ensures Parsed(route) == Ok(Resource([])) <==> route == "$"
  {
    hide ParsedSegments, SplitOn;
    if "$/" < route && |route| <= 1024 { RootedIsNeither(route); }
  }

  lemma RootedIsNeither(route: string)
    requires "$/" < route && |route| <= 1024
    ensures |SplitOn(route[2..], '/')| <= 33 ==>
              && Parsed(route) != Err(NoRoot) && Parsed(route) != Err(EmptyFacet) && Parsed(route) != Err(TooManySegments)
              && Parsed(route) != Ok(Resource([]))
  {
    hide SplitOn, ParsedSegments;
    SegmentsErrors(SplitOn(route[2..], '/'), []);
  }

  lemma {:induction false} SegmentsErrors(segments: seq<string>, hops: Hops)
    ensures ParsedSegments(segments, hops).Err? ==>
              ParsedSegments(segments, hops).error !in {NoRoot, EmptyFacet, TooManySegments}
    ensures segments != [] ==> ParsedSegments(segments, hops) != Ok(Resource([]))
    decreases |segments|
  {
    hide ValidFacetId, ValidSelector, CanonicalResource;
    if segments != [] && SplitSegment(segments[0]).Ok? {
      var (facet, selector) := SplitSegment(segments[0]).value;
      if selector.Some? && Child(hops, facet, selector.value).Ok? {
        ResourceOfHops(segments[1..], Child(hops, facet, selector.value).value);
        SegmentsErrors(segments[1..], Child(hops, facet, selector.value).value);
      }
    }
  }

  lemma {:induction false} ResourceOfHops(segments: seq<string>, hops: Hops)
    requires hops != []
    ensures ParsedSegments(segments, hops) != Ok(Resource([]))
    decreases |segments|
  {
    hide ValidFacetId, ValidSelector, CanonicalResource;
    if segments != [] && SplitSegment(segments[0]).Ok? {
      var (facet, selector) := SplitSegment(segments[0]).value;
      if selector.Some? && Child(hops, facet, selector.value).Ok? {
        ResourceOfHops(segments[1..], Child(hops, facet, selector.value).value);
      }
    }
  }

  lemma RefusedAs(segment: string, last: bool, error: RouteError)
    ensures Refusal(segment, last) == Some(error) <==> BadSegment(segment, last, error)
  {
    hide BadSegment, Refusal;
    RefusalIsBad(segment, last);
  }

  lemma GoodIsNotRefused(segment: string, last: bool)
    requires GoodSegment(segment, last)
    ensures Refusal(segment, last) == None
  {
    hide BadSegment, Refusal;
    match Refusal(segment, last)
    case None =>
    case Some(error) => RefusedAs(segment, last, error);
  }

  /** The first bad segment decides what the text is refused for. */
  lemma RefusedForFirstBad(route: string, k: nat, error: RouteError)
    requires Rooted(route)
    requires var segments := SplitOn(route[2..], '/');
             && k < |segments| && BadSegment(segments[k], k == |segments| - 1, error)
             && forall i :: 0 <= i < k ==> GoodSegment(segments[i], false)
    ensures Parsed(route) == Err(error)
  {
    hide BadSegment, Refusal, ParsedSegments, SplitOn;
    var segments := SplitOn(route[2..], '/');
    TooLongExactlyWhen(route);
    forall i | 0 <= i <= k ensures i < k ==> Refusal(segments[i], i == |segments| - 1) == None
                           ensures Refusal(segments[k], k == |segments| - 1) == Some(error) {
      RefusalIsBad(segments[i], i == |segments| - 1);
      RefusalIsBad(segments[k], k == |segments| - 1);
    }
    ParsedStops(segments, [], k);
  }

  /** A text of good segments is accepted unless it spells 33 hops. */
  lemma GoodSegmentsAccepted(route: string)
    requires Rooted(route)
    requires var segments := SplitOn(route[2..], '/');
             && (forall i :: 0 <= i < |segments| - 1 ==> GoodSegment(segments[i], false))
             && GoodSegment(segments[|segments| - 1], true)
    ensures var segments := SplitOn(route[2..], '/');
            if |segments| == 33 && HasMark(segments[32]) then Parsed(route) == Err(TooManyHops) else Parsed(route).Ok?
  {
    hide BadSegment, Refusal, ParsedSegments, SplitOn, HasMark;
    var segments := SplitOn(route[2..], '/');
    TooLongExactlyWhen(route);
    forall i | 0 <= i < |segments| ensures Refusal(segments[i], i == |segments| - 1) == None {
      GoodIsNotRefused(segments[i], i == |segments| - 1);
    }
    ParsedStops(segments, [], |segments|);
  }
}
