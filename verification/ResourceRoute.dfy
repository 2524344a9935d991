/** Routes to Resources and Facets, their canonical text, and the route of a command. */
module ResourceRoute {
  import opened CommandIdentity
  import opened TextSplit
  import opened Wrappers

  const MAX_RESOURCE_ROUTE_BYTES: nat := 1024
  const MAX_RESOURCE_ROUTE_HOPS: nat := 32

  datatype RouteError =
    | RouteTooLong
    | NoRoot
    | EmptyFacet
    | TooManySegments
    | ManySelectors
    | InvalidFacet
    | InvalidSelector
    | IntermediateFacet
    | TooManyHops

  datatype ResourceHop = ResourceHop(facet: string, selector: string)

  type Hops = seq<ResourceHop>

  datatype RouteTarget =
    | Resource(hops: Hops)
    | Facet(hops: Hops, facet: string)

  // ---------------------------------------------------------------- names

  predicate ValidLowerKebab(value: string, maximum: nat, firstMustBeLetter: bool) {
    && value != "" && |value| <= maximum
    && forall i :: 0 <= i < |value| ==>
         || IsLower(value[i]) || (!firstMustBeLetter && IsDigit(value[i]))
         || (i > 0 && (IsDigit(value[i]) || value[i] == '-'))
  }

  predicate ValidFacetId(value: string) {
    ValidLowerKebab(value, 32, true) && !IsDeviceName(value)
  }

  predicate ValidSelector(value: string) {
    ValidLowerKebab(value, 128, false) && !IsDeviceName(value)
  }

  // ---------------------------------------------------------------- printing

  function HopText(hop: ResourceHop): string {
    hop.facet + "::" + hop.selector
  }

  function CanonicalResource(hops: Hops): string {
    if hops == [] then "$"
    else CanonicalResource(hops[..|hops| - 1]) + "/" + HopText(hops[|hops| - 1])
  }

  function Canonical(target: RouteTarget): string {
    match target
    case Resource(hops) => CanonicalResource(hops)
    case Facet(hops, facet) => CanonicalResource(hops) + "/" + facet
  }

  method PrintResource(hops: Hops) returns (route: string)
    ensures route == CanonicalResource(hops)
  {
    route := "$";
    for i := 0 to |hops|
      invariant route == CanonicalResource(hops[..i])
    {
      route := route + "/";
      route := route + hops[i].facet;
      route := route + "::";
      route := route + hops[i].selector;
      assert hops[..i + 1][..i] == hops[..i];
      assert route == CanonicalResource(hops[..i]) + "/" + HopText(hops[i]);
    }
    assert hops[..|hops|] == hops;
  }

  // ---------------------------------------------------------------- construction

  predicate ValidHop(hop: ResourceHop) {
    ValidFacetId(hop.facet) && ValidSelector(hop.selector)
  }

  lemma AllHops(hops: Hops)
    requires hops != []
    ensures (forall hop :: hop in hops ==> ValidHop(hop)) <==> ValidHop(hops[0]) && forall hop :: hop in hops[1..] ==> ValidHop(hop)
  {
    hide ValidHop;
    assert hops == [hops[0]] + hops[1..];
  }

  /** What is wrong with the first invalid hop. */
  function HopError(hops: Hops): (error: Option<RouteError>)
    ensures error == None <==> forall hop :: hop in hops ==> ValidHop(hop)
    ensures error.Some? ==> error.value == InvalidFacet || error.value == InvalidSelector
  {
    if hops == [] then None
    else
      AllHops(hops);
      if !ValidFacetId(hops[0].facet) then Some(InvalidFacet)
      else if !ValidSelector(hops[0].selector) then Some(InvalidSelector)
      else HopError(hops[1..])
  }

  function ValidateHops(hops: Hops): Option<RouteError> {
    if |hops| > MAX_RESOURCE_ROUTE_HOPS then Some(TooManyHops)
    else if HopError(hops).Some? then HopError(hops)
    else if |CanonicalResource(hops)| > MAX_RESOURCE_ROUTE_BYTES then Some(RouteTooLong)
    else None
  }

  /** The targets that construction accepts. */
  predicate Valid(target: RouteTarget) {
    && |target.hops| <= MAX_RESOURCE_ROUTE_HOPS && (forall hop :: hop in target.hops ==> ValidHop(hop))
    && (target.Facet? ==> ValidFacetId(target.facet))
    && |Canonical(target)| <= MAX_RESOURCE_ROUTE_BYTES
  }

  function Child(hops: Hops, facet: string, selector: string): Result<Hops, RouteError> {
    if !ValidFacetId(facet) then Err(InvalidFacet)
    else if !ValidSelector(selector) then Err(InvalidSelector)
    else
      var longer := hops + [ResourceHop(facet, selector)];
      match ValidateHops(longer)
      case Some(error) => Err(error)
      case None => Ok(longer)
  }

  function NewFacet(hops: Hops, facet: string): Result<RouteTarget, RouteError> {
    match ValidateHops(hops)
    case Some(error) => Err(error)
    case None =>
      if !ValidFacetId(facet) then Err(InvalidFacet)
      else if |Canonical(Facet(hops, facet))| > MAX_RESOURCE_ROUTE_BYTES then Err(RouteTooLong)
      else Ok(Facet(hops, facet))
  }

  // ---------------------------------------------------------------- parsing

  predicate DoubleAt(s: string, k: nat) {
    k + 1 < |s| && s[k] == ':' && s[k + 1] == ':'
  }

  /** The first `::` at or after `from`. */
  function FindDouble(s: string, from: nat): (index: Option<nat>)
    requires from <= |s|
    ensures index.None? ==> forall k :: from <= k ==> !DoubleAt(s, k)
    ensures index.Some? ==> from <= index.value && DoubleAt(s, index.value) && forall k :: from <= k < index.value ==> !DoubleAt(s, k)
    decreases |s| - from
  {
    if DoubleAt(s, from) then Some(from)
    else if from == |s| then None
    else FindDouble(s, from + 1)
  }

  /** A segment split at `::` into its Facet and, if there is one, its selector. */
  function SplitSegment(segment: string): Result<(string, Option<string>), RouteError> {
    match FindDouble(segment, 0)
    case None => Ok((segment, None))
    case Some(k) =>
      if FindDouble(segment, k + 2).Some? then Err(ManySelectors)
      else Ok((segment[..k], Some(segment[k + 2..])))
  }

  function ParsedSegments(segments: seq<string>, hops: Hops): Result<RouteTarget, RouteError>
    decreases |segments|
  {
    if segments == [] then Ok(Resource(hops))
    else
      match SplitSegment(segments[0])
      case Err(error) => Err(error)
      case Ok((facet, selector)) =>
        if !ValidFacetId(facet) then Err(InvalidFacet)
        else
          match selector
          case None => if |segments| == 1 then NewFacet(hops, facet) else Err(IntermediateFacet)
          case Some(name) =>
            if !ValidSelector(name) then Err(InvalidSelector)
            else
              match Child(hops, facet, name)
              case Err(error) => Err(error)
              case Ok(longer) => ParsedSegments(segments[1..], longer)
  }

  function Parsed(route: string): Result<RouteTarget, RouteError> {
    if |route| > MAX_RESOURCE_ROUTE_BYTES then Err(RouteTooLong)
    else if route == "$" then Ok(Resource([]))
    else if !("$/" <= route) then Err(NoRoot)
    else if route[2..] == "" then Err(EmptyFacet)
    else if |SplitOn(route[2..], '/')| > MAX_RESOURCE_ROUTE_HOPS + 1 then Err(TooManySegments)
    else ParsedSegments(SplitOn(route[2..], '/'), [])
  }

  method ParseRoute(route: string) returns (target: Result<RouteTarget, RouteError>)
    ensures target == Parsed(route)
  {
    hide ValidFacetId, ValidSelector, Child, NewFacet, SplitSegment;
    if |route| > MAX_RESOURCE_ROUTE_BYTES { return Err(RouteTooLong); }
    if route == "$" { return Ok(Resource([])); }
    if !("$/" <= route) { return Err(NoRoot); }
    var suffix := route[2..];
    if suffix == "" { return Err(EmptyFacet); }
    var segments := SplitOn(suffix, '/');
    if |segments| > MAX_RESOURCE_ROUTE_HOPS + 1 { return Err(TooManySegments); }
    var hops: Hops := [];
    var index := 0;
    assert segments[0..] == segments;
    while index < |segments|
      invariant index <= |segments|
      invariant Parsed(route) == ParsedSegments(segments[index..], hops)
    {
      var last := index + 1 == |segments|;
      assert segments[index..][0] == segments[index] && segments[index..][1..] == segments[index + 1..];
      match SplitSegment(segments[index]) {
        case Err(error) => return Err(error);
        case Ok((facet, selector)) =>
          if !ValidFacetId(facet) { return Err(InvalidFacet); }
          match selector {
            case Some(name) =>
              if !ValidSelector(name) { return Err(InvalidSelector); }
              match Child(hops, facet, name) {
                case Err(error) => return Err(error);
                case Ok(longer) => hops := longer;
              }
            case None =>
              if last { return NewFacet(hops, facet); }
              return Err(IntermediateFacet);
          }
      }
      index := index + 1;
    }
    target := Ok(Resource(hops));
  }

  // ---------------------------------------------------------------- text and target determine each other

  function HopTexts(hops: Hops): seq<string> {
    seq(|hops|, i requires 0 <= i < |hops| => HopText(hops[i]))
  }

  /** The segments a target is printed as. */
  function Segments(target: RouteTarget): seq<string> {
    match target
    case Resource(hops) => HopTexts(hops)
    case Facet(hops, facet) => HopTexts(hops) + [facet]
  }

  lemma JoinSnoc(parts: seq<string>, last: string)
    requires parts != []
    ensures JoinOn(parts + [last], '/') == JoinOn(parts, '/') + "/" + last
  {
    if |parts| == 1 {
      JoinOnCons(parts[0], [last], '/');
      assert parts + [last] == [parts[0]] + [last];
    } else {
      JoinSnoc(parts[1..], last);
      JoinOnCons(parts[0], parts[1..] + [last], '/');
      assert parts + [last] == [parts[0]] + (parts[1..] + [last]);
      assert parts == [parts[0]] + parts[1..];
    }
  }

  lemma {:induction false} CanonicalIsJoined(hops: Hops)
    requires hops != []
    ensures CanonicalResource(hops) == "$/" + JoinOn(HopTexts(hops), '/')
  {
    hide HopText;
    var n := |hops| - 1;
    var front, last := hops[..n], hops[n];
    assert HopTexts(hops) == HopTexts(front) + [HopText(last)];
    if front == [] {
      assert HopTexts(front) == [] && HopTexts(hops) == [HopText(last)];
    } else {
      CanonicalIsJoined(front);
      JoinSnoc(HopTexts(front), HopText(last));
    }
  }

  lemma CanonicalOfSegments(target: RouteTarget)
    ensures Canonical(target) == if Segments(target) == [] then "$" else "$/" + JoinOn(Segments(target), '/')
  {
    hide HopText;
    var hops := target.hops;
    if hops == [] {
      assert HopTexts(hops) == [];
    } else {
      CanonicalIsJoined(hops);
    }
    if target.Facet? {
      if hops == [] {
        assert Segments(target) == [target.facet];
      } else {
        JoinSnoc(HopTexts(hops), target.facet);
      }
    }
  }

  lemma KebabHasNoMarks(value: string, maximum: nat, letter: bool)
    requires ValidLowerKebab(value, maximum, letter)
    ensures Lacks(value, '/') && ':' !in value
  {
  }

  lemma {:induction false} CanonicalGrows(hops: Hops, k: nat)
    requires k <= |hops|
    ensures |CanonicalResource(hops[..k])| <= |CanonicalResource(hops)|
  {
    hide HopText;
    if k < |hops| {
      CanonicalGrows(hops[..|hops| - 1], k);
      assert hops[..|hops| - 1][..k] == hops[..k];
    } else {
      assert hops[..k] == hops;
    }
  }

  lemma ValidHops(hops: Hops)
    ensures ValidateHops(hops) == None <==> Valid(Resource(hops))
  {
    hide ValidHop, CanonicalResource;
  }

  // ---------------------------------------------------------------- parsing what was printed

  lemma SplitOfHopText(hop: ResourceHop)
    requires ValidHop(hop)
    ensures SplitSegment(HopText(hop)) == Ok((hop.facet, Some(hop.selector)))
  {
    hide IsDeviceName;
    KebabHasNoMarks(hop.facet, 32, true);
    KebabHasNoMarks(hop.selector, 128, false);
    var s, k := HopText(hop), |hop.facet|;
    assert forall i :: 0 <= i < k ==> s[i] == hop.facet[i];
    assert forall i :: k + 2 <= i < |s| ==> s[i] == hop.selector[i - k - 2];
    assert DoubleAt(s, k);
    assert s[..k] == hop.facet && s[k + 2..] == hop.selector;
  }

  lemma SplitOfFacet(facet: string)
    requires ValidFacetId(facet)
    ensures SplitSegment(facet) == Ok((facet, None))
  {
    hide IsDeviceName;
    KebabHasNoMarks(facet, 32, true);
  }

  lemma ChildOfPrefix(hops: Hops, k: nat)
    requires Valid(Resource(hops)) && k < |hops|
    ensures Child(hops[..k], hops[k].facet, hops[k].selector) == Ok(hops[..k + 1])
  {
    hide ValidFacetId, ValidSelector, CanonicalResource;
    assert hops[k] in hops && ValidHop(hops[k]);
    assert hops[..k] + [ResourceHop(hops[k].facet, hops[k].selector)] == hops[..k + 1];
    CanonicalGrows(hops, k + 1);
    ValidHops(hops[..k + 1]);
  }

  lemma ValidFacetTarget(target: RouteTarget)
    requires Valid(target)
    ensures Valid(Resource(target.hops))
    ensures target.Facet? ==> NewFacet(target.hops, target.facet) == Ok(target)
  {
    hide ValidFacetId, ValidSelector, CanonicalResource;
    ValidHops(target.hops);
  }

  lemma {:induction false} ParsedFrom(target: RouteTarget, k: nat)
    requires Valid(target) && k <= |target.hops|
    ensures ParsedSegments(Segments(target)[k..], target.hops[..k]) == Ok(target)
    decreases |target.hops| - k
  {
    hide ValidHop, HopText, Child, NewFacet, SplitSegment, ValidFacetId, ValidSelector, Canonical;
    ValidFacetTarget(target);
    var hops := target.hops;
    if k < |hops| {
      assert hops[k] in hops && Segments(target)[k..][0] == HopText(hops[k]);
      ValidHopParts(hops[k]);
      SplitOfHopText(hops[k]);
      ChildOfPrefix(hops, k);
      ParsedFrom(target, k + 1);
      assert Segments(target)[k..][1..] == Segments(target)[k + 1..];
    } else {
      assert hops[..k] == hops;
      match target
      case Resource(_) => assert Segments(target)[k..] == [];
      case Facet(_, facet) =>
        assert Segments(target)[k..] == [facet];
        SplitOfFacet(facet);
    }
  }

  lemma ValidHopParts(hop: ResourceHop)
    requires ValidHop(hop)
    ensures ValidFacetId(hop.facet) && ValidSelector(hop.selector)
  {
  }

  lemma SegmentsHaveNoSlash(target: RouteTarget)
    requires Valid(target)
    ensures forall i :: 0 <= i < |Segments(target)| ==> Lacks(Segments(target)[i], '/')
  {
    hide IsDeviceName, Canonical, ValidLowerKebab;
    forall i | 0 <= i < |Segments(target)| ensures Lacks(Segments(target)[i], '/') {
      if i < |target.hops| {
        var hop := target.hops[i];
        assert hop in target.hops;
        KebabHasNoMarks(hop.facet, 32, true);
        KebabHasNoMarks(hop.selector, 128, false);
      } else {
        KebabHasNoMarks(target.facet, 32, true);
      }
    }
  }

  /** Parsing what a valid target prints gives that target, with the same terminal kind. */
  lemma ParseOfCanonical(target: RouteTarget)
    requires Valid(target)
    ensures Parsed(Canonical(target)) == Ok(target)
  {
    hide Canonical, ParsedSegments, ValidHop;
    CanonicalOfSegments(target);
    var segments := Segments(target);
    ParsedFrom(target, 0);
    assert segments[0..] == segments && target.hops[..0] == [];
    if segments != [] {
      SegmentsHaveNoSlash(target);
      SplitOfJoin(segments, '/');
      JoinIsNotEmpty(target);
      assert Canonical(target)[2..] == JoinOn(segments, '/');
    } else {
      assert target == Resource([]);
    }
  }

  lemma JoinIsNotEmpty(target: RouteTarget)
    requires Valid(target) && Segments(target) != []
    ensures JoinOn(Segments(target), '/') != ""
  {
    hide IsDeviceName, Canonical;
    if target.hops != [] {
      assert target.hops[0] in target.hops;
      assert Segments(target)[0] == HopText(target.hops[0]);
    }
  }

  // ---------------------------------------------------------------- printing what was parsed

  lemma SegmentOfSplit(segment: string)
    requires SplitSegment(segment).Ok?
    ensures var (facet, selector) := SplitSegment(segment).value;
            segment == match selector case None => facet case Some(name) => facet + "::" + name
  {
    if FindDouble(segment, 0).Some? {
      var k := FindDouble(segment, 0).value;
      assert segment == segment[..k] + "::" + segment[k + 2..];
    }
  }

  lemma ChildIs(hops: Hops, facet: string, selector: string)
    requires Child(hops, facet, selector).Ok?
    ensures Child(hops, facet, selector).value == hops + [ResourceHop(facet, selector)]
    ensures Valid(Resource(Child(hops, facet, selector).value))
  {
    hide ValidFacetId, ValidSelector, CanonicalResource, ValidateHops;
    ValidHops(hops + [ResourceHop(facet, selector)]);
  }

  lemma {:induction false} SegmentsOfParsed(segments: seq<string>, hops: Hops)
    requires Valid(Resource(hops)) && ParsedSegments(segments, hops).Ok?
    ensures Segments(ParsedSegments(segments, hops).value) == HopTexts(hops) + segments
    ensures Valid(ParsedSegments(segments, hops).value)
    decreases |segments|
  {
    hide SplitSegment, ValidFacetId, ValidSelector, ValidHop, CanonicalResource, HopError, Child;
    if segments != [] {
      SegmentOfSplit(segments[0]);
      var (facet, selector) := SplitSegment(segments[0]).value;
      match selector
      case None =>
        assert segments == [facet];
      case Some(name) =>
        var longer := hops + [ResourceHop(facet, name)];
        ChildIs(hops, facet, name);
        SegmentsOfParsed(segments[1..], longer);
        assert HopTexts(longer) == HopTexts(hops) + [segments[0]];
        assert HopTexts(longer) + segments[1..] == HopTexts(hops) + segments;
    } else {
      assert HopTexts(hops) + segments == HopTexts(hops);
    }
  }

  /** Only canonical text is accepted: printing what was parsed gives exactly the text back. */
  lemma CanonicalOfParse(route: string)
    requires Parsed(route).Ok?
    ensures Valid(Parsed(route).value) && Canonical(Parsed(route).value) == route
  {
    hide ParsedSegments, ValidHop, CanonicalResource, Segments, Valid, Canonical;
    if route == "$" {
      RootIsCanonical();
    } else {
      var suffix := route[2..];
      RootIsValid();
      SegmentsOfParsed(SplitOn(suffix, '/'), []);
      var target := Parsed(route).value;
      assert HopTexts([]) + SplitOn(suffix, '/') == SplitOn(suffix, '/');
      CanonicalOfSegments(target);
      JoinOfSplit(suffix, '/');
      assert route == "$/" + suffix;
    }
  }

  lemma RootIsValid()
    ensures Valid(Resource([]))
  {
  }

  lemma RootIsCanonical()
    ensures Valid(Resource([])) && Canonical(Resource([])) == "$"
  {
  }

  /** The length checks inside the loop never fire: a route is too long only when its own text is. */
  lemma {:induction false} SegmentsNeverTooLong(segments: seq<string>, hops: Hops)
    requires Valid(Resource(hops))
    requires segments != [] ==> |CanonicalResource(hops)| + 1 + |JoinOn(segments, '/')| <= MAX_RESOURCE_ROUTE_BYTES
    ensures ParsedSegments(segments, hops) != Err(RouteTooLong)
    decreases |segments|
  {
    hide ValidFacetId, ValidSelector, SplitSegment, HopError;
    if segments != [] && SplitSegment(segments[0]).Ok? {
      SegmentOfSplit(segments[0]);
      SplitNeverTooLong(segments[0]);
      var (facet, selector) := SplitSegment(segments[0]).value;
      ValidHops(hops);
      if selector.Some? && Child(hops, facet, selector.value).Ok? {
        var longer := hops + [ResourceHop(facet, selector.value)];
        ValidHops(longer);
        LongerText(hops, ResourceHop(facet, selector.value));
        JoinTail(segments);
        SegmentsNeverTooLong(segments[1..], longer);
      } else if selector.Some? {
        LongerText(hops, ResourceHop(facet, selector.value));
        JoinTail(segments);
      }
    } else if segments != [] {
      SplitNeverTooLong(segments[0]);
    }
  }

  lemma SplitNeverTooLong(segment: string)
    ensures SplitSegment(segment) != Err(RouteTooLong)
  {
  }

  lemma LongerText(hops: Hops, hop: ResourceHop)
    ensures |CanonicalResource(hops + [hop])| == |CanonicalResource(hops)| + 1 + |HopText(hop)|
  {
    assert (hops + [hop])[..|hops|] == hops;
  }

  lemma JoinTail(segments: seq<string>)
    requires segments != []
    ensures |JoinOn(segments, '/')| == |segments[0]| + (if |segments| == 1 then 0 else 1 + |JoinOn(segments[1..], '/')|)
  {
  }

  lemma TooLongExactlyWhen(route: string)
    ensures Parsed(route) == Err(RouteTooLong) <==> |route| > MAX_RESOURCE_ROUTE_BYTES
  {
    hide ParsedSegments;
    if |route| <= MAX_RESOURCE_ROUTE_BYTES && "$/" <= route {
      JoinOfSplit(route[2..], '/');
      RootIsValid();
      SegmentsNeverTooLong(SplitOn(route[2..], '/'), []);
    }
  }

  // ---------------------------------------------------------------- the route of a command

  const SUBCOMMANDS := "subcommands"

  function Subcommands(path: seq<string>): Hops {
    seq(|path|, i requires 0 <= i < |path| => ResourceHop(SUBCOMMANDS, path[i]))
  }

  /** The hops a command needs, whether or not a route may have that many. */
  function CommandHops(id: CommandIdentity): Hops
    requires id.HasNamespace() && id.path != []
  {
    match id.space
    case System => [ResourceHop("system", id.path[0])] + Subcommands(id.path[1..])
    case Module => [ResourceHop("modules", id.namespace.value)] + Subcommands(id.path)
  }

  method CommandResourceRoute(id: CommandIdentity) returns (route: Result<Hops, RouteError>)
    requires id.HasNamespace() && id.Valid()
    ensures route == if |CommandHops(id)| <= MAX_RESOURCE_ROUTE_HOPS then Ok(CommandHops(id)) else Err(TooManyHops)
  {
    hide IsDeviceName, CanonicalResource, ValidFacetId, ValidSelector, CommandIdentity.Address, Child, ValidCommandSegment;
    var all := CommandHops(id);
    var first := all[0];
    ChildOfCommand(id, 0);
    assert all[..0] == [] && all[..1] == [first];
    route := Child([], first.facet, first.selector);
    var segments := if id.space.System? then id.path[1..] else id.path;
    var i := 0;
    while i < |segments| && route.Ok?
      invariant i <= |segments| && |all| == |segments| + 1
      invariant route == if i + 1 <= MAX_RESOURCE_ROUTE_HOPS then Ok(all[..i + 1]) else Err(TooManyHops)
    {
      assert all[i + 1] == ResourceHop(SUBCOMMANDS, segments[i]);
      ChildOfCommand(id, i + 1);
      route := Child(route.value, SUBCOMMANDS, segments[i]);
      i := i + 1;
    }
    assert all[..|all|] == all;
  }

  lemma SegmentIsSelector(name: string)
    requires ValidCommandSegment(name)
    ensures ValidSelector(name) && |name| <= 64
  {
    hide IsDeviceName;
  }

  lemma CommandFacets()
    ensures ValidFacetId("system") && ValidFacetId("modules") && ValidFacetId(SUBCOMMANDS)
  {
  }

  function TotalLength(parts: seq<string>): nat {
    if parts == [] then 0 else TotalLength(parts[..|parts| - 1]) + |parts[|parts| - 1]|
  }

  lemma {:induction false} JoinLength(parts: seq<string>)
    requires parts != []
    ensures |JoinOn(parts, '/')| == TotalLength(parts) + |parts| - 1
  {
    var n := |parts| - 1;
    assert parts == parts[..n] + [parts[n]];
    if n > 0 {
      JoinLength(parts[..n]);
      JoinSnoc(parts[..n], parts[n]);
    }
  }

  lemma {:induction false} SubcommandsLength(first: ResourceHop, path: seq<string>)
    ensures |CanonicalResource([first] + Subcommands(path))| == |CanonicalResource([first])| + TotalLength(path) + 14 * |path|
  {
    hide HopText;
    if path == [] {
      assert [first] + Subcommands(path) == [first];
    } else {
      var n := |path| - 1;
      var hop := ResourceHop(SUBCOMMANDS, path[n]);
      SubcommandsLength(first, path[..n]);
      assert [first] + Subcommands(path) == ([first] + Subcommands(path[..n])) + [hop];
      LongerText([first] + Subcommands(path[..n]), hop);
      HopTextLength(hop);
    }
  }

  lemma HopTextLength(hop: ResourceHop)
    ensures |HopText(hop)| == |hop.facet| + 2 + |hop.selector|
  {
  }

  lemma {:induction false} TotalLengthCons(head: string, tail: seq<string>)
    ensures TotalLength([head] + tail) == |head| + TotalLength(tail)
  {
    if tail == [] {
      assert [head] + tail == [head] && [head][..0] == [];
    } else {
      var n := |tail| - 1;
      TotalLengthCons(head, tail[..n]);
      assert ([head] + tail)[..n + 1] == [head] + tail[..n];
    }
  }

  /** An address fits 256 bytes, so a route of at most 32 hops fits far below 1024. */
  lemma CommandRouteFits(id: CommandIdentity, k: nat)
    requires id.HasNamespace() && id.Valid() && k <= |CommandHops(id)| && k <= MAX_RESOURCE_ROUTE_HOPS
    ensures |CanonicalResource(CommandHops(id)[..k])| <= MAX_RESOURCE_ROUTE_BYTES
  {
    hide ValidCommandSegment, CanonicalResource, JoinOn;
    JoinLength(id.path);
    var all := CommandHops(id);
    if k > 0 {
      var first := all[0];
      var path := if id.space.System? then id.path[1..] else id.path;
      assert all[..k] == [first] + Subcommands(path[..k - 1]);
      SubcommandsLength(first, path[..k - 1]);
      FirstLength(first);
      TotalLengthOfPrefix(path, k - 1);
      if id.space.System? { TotalLengthCons(id.path[0], path); assert id.path == [id.path[0]] + path; }
      AddressLength(id);
    } else {
      assert all[..k] == [];
      EmptyLength();
    }
  }

  lemma AddressLength(id: CommandIdentity)
    requires id.HasNamespace()
    ensures |id.Address()| == 1 + |JoinOn(id.path, '/')| + if id.space.System? then 0 else |id.namespace.value|
  {
  }

  lemma EmptyLength()
    ensures |CanonicalResource([])| == 1
  {
  }

  lemma FirstLength(first: ResourceHop)
    ensures |CanonicalResource([first])| == 4 + |first.facet| + |first.selector|
  {
    LongerText([], first);
    assert [] + [first] == [first];
  }

  lemma {:induction false} TotalLengthOfPrefix(parts: seq<string>, k: nat)
    requires k <= |parts|
    ensures TotalLength(parts[..k]) <= TotalLength(parts)
  {
    if k < |parts| {
      TotalLengthOfPrefix(parts[..|parts| - 1], k);
      assert parts[..|parts| - 1][..k] == parts[..k];
    } else {
      assert parts[..k] == parts;
    }
  }

  lemma CommandHopsValid(id: CommandIdentity)
    requires id.HasNamespace() && id.Valid()
    ensures forall hop :: hop in CommandHops(id) ==> ValidHop(hop)
  {
    hide ValidFacetId, ValidSelector, ValidCommandSegment, CommandIdentity.Address;
    CommandFacets();
    forall hop | hop in CommandHops(id) ensures ValidHop(hop) {
      if id.space.Module? && hop == CommandHops(id)[0] {
        NamespaceIsSegment(id.namespace.value);
      } else {
        assert exists i :: 0 <= i < |id.path| && hop.selector == id.path[i];
      }
      SegmentIsSelector(hop.selector);
    }
  }

  lemma NamespaceIsSegment(name: string)
    requires ValidModuleNamespace(name)
    ensures ValidCommandSegment(name)
  {
  }

  lemma ChildOfCommand(id: CommandIdentity, k: nat)
    requires id.HasNamespace() && id.Valid() && k < |CommandHops(id)| && k <= MAX_RESOURCE_ROUTE_HOPS
    ensures var all := CommandHops(id);
            Child(all[..k], all[k].facet, all[k].selector)
            == if k < MAX_RESOURCE_ROUTE_HOPS then Ok(all[..k + 1]) else Err(TooManyHops)
  {
    hide ValidFacetId, ValidSelector, ValidCommandSegment, CommandIdentity.Address, CanonicalResource, CommandHops;
    CommandHopsValid(id);
    var all := CommandHops(id);
    assert all[k] in all && ValidHop(all[k]);
    assert all[..k] + [ResourceHop(all[k].facet, all[k].selector)] == all[..k + 1];
    if k < MAX_RESOURCE_ROUTE_HOPS {
      CommandRouteFits(id, k + 1);
      ValidHops(all[..k + 1]);
    }
  }

  /** Distinct commands have distinct routes. */
  lemma CommandRouteIsInjective(a: CommandIdentity, b: CommandIdentity)
    requires a.HasNamespace() && a.Valid() && b.HasNamespace() && b.Valid() && CommandHops(a) == CommandHops(b)
    ensures a == b
  {
    hide ValidCommandSegment, CommandIdentity.Address;
    var ha, hb := CommandHops(a), CommandHops(b);
    assert ha[0] == hb[0] && "system"[0] != "modules"[0];
    var offset := if a.space.System? then 0 else 1;
    forall i | 0 <= i < |a.path| ensures i < |b.path| && a.path[i] == b.path[i] {
      assert ha[i + offset] == hb[i + offset];
    }
    assert |a.path| == |b.path|;
    assert a.path == b.path;
  }

  /**
   A command has a route exactly when it needs at most 32 hops: a system command one for each path
   segment, a module command one more. The route is valid and its text names that command alone.
   */
  lemma CommandRouteExactlyWhen(id: CommandIdentity)
    requires id.HasNamespace() && id.Valid()
    ensures |CommandHops(id)| == |id.path| + if id.space.System? then 0 else 1
    ensures Valid(Resource(CommandHops(id))) <==> |CommandHops(id)| <= MAX_RESOURCE_ROUTE_HOPS
    ensures |CommandHops(id)| <= MAX_RESOURCE_ROUTE_HOPS ==>
              Parsed(CanonicalResource(CommandHops(id))) == Ok(Resource(CommandHops(id)))
  {
    hide ValidHop, CommandIdentity.Address, ValidCommandSegment, Parsed, CanonicalResource;
    var all := CommandHops(id);
    CommandHopsValid(id);
    if |all| <= MAX_RESOURCE_ROUTE_HOPS {
      CommandRouteFits(id, |all|);
      assert all[..|all|] == all;
      ParseOfCanonical(Resource(all));
    }
  }

  // ---------------------------------------------------------------- the command of a route

  datatype ProviderError =
    | RootResource
    | NamespaceResource
    | NotThroughSubcommands
    | ForeignFacet
    | BadIdentity(error: IdentityError)

  /** The selectors of hops that all enter through `subcommands`. */
  function SubcommandPath(hops: Hops): (path: Option<seq<string>>)
    ensures path.Some? <==> forall hop :: hop in hops ==> hop.facet == SUBCOMMANDS
    ensures path.Some? ==> Subcommands(path.value) == hops
  {
    if hops == [] then
      assert Subcommands([]) == [];
      Some([])
    else
      var n := |hops| - 1;
      assert hops == hops[..n] + [hops[n]];
      match SubcommandPath(hops[..n])
      case None => None
      case Some(front) =>
        if hops[n].facet != SUBCOMMANDS then None
        else
          assert Subcommands(front + [hops[n].selector]) == Subcommands(front) + [hops[n]];
          Some(front + [hops[n].selector])
  }

  function CommandOfRoute(hops: Hops): Result<CommandIdentity, ProviderError> {
    if hops == [] then Err(RootResource)
    else
      var first := hops[0];
      if first.facet == "system" then Provider(System, None, [first.selector], hops[1..])
      else if first.facet == "modules" then
        if |hops| == 1 then Err(NamespaceResource)
        else if hops[1].facet != SUBCOMMANDS then Err(NotThroughSubcommands)
        else Provider(Module, Some(first.selector), [hops[1].selector], hops[2..])
      else Err(ForeignFacet)
  }

  function Provider(space: CommandSpace, namespace: Option<string>, start: seq<string>, hops: Hops): Result<CommandIdentity, ProviderError> {
    match SubcommandPath(hops)
    case None => Err(NotThroughSubcommands)
    case Some(rest) =>
      match NewIdentity(space, namespace, start + rest)
      case Err(error) => Err(BadIdentity(error))
      case Ok(id) => Ok(id)
  }

  lemma LastSubcommand(front: Hops, hop: ResourceHop)
    requires SubcommandPath(front).Some? && hop.facet == SUBCOMMANDS
    ensures SubcommandPath(front + [hop]) == Some(SubcommandPath(front).value + [hop.selector])
  {
    hide Subcommands;
    var hops := front + [hop];
    assert hops != [] && hops[..|hops| - 1] == front && hops[|hops| - 1] == hop;
  }

  lemma NotSubcommands(hops: Hops, n: nat)
    requires n < |hops| && hops[n].facet != SUBCOMMANDS
    ensures SubcommandPath(hops) == None
  {
    hide Subcommands, SubcommandPath;
    assert hops[n] in hops;
  }

  lemma NoSubcommands()
    ensures SubcommandPath([]) == Some([])
  {
  }

  method CommandIdentityForRoute(hops: Hops) returns (command: Result<CommandIdentity, ProviderError>)
    ensures command == CommandOfRoute(hops)
  {
    hide NewIdentity, SubcommandPath, Subcommands;
    if hops == [] { return Err(RootResource); }
    var first := hops[0];
    var space, namespace, path, next := System, None, [first.selector], 1;
    if first.facet == "modules" {
      if |hops| == 1 { return Err(NamespaceResource); }
      if hops[1].facet != SUBCOMMANDS { return Err(NotThroughSubcommands); }
      space, namespace, path, next := Module, Some(first.selector), [hops[1].selector], 2;
    } else if first.facet != "system" {
      return Err(ForeignFacet);
    }
    ghost var start, rest := path, hops[next..];
    var i := next;
    NoSubcommands();
    assert rest[..0] == [] && start + [] == start;
    while i < |hops|
      invariant next <= i <= |hops|
      invariant SubcommandPath(rest[..i - next]).Some? && path == start + SubcommandPath(rest[..i - next]).value
    {
      assert rest[..i + 1 - next] == rest[..i - next] + [hops[i]];
      if hops[i].facet != SUBCOMMANDS {
        NotSubcommands(rest, i - next);
        return Err(NotThroughSubcommands);
      }
      LastSubcommand(rest[..i - next], hops[i]);
      path := path + [hops[i].selector];
      i := i + 1;
    }
    assert rest[..|hops| - next] == rest;
    match NewIdentity(space, namespace, path) {
      case Err(error) => command := Err(BadIdentity(error));
      case Ok(id) => command := Ok(id);
    }
  }

  lemma SubcommandsApart(path: seq<string>)
    ensures SubcommandPath(Subcommands(path)) == Some(path)
  {
    var back := SubcommandPath(Subcommands(path)).value;
    assert Subcommands(back) == Subcommands(path);
    forall i | 0 <= i < |path| ensures i < |back| && back[i] == path[i] {
      assert Subcommands(back)[i] == Subcommands(path)[i];
    }
    assert |back| == |path|;
    assert back == path;
  }

  /** The route of a command leads back to it. */
  lemma CommandOfCommandRoute(id: CommandIdentity)
    requires id.HasNamespace() && id.Valid()
    ensures CommandOfRoute(CommandHops(id)) == Ok(id)
  {
    hide ValidCommandSegment, CommandIdentity.Address, SubcommandPath, Subcommands, NewIdentity;
    var all := CommandHops(id);
    assert "system"[0] != "modules"[0];
    if id.space.System? {
      assert all[1..] == Subcommands(id.path[1..]) && [id.path[0]] + id.path[1..] == id.path;
      SubcommandsApart(id.path[1..]);
    } else {
      SubcommandsTail(id.path);
      assert all[1] == Subcommands(id.path)[0] && all[2..] == Subcommands(id.path)[1..];
      assert [id.path[0]] + id.path[1..] == id.path;
      SubcommandsApart(id.path[1..]);
    }
  }

  lemma SubcommandsTail(path: seq<string>)
    requires path != []
    ensures Subcommands(path) == [ResourceHop(SUBCOMMANDS, path[0])] + Subcommands(path[1..])
  {
  }

  /** Only the route of a command leads to it: any other route is refused or leads elsewhere. */
  lemma RouteOfRouteCommand(hops: Hops)
    requires CommandOfRoute(hops).Ok?
    ensures var id := CommandOfRoute(hops).value;
            id.HasNamespace() && id.Valid() && CommandHops(id) == hops
  {
    hide ValidCommandSegment, CommandIdentity.Address, SubcommandPath, Subcommands, CommandIdentity.Valid;
    var id := CommandOfRoute(hops).value;
    ValidHasPath(id);
    if hops[0].facet == "system" {
      var rest := SubcommandPath(hops[1..]).value;
      assert id.path[1..] == rest && hops == [hops[0]] + hops[1..];
    } else {
      var rest := SubcommandPath(hops[2..]).value;
      assert id.path[1..] == rest && hops == [hops[0]] + ([hops[1]] + hops[2..]);
      SubcommandsTail(id.path);
    }
  }

  lemma ValidHasPath(id: CommandIdentity)
    requires id.HasNamespace() && id.Valid()
    ensures id.path != []
  {
  }
}
