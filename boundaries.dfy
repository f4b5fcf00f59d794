/**
 * The boundary resolver of script.js:73-113 as a fold over the outcomes of its
 * remote lookups. Each reverse-geocode outcome may contribute one country code;
 * the codes are gathered in an insertion-ordered set (a JavaScript `Set`); each
 * distinct code's boundary outcome may contribute its features' geometries.
 */
module Boundaries {
  import opened Options

  type CountryCode = string
  /** A feature's GeoJSON geometry, as handed to the overlay layer. */
  type Geometry = string

  datatype Address = Address(countryCode: Option<CountryCode>)

  /** What one reverse-geocode request yields: a failure (network, status or JSON), or the decoded reply. */
  datatype ReverseReply = LookupFailed | Located(address: Option<Address>)

  datatype Feature = Feature(geometry: Geometry)

  /** What one boundary search yields: a failure, or the decoded reply with its optional `features`. */
  datatype BoundaryReply = BoundaryFailed | Boundary(features: Option<seq<Feature>>)

  /**
   * The code a reverse-geocode outcome contributes (script.js:82-83):
   * `data.address && data.address.country_code` must be truthy, so an empty code contributes nothing.
   */
  function CodeOf(reply: ReverseReply): (r: Option<CountryCode>)
    ensures r.Some? ==> r.value != ""
    ensures reply.LookupFailed? ==> r.None?
    ensures reply.Located? && (reply.address.None? || reply.address.value.countryCode.None?) ==> r.None?
    ensures reply.Located? && reply.address.Some? && reply.address.value.countryCode.Some? ==>
              r == (if reply.address.value.countryCode.value == "" then None else reply.address.value.countryCode)
  {
    match reply
    case LookupFailed => None
    case Located(address) =>
      if address.Some? && address.value.countryCode.Some? && address.value.countryCode.value != ""
      then address.value.countryCode
      else None
  }

  predicate NoDuplicates<T(==)>(s: seq<T>) {
    forall i, j :: 0 <= i < j < |s| ==> s[i] != s[j]
  }

  /** `countries.add(code)` on an insertion-ordered set, when there is a code. */
  function Added(codes: seq<CountryCode>, code: Option<CountryCode>): (r: seq<CountryCode>)
    ensures code.Some? ==> code.value in r
    ensures code.None? || code.value in codes ==> r == codes
    ensures forall c :: c in r <==> c in codes || code == Some(c)
    ensures NoDuplicates(codes) ==> NoDuplicates(r)
  {
    if code.Some? && code.value !in codes then codes + [code.value] else codes
  }

  /** The `countries` set after the loop of script.js:78-88 has seen `replies`, in iteration order. */
  function Collect(replies: seq<ReverseReply>): (r: seq<CountryCode>)
    ensures NoDuplicates(r)
  {
    if replies == [] then []
    else Added(Collect(replies[..|replies| - 1]), CodeOf(replies[|replies| - 1]))
  }

  /** The codes of the successful lookups, as a set: the reference the fold is checked against. */
  ghost function ResolvedCodes(replies: seq<ReverseReply>): set<CountryCode> {
    set i | 0 <= i < |replies| && CodeOf(replies[i]).Some? :: CodeOf(replies[i]).value
  }

  /** The gathered codes are exactly the codes of the successful lookups. */
  lemma {:induction false} CollectExact(replies: seq<ReverseReply>)
    ensures forall c :: c in Collect(replies) <==> c in ResolvedCodes(replies)
  {
    if replies != [] {
      var n := |replies| - 1;
      var front := replies[..n];
      CollectExact(front);
      assert forall i :: 0 <= i < n ==> front[i] == replies[i];
      forall c | c in ResolvedCodes(replies)
        ensures c in Collect(replies)
      {
        var i :| 0 <= i < |replies| && CodeOf(replies[i]).Some? && CodeOf(replies[i]).value == c;
        if i < n {
          assert c in ResolvedCodes(front);
        }
      }
      forall c | c in Collect(replies)
        ensures c in ResolvedCodes(replies)
      {
        if c in Collect(front) {
          var i :| 0 <= i < n && CodeOf(front[i]).Some? && CodeOf(front[i]).value == c;
          assert CodeOf(replies[i]).value == c;
        } else {
          assert CodeOf(replies[n]).value == c;
        }
      }
    }
  }

  /** The loop of script.js:75-88: one pass over the lookup outcomes, in order. */
  method ResolveCountries(replies: seq<ReverseReply>) returns (countries: seq<CountryCode>)
    ensures countries == Collect(replies)
    ensures NoDuplicates(countries)
    ensures forall c :: c in countries <==> c in ResolvedCodes(replies)
  {
    countries := [];
    for i := 0 to |replies|
      invariant countries == Collect(replies[..i])
    {
      assert replies[..i + 1][..i] == replies[..i];
      var code := CodeOf(replies[i]);
      if code.Some? && code.value !in countries {
        countries := countries + [code.value];
      }
    }
    assert replies[..|replies|] == replies;
    CollectExact(replies);
  }

  /** When every place lies in the same country, that country is gathered, and fetched, once. */
  lemma {:induction false} SameCountryGatheredOnce(replies: seq<ReverseReply>, c: CountryCode)
    requires |replies| > 0
    requires forall i :: 0 <= i < |replies| ==> CodeOf(replies[i]) == Some(c)
    ensures Collect(replies) == [c]
  {
    var n := |replies| - 1;
    if n > 0 {
      SameCountryGatheredOnce(replies[..n], c);
    }
  }

  /** A failed lookup for place `j` does not keep any other place's country out. */
  lemma LookupFaultIsolated(replies: seq<ReverseReply>, j: int)
    requires 0 <= j < |replies|
    ensures forall i :: 0 <= i < |replies| && i != j && CodeOf(replies[i]).Some? ==>
              CodeOf(replies[i]).value in Collect(replies[j := LookupFailed])
  {
    var failed := replies[j := LookupFailed];
    CollectExact(failed);
    forall i | 0 <= i < |replies| && i != j && CodeOf(replies[i]).Some?
      ensures CodeOf(replies[i]).value in ResolvedCodes(failed)
    {
      assert failed[i] == replies[i];
    }
  }

  /** The geometries of a feature list, in order. */
  function Geometries(fs: seq<Feature>): (r: seq<Geometry>)
    ensures |r| == |fs| && forall k :: 0 <= k < |fs| ==> r[k] == fs[k].geometry
  {
    if fs == [] then [] else [fs[0].geometry] + Geometries(fs[1..])
  }

  lemma GeometriesStep(fs: seq<Feature>, j: int)
    requires 0 <= j < |fs|
    ensures Geometries(fs[..j + 1]) == Geometries(fs[..j]) + [fs[j].geometry]
  {
  }

  /** The overlays one boundary outcome adds (script.js:96-107): a failure or a reply without `features` adds none. */
  function Contribution(reply: BoundaryReply): seq<Geometry> {
    match reply
    case BoundaryFailed => []
    case Boundary(features) => if features.Some? then Geometries(features.value) else []
  }

  /** The overlay layer after the loop of script.js:91-112 has seen `codes`, in order. */
  function Render(codes: seq<CountryCode>, boundaryOf: CountryCode -> BoundaryReply): seq<Geometry> {
    if codes == [] then []
    else Render(codes[..|codes| - 1], boundaryOf) + Contribution(boundaryOf(codes[|codes| - 1]))
  }

  lemma RenderStep(codes: seq<CountryCode>, k: int, boundaryOf: CountryCode -> BoundaryReply)
    requires 0 <= k < |codes|
    ensures Render(codes[..k + 1], boundaryOf) == Render(codes[..k], boundaryOf) + Contribution(boundaryOf(codes[k]))
  {
    assert codes[..k + 1][..k] == codes[..k];
  }

  /** An overlay is drawn exactly when it belongs to a successful outcome for one of the codes. */
  lemma {:induction false} RenderExact(codes: seq<CountryCode>, boundaryOf: CountryCode -> BoundaryReply)
    ensures forall g :: g in Render(codes, boundaryOf) <==>
              exists c :: c in codes && g in Contribution(boundaryOf(c))
  {
    if codes != [] {
      var n := |codes| - 1;
      RenderExact(codes[..n], boundaryOf);
      assert codes == codes[..n] + [codes[n]];
    }
  }

  /** Only successful outcomes matter: a failure and a reply without features render alike. */
  lemma {:induction false} RenderDependsOnContributions(codes: seq<CountryCode>, b1: CountryCode -> BoundaryReply, b2: CountryCode -> BoundaryReply)
    requires forall c :: c in codes ==> Contribution(b1(c)) == Contribution(b2(c))
    ensures Render(codes, b1) == Render(codes, b2)
  {
    if codes != [] {
      var n := |codes| - 1;
      var front := codes[..n];
      forall c | c in front ensures Contribution(b1(c)) == Contribution(b2(c)) {
        var k :| 0 <= k < n && front[k] == c;
        assert codes[k] == c;
      }
      RenderDependsOnContributions(front, b1, b2);
      assert codes[n] in codes;
      assert Render(codes, b1) == Render(front, b1) + Contribution(b1(codes[n]));
      assert Render(codes, b2) == Render(front, b2) + Contribution(b2(codes[n]));
    }
  }

  /**
   * One resolver run draws exactly the features of the successfully resolved countries,
   * whatever the order of the places and however many places share a country.
   */
  lemma RunOverlays(replies: seq<ReverseReply>, boundaryOf: CountryCode -> BoundaryReply)
    ensures forall g :: g in Render(Collect(replies), boundaryOf) <==>
              exists c :: c in ResolvedCodes(replies) && g in Contribution(boundaryOf(c))
  {
    CollectExact(replies);
    RenderExact(Collect(replies), boundaryOf);
  }
}
