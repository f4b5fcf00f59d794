/**
 * The place store of script.js: the sequence of `{lat, lng, description}` records,
 * the coordinate lookup used to edit a place and the coordinate filter used to delete it.
 * A place has no identifier; it is found by exact equality of both coordinates.
 */
module Places {
  import opened Options

  /** A coordinate as the map reports it. The program only compares coordinates with `===`. */
  type Coord = real

  datatype Place = Place(lat: Coord, lng: Coord, description: string)

  /** The coordinate test of script.js:33 and script.js:41. */
  predicate Matches(p: Place, lat: Coord, lng: Coord) {
    p.lat == lat && p.lng == lng
  }

  ghost predicate HasMatch(s: seq<Place>, lat: Coord, lng: Coord) {
    exists i :: 0 <= i < |s| && Matches(s[i], lat, lng)
  }

  /** Index `i` holds the first place at `(lat, lng)`. */
  predicate FirstMatch(s: seq<Place>, i: int, lat: Coord, lng: Coord) {
    0 <= i < |s| && Matches(s[i], lat, lng) &&
    forall j :: 0 <= j < i ==> !Matches(s[j], lat, lng)
  }

  /** `places.findIndex(p => p.lat === lat && p.lng === lng)`: the first match, or -1. */
  function FindIndex(s: seq<Place>, lat: Coord, lng: Coord): (r: int)
    ensures -1 <= r < |s|
    ensures r == -1 <==> !HasMatch(s, lat, lng)
    ensures r != -1 ==> FirstMatch(s, r, lat, lng)
  {
    if s == [] then -1
    else if Matches(s[0], lat, lng) then 0
    else
      var k := FindIndex(s[1..], lat, lng);
      assert forall i :: 1 <= i < |s| ==> s[i] == s[1..][i - 1];
      if k == -1 then -1 else k + 1
  }

  /** `places.filter(p => !(p.lat === lat && p.lng === lng))`. */
  function Removed(s: seq<Place>, lat: Coord, lng: Coord): (r: seq<Place>)
    ensures |r| <= |s|
    ensures forall p :: p in r <==> p in s && !Matches(p, lat, lng)
  {
    if s == [] then []
    else if Matches(s[0], lat, lng) then Removed(s[1..], lat, lng)
    else [s[0]] + Removed(s[1..], lat, lng)
  }

  /**
   * The store after the edit of script.js:33-35: the first place at `(lat, lng)`
   * gets description `d`; with no such place the store is as it was.
   */
  function Edited(s: seq<Place>, lat: Coord, lng: Coord, d: string): (r: seq<Place>)
    ensures |r| == |s|
    ensures !HasMatch(s, lat, lng) ==> r == s
    ensures forall i :: FirstMatch(s, i, lat, lng) ==> r == s[i := s[i].(description := d)]
  {
    var i := FindIndex(s, lat, lng);
    if i == -1 then s else s[i := s[i].(description := d)]
  }

  /** `JSON.parse(localStorage.getItem('places')) || []` with the blob already decoded. */
  function Restored(stored: Option<seq<Place>>): (r: seq<Place>)
    ensures stored.None? ==> r == []
  {
    stored.GetOr([])
  }

  /** Deleting from a concatenation deletes from each part, so the kept places stay in order. */
  lemma {:induction false} RemovedAppend(a: seq<Place>, b: seq<Place>, lat: Coord, lng: Coord)
    ensures Removed(a + b, lat, lng) == Removed(a, lat, lng) + Removed(b, lat, lng)
  {
    if a == [] {
      assert a + b == b;
    } else {
      assert (a + b)[1..] == a[1..] + b;
      RemovedAppend(a[1..], b, lat, lng);
    }
  }

  /** A delete is a filter: each place not at the coordinates is kept as often as it occurred, each place at them is dropped. */
  lemma {:induction false} RemovedMultiset(s: seq<Place>, lat: Coord, lng: Coord)
    ensures forall p :: multiset(Removed(s, lat, lng))[p] == if Matches(p, lat, lng) then 0 else multiset(s)[p]
  {
    if s != [] {
      assert s == [s[0]] + s[1..];
      RemovedMultiset(s[1..], lat, lng);
    }
  }

  /** Deleting where nothing matches changes nothing. */
  lemma {:induction false} RemovedNoMatch(s: seq<Place>, lat: Coord, lng: Coord)
    requires !HasMatch(s, lat, lng)
    ensures Removed(s, lat, lng) == s
  {
    if s != [] {
      assert !Matches(s[0], lat, lng);
      assert forall i :: 0 <= i < |s[1..]| ==> s[1..][i] == s[i + 1];
      RemovedNoMatch(s[1..], lat, lng);
    }
  }

  /** Every place at `(lat, lng)` is gone, however many there were. */
  lemma RemovedLeavesNoMatch(s: seq<Place>, lat: Coord, lng: Coord)
    ensures !HasMatch(Removed(s, lat, lng), lat, lng)
  {
  }

  /** Replacing one place at `(lat, lng)` by another there does not change what a delete keeps. */
  lemma {:induction false} RemovedIgnoresMatchingUpdate(s: seq<Place>, i: int, x: Place, lat: Coord, lng: Coord)
    requires 0 <= i < |s| && Matches(s[i], lat, lng) && Matches(x, lat, lng)
    ensures Removed(s[i := x], lat, lng) == Removed(s, lat, lng)
  {
    if i > 0 {
      assert s[i := x][1..] == s[1..][i - 1 := x];
      RemovedIgnoresMatchingUpdate(s[1..], i - 1, x, lat, lng);
    }
  }

  /** Editing a place and then deleting it leaves the same store as deleting it at once. */
  lemma EditThenDelete(s: seq<Place>, lat: Coord, lng: Coord, d: string)
    ensures Removed(Edited(s, lat, lng, d), lat, lng) == Removed(s, lat, lng)
  {
    var i := FindIndex(s, lat, lng);
    if i != -1 {
      RemovedIgnoresMatchingUpdate(s, i, s[i].(description := d), lat, lng);
    }
  }

  /** A second edit of the same place overrides the first. */
  lemma EditTwice(s: seq<Place>, lat: Coord, lng: Coord, d1: string, d2: string)
    ensures Edited(Edited(s, lat, lng, d1), lat, lng, d2) == Edited(s, lat, lng, d2)
  {
  }
}
