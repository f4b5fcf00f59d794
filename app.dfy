/**
 * The page script of script.js as one object: the place store and its
 * persisted snapshot, the mode flag and the map's click handler, the markers,
 * and the country overlay layer. Every user gesture arrives as a method call
 * with the user's `prompt` answers as arguments.
 */
module MapPage {
  import opened Options
  import opened Places
  import opened Boundaries

  /** A marker on the map: where it stands, its popup text, and whether it got the edit/delete click handler. */
  datatype Marker = Marker(lat: Coord, lng: Coord, popup: string, editable: bool)

  class MapApp {
    /** `places` (script.js:9). */
    var places: seq<Place>
    /** The `'places'` entry of local storage, decoded; `None` while nothing was ever written. */
    var storage: Option<seq<Place>>
    /** `isEditMode` (script.js:14). */
    var isEditMode: bool
    /** Whether `onMapClick` is registered for the map's `click` event. */
    var clickHandlerOn: bool
    /** The markers on the map, by creation number. */
    var markers: map<nat, Marker>
    var nextMarker: nat
    /** The contents of `countryLayerGroup`, in drawing order. */
    var overlays: seq<Geometry>

    /** Some marker stands at `(lat, lng)`. */
    ghost predicate MarkedAt(lat: Coord, lng: Coord)
      reads this`markers
    {
      exists id :: id in markers && markers[id].lat == lat && markers[id].lng == lng
    }

    /** The store, its snapshot and the markers agree, whatever the mode. */
    ghost predicate Consistent()
      reads this`places, this`storage, this`markers, this`nextMarker
    {
      Restored(storage) == places &&
      (forall id :: id in markers ==> id < nextMarker) &&
      (forall p :: p in places ==> MarkedAt(p.lat, p.lng))
    }

    /** The object invariant: the snapshot restores the store, every place has a marker, and the click handler follows the mode. */
    ghost predicate Valid()
      reads this`places, this`storage, this`markers, this`nextMarker, this`isEditMode, this`clickHandlerOn
    {
      Consistent() && clickHandlerOn == isEditMode
    }

    /**
     * Page start-up (script.js:9-14, 127-135): read the snapshot (absent storage gives
     * an empty store), take the mode from the environment, then show every stored place.
     * The resolver run that start-up triggers is `UpdateCountryHighlights`, called next.
     */
    constructor (stored: Option<seq<Place>>, isLocal: bool)
      ensures Valid()
      ensures places == Restored(stored) && storage == stored
      ensures isEditMode == isLocal && overlays == []
      ensures nextMarker == |places|
      ensures forall id :: id in markers <==> 0 <= id < |places|
      ensures forall i :: 0 <= i < |places| ==>
                markers[i] == Marker(places[i].lat, places[i].lng, places[i].description, isLocal)
    {
      places := Restored(stored);
      storage := stored;
      isEditMode := isLocal;
      clickHandlerOn := false;
      markers := map[];
      nextMarker := 0;
      overlays := [];
      new;
      SetMode(isLocal);
      var refresh := LoadPlaces();
      assert refresh;  // start-up ends with a resolver run due (script.js:55)
    }

    /** `savePlaces` (script.js:17-19): the snapshot becomes the whole current store. */
    method SavePlaces()
      modifies this`storage
      ensures storage == Some(places)
      ensures Restored(storage) == places
    {
      storage := Some(places);
    }

    /** `setMode` (script.js:116-125): the flag and the map's click handler both follow `editMode`; existing markers keep their handlers. */
    method SetMode(editMode: bool)
      modifies this`isEditMode, this`clickHandlerOn
      ensures isEditMode == editMode && clickHandlerOn == editMode
    {
      isEditMode := editMode;
      clickHandlerOn := editMode;
    }

    /**
     * `addMarker` (script.js:22-49): a new marker showing `description`; it gets the
     * edit/delete handler exactly when edit mode is on now.
     */
    method AddMarker(lat: Coord, lng: Coord, description: string) returns (id: nat)
      requires forall k :: k in markers ==> k < nextMarker
      modifies this`markers, this`nextMarker
      ensures id == old(nextMarker) && nextMarker == id + 1
      ensures markers == old(markers)[id := Marker(lat, lng, description, isEditMode)]
      ensures forall k :: k in markers ==> k < nextMarker
      ensures old(Valid()) ==> Valid()
    {
      id := nextMarker;
      markers := markers[id := Marker(lat, lng, description, isEditMode)];
      nextMarker := nextMarker + 1;
      if old(Valid()) {
        forall p | p in places ensures MarkedAt(p.lat, p.lng) {
          var k :| k in old(markers) && old(markers)[k].lat == p.lat && old(markers)[k].lng == p.lng;
          assert k != id && markers[k] == old(markers)[k];
        }
      }
    }

    /** `loadPlaces` (script.js:52-56): one marker per stored place, in order; then the resolver is due. */
    method LoadPlaces() returns (refresh: bool)
      requires Restored(storage) == places
      requires forall k :: k in markers ==> k < nextMarker
      modifies this`markers, this`nextMarker
      ensures Consistent()
      ensures refresh
      ensures nextMarker == old(nextMarker) + |places|
      ensures forall k :: k in markers <==> k in old(markers) || old(nextMarker) <= k < nextMarker
      ensures forall k :: k in old(markers) ==> markers[k] == old(markers)[k]
      ensures forall i :: 0 <= i < |places| ==>
                markers[old(nextMarker) + i] == Marker(places[i].lat, places[i].lng, places[i].description, isEditMode)
    {
      for i := 0 to |places|
        invariant nextMarker == old(nextMarker) + i
        invariant forall k :: k in markers <==> k in old(markers) || old(nextMarker) <= k < nextMarker
        invariant forall k :: k in old(markers) ==> markers[k] == old(markers)[k]
        invariant forall j :: 0 <= j < i ==>
                    markers[old(nextMarker) + j] == Marker(places[j].lat, places[j].lng, places[j].description, isEditMode)
      {
        var id := AddMarker(places[i].lat, places[i].lng, places[i].description);
      }
      forall p | p in places ensures MarkedAt(p.lat, p.lng) {
        var j :| 0 <= j < |places| && places[j] == p;
        assert markers[old(nextMarker) + j].lat == p.lat;
      }
      refresh := true;
    }

    /**
     * `onMapClick` (script.js:59-70), reached through the map's click event. In view mode
     * nothing happens. In edit mode a truthy description (`prompt` gave neither `null` nor
     * the empty string) adds a marker, appends the place, saves, and makes the resolver due.
     */
    method OnMapClick(lat: Coord, lng: Coord, description: Option<string>) returns (refresh: bool)
      requires Valid()
      modifies this`places, this`storage, this`markers, this`nextMarker
      ensures Valid()
      ensures refresh <==> old(isEditMode) && description.Some? && description.value != ""
      ensures nextMarker == if refresh then old(nextMarker) + 1 else old(nextMarker)
      ensures refresh ==>
                places == old(places) + [Place(lat, lng, description.value)] &&
                storage == Some(places) &&
                markers == old(markers)[old(nextMarker) := Marker(lat, lng, description.value, true)]
      ensures !refresh ==>
                places == old(places) && storage == old(storage) && markers == old(markers)
    {
      refresh := false;
      if !clickHandlerOn || !isEditMode {
        return;
      }
      if description.Some? && description.value != "" {
        var id := AddMarker(lat, lng, description.value);
        places := places + [Place(lat, lng, description.value)];
        SavePlaces();
        refresh := true;
        forall p | p in places ensures MarkedAt(p.lat, p.lng) {
          if p in old(places) {
            var k :| k in old(markers) && old(markers)[k].lat == p.lat && old(markers)[k].lng == p.lng;
            assert k != id && markers[k] == old(markers)[k];
          } else {
            assert markers[id].lat == p.lat && markers[id].lng == p.lng;
          }
        }
      }
    }

    /**
     * The click handler of an editable marker (script.js:27-45), with the two `prompt`
     * answers as arguments. Action `"1"` with a new text sets the popup and then the
     * description of the first place at the marker's coordinates, saving only when one
     * exists. Action `"2"` removes this marker and every place at its coordinates, saves,
     * and makes the resolver due. Anything else, or a marker created in view mode, changes nothing.
     */
    method OnMarkerClick(id: nat, action: Option<string>, newText: Option<string>) returns (refresh: bool)
      requires Valid() && id in markers
      modifies this`places, this`storage, this`markers
      ensures Valid()
      ensures var m := old(markers[id]);
        if m.editable && action == Some("1") && newText.Some? then
          markers == old(markers)[id := m.(popup := newText.value)] &&
          places == Edited(old(places), m.lat, m.lng, newText.value) &&
          storage == (if HasMatch(old(places), m.lat, m.lng) then Some(places) else old(storage)) &&
          !refresh
        else if m.editable && action == Some("2") then
          markers == old(markers) - {id} &&
          places == Removed(old(places), m.lat, m.lng) &&
          storage == Some(places) &&
          refresh
        else
          markers == old(markers) && places == old(places) && storage == old(storage) && !refresh
    {
      var m := markers[id];
      refresh := false;
      if !m.editable {
        return;
      }
      if action == Some("1") {
        if newText.Some? {
          EditFromMarker(id, newText.value);
        }
      } else if action == Some("2") {
        DeleteFromMarker(id);
        refresh := true;
      }
    }

    /**
     * Action `"1"` with a new text (script.js:31-37): the popup first, then the first
     * place at the marker's coordinates, saved only when there is one.
     */
    method EditFromMarker(id: nat, text: string)
      requires Valid() && id in markers
      modifies this`places, this`storage, this`markers
      ensures Valid()
      ensures var m := old(markers[id]);
        markers == old(markers)[id := m.(popup := text)] &&
        places == Edited(old(places), m.lat, m.lng, text) &&
        storage == (if HasMatch(old(places), m.lat, m.lng) then Some(places) else old(storage))
    {
      var m := markers[id];
      markers := markers[id := m.(popup := text)];
      var placeIndex := FindIndex(places, m.lat, m.lng);
      if placeIndex != -1 {
        places := places[placeIndex := places[placeIndex].(description := text)];
        SavePlaces();
      }
      forall p | p in places ensures MarkedAt(p.lat, p.lng) {
        var j :| 0 <= j < |places| && places[j] == p;
        var q := old(places)[j];
        assert q in old(places) && q.lat == p.lat && q.lng == p.lng;
        var k :| k in old(markers) && old(markers)[k].lat == q.lat && old(markers)[k].lng == q.lng;
        assert k in markers && markers[k].lat == p.lat && markers[k].lng == p.lng;
      }
    }

    /**
     * Action `"2"` (script.js:40-42): this marker leaves the map, every place at its
     * coordinates leaves the store, and the store is saved.
     */
    method DeleteFromMarker(id: nat)
      requires Valid() && id in markers
      modifies this`places, this`storage, this`markers
      ensures Valid()
      ensures var m := old(markers[id]);
        markers == old(markers) - {id} &&
        places == Removed(old(places), m.lat, m.lng) &&
        storage == Some(places)
    {
      var m := markers[id];
      markers := markers - {id};
      places := Removed(places, m.lat, m.lng);
      SavePlaces();
      forall p | p in places ensures MarkedAt(p.lat, p.lng) {
        assert p in old(places) && !Matches(p, m.lat, m.lng);
        var k :| k in old(markers) && old(markers)[k].lat == p.lat && old(markers)[k].lng == p.lng;
        assert k != id;
        assert k in markers && markers[k] == old(markers)[k];
      }
    }

    /** One boundary outcome's drawing (script.js:96-107): every feature of a reply with `features` is added to the layer, in order. */
    method DrawBoundary(reply: BoundaryReply)
      modifies this`overlays
      ensures overlays == old(overlays) + Contribution(reply)
    {
      if reply.Boundary? && reply.features.Some? {
        var fs := reply.features.value;
        for j := 0 to |fs|
          invariant overlays == old(overlays) + Geometries(fs[..j])
        {
          GeometriesStep(fs, j);
          overlays := overlays + [fs[j].geometry];
        }
        assert fs[..|fs|] == fs;
      }
    }

    /**
     * `updateCountryHighlights` (script.js:73-113) as one uninterrupted run. `replies[i]` is the
     * outcome of the reverse lookup for `places[i]`; `boundaryOf(c)` that of the boundary search
     * for code `c`. The layer is cleared first, so what it holds afterwards depends on these
     * outcomes alone and not on earlier runs.
     */
    method UpdateCountryHighlights(replies: seq<ReverseReply>, boundaryOf: CountryCode -> BoundaryReply)
      requires Valid()
      requires |replies| == |places|
      modifies this`overlays
      ensures Valid()
      ensures overlays == Render(Collect(replies), boundaryOf)
    {
      overlays := [];
      var countries := ResolveCountries(replies);
      for k := 0 to |countries|
        invariant overlays == Render(countries[..k], boundaryOf)
      {
        RenderStep(countries, k, boundaryOf);
        DrawBoundary(boundaryOf(countries[k]));
      }
      assert countries[..|countries|] == countries;
    }
  }

  /**
   * A session on an empty store in local (edit) mode, using only the contracts above:
   * one place in one country gives one overlay and one saved entry.
   */
  method OneCountrySession()
  {
    var app := new MapApp(None, true);
    var refresh := app.OnMapClick(51.5, -0.09, Some("A"));
    assert refresh && app.places == [Place(51.5, -0.09, "A")];
    assert app.storage == Some([Place(51.5, -0.09, "A")]);

    var gb := Located(Some(Address(Some("gb"))));
    var boundaryOf := (c: CountryCode) => if c == "gb" then Boundary(Some([Feature("gb-shape")])) else BoundaryFailed;
    app.UpdateCountryHighlights([gb], boundaryOf);
    assert Collect([gb]) == ["gb"] by {
      assert [gb][..0] == [];
    }
    assert Render(["gb"], boundaryOf) == ["gb-shape"] by {
      assert ["gb"][..0] == [];
    }
    assert app.overlays == ["gb-shape"];
  }

  /**
   * Editing and deleting the one stored place through its marker: the edit replaces its
   * description, an edit from a marker where no place stands leaves the store alone,
   * and the delete empties the store and removes the marker.
   */
  method EditAndDeleteSession()
  {
    var a := Place(51.5, -0.09, "A");
    var app := new MapApp(Some([a]), true);
    assert app.markers[0] == Marker(51.5, -0.09, "A", true);

    var refresh := app.OnMarkerClick(0, Some("1"), Some("B"));
    assert FirstMatch([a], 0, 51.5, -0.09);
    assert app.places == [a.(description := "B")];
    assert app.storage == Some(app.places);

    var other := app.AddMarker(10.0, 20.0, "stray");
    assert !HasMatch(app.places, 10.0, 20.0);
    refresh := app.OnMarkerClick(other, Some("1"), Some("C"));
    assert app.places == [a.(description := "B")];

    refresh := app.OnMarkerClick(0, Some("2"), None);
    assert refresh && app.places == [] && 0 !in app.markers;
  }
}
