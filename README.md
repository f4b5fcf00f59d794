# Place map: a verified model of the page script

The page script (`script.js`) lets a user pin places on a Leaflet map and keeps them in
local storage. It also outlines every country that holds at least one pinned place. This
project models the script's logic in Dafny:

- **Place store** (`places.dfy`, module `Places`). A place is `{lat, lng, description}`
  and has no identifier; it is found by exact equality of both coordinates. `FindIndex`
  is the `findIndex` lookup used by an edit. `Removed` is the `filter` used by a delete.
  `Edited` is the store after an edit. `Restored` is the start-up read of the snapshot.
- **Boundary resolver** (`boundaries.dfy`, module `Boundaries`). A run is a fold over the
  outcomes of its remote lookups. `Collect` gathers the country codes of the reverse
  lookups into an insertion-ordered set, as a JavaScript `Set` does. `ResolveCountries` is
  the loop that builds it. `Render` gives the overlays drawn for the distinct codes.
  Failures and replies without a code or without `features` contribute nothing.
- **The page** (`app.dfy`, module `MapPage`). Class `MapApp` holds the mutable state of the
  script: the store, the persisted snapshot, the mode flag, whether the map's click handler
  is attached, the markers and the overlay layer. Each function of the script that changes
  that state is a method. The user's `prompt` answers arrive as `Option<string>` arguments
  (`None` is `null`). `MapApp.Valid()` is the invariant every method keeps: the snapshot
  restores the current store, every place has a marker at its coordinates, and the click
  handler is attached exactly in edit mode.

The resolver runs as one uninterrupted step. A creating or deleting method returns
`refresh == true` when the script would start `updateCountryHighlights`. The caller then
runs `UpdateCountryHighlights` with the lookup outcomes. `replies[i]` is the reverse-geocode
outcome for `places[i]`. `boundaryOf(c)` is the boundary-search outcome for code `c`.
`OneCountrySession` and `EditAndDeleteSession` are client methods. They derive a concrete
session from the contracts alone: one place in one country gives one overlay, then the
place is edited and deleted.

Behaviour of the script worth knowing:

- The reverse lookups are awaited one after another inside the `for` loop (script.js:78-88).
  They do not run concurrently. Within one run the codes are therefore gathered in place order.
- A delete removes only the clicked marker but every place at its coordinates
  (script.js:40-41). If two places share coordinates, the other place's marker stays on the
  map with no place behind it. The model keeps "every place has a marker". It does not
  claim "no marker remains at the deleted coordinates".
- An edit sets the marker's popup before it looks for the place (script.js:32-33). When no
  place matches, the popup still changes, while the store and the snapshot do not.
- Start-up reads the snapshot with an unguarded `JSON.parse` (script.js:9), so a malformed
  blob is not recovered from. The model receives the blob already decoded.
- A failed `localStorage.setItem` is not caught (script.js:18).

## Model

| member | source | states |
|---|---|---|
| `Places.FindIndex` | script.js:33 | -1 exactly when no place has the coordinates; otherwise the index of the first place that has them |
| `Places.Removed` | script.js:41 | the kept places are exactly the original places not at the coordinates; the store never grows |
| `Places.RemovedMultiset` | script.js:41 | every place not at the coordinates is kept as often as it occurred, every place at them is dropped |
| `Places.RemovedAppend` | script.js:41 | deleting from a concatenation deletes from each part, so the kept places keep their original order |
| `Places.RemovedNoMatch` | script.js:41 | a delete at coordinates no place has leaves the store unchanged |
| `Places.RemovedLeavesNoMatch` | script.js:41 | after a delete no place at the coordinates remains, however many there were |
| `Places.Edited` | script.js:33-35 | only the description of the first place at the coordinates changes; length and every other place are unchanged; with no match the store is unchanged |
| `Places.EditTwice` | script.js:33-35 | a second edit of the same place overrides the first |
| `Places.EditThenDelete` | script.js:29-42 | editing a place and then deleting it leaves the same store as deleting it at once |
| `Places.Restored` | script.js:9 | absent storage gives an empty store |
| `Boundaries.CodeOf` | script.js:82-83 | a failed lookup, a reply without `address`, or one without `country_code` contributes nothing; a non-empty code is contributed as itself; an empty code (falsy) contributes nothing |
| `Boundaries.Collect` | script.js:75-88 | the gathered country codes contain no duplicates |
| `Boundaries.Added` | script.js:83 | `countries.add`: a present code ends up in the set, a code already there or an absent code leaves the set unchanged, and nothing else is added |
| `Boundaries.CollectExact` | script.js:75-88 | a code is gathered exactly when some place's lookup succeeded with that code |
| `Boundaries.ResolveCountries` | script.js:75-88 | the loop yields each code of a successful lookup exactly once and nothing else |
| `Boundaries.SameCountryGatheredOnce` | script.js:78-91 | when every place lies in the same country, that code is gathered, and so fetched, once |
| `Boundaries.LookupFaultIsolated` | script.js:78-88 | a failed lookup for one place does not keep any other place's country out |
| `Boundaries.Contribution` | script.js:96-107 | the geometries of a successful reply's features, in order; nothing for a failure or a reply without `features` |
| `Boundaries.Render` | script.js:91-112 | the layer after the loop over the codes: each code's contribution appended in code order |
| `Boundaries.RenderExact` | script.js:91-112 | an overlay is drawn exactly when it is a feature of a successful boundary reply for one of the codes |
| `Boundaries.RenderDependsOnContributions` | script.js:91-112 | the overlays depend only on the features each code contributes; a failure and a reply without `features` render alike |
| `Boundaries.RunOverlays` | script.js:73-112 | one run draws exactly the features of the successfully resolved countries |
| `MapPage.MapApp.constructor` | script.js:9-14 | start-up: absent storage gives an empty store; the mode comes from the environment and the click handler follows it (script.js:127-132); every stored place gets a marker (script.js:135) |
| `MapPage.MapApp.SavePlaces` | script.js:17-19 | the snapshot becomes the whole current store, so it restores exactly the current places |
| `MapPage.MapApp.SetMode` | script.js:116-125 | the flag equals the argument and the click handler is attached exactly when it is true; markers keep the handlers they had |
| `MapPage.MapApp.AddMarker` | script.js:22-26 | a new marker at the coordinates, showing the description, with the edit/delete handler exactly when edit mode is on at creation |
| `MapPage.MapApp.LoadPlaces` | script.js:52-56 | one marker per stored place, in order, and the resolver becomes due |
| `MapPage.MapApp.OnMapClick` | script.js:59-70 | in view mode nothing changes; in edit mode a truthy description appends exactly that place at the end, adds its marker, saves, and makes the resolver due; otherwise nothing changes |
| `MapPage.MapApp.OnMarkerClick` | script.js:27-45 | on an editable marker: action "1" with a text edits the first matching place and saves only if one exists; action "2" deletes every matching place and the marker, saves, and makes the resolver due; any other answer, a null text, or a view-mode marker changes nothing |
| `MapPage.MapApp.EditFromMarker` | script.js:31-37 | the popup shows the new text; the first place at the marker's coordinates gets it and the store is saved when such a place exists; otherwise store and snapshot are unchanged |
| `MapPage.MapApp.DeleteFromMarker` | script.js:40-42 | only this marker goes; every place at its coordinates goes, the rest keep their order; the snapshot equals the new store |
| `MapPage.MapApp.DrawBoundary` | script.js:96-107 | every feature of a reply with `features` is added to the layer in order; a failure or a reply without `features` adds nothing |
| `MapPage.MapApp.UpdateCountryHighlights` | script.js:73-113 | the layer is cleared and then holds exactly the rendering of the gathered codes; it depends on this run's outcomes alone |

## Left out

- Leaflet itself: the tile layer, marker and popup drawing, and `L.geoJSON` rendering with its fixed style (script.js:2-6, 23, 98-106). Markers are records in a map keyed by creation number; overlays are feature geometries.
- `fetch` to the geocoding service and `response.json()` (script.js:80-81, 93-94). Their outcomes are inputs to `UpdateCountryHighlights`.
- JSON encoding of the snapshot (script.js:9, 18). Storage holds the decoded sequence, so a malformed blob and a failing write are not modelled.
- `prompt` and `alert` (script.js:28, 30, 63, 120, 123). The answers are arguments, and the prompt's pre-filled text and the mode messages are not modelled.
- The `location` test (script.js:13). `isLocal` is a constructor argument.
- Overlapping resolver runs and the async interleaving of their awaits. A run is one atomic step, so the lost update between two overlapping runs is not modelled.
- If `L.geoJSON` throws part-way through one code's features, the earlier features stay drawn. The model draws all of a reply's features or none.
- Floating-point coordinates. Coordinates are `real` and compared with `==`; NaN and signed zero are not modelled.
- `AddMarker`: the default description `"Brak opisu"` (script.js:22) applies only to an `undefined` argument. Every modelled caller passes a string, so it never applies here.
