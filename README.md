# US flight network: a verified model of the aggregation and selection logic

The repository draws US domestic flight routes two ways: as a force-directed
graph and as markers and lines on a tile map. Both views start from the rows of
a flights file, `{origin, destination, count}`. This Dafny project models the
logic of `main.js` that does not belong to d3 or Leaflet, and proves what it
computes:

- **Graph builder** (`forceLayout`). One link is pushed per row. One node is
  pushed per distinct airport code, in first-seen order; a `nodeSet` skips the
  codes already seen. Afterwards each node's `value` becomes the total count of
  the links that touch it. Modelled in module `ForceGraph` as the method
  `BuildGraph`: its row loop appends to `links`, `nodes` and `nodeSet`, and its
  second loop assigns each node's value in place. Both loops are proved against
  pure functions (`LinksOf`, `FirstSeen`, `NodeValue`).
- **Summary statistics** (module `ForceStats`). The nodes are sorted by
  descending value and the first fifteen ids are the "major airports". The
  total flight count is a sum over the links. The busiest route is a left fold
  that keeps the running maximum.
- **Airport volume table** (`mapLayout`, module `MapVolumes`). This is a map
  from code to cumulative count: every row adds its count to its origin's entry
  and to its destination's entry. The method `BuildVolumes` has the same loop
  and is proved against the function `Volumes`.
- **Marker colour tiers** (`MapVolumes.TierOf`). Above 100000 flights a marker
  is red, above 50000 orange, otherwise blue.
- **Pin/unpin selection** (module `PinSelection`). `selectedNode` is either
  null or one node. Clicking a node toggles or replaces the selection and pins
  the node where it stands (`fx`/`fy`). Clicking the background clears the
  selection unless a drag is in progress. The class `Session` holds the
  `selectedNode` variable and the nodes' `fx`/`fy` fields. Its handlers are
  proved against the pure transitions `NodeClicked` and `BackgroundClicked`.
  Those transitions keep the invariant that a node is pinned exactly when it
  is the selected node.

Module `Sums` holds the left-fold sum `SumBy` that every total above uses,
with its algebra: concatenation, pointwise addition, monotonicity, and
independence from order. Module `Flights` holds the shared records.

Modelling choices:

- Counts are `nat`, taken as already parsed.
- A node is `Node(id, value)`. The source's `name` field always equals `id`
  and is never read.
- The row loop pushes each node with value 0. The source pushes it with no
  value, and the second loop sets the value before anything reads it.
- A node is identified by its index in `nodes`. The source compares node
  objects, and it makes exactly one object per distinct code.
- The source sorts with `Array.prototype.sort`, which is stable. The model uses
  a stable insertion sort (`SortByValue`) and proves three facts about it: the
  result is in descending order, it is a permutation of the input, and nodes of
  equal value keep their input order. Those three facts fix the result, so
  which stable algorithm produced it does not matter.
- With no links, the source's `maxRoute` is `undefined`, and building the info
  panel then fails on `maxRoute.source`. `BusiestRoute` returns `None` in that
  case.
- In the source, a click on a node stops event propagation. So a node click
  never also counts as a background click, and the model keeps the two
  separate.

The two views count a self-loop row (origin equal to destination)
differently. `NodeValue` counts its flights once, because a link that touches
the node counts once. `VolumeOf` counts them twice, once for each endpoint.
`VolumeAgainstNodeValue` states the exact relation: an airport's map volume
equals its node value plus its self-loop flights.

## Model

| member | source | states |
|---|---|---|
| `ForceGraph.NodeValue` | main.js:36-38 | A node's value: the total of the links whose source or target is the node. `NodeValueInOut`, `NodeValueSelfLoop` and `NodeValueOrderFree` characterise it. |
| `ForceGraph.BuildGraph` | main.js:15-38 | `links` has one entry per row, in row order, holding that row's origin, destination and count. The node ids are `FirstSeen` of the rows' codes: no duplicates, and a code is a node id exactly when some row mentions it. Each node's value is `NodeValue(links, id)`. The loop keeps `nodeSet` equal to the set of node ids. |
| `ForceGraph.LinksOfRows` | main.js:15-21 | The link list has as many links as there are rows, and link k is (origin, destination, count) of row k. |
| `ForceGraph.RowStep` | main.js:15-33 | One pass of the row loop appends the row's link and adds its origin, then its destination, to the node list when they are new. |
| `ForceGraph.FirstSeenSpec` | main.js:23-32 | The node list holds every code of the rows and nothing else, with no code twice, ordered by each code's first occurrence. |
| `ForceGraph.FirstSeenUnique` | main.js:23-32 | A list with those three properties is exactly `FirstSeen`, so the properties determine the node order. |
| `ForceGraph.NodeValueInOut` | main.js:36-38 | A node's value plus its self-loop flights equals its outgoing flights plus its incoming flights. |
| `ForceGraph.NodeValueSelfLoop` | main.js:36-38 | A self-loop link adds its value to its node once. |
| `ForceGraph.NodeValueOrderFree` | main.js:36-38 | A node's value does not depend on the order of the links. |
| `ForceStats.SortByValue` | main.js:41 | The nodes sorted by descending value, stably. `SortByValueSpec` and `SortByValueStable` characterise it. |
| `ForceStats.TopByValue` | main.js:42 | The first fifteen sorted nodes, or all of them when there are fewer. Its length is min(15, number of nodes). |
| `ForceStats.MajorAirports` | main.js:42 | The ids of those nodes. `MajorAirportsSize`, `MajorAirportsDominate` and `MajorAirportsAll` characterise it. |
| `ForceStats.SortByValueSpec` | main.js:41 | The sorted nodes are in descending order of value and are a permutation of `nodes`. |
| `ForceStats.SortByValueStable` | main.js:41 | For every value, the nodes with that value appear in the same order before and after sorting (ties keep insertion order). |
| `ForceStats.SortByValueDistinct` | main.js:41 | Sorting keeps node ids distinct. |
| `ForceStats.MajorAirportsSize` | main.js:41-42 | When node ids are distinct, as `BuildGraph` guarantees, the major-airport set has min(15, number of nodes) ids. |
| `ForceStats.MajorAirportsDominate` | main.js:41-42 | Every node whose id is major has a value at least that of every node whose id is not. |
| `ForceStats.MajorAirportsAll` | main.js:41-42 | With at most 15 nodes, every node's id is major. |
| `ForceStats.TotalFlights` | main.js:45 | The sum of the link values. `TotalFlightsOfRows` and `NodeValueAtMostTotal` characterise it. |
| `ForceStats.TotalFlightsOfRows` | main.js:45 | The total over the links of some rows equals the sum of the rows' counts. |
| `ForceStats.NodeValueAtMostTotal` | main.js:36-45 | No node's value exceeds the total flight count. |
| `ForceStats.BusiestFrom` | main.js:47 | The fold returns an index of a link whose value is at least every link's value, and every earlier link has a strictly smaller value (ties go to the first link, because the comparison is strict `>`). |
| `ForceStats.BusiestRoute` | main.js:47 | `None` exactly when there are no links. Otherwise it returns the first link of maximal value. |
| `ForceStats.TwoRowExampleGraph` | main.js:15-32 | Rows A→B (100) and B→C (50) give links A→B:100 and B→C:50, and nodes A, B, C in that order. |
| `ForceStats.TwoRowExampleStats` | main.js:36-47 | For those links, the node values are 100, 150 and 50, the total is 150, and the busiest route is A→B. |
| `MapVolumes.VolumeOf` | main.js:408-415 | An airport's volume: the counts of the rows leaving it plus those of the rows arriving at it. `VolumeOfSelfLoop` and `VolumeAgainstNodeValue` characterise it. |
| `MapVolumes.Volumes` | main.js:408-415 | The table: every mentioned airport with its volume. `VolumeStep`, `VolumesOrderFree` and `VolumesSum` characterise it. |
| `MapVolumes.BuildVolumes` | main.js:407-415 | The table's keys are exactly the codes that some row mentions, and each key maps to `VolumeOf(rows, code)`. |
| `MapVolumes.VolumeStep` | main.js:413-414 | One pass of the loop adds the row's count to its origin's entry, then to its destination's entry; a missing entry counts as 0. |
| `MapVolumes.VolumeOfSelfLoop` | main.js:413-414 | A self-loop row adds twice its count to its airport. |
| `MapVolumes.VolumesOrderFree` | main.js:408-415 | Rows that are a permutation of each other give the same table. |
| `MapVolumes.VolumesSum` | main.js:408-415 | The volumes summed over the table's keys, each taken once in any order, equal twice the total count of the rows. |
| `MapVolumes.VolumeAgainstNodeValue` | main.js:408-415 | An airport's volume equals its force-graph node value plus its self-loop flights. |
| `MapVolumes.TierOf` | main.js:527-530 | The tier is red exactly when volume > 100000, orange exactly when 50000 < volume ≤ 100000, and blue exactly when volume ≤ 50000. |
| `MapVolumes.TierMonotone` | main.js:527-530 | More volume never gives a lower tier. |
| `MapVolumes.MarkerColourOfRows` | main.js:522-530 | In the table built from the rows, an airport gets a marker colour exactly when some row mentions it, and the colour is the tier colour of its volume. |
| `PinSelection.NodeClicked` | main.js:204-233 | The node click transition. It keeps the state well formed; `ClickSelectedUnpins`, `ClickOtherSelects`, `ClickNodePreserves` and `ClickTwiceRestores` characterise it. |
| `PinSelection.BackgroundClicked` | main.js:235-244 | The background click transition. It keeps the state well formed; `ClickBackgroundWhileDragging`, `ClickBackgroundClears` and `ClickBackgroundPreserves` characterise it. |
| `PinSelection.ClickSelectedUnpins` | main.js:207-215 | Clicking the selected node leaves nothing selected and clears its `fx`/`fy`. No other node changes. |
| `PinSelection.ClickOtherSelects` | main.js:216-232 | Clicking any other node clears the previous node's `fx`/`fy`, pins the clicked node at its position and makes it the selected node. No other node changes. |
| `PinSelection.ClickBackgroundWhileDragging` | main.js:235-236 | A background click during a drag changes nothing. |
| `PinSelection.ClickBackgroundClears` | main.js:235-244 | A background click outside a drag leaves nothing selected and no node pinned. |
| `PinSelection.ClickSelectedIsClickBackground` | main.js:204-244 | Clicking the selected node has the same effect as a background click outside a drag. |
| `PinSelection.InitialOnlySelectedPinned` | main.js:183 | In the initial state nothing is selected and nothing is pinned. |
| `PinSelection.ClickNodePreserves` | main.js:204-233 | A node click keeps "a node is pinned exactly when it is selected". |
| `PinSelection.ClickBackgroundPreserves` | main.js:235-244 | A background click keeps the same invariant. |
| `PinSelection.ClickTwiceRestores` | main.js:204-233 | With nothing selected, clicking the same node twice restores the state. |
| `PinSelection.Session.constructor` | main.js:183-184 | A new session has nothing selected and no node pinned. |
| `PinSelection.Session.ClickNode` | main.js:204-233 | The node click handler changes `selectedNode`, `fx` and `fy` exactly as `NodeClicked` says, and keeps the invariant. |
| `PinSelection.Session.ClickBackground` | main.js:235-244 | The background click handler changes them exactly as `BackgroundClicked` says, and keeps the invariant. |

## Left out

- Integer width: the source adds counts as JavaScript double-precision numbers, which stop being exact integers above 2^53. The model's `nat` sums are unbounded, so totals and volumes beyond that size are not modelled as the source would round them.
- Loading the CSV files with `d3.csv` and the `async`/`await` sequencing (main.js:13, 391-392). This is I/O. Rows arrive as a parameter, with `count` already parsed; the `+row.count` coercion of malformed text to `NaN` or 0 is not modelled.
- The stale-load race between layout switches. This is asynchronous plumbing.
- The airport metadata map (main.js:395-404). It is used only for coordinates and tooltip text.
- The d3 force simulation and its forces. This is a foreign library with floating-point physics.
- The drag handlers (main.js:321-368). These are the only code that sets `isDragging`, so the model takes it as the `dragging` input of a background click. A drag start also pins the dragged node and a drag end unpins it unless it is selected. So during a drag of an unselected node, "pinned exactly when selected" does not hold; the model covers click-driven states only.
- Hover handlers, highlighting, the info panel, legends, tooltips and `toLocaleString` formatting (main.js:50-133, 186-203, 246-319, 417-462, 557-573). These are DOM and SVG output only.
- The average flights per link (main.js:46). It is a floating-point division, and 0/0 with no links.
- Square-root radii, collision sizes, stroke widths, opacity and weight scaling, and the ratio-based node colour (main.js:136-162, 483-484, 524). These are all floating point.
- The latitude/longitude truthiness filter on markers and routes (main.js:482, 522). It depends on JavaScript float and `NaN` coercion. `MarkerColour` models only the `airportVolumes.has` part of the marker condition.
- Leaflet map creation, tile layers, polylines and markers (main.js:465-555). This is a foreign library.
- `draw`, the global `map` reference and the button wiring (main.js:576-607). This is DOM and map-instance plumbing.
