/** The map layout's airport volume table and the colour tier of each
    airport marker. */
module MapVolumes {
  import opened Flights
  import opened Sums
  import opened ForceGraph

  // ---------------------------------------------------------------------------
  // The volume of an airport

  function OriginCount(r: Row, c: Code): nat
  {
    if r.origin == c then r.count else 0
  }

  function DestinationCount(r: Row, c: Code): nat
  {
    if r.destination == c then r.count else 0
  }

  /** A row's share of the volume of airport `c`: its count once for being
      the origin and once more for being the destination, so a self-loop row
      counts twice. */
  function RowVolume(r: Row, c: Code): nat
  {
    OriginCount(r, c) + DestinationCount(r, c)
  }

  function RowWeight(c: Code): Row -> nat
  {
    (r: Row) => RowVolume(r, c)
  }

  /** The total count of the rows that leave `c` plus that of the rows that
      arrive at `c`. */
  function VolumeOf(rows: seq<Row>, c: Code): nat
  {
    SumBy(rows, RowWeight(c))
  }

  /** The table the flights loop builds: every code some row mentions, with
      its volume. */
  function Volumes(rows: seq<Row>): map<Code, nat>
  {
    map c | c in Endpoints(rows) :: VolumeOf(rows, c)
  }

  /** `airportVolumes.get(c) || 0` */
  function Get(volumes: map<Code, nat>, c: Code): nat
  {
    if c in volumes then volumes[c] else 0
  }

  /** An airport no row mentions has no volume. */
  lemma VolumeOfUnmentioned(rows: seq<Row>, c: Code)
    requires !Mentions(rows, c)
    ensures VolumeOf(rows, c) == 0
  {
    forall k | 0 <= k < |rows| ensures RowWeight(c)(rows[k]) == 0 {
      assert rows[k].origin != c && rows[k].destination != c;
    }
    SumByZero(rows, RowWeight(c));
  }

  lemma MentionsPrefix(rows: seq<Row>, n: nat, c: Code)
    requires n <= |rows| && Mentions(rows[..n], c)
    ensures Mentions(rows, c)
  {
    var k :| 0 <= k < n && (rows[..n][k].origin == c || rows[..n][k].destination == c);
    assert rows[k] == rows[..n][k];
  }

  /** Looked up in the table, every airport has its volume, 0 when absent. */
  lemma GetVolumes(rows: seq<Row>, c: Code)
    ensures Get(Volumes(rows), c) == VolumeOf(rows, c)
  {
    if c !in Volumes(rows) {
      EndpointsMentions(rows);
      VolumeOfUnmentioned(rows, c);
    }
  }

  /** Row `i` adds its share to every airport's volume. */
  lemma VolumeOfStep(rows: seq<Row>, i: nat, c: Code)
    requires i < |rows|
    ensures VolumeOf(rows[..i + 1], c) == Get(Volumes(rows[..i]), c) + RowVolume(rows[i], c)
    ensures c in Volumes(rows[..i + 1]) ==>
              Volumes(rows[..i + 1])[c] == Get(Volumes(rows[..i]), c) + RowVolume(rows[i], c)
  {
    assert rows[..i + 1][..i] == rows[..i];
    GetVolumes(rows[..i], c);
  }

  /** Row `i` adds its two airports to the table's keys. */
  lemma VolumesKeysStep(rows: seq<Row>, i: nat)
    requires i < |rows|
    ensures Volumes(rows[..i + 1]).Keys == Volumes(rows[..i]).Keys + {rows[i].origin, rows[i].destination}
  {
    assert rows[..i + 1][..i] == rows[..i];
  }

  /** Row `i` adds its share to every entry of the table. */
  lemma VolumesValuesStep(rows: seq<Row>, i: nat)
    requires i < |rows|
    ensures forall c :: c in Volumes(rows[..i + 1]) ==>
              Volumes(rows[..i + 1])[c] == Get(Volumes(rows[..i]), c) + RowVolume(rows[i], c)
  {
    forall c | c in Volumes(rows[..i + 1])
      ensures Volumes(rows[..i + 1])[c] == Get(Volumes(rows[..i]), c) + RowVolume(rows[i], c)
    {
      VolumeOfStep(rows, i, c);
    }
  }

  /** A table that adds row `r`'s share to `m` is the one the two updates
      of the flights loop make. */
  lemma AddTwice(a: map<Code, nat>, m: map<Code, nat>, r: Row)
    requires a.Keys == m.Keys + {r.origin, r.destination}
    requires forall c :: c in a ==> a[c] == Get(m, c) + RowVolume(r, c)
    ensures var m' := m[r.origin := Get(m, r.origin) + r.count];
            a == m'[r.destination := Get(m', r.destination) + r.count]
  {
  }

  /** The table after row `i`, in terms of the table before it: the body of
      the flights loop. */
  lemma VolumeStep(rows: seq<Row>, i: nat)
    requires i < |rows|
    ensures var m := Volumes(rows[..i]);
            var r := rows[i];
            var m' := m[r.origin := Get(m, r.origin) + r.count];
            Volumes(rows[..i + 1]) == m'[r.destination := Get(m', r.destination) + r.count]
  {
    VolumesKeysStep(rows, i);
    VolumesValuesStep(rows, i);
    AddTwice(Volumes(rows[..i + 1]), Volumes(rows[..i]), rows[i]);
  }

  method BuildVolumes(rows: seq<Row>) returns (volumes: map<Code, nat>)
    ensures volumes == Volumes(rows)
    ensures forall c :: c in volumes <==> Mentions(rows, c)
    ensures forall c :: c in volumes ==> volumes[c] == VolumeOf(rows, c)
  {
    volumes := map[];
    var i := 0;
    while i < |rows|
      invariant 0 <= i <= |rows|
      invariant volumes == Volumes(rows[..i])
    {
      var flight := rows[i];
      VolumeStep(rows, i);
      volumes := volumes[flight.origin := Get(volumes, flight.origin) + flight.count];
      volumes := volumes[flight.destination := Get(volumes, flight.destination) + flight.count];
      i := i + 1;
    }
    assert rows[..i] == rows;
    EndpointsMentions(rows);
  }

  // ---------------------------------------------------------------------------
  // Properties of the table

  /** A self-loop row adds its count to its airport twice. */
  lemma VolumeOfSelfLoop(rows: seq<Row>, c: Code, n: nat)
    ensures VolumeOf(rows + [Row(c, c, n)], c) == VolumeOf(rows, c) + 2 * n
  {
    assert (rows + [Row(c, c, n)])[..|rows|] == rows;
  }

  /** The table does not depend on the order of the rows. */
  lemma VolumesOrderFree(a: seq<Row>, b: seq<Row>)
    requires multiset(a) == multiset(b)
    ensures Volumes(a) == Volumes(b)
  {
    EndpointsMentions(a);
    EndpointsMentions(b);
    forall c | Mentions(a, c) ensures Mentions(b, c) {
      var k :| 0 <= k < |a| && (a[k].origin == c || a[k].destination == c);
      assert a[k] in multiset(b);
      var m :| 0 <= m < |b| && b[m] == a[k];
    }
    forall c | Mentions(b, c) ensures Mentions(a, c) {
      var k :| 0 <= k < |b| && (b[k].origin == c || b[k].destination == c);
      assert b[k] in multiset(a);
      var m :| 0 <= m < |a| && a[m] == b[k];
    }
    forall c ensures VolumeOf(a, c) == VolumeOf(b, c) {
      SumByPermutation(a, b, RowWeight(c));
    }
  }

  function VolumeIn(rows: seq<Row>): Code -> nat
  {
    (c: Code) => VolumeOf(rows, c)
  }

  /** One row adds twice its count to the volumes of any list of distinct
      codes that holds both of its airports. */
  lemma RowShareTotal(keys: seq<Code>, r: Row)
    requires Distinct(keys) && r.origin in keys && r.destination in keys
    ensures SumBy(keys, (c: Code) => RowVolume(r, c)) == 2 * r.count
  {
    SumByAdd(keys, (c: Code) => RowVolume(r, c), (c: Code) => OriginCount(r, c), (c: Code) => DestinationCount(r, c));
    var o :| 0 <= o < |keys| && keys[o] == r.origin;
    var d :| 0 <= d < |keys| && keys[d] == r.destination;
    SumByOnly(keys, (c: Code) => OriginCount(r, c), o);
    SumByOnly(keys, (c: Code) => DestinationCount(r, c), d);
  }

  lemma {:induction false} VolumeTotal(rows: seq<Row>, keys: seq<Code>)
    requires Distinct(keys)
    requires forall c :: Mentions(rows, c) ==> c in keys
    ensures SumBy(keys, VolumeIn(rows)) == 2 * TotalCount(rows)
  {
    if rows == [] {
      SumByZero(keys, VolumeIn(rows));
    } else {
      var p, r := rows[..|rows| - 1], rows[|rows| - 1];
      forall c | Mentions(p, c) ensures c in keys {
        MentionsPrefix(rows, |rows| - 1, c);
      }
      VolumeTotal(p, keys);
      assert Mentions(rows, r.origin) && Mentions(rows, r.destination);
      RowShareTotal(keys, r);
      SumByAdd(keys, VolumeIn(rows), VolumeIn(p), (c: Code) => RowVolume(r, c));
    }
  }

  /** Summed over its keys, each taken once in any order, the table holds
      twice the total count: every flight counts at both of its airports. */
  lemma VolumesSum(rows: seq<Row>, keys: seq<Code>)
    requires Distinct(keys)
    requires forall c :: c in keys <==> c in Volumes(rows)
    ensures SumBy(keys, (c: Code) => Get(Volumes(rows), c)) == 2 * TotalCount(rows)
  {
    EndpointsMentions(rows);
    VolumeTotal(rows, keys);
    SumByExt(keys, (c: Code) => Get(Volumes(rows), c), VolumeIn(rows));
  }

  /** Against the force layout: an airport's map volume is its node value
      plus its self-loop flights, which the node value counts only once. */
  lemma {:induction false} VolumeAgainstNodeValue(rows: seq<Row>, c: Code)
    ensures VolumeOf(rows, c) == NodeValue(LinksOf(rows), c) + SumBy(LinksOf(rows), SelfLoopWeight(c))
  {
    if rows != [] {
      var p, r := rows[..|rows| - 1], rows[|rows| - 1];
      VolumeAgainstNodeValue(p, c);
      var links := LinksOf(rows);
      assert links[..|links| - 1] == LinksOf(p);
    }
  }

  // ---------------------------------------------------------------------------
  // Marker colour tiers

  datatype Tier = Red | Orange | Blue

  /** The fill colour chosen for a marker of the given volume. */
  function TierOf(volume: nat): (t: Tier)
    ensures t == Red <==> volume > 100000
    ensures t == Orange <==> 50000 < volume <= 100000
    ensures t == Blue <==> volume <= 50000
  {
    if volume > 100000 then Red
    else if volume > 50000 then Orange
    else Blue
  }

  function Colour(t: Tier): string
  {
    match t
    case Red => "#e74c3c"
    case Orange => "#f39c12"
    case Blue => "#3498db"
  }

  function Rank(t: Tier): nat
  {
    match t
    case Blue => 0
    case Orange => 1
    case Red => 2
  }

  /** More volume never gives a lower tier. */
  lemma TierMonotone(v: nat, w: nat)
    requires v <= w
    ensures Rank(TierOf(v)) <= Rank(TierOf(w))
  {
  }

  /** The colour of the marker for airport `code`, when the table has it
      (the source draws no marker for an airport without a volume). */
  function MarkerColour(volumes: map<Code, nat>, code: Code): (colour: Option<string>)
    ensures colour.None? <==> code !in volumes
    ensures code in volumes ==> colour == Some(Colour(TierOf(volumes[code])))
  {
    if code in volumes then Some(Colour(TierOf(volumes[code]))) else None
  }

  /** Built from the rows, the table gives a marker a colour exactly when
      some row mentions the airport, and that colour is the tier of the
      airport's volume. */
  lemma MarkerColourOfRows(rows: seq<Row>, c: Code)
    ensures MarkerColour(Volumes(rows), c).Some? <==> Mentions(rows, c)
    ensures Mentions(rows, c) ==> MarkerColour(Volumes(rows), c) == Some(Colour(TierOf(VolumeOf(rows, c))))
  {
    EndpointsMentions(rows);
  }
}
