/** The records shared by the force layout and the map layout: a flight row
    of the flights CSV file, a directed link of the force graph, a graph node,
    and the set of airport codes a sequence of rows mentions. */
module Flights {
  import opened Sums

  /** An IATA airport code, such as "ATL". */
  type Code = string

  datatype Option<T> = None | Some(value: T)

  /** One row of the flights file; `count` is the already parsed `+row.count`. */
  datatype Row = Row(origin: Code, destination: Code, count: nat)

  /** A directed link of the force graph (`{source, target, value}`). */
  datatype Link = Link(source: Code, target: Code, value: nat)

  /** A graph node: an airport and its total traffic. */
  datatype Node = Node(id: Code, value: nat)

  function RowCount(r: Row): nat
  {
    r.count
  }

  /** The sum of the counts of all rows. */
  function TotalCount(rows: seq<Row>): nat
  {
    SumBy(rows, RowCount)
  }

  /** True when `c` is the origin or the destination of some row. */
  predicate Mentions(rows: seq<Row>, c: Code)
  {
    exists k :: 0 <= k < |rows| && (rows[k].origin == c || rows[k].destination == c)
  }

  predicate Distinct<T(==)>(s: seq<T>)
  {
    forall i, j :: 0 <= i < j < |s| ==> s[i] != s[j]
  }

  /** The codes of the rows in the order the row loop visits them:
      each row's origin, then its destination. */
  function Endpoints(rows: seq<Row>): seq<Code>
  {
    if rows == [] then []
    else Endpoints(rows[..|rows| - 1]) + [rows[|rows| - 1].origin, rows[|rows| - 1].destination]
  }

  lemma {:induction false} EndpointsMentions(rows: seq<Row>)
    ensures |Endpoints(rows)| == 2 * |rows|
    ensures forall c :: c in Endpoints(rows) <==> Mentions(rows, c)
  {
    if rows != [] {
      var prefix, last := rows[..|rows| - 1], rows[|rows| - 1];
      EndpointsMentions(prefix);
      forall c ensures c in Endpoints(rows) <==> Mentions(rows, c) {
        if Mentions(prefix, c) {
          var k :| 0 <= k < |prefix| && (prefix[k].origin == c || prefix[k].destination == c);
          assert rows[k] == prefix[k];
        }
        if Mentions(rows, c) {
          var k :| 0 <= k < |rows| && (rows[k].origin == c || rows[k].destination == c);
          if k < |prefix| {
            assert prefix[k] == rows[k];
          }
        }
      }
    }
  }
}
