/** The summary statistics of the force layout: the nodes sorted by traffic,
    the fifteen "major airports" that get a label, the total number of
    flights and the busiest route of the info panel. */
module ForceStats {
  import opened Flights
  import opened Sums
  import opened ForceGraph

  // ---------------------------------------------------------------------------
  // Sorting by traffic

  /** `sorted` with `n` placed after every node whose value is at least
      `n.value`: one insertion step of a stable descending sort. */
  function InsertByValue(n: Node, sorted: seq<Node>): seq<Node>
  {
    if sorted == [] then [n]
    else if sorted[0].value >= n.value then [sorted[0]] + InsertByValue(n, sorted[1..])
    else [n] + sorted
  }

  /** `[...nodes].sort((a, b) => b.value - a.value)`. The comparator orders by
      descending value and `Array.prototype.sort` is stable, so nodes of equal
      value keep their order; a stable insertion sort has exactly that result. */
  function SortByValue(nodes: seq<Node>): seq<Node>
  {
    if nodes == [] then [] else InsertByValue(nodes[|nodes| - 1], SortByValue(nodes[..|nodes| - 1]))
  }

  predicate Descending(s: seq<Node>)
  {
    forall i, j :: 0 <= i < j < |s| ==> s[i].value >= s[j].value
  }

  /** The nodes of `s` whose value is `v`, in their order in `s`. */
  function WithValue(s: seq<Node>, v: nat): seq<Node>
  {
    if s == [] then [] else (if s[0].value == v then [s[0]] else []) + WithValue(s[1..], v)
  }

  lemma {:induction false} WithValueConcat(a: seq<Node>, b: seq<Node>, v: nat)
    ensures WithValue(a + b, v) == WithValue(a, v) + WithValue(b, v)
  {
    if a == [] {
      assert a + b == b;
    } else {
      var h := if a[0].value == v then [a[0]] else [];
      assert (a + b)[0] == a[0] && (a + b)[1..] == a[1..] + b;
      assert WithValue(a + b, v) == h + WithValue(a[1..] + b, v);
      WithValueConcat(a[1..], b, v);
      assert h + (WithValue(a[1..], v) + WithValue(b, v)) == (h + WithValue(a[1..], v)) + WithValue(b, v);
    }
  }

  lemma {:induction false} WithValueNone(s: seq<Node>, v: nat)
    requires forall k :: 0 <= k < |s| ==> s[k].value != v
    ensures WithValue(s, v) == []
  {
    if s != [] {
      WithValueNone(s[1..], v);
    }
  }

  lemma {:induction false} InsertByValuePermutation(n: Node, s: seq<Node>)
    ensures multiset(InsertByValue(n, s)) == multiset(s) + multiset{n}
  {
    if s != [] && s[0].value >= n.value {
      assert s == [s[0]] + s[1..];
      InsertByValuePermutation(n, s[1..]);
    }
  }

  /** A bound on every value of `s` and on `n` bounds every value after the
      insertion. */
  lemma {:induction false} InsertByValueBound(n: Node, s: seq<Node>, b: nat)
    requires n.value <= b && forall k :: 0 <= k < |s| ==> s[k].value <= b
    ensures forall k :: 0 <= k < |InsertByValue(n, s)| ==> InsertByValue(n, s)[k].value <= b
  {
    if s != [] && s[0].value >= n.value {
      InsertByValueBound(n, s[1..], b);
      var r' := InsertByValue(n, s[1..]);
      assert InsertByValue(n, s) == [s[0]] + r';
    }
  }

  lemma DescendingCons(x: Node, r: seq<Node>)
    requires Descending(r) && forall k :: 0 <= k < |r| ==> r[k].value <= x.value
    ensures Descending([x] + r)
  {
    var t := [x] + r;
    forall i, j | 0 <= i < j < |t| ensures t[i].value >= t[j].value {
      assert t[j] == r[j - 1];
      if i > 0 {
        assert t[i] == r[i - 1];
      }
    }
  }

  lemma {:induction false} InsertByValueSpec(n: Node, s: seq<Node>)
    requires Descending(s)
    ensures Descending(InsertByValue(n, s))
    ensures multiset(InsertByValue(n, s)) == multiset(s) + multiset{n}
  {
    InsertByValuePermutation(n, s);
    if s == [] {
    } else if s[0].value >= n.value {
      var s' := s[1..];
      assert Descending(s') by {
        forall i, j | 0 <= i < j < |s'| ensures s'[i].value >= s'[j].value {
          assert s'[i] == s[i + 1] && s'[j] == s[j + 1];
        }
      }
      InsertByValueSpec(n, s');
      forall k | 0 <= k < |s'| ensures s'[k].value <= s[0].value {
        assert s'[k] == s[k + 1];
      }
      InsertByValueBound(n, s', s[0].value);
      DescendingCons(s[0], InsertByValue(n, s'));
    } else {
      DescendingCons(n, s);
    }
  }

  /** Inserting `n` appends it to the nodes of its own value: it goes after
      all of its ties. */
  lemma {:induction false} InsertByValueStable(n: Node, s: seq<Node>, v: nat)
    requires Descending(s)
    ensures WithValue(InsertByValue(n, s), v) == WithValue(s, v) + WithValue([n], v)
  {
    assert [n][1..] == [];
    if s == [] {
    } else if s[0].value >= n.value {
      var s' := s[1..];
      InsertByValueStable(n, s', v);
      assert ([s[0]] + InsertByValue(n, s'))[1..] == InsertByValue(n, s');
    } else {
      assert ([n] + s)[1..] == s;
      if n.value == v {
        WithValueNone(s, v);
      }
    }
  }

  lemma DistinctIdsCons(x: Node, r: seq<Node>)
    requires Distinct(Ids(r)) && forall k :: 0 <= k < |r| ==> r[k].id != x.id
    ensures Distinct(Ids([x] + r))
  {
    var t := [x] + r;
    forall i, j | 0 <= i < j < |t| ensures Ids(t)[i] != Ids(t)[j] {
      assert t[j] == r[j - 1];
      if i > 0 {
        assert t[i] == r[i - 1];
        assert Ids(r)[i - 1] != Ids(r)[j - 1];
      }
    }
  }

  lemma {:induction false} InsertByValueDistinct(n: Node, s: seq<Node>)
    requires Distinct(Ids(s))
    requires forall k :: 0 <= k < |s| ==> s[k].id != n.id
    ensures Distinct(Ids(InsertByValue(n, s)))
  {
    if s != [] {
      var s' := s[1..];
      assert Distinct(Ids(s')) by {
        forall i, j | 0 <= i < j < |s'| ensures Ids(s')[i] != Ids(s')[j] {
          assert Ids(s)[i + 1] != Ids(s)[j + 1];
        }
      }
      forall k | 0 <= k < |s'| ensures s'[k].id != s[0].id && s'[k].id != n.id {
        assert Ids(s)[0] != Ids(s)[k + 1];
        assert s'[k] == s[k + 1];
      }
      if s[0].value >= n.value {
        InsertByValueDistinct(n, s');
        InsertByValuePermutation(n, s');
        var r' := InsertByValue(n, s');
        forall k | 0 <= k < |r'| ensures r'[k].id != s[0].id {
          assert r'[k] in multiset(s') + multiset{n};
          if r'[k] != n {
            var m :| 0 <= m < |s'| && s'[m] == r'[k];
          }
        }
        DistinctIdsCons(s[0], r');
      } else {
        DistinctIdsCons(n, s);
      }
    }
  }

  /** The sorted nodes are in descending order of value and are a
      permutation of the input. */
  lemma {:induction false} SortByValueSpec(nodes: seq<Node>)
    ensures Descending(SortByValue(nodes))
    ensures multiset(SortByValue(nodes)) == multiset(nodes)
    ensures |SortByValue(nodes)| == |nodes|
  {
    if nodes != [] {
      var prefix, last := nodes[..|nodes| - 1], nodes[|nodes| - 1];
      assert nodes == prefix + [last];
      SortByValueSpec(prefix);
      InsertByValueSpec(last, SortByValue(prefix));
      assert |multiset(SortByValue(nodes))| == |nodes|;
    }
  }

  /** Sorting is stable: the nodes of each value keep their input order. */
  lemma {:induction false} SortByValueStable(nodes: seq<Node>, v: nat)
    ensures WithValue(SortByValue(nodes), v) == WithValue(nodes, v)
  {
    if nodes != [] {
      var prefix, last := nodes[..|nodes| - 1], nodes[|nodes| - 1];
      assert nodes == prefix + [last];
      SortByValueSpec(prefix);
      SortByValueStable(prefix, v);
      InsertByValueStable(last, SortByValue(prefix), v);
      WithValueConcat(prefix, [last], v);
    }
  }

  lemma {:induction false} SortByValueDistinct(nodes: seq<Node>)
    requires Distinct(Ids(nodes))
    ensures Distinct(Ids(SortByValue(nodes)))
  {
    if nodes != [] {
      var prefix, last := nodes[..|nodes| - 1], nodes[|nodes| - 1];
      SortByValueSpec(prefix);
      SortByValueDistinct(prefix);
      var sorted := SortByValue(prefix);
      forall k | 0 <= k < |sorted| ensures sorted[k].id != last.id {
        assert sorted[k] in multiset(prefix);
        var m :| 0 <= m < |prefix| && prefix[m] == sorted[k];
        assert nodes[m] == prefix[m];
      }
      InsertByValueDistinct(last, sorted);
    }
  }

  // ---------------------------------------------------------------------------
  // Major airports

  const MajorCount: nat := 15

  /** `sortedNodes.slice(0, 15)`: the first fifteen sorted nodes, or all of
      them when there are fewer. */
  function TopByValue(nodes: seq<Node>): (top: seq<Node>)
    ensures |top| == Min(MajorCount, |nodes|)
  {
    SortByValueSpec(nodes);
    var sorted := SortByValue(nodes);
    if |sorted| <= MajorCount then sorted else sorted[..MajorCount]
  }

  /** The set of the ids of `s`. */
  function IdSet(s: seq<Node>): set<Code>
  {
    set k | 0 <= k < |s| :: s[k].id
  }

  /** `new Set(sortedNodes.slice(0, 15).map(n => n.id))` */
  function MajorAirports(nodes: seq<Node>): set<Code>
  {
    IdSet(TopByValue(nodes))
  }

  function Min(a: nat, b: nat): nat
  {
    if a <= b then a else b
  }

  /** The ids of `s` are those of all but its last node, plus the last's. */
  lemma IdSetSnoc(s: seq<Node>)
    requires s != []
    ensures IdSet(s) == IdSet(s[..|s| - 1]) + {s[|s| - 1].id}
  {
    var prefix := s[..|s| - 1];
    var ids, ids' := IdSet(s), IdSet(prefix);
    forall c | c in ids ensures c in ids' + {s[|s| - 1].id} {
      var k :| 0 <= k < |s| && s[k].id == c;
      if k < |prefix| {
        assert prefix[k].id == c;
      }
    }
    forall c | c in ids' ensures c in ids {
      var k :| 0 <= k < |prefix| && prefix[k].id == c;
      assert s[k].id == c;
    }
  }

  lemma {:induction false} IdSetCardinality(s: seq<Node>)
    requires Distinct(Ids(s))
    ensures |IdSet(s)| == |s|
  {
    if s != [] {
      var prefix := s[..|s| - 1];
      assert Distinct(Ids(prefix)) by {
        forall i, j | 0 <= i < j < |prefix| ensures prefix[i].id != prefix[j].id {
          assert prefix[i] == s[i] && prefix[j] == s[j];
        }
      }
      IdSetCardinality(prefix);
      IdSetSnoc(s);
      forall k | 0 <= k < |prefix| ensures prefix[k].id != s[|s| - 1].id {
        assert prefix[k] == s[k];
      }
    }
  }

  /** The labelled set holds min(15, |nodes|) airports. */
  lemma MajorAirportsSize(nodes: seq<Node>)
    requires Distinct(Ids(nodes))
    ensures |MajorAirports(nodes)| == Min(MajorCount, |nodes|)
  {
    SortByValueSpec(nodes);
    SortByValueDistinct(nodes);
    var top := TopByValue(nodes);
    assert Distinct(Ids(top));
    IdSetCardinality(top);
  }

  /** Every major airport has at least the traffic of every airport that is
      not major. */
  lemma MajorAirportsDominate(nodes: seq<Node>, i: nat, j: nat)
    requires Distinct(Ids(nodes))
    requires i < |nodes| && j < |nodes|
    requires nodes[i].id in MajorAirports(nodes) && nodes[j].id !in MajorAirports(nodes)
    ensures nodes[i].value >= nodes[j].value
  {
    SortByValueSpec(nodes);
    SortByValueDistinct(nodes);
    var sorted, top := SortByValue(nodes), TopByValue(nodes);
    assert forall k :: 0 <= k < |top| ==> top[k] == sorted[k];
    var a :| 0 <= a < |top| && top[a].id == nodes[i].id;
    assert nodes[i] in multiset(sorted);
    var a' :| 0 <= a' < |sorted| && sorted[a'] == nodes[i];
    assert a' == a;
    assert nodes[j] in multiset(sorted);
    var b :| 0 <= b < |sorted| && sorted[b] == nodes[j];
    if b < |top| {
      assert false;
    }
    assert sorted[a].value >= sorted[b].value;
  }

  /** With at most fifteen airports, every airport is major. */
  lemma MajorAirportsAll(nodes: seq<Node>)
    requires |nodes| <= MajorCount
    ensures MajorAirports(nodes) == IdSet(nodes)
  {
    SortByValueSpec(nodes);
    var sorted := SortByValue(nodes);
    forall c ensures c in MajorAirports(nodes) <==> exists k :: 0 <= k < |nodes| && nodes[k].id == c {
      if c in MajorAirports(nodes) {
        var k :| 0 <= k < |sorted| && sorted[k].id == c;
        assert sorted[k] in multiset(nodes);
      }
      if exists k :: 0 <= k < |nodes| && nodes[k].id == c {
        var k :| 0 <= k < |nodes| && nodes[k].id == c;
        assert nodes[k] in multiset(sorted);
      }
    }
  }

  // ---------------------------------------------------------------------------
  // Total flights and the busiest route

  function LinkValue(l: Link): nat
  {
    l.value
  }

  /** `links.reduce((sum, l) => sum + l.value, 0)` */
  function TotalFlights(links: seq<Link>): nat
  {
    SumBy(links, LinkValue)
  }

  /** The total over the links of some rows is the total count of the rows. */
  lemma {:induction false} TotalFlightsOfRows(rows: seq<Row>)
    ensures TotalFlights(LinksOf(rows)) == TotalCount(rows)
  {
    if rows != [] {
      var prefix := rows[..|rows| - 1];
      TotalFlightsOfRows(prefix);
      assert LinksOf(rows)[..|LinksOf(rows)| - 1] == LinksOf(prefix);
    }
  }

  /** No airport has more traffic than all flights together. */
  lemma NodeValueAtMostTotal(links: seq<Link>, id: Code)
    ensures NodeValue(links, id) <= TotalFlights(links)
  {
    SumByMonotone(links, TouchWeight(id), LinkValue);
  }

  /** The fold `(max, l) => l.value > max.value ? l : max` from position `i`
      on, with `best` the index of the running maximum. */
  function BusiestFrom(links: seq<Link>, i: nat, best: nat): (r: nat)
    requires best < |links| && best <= i <= |links|
    requires forall k :: 0 <= k < i ==> links[k].value <= links[best].value
    requires forall k :: 0 <= k < best ==> links[k].value < links[best].value
    ensures r < |links|
    ensures forall k :: 0 <= k < |links| ==> links[k].value <= links[r].value
    ensures forall k :: 0 <= k < r ==> links[k].value < links[r].value
    decreases |links| - i
  {
    if i == |links| then best
    else BusiestFrom(links, i + 1, if links[i].value > links[best].value then i else best)
  }

  /** `links.reduce((max, l) => l.value > max.value ? l : max, links[0])`.
      On no links the source's `maxRoute` is `undefined` (and the info panel
      then fails); here it is `None`. */
  function BusiestRoute(links: seq<Link>): (r: Option<Link>)
    ensures r.None? <==> links == []
    ensures r.Some? ==> exists i :: 0 <= i < |links| && links[i] == r.value
                          && (forall k :: 0 <= k < |links| ==> links[k].value <= r.value.value)
                          && (forall k :: 0 <= k < i ==> links[k].value < r.value.value)
  {
    if links == [] then None
    else
      var i := BusiestFrom(links, 0, 0);
      Some(links[i])
  }

  // ---------------------------------------------------------------------------
  // Examples

  /** Two rows, A to B with 100 flights and B to C with 50: a link per row
      and the airports A, B, C in that order. */
  lemma TwoRowExampleGraph()
    ensures var rows := [Row("A", "B", 100), Row("B", "C", 50)];
      && LinksOf(rows) == [Link("A", "B", 100), Link("B", "C", 50)]
      && FirstSeen(Endpoints(rows)) == ["A", "B", "C"]
  {
    var r1, r2 := Row("A", "B", 100), Row("B", "C", 50);
    var rows := [r1, r2];
    assert rows[..1] == [r1] && [r1][..0] == [];
    assert Endpoints([r1]) == ["A", "B"];
    assert Endpoints(rows) == ["A", "B", "B", "C"];
    FirstSeenOfExample();
  }

  /** The order in which the node loop meets the example's codes. */
  lemma FirstSeenOfExample()
    ensures FirstSeen(["A", "B", "B", "C"]) == ["A", "B", "C"]
  {
    var a: Code, b: Code, c: Code := "A", "B", "C";
    assert a != b && a != c && b != c;
    FirstSeenSnoc([], a);
    assert [] + [a] == [a];
    assert FirstSeen([a]) == [a];
    FirstSeenSnoc([a], b);
    assert FirstSeen([a, b]) == [a, b];
    FirstSeenSnoc([a, b], b);
    assert [a, b] + [b] == [a, b, b];
    assert FirstSeen([a, b, b]) == [a, b];
    FirstSeenSnoc([a, b, b], c);
    assert [a, b, b] + [c] == [a, b, b, c];
  }

  /** The same two links: traffic 100, 150 and 50, 150 flights in all, and
      A to B the busiest route. */
  lemma TwoRowExampleStats()
    ensures var links := [Link("A", "B", 100), Link("B", "C", 50)];
      && NodeValue(links, "A") == 100 && NodeValue(links, "B") == 150 && NodeValue(links, "C") == 50
      && TotalFlights(links) == 150
      && BusiestRoute(links) == Some(Link("A", "B", 100))
  {
    var l1, l2 := Link("A", "B", 100), Link("B", "C", 50);
    var links := [l1, l2];
    assert links[..1] == [l1] && [l1][..0] == [];
    assert SumBy([l1], TouchWeight("A")) == 100;
    assert SumBy([l1], TouchWeight("B")) == 100;
    assert SumBy([l1], TouchWeight("C")) == 0;
    assert SumBy([l1], LinkValue) == 100;
  }
}
