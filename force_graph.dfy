/** The graph builder of the force layout: one link per flight row, one node
    per distinct airport code in first-seen order, and each node's traffic as
    the total count of the links that touch it. */
module ForceGraph {
  import opened Flights
  import opened Sums

  /** The link the row loop pushes for a row. */
  function LinkOf(r: Row): Link
  {
    Link(r.origin, r.destination, r.count)
  }

  /** The links of all rows, in row order. */
  function LinksOf(rows: seq<Row>): seq<Link>
  {
    if rows == [] then [] else LinksOf(rows[..|rows| - 1]) + [LinkOf(rows[|rows| - 1])]
  }

  lemma {:induction false} LinksOfRows(rows: seq<Row>)
    ensures |LinksOf(rows)| == |rows|
    ensures forall k :: 0 <= k < |rows| ==> LinksOf(rows)[k] == Link(rows[k].origin, rows[k].destination, rows[k].count)
  {
    if rows != [] {
      var prefix := rows[..|rows| - 1];
      LinksOfRows(prefix);
      forall k | 0 <= k < |prefix| ensures rows[k] == prefix[k] { }
    }
  }

  function Ids(nodes: seq<Node>): (ids: seq<Code>)
    ensures |ids| == |nodes|
    ensures forall k :: 0 <= k < |nodes| ==> ids[k] == nodes[k].id
  {
    seq(|nodes|, k requires 0 <= k < |nodes| => nodes[k].id)
  }

  // ---------------------------------------------------------------------------
  // Distinct codes in first-seen order

  /** `p` extended with `c` unless `c` is already there: one `nodeSet.has` test. */
  function AddIfNew(p: seq<Code>, c: Code): seq<Code>
  {
    if c in p then p else p + [c]
  }

  /** The distinct codes of `s`, each where it first occurs. */
  function FirstSeen(s: seq<Code>): seq<Code>
  {
    if s == [] then [] else AddIfNew(FirstSeen(s[..|s| - 1]), s[|s| - 1])
  }

  lemma FirstSeenSnoc(s: seq<Code>, c: Code)
    ensures FirstSeen(s + [c]) == AddIfNew(FirstSeen(s), c)
  {
    assert (s + [c])[..|s|] == s;
  }

  /** The position of the first occurrence of `c` in `s`. */
  function FirstIndex(s: seq<Code>, c: Code): (i: nat)
    requires c in s
    ensures i < |s| && s[i] == c && c !in s[..i]
  {
    if s[0] == c then 0
    else
      var i := 1 + FirstIndex(s[1..], c);
      assert s[..i] == [s[0]] + s[1..][..i - 1];
      i
  }

  /** All of `d` occurs in `s`, and `d` lists its codes in the order of their
      first occurrence in `s`. */
  predicate InFirstSeenOrder(s: seq<Code>, d: seq<Code>)
  {
    && (forall k :: 0 <= k < |d| ==> d[k] in s)
    && (forall i, j :: 0 <= i < j < |d| ==> FirstIndex(s, d[i]) < FirstIndex(s, d[j]))
  }

  lemma {:induction false} FirstIndexSnoc(s: seq<Code>, c: Code, x: Code)
    requires c in s
    ensures c in s + [x] && FirstIndex(s + [x], c) == FirstIndex(s, c)
  {
    if s[0] != c {
      assert (s + [x])[1..] == s[1..] + [x];
      FirstIndexSnoc(s[1..], c, x);
    }
  }

  /** Every code of `s` is in `FirstSeen(s)` exactly once, nothing else is,
      and the order is that of first occurrence. */
  lemma {:induction false} FirstSeenSpec(s: seq<Code>)
    ensures forall c :: c in FirstSeen(s) <==> c in s
    ensures Distinct(FirstSeen(s))
    ensures InFirstSeenOrder(s, FirstSeen(s))
  {
    if s != [] {
      var s', x := s[..|s| - 1], s[|s| - 1];
      assert s == s' + [x];
      FirstSeenSpec(s');
      var p := FirstSeen(s');
      forall c | c in p ensures c in s && FirstIndex(s, c) == FirstIndex(s', c) {
        FirstIndexSnoc(s', c, x);
      }
      if x !in p {
        assert FirstIndex(s, x) == |s'| by {
          assert x !in s';
          assert s[..|s'|] == s';
        }
      }
    }
  }

  /** Two lists of the same codes, both in first-seen order, start alike. */
  lemma FirstSeenOrderHead(s: seq<Code>, a: seq<Code>, b: seq<Code>)
    requires a != [] && b != []
    requires forall c :: c in a <==> c in b
    requires InFirstSeenOrder(s, a) && InFirstSeenOrder(s, b)
    ensures a[0] == b[0]
  {
    var x, y := a[0], b[0];
    assert x in b && y in a;
    var i :| 0 <= i < |a| && a[i] == y;
    var j :| 0 <= j < |b| && b[j] == x;
  }

  /** Dropping a shared first element from two duplicate-free lists of the
      same codes leaves two lists of the same codes. */
  lemma TailsSameCodes(a: seq<Code>, b: seq<Code>)
    requires a != [] && b != [] && a[0] == b[0]
    requires Distinct(a) && Distinct(b)
    requires forall c :: c in a <==> c in b
    ensures forall c :: c in a[1..] <==> c in b[1..]
  {
    forall c | c in a[1..] ensures c in b[1..] {
      var k :| 1 <= k < |a| && a[k] == c;
      assert c in a;
      var m :| 0 <= m < |b| && b[m] == c;
      assert m != 0;
      assert b[1..][m - 1] == c;
    }
    forall c | c in b[1..] ensures c in a[1..] {
      var k :| 1 <= k < |b| && b[k] == c;
      assert c in b;
      var m :| 0 <= m < |a| && a[m] == c;
      assert m != 0;
      assert a[1..][m - 1] == c;
    }
  }

  /** The tail of a duplicate-free list in first-seen order is one too. */
  lemma TailInFirstSeenOrder(s: seq<Code>, a: seq<Code>)
    requires a != [] && Distinct(a) && InFirstSeenOrder(s, a)
    ensures Distinct(a[1..]) && InFirstSeenOrder(s, a[1..])
  {
    var t := a[1..];
    forall i, j | 0 <= i < j < |t| ensures t[i] != t[j] && FirstIndex(s, t[i]) < FirstIndex(s, t[j]) {
      assert t[i] == a[i + 1] && t[j] == a[j + 1];
    }
    forall k | 0 <= k < |t| ensures t[k] in s {
      assert t[k] == a[k + 1];
    }
  }

  /** Ordered by first occurrence, two duplicate-free lists of the same codes
      are the same list. */
  lemma {:induction false} FirstSeenOrderUnique(s: seq<Code>, a: seq<Code>, b: seq<Code>)
    requires Distinct(a) && Distinct(b)
    requires forall c :: c in a <==> c in b
    requires InFirstSeenOrder(s, a) && InFirstSeenOrder(s, b)
    ensures a == b
  {
    if a == [] {
      assert forall k :: 0 <= k < |b| ==> b[k] !in a;
    } else {
      assert b != [] by {
        assert a[0] in b;
      }
      FirstSeenOrderHead(s, a, b);
      TailsSameCodes(a, b);
      TailInFirstSeenOrder(s, a);
      TailInFirstSeenOrder(s, b);
      FirstSeenOrderUnique(s, a[1..], b[1..]);
      assert a == [a[0]] + a[1..] && b == [b[0]] + b[1..];
    }
  }

  /** The three properties of `FirstSeenSpec` determine `FirstSeen(s)`. */
  lemma FirstSeenUnique(s: seq<Code>, d: seq<Code>)
    requires Distinct(d)
    requires forall c :: c in d <==> c in s
    requires InFirstSeenOrder(s, d)
    ensures d == FirstSeen(s)
  {
    FirstSeenSpec(s);
    FirstSeenOrderUnique(s, d, FirstSeen(s));
  }

  // ---------------------------------------------------------------------------
  // Node traffic

  /** A link's share of the traffic of airport `id`: its value when `id` is
      its source or its target (a self-loop counts once). */
  function TouchWeight(id: Code): Link -> nat
  {
    (l: Link) => if l.source == id || l.target == id then l.value else 0
  }

  function OutWeight(id: Code): Link -> nat
  {
    (l: Link) => if l.source == id then l.value else 0
  }

  function InWeight(id: Code): Link -> nat
  {
    (l: Link) => if l.target == id then l.value else 0
  }

  function SelfLoopWeight(id: Code): Link -> nat
  {
    (l: Link) => if l.source == id && l.target == id then l.value else 0
  }

  /** `links.reduce((a, l) => l.source === id || l.target === id ? a + l.value : a, 0)` */
  function NodeValue(links: seq<Link>, id: Code): nat
  {
    SumBy(links, TouchWeight(id))
  }

  /** Traffic is outgoing plus incoming, less the self-loops that both count. */
  lemma NodeValueInOut(links: seq<Link>, id: Code)
    ensures NodeValue(links, id) + SumBy(links, SelfLoopWeight(id))
         == SumBy(links, OutWeight(id)) + SumBy(links, InWeight(id))
  {
    SumByBalance(links, TouchWeight(id), SelfLoopWeight(id), OutWeight(id), InWeight(id));
  }

  /** A self-loop row adds its count to its airport once (not twice). */
  lemma NodeValueSelfLoop(links: seq<Link>, id: Code, v: nat)
    ensures NodeValue(links + [Link(id, id, v)], id) == NodeValue(links, id) + v
  {
    assert (links + [Link(id, id, v)])[..|links|] == links;
  }

  /** A node's traffic does not depend on the order of the links. */
  lemma NodeValueOrderFree(a: seq<Link>, b: seq<Link>, id: Code)
    requires multiset(a) == multiset(b)
    ensures NodeValue(a, id) == NodeValue(b, id)
  {
    SumByPermutation(a, b, TouchWeight(id));
  }

  // ---------------------------------------------------------------------------
  // The row loop and the value loop of forceLayout

  lemma IdsSnoc(nodes: seq<Node>, n: Node)
    ensures Ids(nodes + [n]) == Ids(nodes) + [n.id]
  {
  }

  /** What the row loop's body adds for row `i`, in terms of the prefix before it. */
  lemma RowStep(rows: seq<Row>, i: nat)
    requires i < |rows|
    ensures LinksOf(rows[..i + 1]) == LinksOf(rows[..i]) + [LinkOf(rows[i])]
    ensures FirstSeen(Endpoints(rows[..i + 1]))
         == AddIfNew(AddIfNew(FirstSeen(Endpoints(rows[..i])), rows[i].origin), rows[i].destination)
  {
    var e := Endpoints(rows[..i]);
    assert rows[..i + 1][..i] == rows[..i];
    assert Endpoints(rows[..i + 1]) == e + [rows[i].origin] + [rows[i].destination];
    FirstSeenSnoc(e, rows[i].origin);
    FirstSeenSnoc(e + [rows[i].origin], rows[i].destination);
  }

  method BuildGraph(rows: seq<Row>) returns (nodes: seq<Node>, links: seq<Link>)
    ensures links == LinksOf(rows)
    ensures |links| == |rows|
    ensures forall k :: 0 <= k < |rows| ==> links[k] == Link(rows[k].origin, rows[k].destination, rows[k].count)
    ensures Ids(nodes) == FirstSeen(Endpoints(rows))
    ensures Distinct(Ids(nodes))
    ensures forall c :: c in Ids(nodes) <==> Mentions(rows, c)
    ensures forall k :: 0 <= k < |nodes| ==> nodes[k].value == NodeValue(links, nodes[k].id)
  {
    nodes, links := [], [];
    var nodeSet: set<Code> := {};
    var i := 0;
    while i < |rows|
      invariant 0 <= i <= |rows|
      invariant links == LinksOf(rows[..i])
      invariant Ids(nodes) == FirstSeen(Endpoints(rows[..i]))
      invariant forall c :: c in nodeSet <==> c in Ids(nodes)
    {
      var row := rows[i];
      RowStep(rows, i);
      links := links + [LinkOf(row)];
      if row.origin !in nodeSet {
        IdsSnoc(nodes, Node(row.origin, 0));
        nodes := nodes + [Node(row.origin, 0)];
        nodeSet := nodeSet + {row.origin};
      }
      if row.destination !in nodeSet {
        IdsSnoc(nodes, Node(row.destination, 0));
        nodes := nodes + [Node(row.destination, 0)];
        nodeSet := nodeSet + {row.destination};
      }
      i := i + 1;
    }
    assert rows[..i] == rows;

    ghost var ids := Ids(nodes);
    var j := 0;
    while j < |nodes|
      invariant 0 <= j <= |nodes|
      invariant Ids(nodes) == ids
      invariant forall k :: 0 <= k < j ==> nodes[k].value == NodeValue(links, nodes[k].id)
    {
      var n := nodes[j];
      nodes := nodes[j := n.(value := NodeValue(links, n.id))];
      assert Ids(nodes) == ids;
      j := j + 1;
    }

    LinksOfRows(rows);
    FirstSeenSpec(Endpoints(rows));
    EndpointsMentions(rows);
  }
}
