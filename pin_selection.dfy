/** The pin/unpin selection of the force layout. `selectedNode` is either no
    node or one node; clicking a node toggles or replaces the selection and
    fixes the node where it stands (`fx`/`fy`), clicking the background clears
    it. A node is identified by its index in `nodes`; the positions `x`/`y` the
    simulation gives a node, and whether a drag is in progress, are inputs. */
module PinSelection {
  import opened Flights

  /** The selected node and the fixed coordinates `fx`/`fy` of every node
      (`None` for `null`). */
  datatype PinState = PinState(selected: Option<nat>, fx: seq<Option<real>>, fy: seq<Option<real>>)

  predicate WellFormed(s: PinState)
  {
    |s.fx| == |s.fy| && (s.selected.Some? ==> s.selected.value < |s.fx|)
  }

  /** A node is pinned exactly when it is the selected node. */
  predicate OnlySelectedPinned(s: PinState)
  {
    && WellFormed(s)
    && (forall i :: 0 <= i < |s.fx| ==> (s.fx[i].Some? <==> s.selected == Some(i)))
    && (forall i :: 0 <= i < |s.fy| ==> (s.fy[i].Some? <==> s.selected == Some(i)))
  }

  /** No node selected, no node pinned. */
  function Initial(nodeCount: nat): PinState
  {
    PinState(None, seq(nodeCount, _ => None), seq(nodeCount, _ => None))
  }

  /** `n.fx = null; n.fy = null;` */
  function Unpin(s: PinState, n: nat): PinState
    requires WellFormed(s) && n < |s.fx|
  {
    s.(fx := s.fx[n := None], fy := s.fy[n := None])
  }

  /** The click handler of node `d`, which stands at (`x`, `y`). */
  function NodeClicked(s: PinState, d: nat, x: real, y: real): (r: PinState)
    requires WellFormed(s) && d < |s.fx|
    ensures WellFormed(r) && |r.fx| == |s.fx|
  {
    if s.selected == Some(d) then
      Unpin(s, d).(selected := None)
    else
      var s' := if s.selected.Some? then Unpin(s, s.selected.value) else s;
      PinState(Some(d), s'.fx[d := Some(x)], s'.fy[d := Some(y)])
  }

  /** The click handler of the background. */
  function BackgroundClicked(s: PinState, dragging: bool): (r: PinState)
    requires WellFormed(s)
    ensures WellFormed(r) && |r.fx| == |s.fx|
  {
    if s.selected.Some? && !dragging then Unpin(s, s.selected.value).(selected := None) else s
  }

  // ---------------------------------------------------------------------------
  // Transitions

  /** Clicking the selected node deselects it and frees it; no other node
      changes. */
  lemma ClickSelectedUnpins(s: PinState, d: nat, x: real, y: real)
    requires WellFormed(s) && d < |s.fx| && s.selected == Some(d)
    ensures var r := NodeClicked(s, d, x, y);
      && r.selected == None
      && r.fx[d] == None && r.fy[d] == None
      && |r.fx| == |s.fx| && |r.fy| == |s.fy|
      && (forall i :: 0 <= i < |s.fx| && i != d ==> r.fx[i] == s.fx[i] && r.fy[i] == s.fy[i])
  {
  }

  /** Clicking another node frees the previously selected node, pins the
      clicked one where it stands and makes it the selected node; no other
      node changes. */
  lemma ClickOtherSelects(s: PinState, d: nat, x: real, y: real)
    requires WellFormed(s) && d < |s.fx| && s.selected != Some(d)
    ensures var r := NodeClicked(s, d, x, y);
      && r.selected == Some(d)
      && r.fx[d] == Some(x) && r.fy[d] == Some(y)
      && |r.fx| == |s.fx| && |r.fy| == |s.fy|
      && (s.selected.Some? ==> r.fx[s.selected.value] == None && r.fy[s.selected.value] == None)
      && (forall i :: 0 <= i < |s.fx| && i != d && Some(i) != s.selected ==> r.fx[i] == s.fx[i] && r.fy[i] == s.fy[i])
  {
  }

  /** A background click during a drag changes nothing. */
  lemma ClickBackgroundWhileDragging(s: PinState)
    requires WellFormed(s)
    ensures BackgroundClicked(s, true) == s
  {
  }

  /** A background click outside a drag leaves nothing selected and, when
      only the selected node was pinned, nothing pinned. */
  lemma ClickBackgroundClears(s: PinState)
    requires OnlySelectedPinned(s)
    ensures BackgroundClicked(s, false) == Initial(|s.fx|)
  {
    var r := BackgroundClicked(s, false);
    assert r.fx == Initial(|s.fx|).fx;
    assert r.fy == Initial(|s.fx|).fy;
  }

  /** Clicking the selected node has the effect of a background click. */
  lemma ClickSelectedIsClickBackground(s: PinState, d: nat, x: real, y: real)
    requires WellFormed(s) && d < |s.fx| && s.selected == Some(d)
    ensures NodeClicked(s, d, x, y) == BackgroundClicked(s, false)
  {
  }

  // ---------------------------------------------------------------------------
  // The invariant

  lemma InitialOnlySelectedPinned(nodeCount: nat)
    ensures OnlySelectedPinned(Initial(nodeCount))
  {
  }

  lemma ClickNodePreserves(s: PinState, d: nat, x: real, y: real)
    requires OnlySelectedPinned(s) && d < |s.fx|
    ensures OnlySelectedPinned(NodeClicked(s, d, x, y))
  {
  }

  lemma ClickBackgroundPreserves(s: PinState, dragging: bool)
    requires OnlySelectedPinned(s)
    ensures OnlySelectedPinned(BackgroundClicked(s, dragging))
  {
  }

  /** With nothing selected, clicking a node twice is a round trip. */
  lemma ClickTwiceRestores(s: PinState, d: nat, x: real, y: real, x': real, y': real)
    requires OnlySelectedPinned(s) && d < |s.fx| && s.selected == None
    ensures NodeClicked(NodeClicked(s, d, x, y), d, x', y') == s
  {
    var r := NodeClicked(NodeClicked(s, d, x, y), d, x', y');
    assert r.fx == s.fx;
    assert r.fy == s.fy;
  }

  // ---------------------------------------------------------------------------
  // The handlers over the `selectedNode` variable and the nodes' fields

  class Session {
    var selectedNode: Option<nat>
    var fx: seq<Option<real>>
    var fy: seq<Option<real>>

    function State(): PinState
      reads this
    {
      PinState(selectedNode, fx, fy)
    }

    ghost predicate Valid()
      reads this
    {
      OnlySelectedPinned(State())
    }

    /** `let selectedNode = null;` over nodes that nothing has pinned yet. */
    constructor (nodeCount: nat)
      ensures Valid() && State() == Initial(nodeCount)
    {
      selectedNode := None;
      fx := seq(nodeCount, _ => None);
      fy := seq(nodeCount, _ => None);
    }

    method ClickNode(d: nat, x: real, y: real)
      requires Valid() && d < |fx|
      modifies this
      ensures Valid()
      ensures State() == NodeClicked(old(State()), d, x, y)
    {
      ClickNodePreserves(State(), d, x, y);
      if selectedNode == Some(d) {
        fx := fx[d := None];
        fy := fy[d := None];
        selectedNode := None;
      } else {
        if selectedNode.Some? {
          var previous := selectedNode.value;
          fx := fx[previous := None];
          fy := fy[previous := None];
        }
        fx := fx[d := Some(x)];
        fy := fy[d := Some(y)];
        selectedNode := Some(d);
      }
    }

    method ClickBackground(dragging: bool)
      requires Valid()
      modifies this
      ensures Valid()
      ensures State() == BackgroundClicked(old(State()), dragging)
    {
      ClickBackgroundPreserves(State(), dragging);
      if selectedNode.Some? && !dragging {
        var previous := selectedNode.value;
        fx := fx[previous := None];
        fy := fy[previous := None];
        selectedNode := None;
      }
    }
  }
}
