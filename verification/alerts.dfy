/** The alert container: `setAlert`, `createAlertsContainer` and `resetAlertState`. */
module Alerts {
  import opened Wrappers
  import opened Seqs
  import opened Dom

  /** An empty box has no alerts, and a stretch without boxes has none either. */
  lemma {:induction false} NoBoxesNoAlerts(nodes: seq<Node>)
    requires Boxes(nodes) == []
    ensures AllAlerts(nodes) == []
  {
    if nodes != [] {
      assert nodes == [nodes[0]] + nodes[1..];
      FilterConcat([nodes[0]], nodes[1..], IsBox);
      NoBoxesNoAlerts(nodes[1..]);
    }
  }

  /** A form has an alert container exactly when its list of containers is not empty. */
  lemma {:induction false} FindAlertBoxFindsBoxes(nodes: seq<Node>)
    ensures FindAlertBox(nodes).None? <==> Boxes(nodes) == []
  {
    match FindAlertBox(nodes)
    case None =>
      FilterNone(nodes, IsBox);
    case Some(i) =>
      FilterSplit(nodes, i, IsBox);
      FilterSingle(nodes[i], IsBox);
  }

  /** Replacing the first container by another container keeps it the first. */
  lemma {:induction false} FindAlertBoxUpdate(nodes: seq<Node>, i: nat, x: Node)
    requires FindAlertBox(nodes) == Some(i) && x.AlertBox?
    ensures FindAlertBox(nodes[i := x]) == Some(i)
  {
    var r := nodes[i := x];
    assert r[i].AlertBox?;
  }

  /** `createAlertsContainer`: a new, empty container inserted as the form's first child;
      the next lookup of a container finds it. */
  function CreateAlertsContainer(nodes: seq<Node>): (r: seq<Node>)
    ensures FindAlertBox(r) == Some(0) && r[0].alerts == []
    ensures r[1..] == nodes
  {
    [AlertBox([])] + nodes
  }

  /** `setAlert(kind, text)`: the alert is appended to the first existing container, or to a
      container created at the top of the form when there is none. Nothing but containers
      changes, exactly one alert is added, and no second container is ever created. */
  function SetAlert(nodes: seq<Node>, kind: string, text: string): (r: seq<Node>)
    ensures Content(r) == Content(nodes)
    ensures |Boxes(r)| == if Boxes(nodes) == [] then 1 else |Boxes(nodes)|
    ensures |AllAlerts(r)| == |AllAlerts(nodes)| + 1
    ensures AtMostOneBox(nodes) ==> AllAlerts(r) == AllAlerts(nodes) + [Alert(kind, text)]
    ensures FindAlertBox(nodes).None? ==> r[0] == AlertBox([Alert(kind, text)]) && r[1..] == nodes
    ensures FindAlertBox(nodes).Some? ==>
      var i := FindAlertBox(nodes).value;
      && FindAlertBox(r) == Some(i)
      && r[i].alerts == nodes[i].alerts + [Alert(kind, text)]
      && |r| == |nodes|
      && forall j :: 0 <= j < |r| && j != i ==> r[j] == nodes[j]
  {
    var boxed := if FindAlertBox(nodes).Some? then nodes else CreateAlertsContainer(nodes);
    var i := FindAlertBox(boxed).value;
    var alert := Alert(kind, text);
    var r := boxed[i := AlertBox(boxed[i].alerts + [alert])];
    SetAlertProjections(nodes, boxed, i, alert);
    FindAlertBoxUpdate(boxed, i, AlertBox(boxed[i].alerts + [alert]));
    r
  }

  /** The projection facts behind `SetAlert`'s contract. */
  lemma {:induction false} SetAlertProjections(nodes: seq<Node>, boxed: seq<Node>, i: nat, alert: Alert)
    requires boxed == if FindAlertBox(nodes).Some? then nodes else CreateAlertsContainer(nodes)
    requires FindAlertBox(boxed) == Some(i)
    ensures var r := boxed[i := AlertBox(boxed[i].alerts + [alert])];
      && Content(r) == Content(nodes)
      && |Boxes(r)| == (if Boxes(nodes) == [] then 1 else |Boxes(nodes)|)
      && |AllAlerts(r)| == |AllAlerts(nodes)| + 1
      && (AtMostOneBox(nodes) ==> AllAlerts(r) == AllAlerts(nodes) + [alert])
  {
    FindAlertBoxFindsBoxes(nodes);
    if FindAlertBox(nodes).Some? {
      ReuseBoxProjections(nodes, i, alert);
    } else {
      assert i == 0 && boxed[0].alerts == [] && boxed[1..] == nodes;
      assert [] + [alert] == [alert];
      var r := boxed[0 := AlertBox([alert])];
      assert r[0] == AlertBox([alert]) && r[1..] == nodes;
      assert r == [AlertBox([alert])] + nodes;
      NewBoxProjections(nodes, alert);
    }
  }

  /** Appending to the first existing container, by induction on its position. */
  lemma {:induction false} ReuseBoxProjections(nodes: seq<Node>, i: nat, alert: Alert)
    requires FindAlertBox(nodes) == Some(i)
    ensures var r := nodes[i := AlertBox(nodes[i].alerts + [alert])];
      && Content(r) == Content(nodes)
      && |Boxes(r)| == |Boxes(nodes)|
      && |AllAlerts(r)| == |AllAlerts(nodes)| + 1
      && (AtMostOneBox(nodes) ==> AllAlerts(r) == AllAlerts(nodes) + [alert])
    decreases i
  {
    var x := AlertBox(nodes[i].alerts + [alert]);
    var r := nodes[i := x];
    var rest := nodes[1..];
    if i == 0 {
      assert r[0] == x && r[1..] == rest;
      if AtMostOneBox(nodes) {
        assert Boxes(rest) == [];
        NoBoxesNoAlerts(rest);
      }
    } else {
      assert !nodes[0].AlertBox? && r[0] == nodes[0];
      assert FindAlertBox(rest) == Some(i - 1);
      assert r[1..] == rest[i - 1 := x];
      ReuseBoxProjections(rest, i - 1, alert);
      assert Boxes(nodes) == Boxes(rest) && Boxes(r) == Boxes(r[1..]);
    }
  }

  /** Creating the container at the top of a form that has none. */
  lemma {:induction false} NewBoxProjections(nodes: seq<Node>, alert: Alert)
    requires FindAlertBox(nodes).None?
    ensures var r := [AlertBox([alert])] + nodes;
      && Content(r) == Content(nodes)
      && |Boxes(r)| == 1 && Boxes(nodes) == []
      && AllAlerts(r) == AllAlerts(nodes) + [alert]
  {
    var x := AlertBox([alert]);
    FindAlertBoxFindsBoxes(nodes);
    NoBoxesNoAlerts(nodes);
    FilterConcat([x], nodes, IsBox);
    FilterConcat([x], nodes, NotBox);
    FilterSingle(x, IsBox);
    FilterSingle(x, NotBox);
    AllAlertsConcat([x], nodes);
    AllAlertsSingle(x);
  }

  /** `resetAlertState`: the first container, with all its alerts, is removed; the rest of the
      form, later containers included, is untouched, and a form without a container is left
      as it is. */
  function ResetAlertState(nodes: seq<Node>): (r: seq<Node>)
    ensures Content(r) == Content(nodes)
    ensures Boxes(r) == if Boxes(nodes) == [] then [] else Boxes(nodes)[1..]
    ensures |Boxes(r)| == if Boxes(nodes) == [] then 0 else |Boxes(nodes)| - 1
    ensures AtMostOneBox(nodes) ==> Boxes(r) == [] && AllAlerts(r) == []
    ensures FindAlertBox(nodes).None? ==> r == nodes
    ensures FindAlertBox(nodes).Some? ==>
      var i := FindAlertBox(nodes).value;
      |r| + 1 == |nodes| && r[..i] == nodes[..i] && r[i..] == nodes[i + 1..]
    ensures Notes(r) == Notes(nodes)
  {
    match FindAlertBox(nodes)
    case None =>
      FindAlertBoxFindsBoxes(nodes);
      NoBoxesNoAlerts(nodes);
      nodes
    case Some(i) =>
      RemoveBoxProjections(nodes, i);
      nodes[..i] + nodes[i + 1..]
  }

  /** The projection facts behind `ResetAlertState`'s contract. */
  lemma {:induction false} RemoveBoxProjections(nodes: seq<Node>, i: nat)
    requires FindAlertBox(nodes) == Some(i)
    ensures var r := nodes[..i] + nodes[i + 1..];
      && Content(r) == Content(nodes)
      && Notes(r) == Notes(nodes)
      && Boxes(nodes) != [] && Boxes(r) == Boxes(nodes)[1..]
      && |Boxes(r)| == |Boxes(nodes)| - 1
      && (AtMostOneBox(nodes) ==> Boxes(r) == [] && AllAlerts(r) == [])
    decreases i
  {
    var r := nodes[..i] + nodes[i + 1..];
    var rest := nodes[1..];
    if i == 0 {
      assert r == rest;
      if AtMostOneBox(nodes) {
        assert Boxes(rest) == [];
        NoBoxesNoAlerts(rest);
      }
    } else {
      assert !nodes[0].AlertBox?;
      assert FindAlertBox(rest) == Some(i - 1);
      RemoveBoxProjections(rest, i - 1);
      assert r[0] == nodes[0] && r[1..] == rest[..i - 1] + rest[i..];
      assert Boxes(nodes) == Boxes(rest) && Boxes(r) == Boxes(r[1..]);
    }
  }

}
