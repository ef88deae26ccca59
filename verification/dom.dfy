/** An abstract form: the DOM subtree a controller owns, reduced to what the controller
    reads and writes. */
module Dom {
  import opened Wrappers
  import opened Seqs

  /** One alert inside the alert container: its type (`alert--<kind>`) and its text. */
  datatype Alert = Alert(kind: string, text: string)

  /** A descendant of the form, listed in document order.
      - `Element`: an element that can carry a `name` attribute and the `data-state="invalid"`
        marker; `control` says whether it is an `input`, `select` or `textarea`.
      - `ErrorNote`: a `p.postform__error` paragraph with its text.
      - `AlertBox`: a `.postform__alerts` container with the alerts it holds.
      - `Other`: any other node (text, labels, wrappers), which the controller never touches. */
  datatype Node =
    | Element(control: bool, name: Option<string>, invalid: bool)
    | ErrorNote(text: string)
    | AlertBox(alerts: seq<Alert>)
    | Other

  /** The form element itself: its `action`, whether it carries the `postform` marker
      attribute, its classes, its `novalidate` attribute, and its descendants. */
  datatype Form = Form(action: string, marked: bool, classes: set<string>, noValidate: bool, nodes: seq<Node>)

  /** The node matches the selector `[name="<n>"]`. */
  predicate Named(node: Node, n: string) {
    node.Element? && node.name == Some(n)
  }

  predicate IsBox(node: Node) {
    node.AlertBox?
  }

  predicate IsNote(node: Node) {
    node.ErrorNote?
  }

  predicate NotBox(node: Node) {
    !node.AlertBox?
  }

  /** `form.querySelector('[name="<n>"]')`: the first node in document order with that name. */
  function FindNamed(nodes: seq<Node>, n: string): (r: Option<nat>)
    ensures r.Some? ==> r.value < |nodes| && Named(nodes[r.value], n)
    ensures r.Some? ==> forall j :: 0 <= j < r.value ==> !Named(nodes[j], n)
    ensures r.None? ==> forall j :: 0 <= j < |nodes| ==> !Named(nodes[j], n)
  {
    if nodes == [] then None
    else if Named(nodes[0], n) then Some(0)
    else match FindNamed(nodes[1..], n)
      case None => None
      case Some(j) => Some(j + 1)
  }

  /** Some node of the form carries the name `n`. */
  predicate HasNamed(nodes: seq<Node>, n: string) {
    FindNamed(nodes, n).Some?
  }

  /** `form.querySelector('.postform__alerts')`: the first alert container in document order. */
  function FindAlertBox(nodes: seq<Node>): (r: Option<nat>)
    ensures r.Some? ==> r.value < |nodes| && nodes[r.value].AlertBox?
    ensures r.Some? ==> forall j :: 0 <= j < r.value ==> !nodes[j].AlertBox?
    ensures r.None? ==> forall j :: 0 <= j < |nodes| ==> !nodes[j].AlertBox?
  {
    if nodes == [] then None
    else if nodes[0].AlertBox? then Some(0)
    else match FindAlertBox(nodes[1..])
      case None => None
      case Some(j) => Some(j + 1)
  }

  /** The alert containers of the form, in document order. */
  function Boxes(nodes: seq<Node>): seq<Node> {
    Filter(nodes, IsBox)
  }

  /** Everything but the alert containers. */
  function Content(nodes: seq<Node>): seq<Node> {
    Filter(nodes, NotBox)
  }

  /** The error paragraphs of the form, in document order. */
  function Notes(nodes: seq<Node>): seq<Node> {
    Filter(nodes, IsNote)
  }

  /** The alerts of all containers, in document order. */
  function AllAlerts(nodes: seq<Node>): seq<Alert> {
    if nodes == [] then []
    else (if nodes[0].AlertBox? then nodes[0].alerts else []) + AllAlerts(nodes[1..])
  }

  lemma {:induction false} AllAlertsConcat(a: seq<Node>, b: seq<Node>)
    ensures AllAlerts(a + b) == AllAlerts(a) + AllAlerts(b)
  {
    if a == [] {
      assert a + b == b;
    } else {
      assert (a + b)[0] == a[0];
      assert (a + b)[1..] == a[1..] + b;
      AllAlertsConcat(a[1..], b);
    }
  }

  lemma {:induction false} AllAlertsSingle(x: Node)
    ensures AllAlerts([x]) == if x.AlertBox? then x.alerts else []
  {
    assert [x][1..] == [];
  }

  /** The controller's invariant: at most one alert container on the form. */
  predicate AtMostOneBox(nodes: seq<Node>) {
    |Boxes(nodes)| <= 1
  }

  /** No `input`, `select` or `textarea` carries the invalid marker. */
  predicate ControlsValid(nodes: seq<Node>) {
    forall i :: 0 <= i < |nodes| && nodes[i].Element? && nodes[i].control ==> !nodes[i].invalid
  }
}
