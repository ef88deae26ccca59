/** The per-form controller: construction, the submit cycle (`validate`, its response
    continuation and `handleValidationErrors`) and `reset`, over the abstract form. */
module Postform {
  import opened Wrappers
  import opened Seqs
  import opened Text
  import opened Dom
  import opened Endpoint
  import opened Alerts
  import opened Fields

  /** The class that marks an enhanced form. */
  const EnhancedClass: string := "postform"

  /** The alert type used for general failures (`alert--error`). */
  const ErrorKind: string := "error"

  /** The text an element shows after `innerText = undefined`. */
  const UndefinedText: string := "undefined"

  const OkCode: int := 200
  const FieldFailureCode: int := 400

  /** One controller per enhanced form: its configured base URL, the token fixed at
      construction, and the form it owns. */
  datatype Controller = Controller(apiUrl: string, token: string, form: Form)

  /** The `data` object of a validation response: its `message` and its `errors` entries
      (empty when `errors` is absent). */
  datatype Payload = Payload(message: Option<string>, errors: seq<FieldError>)

  /** A decoded validation response; absent fields are `None`. */
  datatype Response = Response(code: int, message: Option<string>, data: Option<Payload>)

  /** How a submit cycle ends, with the form's nodes at that point:
      - `Submitted`: the native `form.submit()` is requested;
      - `ShowingErrors`: errors were rendered;
      - `Rejected`: reading `response.data` threw, leaving an unhandled rejection. */
  datatype Outcome =
    | Submitted(nodes: seq<Node>)
    | ShowingErrors(nodes: seq<Node>)
    | Rejected(nodes: seq<Node>)

  /** The controller's constructor: the token is derived from `action`, native validation is
      switched off, the marker attribute is removed and the marker class added. Nothing else
      about the form changes. */
  function Construct(form: Form): (c: Controller)
    ensures c.apiUrl == DefaultApiUrl
    ensures !c.form.marked && c.form.noValidate
    ensures EnhancedClass in c.form.classes && c.form.classes - {EnhancedClass} == form.classes - {EnhancedClass}
    ensures c.form.action == form.action && c.form.nodes == form.nodes
    ensures !Contains(form.action, DefaultApiUrl + "/") ==> c.token == form.action
    ensures forall i: nat :: FirstOccursAt(form.action, DefaultApiUrl + "/", i) ==>
      i <= |c.token| && form.action == c.token[..i] + (DefaultApiUrl + "/") + c.token[i..]
  {
    Controller(
      DefaultApiUrl,
      FormToken(DefaultApiUrl, form.action),
      form.(marked := false, classes := form.classes + {EnhancedClass}, noValidate := true))
  }

  /** `getValidationEndpoint` on a constructed controller. */
  function EndpointOf(c: Controller): string {
    ValidationEndpoint(c.apiUrl, c.token)
  }

  /** A form whose action is `<base URL>/<t>` is validated at `<base URL>/validate/<t>`. */
  lemma {:induction false} ConstructEndpoint(form: Form, t: string)
    requires form.action == DefaultApiUrl + "/" + t
    ensures Construct(form).token == t
    ensures EndpointOf(Construct(form)) == DefaultApiUrl + "/validate/" + t
  {
    TokenRoundTrip(DefaultApiUrl, t);
  }

  /** Content without alert containers commutes with clearing the controls. */
  lemma {:induction false} ContentOfResetInputState(nodes: seq<Node>)
    ensures Content(ResetInputState(nodes)) == ResetInputState(Content(nodes))
  {
    if nodes != [] {
      var h, t := nodes[0], nodes[1..];
      var r := ResetInputState(nodes);
      assert r[0] == Cleared(h) && r[1..] == ResetInputState(t);
      ContentOfResetInputState(t);
      assert Content(r) == (if NotBox(h) then [Cleared(h)] else []) + Content(ResetInputState(t));
      assert Content(nodes) == (if NotBox(h) then [h] else []) + Content(t);
      if NotBox(h) {
        var c := Content(nodes);
        assert c[0] == h && c[1..] == Content(t);
      }
    }
  }

  /** Removing the first alert container keeps the controls valid. */
  lemma {:induction false} ResetAlertStateKeepsValid(nodes: seq<Node>)
    requires ControlsValid(nodes)
    ensures ControlsValid(ResetAlertState(nodes))
  {
    match FindAlertBox(nodes)
    case None =>
    case Some(i) =>
      var r := ResetAlertState(nodes);
      assert r == nodes[..i] + nodes[i + 1..];
      forall j | 0 <= j < |r| && r[j].Element? && r[j].control
        ensures !r[j].invalid
      {
        if j < i {
          assert r[j] == nodes[j];
        } else {
          assert r[j] == nodes[j + 1];
        }
      }
  }

  /** `reset`: every control loses its invalid marker and the first alert container goes;
      error paragraphs from earlier attempts stay, and every other node keeps its state. */
  function Reset(nodes: seq<Node>): (r: seq<Node>)
    ensures ControlsValid(r)
    ensures Notes(r) == Notes(nodes)
    ensures Content(r) == ResetInputState(Content(nodes))
    ensures |Boxes(r)| == if Boxes(nodes) == [] then 0 else |Boxes(nodes)| - 1
    ensures AtMostOneBox(nodes) ==> Boxes(r) == [] && AllAlerts(r) == []
  {
    var cleared := ResetInputState(nodes);
    ResetInputStateKeeps(nodes);
    ResetAlertStateKeepsValid(cleared);
    ContentOfResetInputState(nodes);
    ResetAlertState(cleared)
  }

  /** `reset` removes exactly the first alert container; any later ones keep their alerts. */
  lemma {:induction false} ResetRemovesFirstBox(nodes: seq<Node>)
    ensures Boxes(Reset(nodes)) == if Boxes(nodes) == [] then [] else Boxes(nodes)[1..]
  {
    ResetInputStateKeeps(nodes);
  }

  /** `reset` is idempotent on a form with at most one alert container, the only forms the
      controller produces. */
  lemma {:induction false} ResetIdempotent(nodes: seq<Node>)
    requires AtMostOneBox(nodes)
    ensures Reset(Reset(nodes)) == Reset(nodes)
  {
    var r := Reset(nodes);
    ResetInputStateIdempotent(nodes);
    var cleared := ResetInputState(nodes);
    assert forall i :: 0 <= i < |r| ==> Cleared(r[i]) == r[i];
    assert ResetInputState(r) == r;
    FindAlertBoxFindsBoxes(r);
  }

  /** With two alert containers (possible only if the page itself supplies them), one reset
      leaves a container behind that a second reset removes. */
  lemma {:induction false} ResetNotIdempotentWithTwoBoxes()
    ensures var nodes := [AlertBox([]), AlertBox([])];
      Reset(Reset(nodes)) != Reset(nodes)
  {
    var nodes := [AlertBox([]), AlertBox([])];
    assert |Boxes(nodes)| == 2 by {
      assert nodes[1..] == [AlertBox([])];
      assert nodes[1..][1..] == [];
    }
    assert |Boxes(Reset(nodes))| == 1;
    assert |Boxes(Reset(Reset(nodes)))| == 0;
  }

  /** JavaScript truthiness of an optional string. */
  predicate Truthy(s: Option<string>) {
    s.Some? && s.value != ""
  }

  /** `response.message || response.data.message`; `None` when `data` is absent, where
      reading it throws. */
  function AlertMessage(resp: Response): (r: Option<string>)
    ensures r.None? <==> !Truthy(resp.message) && resp.data.None?
    ensures Truthy(resp.message) ==> r == resp.message
    ensures !Truthy(resp.message) && resp.data.Some? ==>
      r == Some(if resp.data.value.message.Some? then resp.data.value.message.value else UndefinedText)
  {
    if Truthy(resp.message) then resp.message
    else if resp.data.None? then None
    else Some(resp.data.value.message.GetOr(UndefinedText))
  }

  /** `handleValidationErrors`; `None` when reading `response.data` throws.
      - Any code but 400 is a general failure: exactly one `error` alert with the top-level
        message, or `data.message` when that is falsy, and no field changes.
      - Code 400 renders the field errors: no alert is added or removed, one error paragraph
        per applied entry, and with distinct names every applied entry is rendered. */
  function HandleValidationErrors(nodes: seq<Node>, resp: Response): (r: Option<seq<Node>>)
    ensures resp.code != FieldFailureCode ==>
      (r.None? <==> !Truthy(resp.message) && resp.data.None?)
    ensures resp.code != FieldFailureCode && r.Some? ==>
      && Content(r.value) == Content(nodes)
      && |AllAlerts(r.value)| == |AllAlerts(nodes)| + 1
      && (Truthy(resp.message) && AtMostOneBox(nodes) ==>
          AllAlerts(r.value) == AllAlerts(nodes) + [Alert(ErrorKind, resp.message.value)])
      && (!Truthy(resp.message) && AtMostOneBox(nodes) ==>
          AllAlerts(r.value) == AllAlerts(nodes) + [Alert(ErrorKind, resp.data.value.message.GetOr(UndefinedText))])
      && |Boxes(r.value)| == (if Boxes(nodes) == [] then 1 else |Boxes(nodes)|)
      && (FindAlertBox(nodes).None? ==>
          r.value[0] == AlertBox([Alert(ErrorKind, AlertMessage(resp).value)]) && r.value[1..] == nodes)
      && (FindAlertBox(nodes).Some? ==>
          var i := FindAlertBox(nodes).value;
          && FindAlertBox(r.value) == Some(i)
          && r.value[i].alerts == nodes[i].alerts + [Alert(ErrorKind, AlertMessage(resp).value)]
          && |r.value| == |nodes|
          && forall j :: 0 <= j < |r.value| && j != i ==> r.value[j] == nodes[j])
    ensures resp.code == FieldFailureCode ==> (r.None? <==> resp.data.None?)
    ensures resp.code == FieldFailureCode && r.Some? ==>
      var errors := resp.data.value.errors;
      && Boxes(r.value) == Boxes(nodes) && AllAlerts(r.value) == AllAlerts(nodes)
      && |Notes(r.value)| == |Notes(nodes)| + MatchedPrefix(nodes, errors)
      && (DistinctNames(errors) ==>
          forall j :: 0 <= j < MatchedPrefix(nodes, errors) ==> Rendered(r.value, errors[j]))
      && (DistinctNames(errors) ==>
          r.value == Annotate(nodes, ToMap(errors[..MatchedPrefix(nodes, errors)])))
  {
    if resp.code != FieldFailureCode then
      match AlertMessage(resp)
      case None => None
      case Some(text) => Some(SetAlert(nodes, ErrorKind, text))
    else if resp.data.None? then None
    else
      var errors := resp.data.value.errors;
      if DistinctNames(errors) then
        SetInputStateRenders(nodes, errors);
        SetInputStateIsAnnotate(nodes, errors);
        Some(SetInputState(nodes, errors))
      else
        Some(SetInputState(nodes, errors))
  }

  /** The continuation of `validate` once the response has arrived: code 200 requests the
      native submission and leaves the form as it is; any other code is handed to
      `handleValidationErrors`, and a throw there leaves the form as it is. */
  function Dispatch(nodes: seq<Node>, resp: Response): (r: Outcome)
    ensures r.Submitted? <==> resp.code == OkCode
    ensures r.Submitted? || r.Rejected? ==> r.nodes == nodes
    ensures resp.code != OkCode ==> (r.Rejected? <==> HandleValidationErrors(nodes, resp).None?)
    ensures r.ShowingErrors? ==> Some(r.nodes) == HandleValidationErrors(nodes, resp)
  {
    if resp.code == OkCode then Submitted(nodes)
    else
      match HandleValidationErrors(nodes, resp)
      case None => Rejected(nodes)
      case Some(after) => ShowingErrors(after)
  }

  /** `validate`: the form is reset before the request and the response is then dispatched.
      A form with at most one alert container keeps that property, and a submission that
      goes through does so from a form with no marked control and no alert. */
  function Validate(c: Controller, resp: Response): (r: Outcome)
    ensures AtMostOneBox(c.form.nodes) ==> AtMostOneBox(r.nodes)
    ensures r.Submitted? ==> ControlsValid(r.nodes)
    ensures r.Submitted? && AtMostOneBox(c.form.nodes) ==> AllAlerts(r.nodes) == []
    ensures r.Submitted? ==> Notes(r.nodes) == Notes(c.form.nodes)
  {
    var cleared := Reset(c.form.nodes);
    Dispatch(cleared, resp)
  }

  /** The next attempt starts clean: whatever one submit cycle rendered, the reset that opens
      the next one leaves no alert and no marked control behind. */
  lemma {:induction false} NextAttemptStartsClean(c: Controller, resp: Response)
    requires AtMostOneBox(c.form.nodes)
    ensures var next := Reset(Validate(c, resp).nodes);
      AllAlerts(next) == [] && Boxes(next) == [] && ControlsValid(next)
  {
  }

  /** A 400 naming a present field marks it and places its message right after it, with no
      alert container; an entry naming a missing field stops the rendering, so a later entry
      for a present field is not shown. */
  lemma {:induction false} FieldFailureScenarios(text: string, other: string)
    ensures var email := Element(true, Some("email"), false);
      var shown := Dispatch([email], Response(400, None, Some(Payload(None, [("email", text)]))));
      && shown == ShowingErrors([email.(invalid := true), ErrorNote(text)])
      && Boxes(shown.nodes) == []
    ensures var email := Element(true, Some("email"), false);
      Dispatch([email], Response(400, None, Some(Payload(None, [("phone", other), ("email", text)]))))
        == ShowingErrors([email])
  {
    var email := Element(true, Some("email"), false);
    var marked := MarkField([email], 0, text);
    assert marked == [email.(invalid := true), ErrorNote(text)];
    assert SetInputState([email], [("email", text)]) == SetInputState(marked, []);
    assert Boxes(marked) == [] by {
      FilterNone(marked, IsBox);
    }
    assert !HasNamed([email], "phone");
  }
}
