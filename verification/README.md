# postform — a Dafny model of the form controller

`postform` enhances HTML forms flagged with a `postform` attribute: each such form gets a
controller that derives a token from the form's `action`, intercepts submission, resets the
form's error state, posts the fields to `<base URL>/validate/<token>`, and then either lets the
native submission go ahead (code 200) or renders the errors the server returned: field errors
inline under their inputs (code 400), or a single alert at the top of the form (anything else).

This project models the logic under that plumbing with the DOM replaced by an abstract form:

- `Text` — `String.prototype.indexOf` and `replace` with a string pattern and an empty
  replacement (only the first occurrence is removed, and the match is not anchored).
- `Endpoint` — `getFormToken` and `getValidationEndpoint`, with the base URL
  `http://localhost:4000` of the controller's configuration.
- `Dom` — the abstract form: its descendants as a sequence of nodes in document order
  (elements with a name and an invalid marker, error paragraphs, alert containers holding
  `(type, text)` alerts, other nodes), plus the two lookups the controller performs
  (`[name="…"]` and `.postform__alerts`, each the first match in document order).
  A matched element is treated as having no descendants, so its error paragraph goes to the
  position right after it in document order. That is exact for `input`, which has no
  children; for an element with children (`select`, `textarea`, `fieldset`) the code inserts
  the paragraph after the element's whole subtree instead (see "Left out").
- `Alerts` — `setAlert`, `createAlertsContainer`, `resetAlertState`.
- `Fields` — `setInputState` (including its early return at the first unmatched name),
  `resetInputState`, and an order-independent reference rendering of a field-error mapping
  (`Annotate`) that the applied entries are proved to agree with.
- `Postform` — construction, `reset`, `handleValidationErrors`, the response continuation of
  `validate` (`Dispatch`) and `validate` itself, with the response as a parameter.

Behaviours of the code that a reader might not expect, all kept by the model:

- The token is not a stripped prefix: the first occurrence of `<base URL>/` is removed wherever
  it appears (`TokenNotAnchored`, `TokenRemovesOnlyFirst`).
- `reset` does not remove the error paragraphs earlier attempts inserted; it only clears the
  `data-state` marker of `input`, `select` and `textarea` elements and removes the first alert
  container (`Reset` keeps `Notes` unchanged).
- `[name="…"]` matches any element with that name, not only controls, so a named button or
  fieldset can be marked invalid and is then never cleared by `reset`; the model keeps that.
- `reset` is idempotent only when the form holds at most one alert container, which is all the
  controller ever creates (`ResetIdempotent`, `ResetNotIdempotentWithTwoBoxes`).

## Model

| member | source | states |
|---|---|---|
| Text.IndexOf | src/postform.js:162 | the result is the left-most index at which the pattern occurs, and there is none exactly when the string does not contain it |
| Text.RemoveFirst | src/postform.js:162 | a string without the pattern is returned unchanged; otherwise exactly the left-most occurrence is cut out |
| Text.RemoveFirstRestores | src/postform.js:162 | putting the pattern back at the first-occurrence index rebuilds the original string |
| Endpoint.FormToken | src/postform.js:160-163 | an action without `<base URL>/` is its own token; otherwise reinserting `<base URL>/` at its first occurrence in the action rebuilds the action from the token |
| Endpoint.ValidationEndpoint | src/postform.js:168-170 | the endpoint starts with the base URL followed by `/validate/`, and the rest is the token |
| Endpoint.EndpointInjective | src/postform.js:168-170 | different tokens give different endpoints |
| Endpoint.TokenRoundTrip | src/postform.js:160-170 | an action `<base URL>/<t>` yields token `t` and endpoint `<base URL>/validate/<t>` |
| Endpoint.TokenRemovesOnlyFirst | src/postform.js:161-162 | when the base URL occurs twice only the first copy is removed |
| Endpoint.TokenNotAnchored | src/postform.js:161-162 | a character in front of the base URL survives into the token: the removal is not a prefix strip |
| Dom.FindNamed | src/postform.js:63 | the lookup returns the first node carrying the name, or nothing when no node carries it |
| Dom.FindAlertBox | src/postform.js:88-89 | the lookup returns the first alert container, or nothing when there is none |
| Alerts.CreateAlertsContainer | src/postform.js:105-110 | a new empty container becomes the form's first child, is what the next container lookup finds, and the old children follow it unchanged |
| Alerts.SetAlert | src/postform.js:86-100 | an existing first container is reused and gets the alert at its end, with every other node unchanged; only when none exists is one created at index 0; no non-container node changes, exactly one alert is added, and no second container appears |
| Alerts.ResetAlertState | src/postform.js:150-153 | the first container and its alerts are removed in place: the nodes before it and after it are the old ones in the old order, so every later container keeps its alerts and its position, a form without a container is left as it is, and with at most one container none is left |
| Fields.ResetInputState | src/postform.js:139-144 | every input/select/textarea loses its invalid marker; all other nodes are unchanged and no node changes except for that marker |
| Fields.ResetInputStateKeeps | src/postform.js:139-144 | clearing the markers leaves containers, alerts, error paragraphs and name lookups unchanged |
| Fields.ResetInputStateIdempotent | src/postform.js:139-144 | clearing the markers twice is clearing them once |
| Fields.MarkField | src/postform.js:68-77 | the input is marked invalid and an error paragraph with the entry's text sits right after it; the nodes before and after are untouched, and exactly one paragraph is added |
| Fields.MarkFieldKeepsNames | src/postform.js:63-77 | marking a field neither adds nor removes a name, so later lookups succeed or fail as before |
| Fields.MatchedPrefix | src/postform.js:61-66 | the entries before the first one whose name is on no element all name a field, and the entry at that point does not |
| Fields.SetInputState | src/postform.js:60-79 | containers and alerts are untouched, one paragraph is added per applied entry, and the set of names on the form is unchanged |
| Fields.SetInputStateTruncates | src/postform.js:61-66 | entries after the first unmatched name have no effect at all |
| Fields.SetInputStateAllMatched | src/postform.js:60-78 | with distinct names that all match, applying the entries in order equals the order-independent reference rendering of the mapping |
| Fields.SetInputStateIsAnnotate | src/postform.js:60-78 | the result is the reference rendering of exactly the entries before the first unmatched name |
| Fields.SetInputStateRenders | src/postform.js:60-78 | every applied entry ends up with its field marked invalid and immediately followed by a paragraph with its text |
| Postform.Construct | src/postform.js:2-23 | after construction the marker attribute is gone, the `postform` class is present, `novalidate` is set, other classes, the action and the children are unchanged, and the token is fixed from the action |
| Postform.ConstructEndpoint | src/postform.js:10-12 | a form whose action is `<base URL>/<t>` gets token `t` and is validated at `<base URL>/validate/<t>` (the endpoint of a controller is `EndpointOf`) |
| Postform.Reset | src/postform.js:130-153 | afterwards no control is marked, error paragraphs are all still there, the non-container nodes are the old ones with controls cleared, one container fewer remains, and with at most one container no container or alert remains |
| Postform.ResetRemovesFirstBox | src/postform.js:150-153 | the containers left after `reset` are the old ones minus the first, each with its alerts unchanged |
| Postform.ResetIdempotent | src/postform.js:130-153 | on a form with at most one container, resetting twice is resetting once |
| Postform.ResetNotIdempotentWithTwoBoxes | src/postform.js:150-153 | with two containers a second reset still changes the form |
| Postform.AlertMessage | src/postform.js:51 | JavaScript `\|\|`: a non-empty top-level message wins; otherwise `data.message`, shown as `undefined` when absent; and reading `data` throws exactly when the top-level message is falsy and `data` is absent |
| Postform.HandleValidationErrors | src/postform.js:48-55 | a code other than 400 adds exactly one `error` alert carrying the top-level message, or `data.message` when that is falsy, to the first container, or to a new one at the top when there is none, and changes no other node; code 400 adds no alert, and with distinct names the result is exactly the reference rendering of the entries before the first unmatched name; a missing `data` throws |
| Postform.Dispatch | src/postform.js:34-41 | native submission is requested exactly for code 200, and then the form is left as it is; every other code goes to the error handler |
| Postform.Validate | src/postform.js:25-41 | the one-container invariant is kept; a submission that goes through leaves no control marked and no alert, but keeps old error paragraphs |
| Postform.NextAttemptStartsClean | src/postform.js:28-29 | whatever a cycle rendered, the reset opening the next cycle leaves no container, alert or marked control |
| Postform.FieldFailureScenarios | src/postform.js:60-78 | a 400 for a present field marks it and shows its message right after it with no container; an earlier entry for a missing field hides it |

## Left out

- `send` (the `fetch` call and `response.json()`): network I/O. Its result is the `Response`
  parameter of `Dispatch` and `Validate`; transport and JSON failures are not modelled.
- `FormData` collection and form encoding: browser APIs with no bearing on the error state.
- Event wiring: `addEventListener`, `event.preventDefault`, `form.submit()` and the
  asynchronous continuation are reduced to the `Submitted` outcome.
- Overlapping submissions racing on the same form: concurrency is out of scope.
- `console.log` in the constructor and the bootstrap that finds flagged forms and appends the
  stylesheet link (src/postform.js:173-185): page-level side effects.
- CSS selector semantics: a field name containing quotes or backslashes would change the
  selector; the model looks up the first element whose name equals the field name.
- A form without an `action` attribute, which makes the constructor throw.
- The nesting of the DOM tree: the form is its descendants in document order. The two lookups
  (first match in document order) see nothing more than that, but the insertion does.
- Fields.MarkField, Fields.SetInputStateRenders, Fields.Annotate: a matched element is treated
  as having no descendants, so its paragraph is placed right after it. For a matched `select`,
  `textarea` or `fieldset`, `insertBefore(error, fieldInput.nextSibling)` puts the paragraph
  after the element's whole subtree; with a fieldset named `g` around an input named `a`, the
  code's paragraphs come in the order [a, g] and the model's in the order [g, a].
- Key order of `for…in`: integer-like keys are visited first in ascending order; the model takes
  the entries in the order given.
- Values of `data-state` other than `invalid`, and non-string or `null` messages in the JSON;
  an absent `data.message` is shown as the text `undefined`.
- HandleValidationErrors: states the exact list of alerts only for forms with at most one
  container; on other forms it states the count and, through `SetAlert`, which container grows.
