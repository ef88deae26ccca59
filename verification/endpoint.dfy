/** The form token and the validation endpoint built from it (`getFormToken`,
    `getValidationEndpoint`). */
module Endpoint {
  import opened Text

  /** The base URL fixed in the controller's configuration. */
  const DefaultApiUrl: string := "http://localhost:4000"

  /** The path segment between the base URL and the token in the endpoint. */
  const ValidatePath: string := "/validate/"

  /** `action.replace(apiUrl + '/', '')`: the first occurrence of the base URL and its
      separator is cut out of the form's action, wherever it occurs; an action that does
      not contain it is the token unchanged. */
  function FormToken(apiUrl: string, action: string): (token: string)
    ensures !Contains(action, apiUrl + "/") ==> token == action
    ensures forall i: nat :: FirstOccursAt(action, apiUrl + "/", i) ==>
      i <= |token| && action == token[..i] + (apiUrl + "/") + token[i..]
  {
    var p := apiUrl + "/";
    assert forall i: nat :: FirstOccursAt(action, p, i) ==>
      i <= |RemoveFirst(action, p)| && action == RemoveFirst(action, p)[..i] + p + RemoveFirst(action, p)[i..] by {
      forall i: nat | FirstOccursAt(action, p, i) {
        RemoveFirstRestores(action, p, i);
      }
    }
    RemoveFirst(action, p)
  }

  /** `${apiUrl}/validate/${token}`: the base URL and the token can be read back from it. */
  function ValidationEndpoint(apiUrl: string, token: string): (url: string)
    ensures |url| == |apiUrl| + |ValidatePath| + |token|
    ensures url[..|apiUrl|] == apiUrl
    ensures url[|apiUrl|..|apiUrl| + |ValidatePath|] == ValidatePath
    ensures url[|apiUrl| + |ValidatePath|..] == token
  {
    apiUrl + ValidatePath + token
  }

  /** Two tokens give the same endpoint only if they are the same token. */
  lemma {:induction false} EndpointInjective(apiUrl: string, t1: string, t2: string)
    requires ValidationEndpoint(apiUrl, t1) == ValidationEndpoint(apiUrl, t2)
    ensures t1 == t2
  {
  }

  /** An action of the form `<apiUrl>/<t>` yields the token `t` and the endpoint
      `<apiUrl>/validate/<t>`. */
  lemma {:induction false} TokenRoundTrip(apiUrl: string, t: string)
    ensures FormToken(apiUrl, apiUrl + "/" + t) == t
    ensures ValidationEndpoint(apiUrl, FormToken(apiUrl, apiUrl + "/" + t)) == apiUrl + "/validate/" + t
  {
    var p := apiUrl + "/";
    RemoveFirstAfter([], p, t);
    assert [] + p + t == apiUrl + "/" + t;
    assert [] + t == t;
  }

  /** Only the first occurrence is removed: an action repeating the base URL keeps the
      second copy in its token. */
  lemma {:induction false} TokenRemovesOnlyFirst(apiUrl: string, t: string)
    ensures FormToken(apiUrl, apiUrl + "/" + apiUrl + "/" + t) == apiUrl + "/" + t
  {
    var p := apiUrl + "/";
    RemoveFirstAfter([], p, p + t);
    assert [] + p + (p + t) == apiUrl + "/" + apiUrl + "/" + t;
    assert [] + (p + t) == apiUrl + "/" + t;
  }

  /** The removal is not anchored at the start: a character in front of the base URL
      stays in the token. */
  lemma {:induction false} TokenNotAnchored(apiUrl: string, c: char, t: string)
    requires |apiUrl| > 0 && c != apiUrl[0]
    ensures FormToken(apiUrl, [c] + apiUrl + "/" + t) == [c] + t
  {
    var p := apiUrl + "/";
    var s := [c] + p + t;
    assert !OccursAt(s, p, 0) by {
      assert s[0] == c && p[0] == apiUrl[0];
    }
    RemoveFirstAfter([c], p, t);
    assert [c] + apiUrl + "/" + t == s;
  }
}
