/** Field-level error state: `setInputState` and `resetInputState`. */
module Fields {
  import opened Wrappers
  import opened Seqs
  import opened Dom

  /** One entry of `data.errors`: a field name and its error text. The entries are listed
      in the order `for…in` visits the keys of the decoded object. */
  type FieldError = (string, string)

  /** The keys of the decoded object are distinct. */
  predicate DistinctNames(errors: seq<FieldError>) {
    forall i, j :: 0 <= i < j < |errors| ==> errors[i].0 != errors[j].0
  }

  /** A node with its invalid marker dropped; two nodes equal up to the marker have the
      same image. */
  function Unflagged(node: Node): Node {
    if node.Element? then node.(invalid := false) else node
  }

  /** What `resetInputState` does to one node: a control loses its marker; any other node,
      a named non-control included, stays as it is. */
  function Cleared(node: Node): Node {
    if node.Element? && node.control then Unflagged(node) else node
  }

  /** `resetInputState`: every `input`, `select` and `textarea` loses its invalid marker.
      Every other node, including error paragraphs from earlier attempts and named
      elements that are not controls, is left exactly as it was. */
  function ResetInputState(nodes: seq<Node>): (r: seq<Node>)
    ensures |r| == |nodes|
    ensures forall i :: 0 <= i < |r| ==> Unflagged(r[i]) == Unflagged(nodes[i])
    ensures forall i :: 0 <= i < |r| && r[i].Element? && r[i].control ==> !r[i].invalid
    ensures forall i :: 0 <= i < |r| && !(nodes[i].Element? && nodes[i].control) ==> r[i] == nodes[i]
  {
    if nodes == [] then []
    else [Cleared(nodes[0])] + ResetInputState(nodes[1..])
  }

  /** Resetting leaves the alert containers and the error paragraphs as they were. */
  lemma {:induction false} ResetInputStateKeeps(nodes: seq<Node>)
    ensures Boxes(ResetInputState(nodes)) == Boxes(nodes)
    ensures Notes(ResetInputState(nodes)) == Notes(nodes)
    ensures AllAlerts(ResetInputState(nodes)) == AllAlerts(nodes)
    ensures forall n :: FindNamed(ResetInputState(nodes), n) == FindNamed(nodes, n)
  {
    var r := ResetInputState(nodes);
    FilterPointwise(r, nodes, IsBox);
    FilterPointwise(r, nodes, IsNote);
    SameAlerts(r, nodes);
    forall n {
      SameNames(r, nodes, n);
    }
  }

  lemma {:induction false} SameAlerts(a: seq<Node>, b: seq<Node>)
    requires |a| == |b|
    requires forall i :: 0 <= i < |a| ==> a[i].AlertBox? == b[i].AlertBox?
    requires forall i :: 0 <= i < |a| && a[i].AlertBox? ==> a[i] == b[i]
    ensures AllAlerts(a) == AllAlerts(b)
  {
    if a != [] {
      SameAlerts(a[1..], b[1..]);
    }
  }

  lemma {:induction false} SameNames(a: seq<Node>, b: seq<Node>, n: string)
    requires |a| == |b|
    requires forall i :: 0 <= i < |a| ==> Unflagged(a[i]) == Unflagged(b[i])
    ensures FindNamed(a, n) == FindNamed(b, n)
  {
    if a != [] {
      assert Named(a[0], n) == Named(b[0], n) by {
        assert Unflagged(a[0]) == Unflagged(b[0]);
      }
      SameNames(a[1..], b[1..], n);
    }
  }

  /** Resetting twice is resetting once. */
  lemma {:induction false} ResetInputStateIdempotent(nodes: seq<Node>)
    ensures ResetInputState(ResetInputState(nodes)) == ResetInputState(nodes)
  {
    var r := ResetInputState(nodes);
    var rr := ResetInputState(r);
    assert forall i :: 0 <= i < |rr| ==> rr[i] == r[i] by {
      forall i | 0 <= i < |rr|
        ensures rr[i] == r[i]
      {
        if r[i].Element? && r[i].control {
          assert Unflagged(rr[i]) == Unflagged(r[i]);
        }
      }
    }
  }

  /** One matched entry: the input at `i` is marked invalid and an error paragraph with the
      entry's text is placed immediately after it. Containers, alerts and the names present
      on the form do not change; exactly one paragraph is added. */
  function MarkField(nodes: seq<Node>, i: nat, text: string): (r: seq<Node>)
    requires i < |nodes| && nodes[i].Element?
    ensures |r| == |nodes| + 1
    ensures r[i].Element? && r[i].invalid && Unflagged(r[i]) == Unflagged(nodes[i])
    ensures r[i + 1] == ErrorNote(text)
    ensures r[..i] == nodes[..i] && r[i + 2..] == nodes[i + 1..]
    ensures Boxes(r) == Boxes(nodes) && AllAlerts(r) == AllAlerts(nodes)
    ensures |Notes(r)| == |Notes(nodes)| + 1
  {
    var r := nodes[..i] + [nodes[i].(invalid := true), ErrorNote(text)] + nodes[i + 1..];
    MarkFieldProjections(nodes, i, text);
    r
  }

  lemma {:induction false} MarkFieldProjections(nodes: seq<Node>, i: nat, text: string)
    requires i < |nodes| && nodes[i].Element?
    ensures var r := nodes[..i] + [nodes[i].(invalid := true), ErrorNote(text)] + nodes[i + 1..];
      && Boxes(r) == Boxes(nodes) && AllAlerts(r) == AllAlerts(nodes)
      && |Notes(r)| == |Notes(nodes)| + 1
  {
    var mid := [nodes[i].(invalid := true), ErrorNote(text)];
    var r := nodes[..i] + mid + nodes[i + 1..];
    FilterConcat(nodes[..i] + mid, nodes[i + 1..], IsBox);
    FilterConcat(nodes[..i], mid, IsBox);
    FilterConcat(nodes[..i] + mid, nodes[i + 1..], IsNote);
    FilterConcat(nodes[..i], mid, IsNote);
    FilterSplit(nodes, i, IsBox);
    FilterSplit(nodes, i, IsNote);
    assert Filter(mid, IsBox) == [] by {
      FilterNone(mid, IsBox);
    }
    assert Filter([nodes[i]], IsBox) == [] by {
      FilterNone([nodes[i]], IsBox);
    }
    assert Filter([nodes[i]], IsNote) == [] by {
      FilterNone([nodes[i]], IsNote);
    }
    assert |Filter(mid, IsNote)| == 1 by {
      assert mid[1..] == [ErrorNote(text)];
      assert mid[1..][1..] == [];
    }
    assert nodes == nodes[..i] + [nodes[i]] + nodes[i + 1..];
    AllAlertsConcat(nodes[..i] + mid, nodes[i + 1..]);
    AllAlertsConcat(nodes[..i], mid);
    AllAlertsConcat(nodes[..i] + [nodes[i]], nodes[i + 1..]);
    AllAlertsConcat(nodes[..i], [nodes[i]]);
    assert AllAlerts(mid) == [] by {
      assert mid[1..] == [ErrorNote(text)];
      assert mid[1..][1..] == [];
    }
    assert AllAlerts([nodes[i]]) == [] by {
      assert [nodes[i]][1..] == [];
    }
  }

  /** Marking a field neither adds nor removes a name from the form. */
  lemma {:induction false} MarkFieldKeepsNames(nodes: seq<Node>, i: nat, text: string, n: string)
    requires i < |nodes| && nodes[i].Element?
    ensures HasNamed(MarkField(nodes, i, text), n) == HasNamed(nodes, n)
  {
    var r := MarkField(nodes, i, text);
    match FindNamed(nodes, n)
    case Some(k) =>
      var k' := if k <= i then k else k + 1;
      if k < i {
        assert r[k] == r[..i][k] == nodes[..i][k];
      } else if k > i {
        assert r[k + 1] == r[i + 2..][k - i - 1] == nodes[i + 1..][k - i - 1];
      }
      assert Named(r[k'], n);
    case None =>
      // any element named `n` in `r` would sit at a position copied from `nodes`
  }

  lemma {:induction false} MarkFieldSameNames(nodes: seq<Node>, i: nat, text: string)
    requires i < |nodes| && nodes[i].Element?
    ensures forall n :: HasNamed(MarkField(nodes, i, text), n) == HasNamed(nodes, n)
  {
    forall n
      ensures HasNamed(MarkField(nodes, i, text), n) == HasNamed(nodes, n)
    {
      MarkFieldKeepsNames(nodes, i, text, n);
    }
  }

  /** How many leading entries name a field present on the form: the entries
      `setInputState` applies before it gives up. */
  function MatchedPrefix(nodes: seq<Node>, errors: seq<FieldError>): (k: nat)
    ensures k <= |errors|
    ensures forall j :: 0 <= j < k ==> HasNamed(nodes, errors[j].0)
    ensures k < |errors| ==> !HasNamed(nodes, errors[k].0)
  {
    if errors == [] || !HasNamed(nodes, errors[0].0) then 0
    else 1 + MatchedPrefix(nodes, errors[1..])
  }

  lemma {:induction false} MatchedPrefixSameNames(a: seq<Node>, b: seq<Node>, errors: seq<FieldError>)
    requires forall n :: HasNamed(a, n) == HasNamed(b, n)
    ensures MatchedPrefix(a, errors) == MatchedPrefix(b, errors)
  {
    if errors != [] {
      MatchedPrefixSameNames(a, b, errors[1..]);
    }
  }

  /** `setInputState(errors)`: the entries are applied in order, each marking the first
      element carrying its name and inserting an error paragraph right after it; at the
      first entry whose name is on no element, the remaining entries are dropped. Alert
      containers are never touched, and exactly one paragraph is added per applied entry. */
  function SetInputState(nodes: seq<Node>, errors: seq<FieldError>): (r: seq<Node>)
    ensures Boxes(r) == Boxes(nodes) && AllAlerts(r) == AllAlerts(nodes)
    ensures |Notes(r)| == |Notes(nodes)| + MatchedPrefix(nodes, errors)
    ensures |r| == |nodes| + MatchedPrefix(nodes, errors)
    ensures forall n :: HasNamed(r, n) == HasNamed(nodes, n)
    decreases |errors|
  {
    if errors == [] then nodes
    else
      match FindNamed(nodes, errors[0].0)
      case None => nodes
      case Some(i) =>
        var marked := MarkField(nodes, i, errors[0].1);
        MarkFieldSameNames(nodes, i, errors[0].1);
        MatchedPrefixSameNames(marked, nodes, errors[1..]);
        SetInputState(marked, errors[1..])
  }

  /** One step of `SetInputState` on an entry whose name is present. */
  lemma {:induction false} SetInputStateStep(nodes: seq<Node>, errors: seq<FieldError>)
    requires errors != [] && HasNamed(nodes, errors[0].0)
    ensures var i := FindNamed(nodes, errors[0].0).value;
      SetInputState(nodes, errors) == SetInputState(MarkField(nodes, i, errors[0].1), errors[1..])
  {
  }

  /** Truncation: entries after the first unmatched name have no effect at all. */
  lemma {:induction false} SetInputStateTruncates(nodes: seq<Node>, errors: seq<FieldError>)
    ensures SetInputState(nodes, errors) == SetInputState(nodes, errors[..MatchedPrefix(nodes, errors)])
    decreases |errors|
  {
    var k := MatchedPrefix(nodes, errors);
    if errors == [] {
    } else if k == 0 {
      assert errors[..0] == [];
    } else {
      var i := FindNamed(nodes, errors[0].0).value;
      var marked := MarkField(nodes, i, errors[0].1);
      MarkFieldSameNames(nodes, i, errors[0].1);
      MatchedPrefixSameNames(marked, nodes, errors[1..]);
      var rest := errors[1..];
      assert MatchedPrefix(marked, rest) == k - 1;
      SetInputStateTruncates(marked, rest);
      var pre := errors[..k];
      assert pre[0] == errors[0] && pre[1..] == rest[..k - 1];
      SetInputStateStep(nodes, errors);
      SetInputStateStep(nodes, pre);
    }
  }

  /** The field errors as the mapping they were decoded from. */
  function ToMap(errors: seq<FieldError>): (m: map<string, string>)
    ensures forall j :: 0 <= j < |errors| ==> errors[j].0 in m
    ensures forall n :: n in m ==> exists j :: 0 <= j < |errors| && errors[j].0 == n
    ensures DistinctNames(errors) ==> forall j :: 0 <= j < |errors| ==> m[errors[j].0] == errors[j].1
  {
    if errors == [] then map[]
    else ToMap(errors[1..])[errors[0].0 := errors[0].1]
  }

  /** Reference rendering of a field-error mapping, independent of iteration order: walking
      the form once, the first element carrying each name in `m` is marked invalid and
      followed by a paragraph with that name's text. `seen` holds the names already
      passed. */
  function AnnotateFrom(nodes: seq<Node>, m: map<string, string>, seen: set<string>): seq<Node>
  {
    if nodes == [] then []
    else RenderNode(nodes[0], m, seen) + AnnotateFrom(nodes[1..], m, Passed(nodes[0], seen))
  }

  /** The reference rendering of one node: the first element carrying a name of the mapping
      is marked and followed by its paragraph; every other node is kept as it is. */
  function RenderNode(node: Node, m: map<string, string>, seen: set<string>): seq<Node> {
    if node.Element? && node.name.Some? && node.name.value in m && node.name.value !in seen then
      [node.(invalid := true), ErrorNote(m[node.name.value])]
    else
      [node]
  }

  /** The names passed once `node` has been walked over. */
  function Passed(node: Node, seen: set<string>): set<string> {
    if node.Element? && node.name.Some? then seen + {node.name.value} else seen
  }

  function Annotate(nodes: seq<Node>, m: map<string, string>): seq<Node> {
    AnnotateFrom(nodes, m, {})
  }

  /** An empty mapping renders nothing. */
  lemma {:induction false} AnnotateEmpty(nodes: seq<Node>, seen: set<string>)
    ensures AnnotateFrom(nodes, map[], seen) == nodes
  {
    if nodes != [] {
      AnnotateEmpty(nodes[1..], Passed(nodes[0], seen));
      assert nodes == [nodes[0]] + nodes[1..];
    }
  }

  /** A name already passed is not rendered again, whatever the mapping says about it. */
  lemma {:induction false} AnnotateSeenIrrelevant(nodes: seq<Node>, m: map<string, string>, seen: set<string>, n: string, t: string)
    requires n in seen
    ensures AnnotateFrom(nodes, m[n := t], seen) == AnnotateFrom(nodes, m, seen)
  {
    if nodes != [] {
      AnnotateSeenIrrelevant(nodes[1..], m, Passed(nodes[0], seen), n, t);
      assert RenderNode(nodes[0], m[n := t], seen) == RenderNode(nodes[0], m, seen);
    }
  }

  /** Marking the first element named `n` by hand and then rendering the rest of the mapping
      is rendering the mapping extended with `n`. */
  lemma {:induction false} MarkThenAnnotate(nodes: seq<Node>, i: nat, t: string, m: map<string, string>, seen: set<string>, n: string)
    requires FindNamed(nodes, n) == Some(i)
    requires n !in seen && n !in m
    ensures AnnotateFrom(MarkField(nodes, i, t), m, seen) == AnnotateFrom(nodes, m[n := t], seen)
    decreases i
  {
    var marked := MarkField(nodes, i, t);
    var node := nodes[0];
    var m' := m[n := t];
    if i == 0 {
      var s' := seen + {n};
      var flagged := node.(invalid := true);
      assert marked[0] == flagged && Passed(flagged, seen) == s';
      assert marked[1..][0] == ErrorNote(t) && marked[1..][1..] == nodes[1..];
      assert RenderNode(flagged, m, seen) == [flagged];
      assert RenderNode(ErrorNote(t), m, s') == [ErrorNote(t)];
      assert RenderNode(node, m', seen) == [flagged, ErrorNote(t)];
      AnnotateSeenIrrelevant(nodes[1..], m, s', n, t);
      calc {
        AnnotateFrom(marked, m, seen);
        [flagged] + AnnotateFrom(marked[1..], m, s');
        [flagged] + ([ErrorNote(t)] + AnnotateFrom(nodes[1..], m, s'));
        [flagged, ErrorNote(t)] + AnnotateFrom(nodes[1..], m', s');
        AnnotateFrom(nodes, m', seen);
      }
    } else {
      assert !Named(node, n) && marked[0] == node;
      assert FindNamed(nodes[1..], n) == Some(i - 1);
      MarkFieldTail(nodes, i, t);
      var s' := Passed(node, seen);
      MarkThenAnnotate(nodes[1..], i - 1, t, m, s', n);
      assert RenderNode(node, m', seen) == RenderNode(node, m, seen);
    }
  }

  /** Marking past the head commutes with dropping the head. */
  lemma {:induction false} MarkFieldTail(nodes: seq<Node>, i: nat, t: string)
    requires 0 < i < |nodes| && nodes[i].Element?
    ensures MarkField(nodes, i, t)[1..] == MarkField(nodes[1..], i - 1, t)
  {
    var mid := [nodes[i].(invalid := true), ErrorNote(t)];
    var tail := nodes[1..];
    assert tail[i - 1] == nodes[i];
    assert MarkField(nodes, i, t) == nodes[..i] + mid + nodes[i + 1..];
    assert MarkField(tail, i - 1, t) == tail[..i - 1] + mid + tail[i..];
    assert tail[..i - 1] == nodes[1..i] && tail[i..] == nodes[i + 1..];
    assert (nodes[..i] + mid + nodes[i + 1..])[1..] == nodes[1..i] + mid + nodes[i + 1..];
  }

  lemma {:induction false} DistinctTail(errors: seq<FieldError>)
    requires errors != [] && DistinctNames(errors)
    ensures DistinctNames(errors[1..]) && errors[0].0 !in ToMap(errors[1..])
  {
    var rest := errors[1..];
    forall a, b | 0 <= a < b < |rest|
      ensures rest[a].0 != rest[b].0
    {
      assert rest[a] == errors[a + 1] && rest[b] == errors[b + 1];
    }
  }

  /** When every entry matches a field, applying them in order gives the reference
      rendering of the mapping: the order of the entries does not matter. */
  lemma {:induction false} SetInputStateAllMatched(nodes: seq<Node>, errors: seq<FieldError>)
    requires DistinctNames(errors)
    requires MatchedPrefix(nodes, errors) == |errors|
    ensures SetInputState(nodes, errors) == Annotate(nodes, ToMap(errors))
    decreases |errors|
  {
    if errors == [] {
      AnnotateEmpty(nodes, {});
    } else {
      var (n, t) := errors[0];
      var i := FindNamed(nodes, n).value;
      var marked := MarkField(nodes, i, t);
      MarkFieldSameNames(nodes, i, t);
      MatchedPrefixSameNames(marked, nodes, errors[1..]);
      DistinctTail(errors);
      SetInputStateAllMatched(marked, errors[1..]);
      MarkThenAnnotate(nodes, i, t, ToMap(errors[1..]), {}, n);
      SetInputStateStep(nodes, errors);
      assert ToMap(errors) == ToMap(errors[1..])[n := t];
    }
  }

  /** The field-error rendering as a whole: the entries up to the first unmatched name are
      rendered as the reference does, and nothing after it is. */
  lemma {:induction false} SetInputStateIsAnnotate(nodes: seq<Node>, errors: seq<FieldError>)
    requires DistinctNames(errors)
    ensures SetInputState(nodes, errors) == Annotate(nodes, ToMap(errors[..MatchedPrefix(nodes, errors)]))
  {
    var k := MatchedPrefix(nodes, errors);
    var pre := errors[..k];
    SetInputStateTruncates(nodes, errors);
    assert MatchedPrefix(nodes, pre) == k by {
      MatchedPrefixOfPrefix(nodes, errors, k);
    }
    assert DistinctNames(pre) by {
      forall a, b | 0 <= a < b < |pre|
        ensures pre[a].0 != pre[b].0
      {
        assert pre[a] == errors[a] && pre[b] == errors[b];
      }
    }
    SetInputStateAllMatched(nodes, pre);
  }

  lemma {:induction false} MatchedPrefixOfPrefix(nodes: seq<Node>, errors: seq<FieldError>, k: nat)
    requires k <= MatchedPrefix(nodes, errors)
    ensures MatchedPrefix(nodes, errors[..k]) == k
  {
    if k > 0 {
      assert errors[..k][0] == errors[0];
      assert errors[..k][1..] == errors[1..][..k - 1];
      MatchedPrefixOfPrefix(nodes, errors[1..], k - 1);
    }
  }

  /** The entry `(n, t)` is rendered: the first element named `n` is marked invalid and is
      immediately followed by an error paragraph reading `t`. */
  predicate Rendered(nodes: seq<Node>, entry: FieldError) {
    match FindNamed(nodes, entry.0)
    case None => false
    case Some(i) => i + 1 < |nodes| && nodes[i].invalid && nodes[i + 1] == ErrorNote(entry.1)
  }

  /** Looking a name up past a stretch that does not carry it. */
  lemma {:induction false} FindNamedAfter(a: seq<Node>, b: seq<Node>, n: string)
    requires forall j :: 0 <= j < |a| ==> !Named(a[j], n)
    ensures FindNamed(a + b, n) == match FindNamed(b, n) case None => None case Some(j) => Some(|a| + j)
  {
    if a == [] {
      assert a + b == b;
    } else {
      assert (a + b)[1..] == a[1..] + b;
      FindNamedAfter(a[1..], b, n);
    }
  }

  /** The reference rendering renders every name of the mapping that occurs on the form. */
  lemma {:induction false} AnnotateFromRenders(nodes: seq<Node>, m: map<string, string>, seen: set<string>, n: string)
    requires n in m && n !in seen && HasNamed(nodes, n)
    ensures Rendered(AnnotateFrom(nodes, m, seen), (n, m[n]))
  {
    var node := nodes[0];
    var head := RenderNode(node, m, seen);
    var rest := AnnotateFrom(nodes[1..], m, Passed(node, seen));
    var r := AnnotateFrom(nodes, m, seen);
    assert r == head + rest;
    if Named(node, n) {
      assert head == [node.(invalid := true), ErrorNote(m[n])];
      assert r[0] == head[0] && r[1] == head[1];
      assert FindNamed(r, n) == Some(0);
    } else {
      assert FindNamed(nodes[1..], n).Some?;
      AnnotateFromRenders(nodes[1..], m, Passed(node, seen), n);
      assert forall j :: 0 <= j < |head| ==> !Named(head[j], n);
      FindNamedAfter(head, rest, n);
      var j := FindNamed(rest, n).value;
      assert r[|head| + j] == rest[j] && r[|head| + j + 1] == rest[j + 1];
    }
  }

  /** Every applied entry is rendered on the resulting form: its field is marked invalid and
      is immediately followed by a paragraph with its text. */
  lemma {:induction false} SetInputStateRenders(nodes: seq<Node>, errors: seq<FieldError>)
    requires DistinctNames(errors)
    ensures forall j :: 0 <= j < MatchedPrefix(nodes, errors) ==> Rendered(SetInputState(nodes, errors), errors[j])
  {
    var k := MatchedPrefix(nodes, errors);
    var m := ToMap(errors[..k]);
    SetInputStateIsAnnotate(nodes, errors);
    forall j | 0 <= j < k
      ensures Rendered(SetInputState(nodes, errors), errors[j])
    {
      assert errors[..k][j] == errors[j];
      assert m[errors[j].0] == errors[j].1 by {
        assert DistinctNames(errors[..k]) by {
          forall a, b | 0 <= a < b < k
            ensures errors[..k][a].0 != errors[..k][b].0
          {
            assert errors[..k][a] == errors[a] && errors[..k][b] == errors[b];
          }
        }
      }
      AnnotateFromRenders(nodes, m, {}, errors[j].0);
    }
  }
}
