/** The two string operations of JavaScript the token derivation relies on:
    `String.prototype.indexOf` and `String.prototype.replace` with a string pattern
    and an empty replacement. */
module Text {
  import opened Wrappers

  /** `p` occurs in `s` starting at index `i`. */
  predicate OccursAt(s: string, p: string, i: nat) {
    i + |p| <= |s| && s[i..i + |p|] == p
  }

  predicate Contains(s: string, p: string) {
    exists i: nat :: i <= |s| && OccursAt(s, p, i)
  }

  /** `i` is the left-most index at which `p` occurs in `s`. */
  predicate FirstOccursAt(s: string, p: string, i: nat) {
    OccursAt(s, p, i) && forall j: nat :: j < i ==> !OccursAt(s, p, j)
  }

  /** The first occurrence of `p` in `s` at or after `from`. */
  function IndexOfFrom(s: string, p: string, from: nat): (r: Option<nat>)
    requires from <= |s|
    ensures r.Some? ==> from <= r.value && OccursAt(s, p, r.value)
    ensures forall j: nat :: from <= j && (r.None? || j < r.value) ==> !OccursAt(s, p, j)
    decreases |s| - from
  {
    if OccursAt(s, p, from) then Some(from)
    else if from == |s| then None
    else IndexOfFrom(s, p, from + 1)
  }

  /** `s.indexOf(p)`, with `None` for JavaScript's -1. */
  function IndexOf(s: string, p: string): (r: Option<nat>)
    ensures r.None? <==> !Contains(s, p)
    ensures r.Some? ==> FirstOccursAt(s, p, r.value)
  {
    IndexOfFrom(s, p, 0)
  }

  lemma {:induction false} FirstOccurrenceUnique(s: string, p: string, i: nat, k: nat)
    requires FirstOccursAt(s, p, i) && FirstOccursAt(s, p, k)
    ensures i == k
  {
  }

  /** `s.replace(p, '')`: only the left-most occurrence of `p` is removed, wherever it is;
      a string without `p` is returned unchanged. */
  function RemoveFirst(s: string, p: string): (r: string)
    ensures !Contains(s, p) ==> r == s
    ensures forall i: nat :: FirstOccursAt(s, p, i) ==> r == s[..i] + s[i + |p|..]
  {
    match IndexOf(s, p)
    case None => s
    case Some(k) =>
      assert forall i: nat :: FirstOccursAt(s, p, i) ==> i == k by {
        forall i: nat | FirstOccursAt(s, p, i) {
          FirstOccurrenceUnique(s, p, i, k);
        }
      }
      s[..k] + s[k + |p|..]
  }

  /** Putting the removed pattern back where it was gives the original string. */
  lemma {:induction false} RemoveFirstRestores(s: string, p: string, i: nat)
    requires FirstOccursAt(s, p, i)
    ensures i <= |RemoveFirst(s, p)|
    ensures RemoveFirst(s, p)[..i] + p + RemoveFirst(s, p)[i..] == s
  {
    var r := RemoveFirst(s, p);
    assert r == s[..i] + s[i + |p|..];
    assert r[..i] == s[..i];
    assert r[i..] == s[i + |p|..];
    assert s == s[..i] + s[i..i + |p|] + s[i + |p|..];
  }

  /** When `p` does not start anywhere inside `pre`, removing the first `p` from
      `pre + p + post` leaves `pre + post`. */
  lemma {:induction false} RemoveFirstAfter(pre: string, p: string, post: string)
    requires forall j: nat :: j < |pre| ==> !OccursAt(pre + p + post, p, j)
    ensures RemoveFirst(pre + p + post, p) == pre + post
  {
    var s := pre + p + post;
    assert s[|pre|..|pre| + |p|] == p;
    assert FirstOccursAt(s, p, |pre|);
    assert s[..|pre|] == pre && s[|pre| + |p|..] == post;
  }
}
