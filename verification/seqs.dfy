/** Order-preserving filtering of sequences, used to project a form onto its alert boxes,
    error notes or remaining content. */
module Seqs {

  /** The elements of `s` that satisfy `keep`, in their original order. */
  function Filter<T>(s: seq<T>, keep: T -> bool): (r: seq<T>)
    ensures |r| <= |s|
  {
    if s == [] then []
    else (if keep(s[0]) then [s[0]] else []) + Filter(s[1..], keep)
  }

  /** Filtering distributes over concatenation. */
  lemma {:induction false} FilterConcat<T>(a: seq<T>, b: seq<T>, keep: T -> bool)
    ensures Filter(a + b, keep) == Filter(a, keep) + Filter(b, keep)
  {
    if a == [] {
      assert a + b == b;
    } else {
      var ab := a + b;
      var head := if keep(a[0]) then [a[0]] else [];
      assert ab[0] == a[0] && ab[1..] == a[1..] + b;
      FilterConcat(a[1..], b, keep);
      calc {
        Filter(ab, keep);
        head + Filter(a[1..] + b, keep);
        head + (Filter(a[1..], keep) + Filter(b, keep));
        (head + Filter(a[1..], keep)) + Filter(b, keep);
      }
    }
  }

  /** Filtering a sequence is filtering its three parts around index `i`. */
  lemma {:induction false} FilterSplit<T>(s: seq<T>, i: nat, keep: T -> bool)
    requires i < |s|
    ensures Filter(s, keep) == Filter(s[..i], keep) + Filter([s[i]], keep) + Filter(s[i + 1..], keep)
  {
    var a, b, c := s[..i], [s[i]], s[i + 1..];
    assert s == (a + b) + c;
    FilterConcat(a + b, c, keep);
    FilterConcat(a, b, keep);
  }

  /** Nothing survives a filter that rejects every element. */
  lemma {:induction false} FilterNone<T>(s: seq<T>, keep: T -> bool)
    requires forall i :: 0 <= i < |s| ==> !keep(s[i])
    ensures Filter(s, keep) == []
  {
    if s != [] {
      FilterNone(s[1..], keep);
    }
  }

  /** Everything survives a filter that accepts every element. */
  lemma {:induction false} FilterAll<T>(s: seq<T>, keep: T -> bool)
    requires forall i :: 0 <= i < |s| ==> keep(s[i])
    ensures Filter(s, keep) == s
  {
    if s != [] {
      FilterAll(s[1..], keep);
      assert s == [s[0]] + s[1..];
    }
  }

  /** Two sequences that agree on which positions are kept, and on the kept elements,
      filter to the same sequence. */
  lemma {:induction false} FilterPointwise<T>(a: seq<T>, b: seq<T>, keep: T -> bool)
    requires |a| == |b|
    requires forall i :: 0 <= i < |a| ==> keep(a[i]) == keep(b[i])
    requires forall i :: 0 <= i < |a| && keep(a[i]) ==> a[i] == b[i]
    ensures Filter(a, keep) == Filter(b, keep)
  {
    if a != [] {
      FilterPointwise(a[1..], b[1..], keep);
    }
  }

  /** A one-element sequence keeps its element exactly when the predicate holds. */
  lemma {:induction false} FilterSingle<T>(x: T, keep: T -> bool)
    ensures Filter([x], keep) == if keep(x) then [x] else []
  {
    assert [x][1..] == [];
  }
}
