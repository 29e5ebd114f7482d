/** Option type used for lookups that may find nothing. */
module Wrappers {

  datatype Option<+T> = None | Some(value: T)
}

/**
 Sequence combinators with the meaning of the JavaScript array methods the
 server uses (`findIndex`, `some`, `splice(i, 1)`), and `Filter`, the effect of
 a loop that deletes entries from a `Map` while iterating it.
 */
module Seqs {
  import opened Wrappers

  /** `Array.prototype.findIndex`: the first position whose element satisfies `p`. */
  function FindIndex<T>(s: seq<T>, p: T -> bool): (r: Option<nat>)
    ensures r.Some? ==> r.value < |s| && p(s[r.value])
    ensures r.Some? ==> forall j :: 0 <= j < r.value ==> !p(s[j])
    ensures r.None? <==> forall j :: 0 <= j < |s| ==> !p(s[j])
  {
    if |s| == 0 then None
    else if p(s[0]) then Some(0)
    else match FindIndex(s[1..], p)
      case None => None
      case Some(k) => Some(k + 1)
  }

  /** `Array.prototype.some`. */
  predicate Any<T>(s: seq<T>, p: T -> bool)
  {
    FindIndex(s, p).Some?
  }

  /** Keeps the elements satisfying `p`, in their original order: what remains
      of an insertion-ordered collection after one pass that visits every
      element in order and deletes those failing `p`. */
  function Filter<T>(s: seq<T>, p: T -> bool): (r: seq<T>)
    ensures |r| <= |s|
    ensures forall i :: 0 <= i < |r| ==> r[i] in s && p(r[i])
    ensures forall i :: 0 <= i < |s| && p(s[i]) ==> s[i] in r
    ensures (forall i :: 0 <= i < |s| ==> p(s[i])) ==> r == s
  {
    if |s| == 0 then []
    else if p(s[0]) then [s[0]] + Filter(s[1..], p)
    else Filter(s[1..], p)
  }

  /** `Array.prototype.splice(i, 1)`: drops position `i` and closes the gap. */
  function RemoveAt<T>(s: seq<T>, i: nat): (r: seq<T>)
    requires i < |s|
    ensures |r| == |s| - 1
    ensures forall j :: 0 <= j < i ==> r[j] == s[j]
    ensures forall j :: i <= j < |r| ==> r[j] == s[j + 1]
  {
    s[..i] + s[i + 1..]
  }

  /** Two sequences that agree, position by position, on the predicates searched
      for have their first hits at the same place. */
  lemma {:induction false} FindIndexCongruent<T, U>(s: seq<T>, p: T -> bool, t: seq<U>, q: U -> bool)
    requires |s| == |t|
    requires forall j :: 0 <= j < |s| ==> p(s[j]) == q(t[j])
    ensures FindIndex(s, p) == FindIndex(t, q)
  {
    if |s| > 0 && !p(s[0]) {
      FindIndexCongruent(s[1..], p, t[1..], q);
    }
  }

  /** Filtering distributes over concatenation, so the pass visits the
      elements strictly in order: the survivors of a prefix come first, in
      their own order, and each element is kept at most once. */
  lemma {:induction false} FilterConcat<T>(s: seq<T>, t: seq<T>, p: T -> bool)
    ensures Filter(s + t, p) == Filter(s, p) + Filter(t, p)
    decreases |s|
  {
    if |s| == 0 {
      assert s + t == t;
    } else {
      assert (s + t)[0] == s[0];
      assert (s + t)[1..] == s[1..] + t;
      FilterConcat(s[1..], t, p);
    }
  }

  /** Filtering by a weaker predicate first changes nothing: a second filter
      by `q` where `q` implies `p` sees only what the first one kept. */
  lemma {:induction false} FilterAbsorbs<T>(s: seq<T>, p: T -> bool, q: T -> bool)
    requires forall x :: q(x) ==> p(x)
    ensures Filter(Filter(s, p), q) == Filter(s, q)
  {
    if |s| == 0 {
    } else {
      FilterAbsorbs(s[1..], p, q);
      if p(s[0]) {
        var rest := Filter(s[1..], p);
        assert ([s[0]] + rest)[0] == s[0];
        assert ([s[0]] + rest)[1..] == rest;
      }
    }
  }
}
