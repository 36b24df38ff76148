/** Order-preserving selection over sequences: the `filter` of the inspector's tree code and the
    "append every match" loops of the Go sources are all instances of `Filter`. */
module Seqs {
  import opened Wrappers

  /** The elements of `s` for which `keep` holds, in their original order. */
  function Filter<T>(s: seq<T>, keep: T -> bool): (r: seq<T>)
    ensures |r| <= |s|
    ensures forall x :: x in r ==> x in s && keep(x)
  {
    if s == [] then [] else (if keep(s[0]) then [s[0]] else []) + Filter(s[1..], keep)
  }

  /** Filtering distributes over concatenation: this is what "in the original order" means. */
  lemma {:induction false} FilterAppend<T>(a: seq<T>, b: seq<T>, keep: T -> bool)
    ensures Filter(a + b, keep) == Filter(a, keep) + Filter(b, keep)
  {
    if a == [] {
      assert a + b == b;
    } else {
      assert (a + b)[1..] == a[1..] + b;
      FilterAppend(a[1..], b, keep);
    }
  }

  /** Filtering a prefix selects a prefix of what filtering the whole selects. */
  lemma FilterPrefix<T>(s: seq<T>, keep: T -> bool, n: nat)
    requires n <= |s|
    ensures Filter(s[..n], keep) <= Filter(s, keep)
  {
    assert s == s[..n] + s[n..];
    FilterAppend(s[..n], s[n..], keep);
  }

  /** Every element that satisfies `keep` is selected. */
  lemma {:induction false} FilterComplete<T>(s: seq<T>, keep: T -> bool, x: T)
    requires x in s && keep(x)
    ensures x in Filter(s, keep)
  {
    if s[0] != x {
      assert x in s[1..];
      FilterComplete(s[1..], keep, x);
    }
  }

  /** Membership in a filtered sequence, both directions. */
  lemma FilterMembership<T>(s: seq<T>, keep: T -> bool)
    ensures forall x :: x in Filter(s, keep) <==> x in s && keep(x)
  {
    forall x | x in s && keep(x)
      ensures x in Filter(s, keep)
    {
      FilterComplete(s, keep, x);
    }
  }

  /** The index of the first element of `s` that satisfies `keep`, if there is one. */
  function FirstMatch<T>(s: seq<T>, keep: T -> bool): (r: Option<nat>)
    ensures r.Some? ==> r.value < |s| && keep(s[r.value])
    ensures r.Some? ==> forall j :: 0 <= j < r.value ==> !keep(s[j])
    ensures r.None? ==> forall j :: 0 <= j < |s| ==> !keep(s[j])
  {
    if s == [] then None
    else if keep(s[0]) then Some(0)
    else match FirstMatch(s[1..], keep)
      case None => None
      case Some(i) => Some(i + 1)
  }

  /** The head of a filtered sequence is the first element that satisfies `keep`, and the
      filtered sequence is empty exactly when no element does. */
  lemma {:induction false} FilterHead<T>(s: seq<T>, keep: T -> bool)
    ensures Filter(s, keep) == [] <==> FirstMatch(s, keep).None?
    ensures FirstMatch(s, keep).Some? ==> Filter(s, keep)[0] == s[FirstMatch(s, keep).value]
  {
    if s != [] && !keep(s[0]) {
      FilterHead(s[1..], keep);
    }
  }

  /** `FirstMatch` is pinned down by its contract: an index that satisfies `keep` after
      none that does is the first match. */
  lemma FirstMatchIs<T>(s: seq<T>, keep: T -> bool, i: nat)
    requires i < |s| && keep(s[i])
    requires forall j :: 0 <= j < i ==> !keep(s[j])
    ensures FirstMatch(s, keep) == Some(i)
  {
  }

  lemma FirstMatchNone<T>(s: seq<T>, keep: T -> bool)
    requires forall j :: 0 <= j < |s| ==> !keep(s[j])
    ensures FirstMatch(s, keep).None?
  {
  }
}
