/** Generic building blocks shared by the model: an optional value (JavaScript's
    `null`/`undefined` versus a value) and the sequence operations that the
    document store performs on its collections (find the first match, keep the
    matches, replace one document, append one document). */
module Common {

  datatype Option<+T> = None | Some(value: T)

  /** The first position whose element satisfies `p`, as a `findOne` over a
      collection in natural order returns the first matching document. */
  function FirstIndex<T>(s: seq<T>, p: T -> bool): (r: Option<nat>)
    ensures r.Some? ==> r.value < |s| && p(s[r.value])
    ensures r.Some? ==> forall j :: 0 <= j < r.value ==> !p(s[j])
    ensures r.None? <==> forall j :: 0 <= j < |s| ==> !p(s[j])
  {
    if s == [] then None
    else if p(s[0]) then Some(0)
    else match FirstIndex(s[1..], p)
      case None => None
      case Some(i) => Some(i + 1)
  }

  /** The elements of `s` that satisfy `keep`, in their original order. */
  function Filter<T>(s: seq<T>, keep: T -> bool): (r: seq<T>)
    ensures |r| <= |s|
    ensures forall i :: 0 <= i < |r| ==> r[i] in s && keep(r[i])
    ensures forall i :: 0 <= i < |s| && keep(s[i]) ==> s[i] in r
    ensures (forall i :: 0 <= i < |s| ==> !keep(s[i])) ==> r == []
  {
    if s == [] then []
    else
      assert s == [s[0]] + s[1..];
      if keep(s[0]) then [s[0]] + Filter(s[1..], keep) else Filter(s[1..], keep)
  }

  /** `s` read from its last element to its first. */
  function Reverse<T>(s: seq<T>): (r: seq<T>)
    ensures |r| == |s|
    ensures forall i :: 0 <= i < |s| ==> r[|s| - 1 - i] == s[i]
  {
    seq(|s|, i requires 0 <= i < |s| => s[|s| - 1 - i])
  }

  /** Every earlier element stands in relation `R` to every later one. */
  ghost predicate Pairwise<T>(s: seq<T>, R: (T, T) -> bool)
  {
    forall i, j :: 0 <= i < j < |s| ==> R(s[i], s[j])
  }

  lemma AppendKeepsPairwise<T>(s: seq<T>, x: T, R: (T, T) -> bool)
    requires Pairwise(s, R)
    requires forall j :: 0 <= j < |s| ==> R(s[j], x)
    ensures Pairwise(s + [x], R)
  {
  }

  lemma ReplaceKeepsPairwise<T>(s: seq<T>, k: nat, x: T, R: (T, T) -> bool)
    requires Pairwise(s, R) && k < |s|
    requires forall j :: 0 <= j < k ==> R(s[j], x)
    requires forall j :: k < j < |s| ==> R(x, s[j])
    ensures Pairwise(s[k := x], R)
  {
  }

  /** Dropping the first element keeps a pairwise relation. */
  lemma TailKeepsRelation<T>(s: seq<T>, R: (T, T) -> bool)
    requires s != [] && Pairwise(s, R)
    ensures Pairwise(s[1..], R)
  {
    var rest := s[1..];
    forall i, j | 0 <= i < j < |rest| ensures R(rest[i], rest[j]) {
      assert rest[i] == s[i + 1] && rest[j] == s[j + 1];
    }
  }

  /** The first element is related to everything kept from the rest. */
  lemma HeadBeforeKept<T>(s: seq<T>, keep: T -> bool, R: (T, T) -> bool)
    requires s != [] && Pairwise(s, R)
    ensures forall i :: 0 <= i < |Filter(s[1..], keep)| ==> R(s[0], Filter(s[1..], keep)[i])
  {
    var rest := s[1..];
    var t := Filter(rest, keep);
    forall i | 0 <= i < |t| ensures R(s[0], t[i]) {
      var k :| 0 <= k < |rest| && rest[k] == t[i];
      assert rest[k] == s[k + 1];
    }
  }

  /** Putting in front an element related to everything keeps a pairwise
      relation. */
  lemma ConsKeepsPairwise<T>(x: T, t: seq<T>, R: (T, T) -> bool)
    requires Pairwise(t, R)
    requires forall i :: 0 <= i < |t| ==> R(x, t[i])
    ensures Pairwise([x] + t, R)
  {
    var r := [x] + t;
    forall i, j | 0 <= i < j < |r| ensures R(r[i], r[j]) {
      if i == 0 {
        assert r[j] == t[j - 1];
      } else {
        assert r[i] == t[i - 1] && r[j] == t[j - 1];
      }
    }
  }

  /** Keeping some of the documents keeps their relative order, so every
      pairwise invariant of a collection survives a `deleteMany`. */
  lemma {:induction false} FilterKeepsPairwise<T>(s: seq<T>, keep: T -> bool, R: (T, T) -> bool)
    ensures Pairwise(s, R) ==> Pairwise(Filter(s, keep), R)
  {
    if s != [] && Pairwise(s, R) {
      var rest := s[1..];
      TailKeepsRelation(s, R);
      FilterKeepsPairwise(rest, keep, R);
      var t := Filter(rest, keep);
      if keep(s[0]) {
        HeadBeforeKept(s, keep, R);
        ConsKeepsPairwise(s[0], t, R);
      }
    }
  }
}
