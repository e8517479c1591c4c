/** Functional-style helpers of the puzzle library: sum, map, filter and join. */
module Support {

  /** `sum`: the left fold of `+` over the sequence, starting from 0. */
  function Sum(v: seq<int>): int
  {
    if |v| == 0 then 0 else Sum(v[..|v| - 1]) + v[|v| - 1]
  }

  /** The left fold agrees with the right fold: a sum splits over concatenation. */
  lemma {:induction false} SumConcat(a: seq<int>, b: seq<int>)
    ensures Sum(a + b) == Sum(a) + Sum(b)
  {
    if |b| == 0 {
      assert a + b == a;
    } else {
      assert (a + b)[..|a + b| - 1] == a + b[..|b| - 1];
      SumConcat(a, b[..|b| - 1]);
    }
  }

  lemma SumCons(x: int, v: seq<int>)
    ensures Sum([x] + v) == x + Sum(v)
  {
    SumConcat([x], v);
    assert [x][..0] == [];
  }

  /** `_map`, as a value: the image of every element, in order. */
  function Mapped<T, U>(v: seq<T>, f: T -> U): (r: seq<U>)
    ensures |r| == |v|
    ensures forall i | 0 <= i < |v| :: r[i] == f(v[i])
  {
    if v == [] then [] else [f(v[0])] + Mapped(v[1..], f)
  }

  lemma MappedSnoc<T, U>(v: seq<T>, i: nat, f: T -> U)
    requires i < |v|
    ensures Mapped(v[..i + 1], f) == Mapped(v[..i], f) + [f(v[i])]
  {
  }

  /** `_map`: a result vector of the input's size, filled element by element. */
  method Map<T, U>(v: seq<T>, f: T -> U) returns (r: seq<U>)
    ensures |r| == |v|
    ensures forall i | 0 <= i < |v| :: r[i] == f(v[i])
  {
    r := [];
    var i := 0;
    while i < |v|
      invariant 0 <= i <= |v|
      invariant r == Mapped(v[..i], f)
    {
      MappedSnoc(v, i, f);
      r := r + [f(v[i])];
      i := i + 1;
    }
    assert v[..i] == v;
  }

  /** `filter`, as a value: the elements satisfying `p`, in their original order. */
  function Filtered<T>(v: seq<T>, p: T -> bool): (r: seq<T>)
    ensures |r| <= |v|
  {
    if v == [] then []
    else (if p(v[0]) then [v[0]] else []) + Filtered(v[1..], p)
  }

  lemma {:induction false} FilteredConcat<T>(a: seq<T>, b: seq<T>, p: T -> bool)
    ensures Filtered(a + b, p) == Filtered(a, p) + Filtered(b, p)
  {
    if a == [] {
      assert a + b == b;
    } else {
      var ab := a + b;
      assert ab[0] == a[0];
      assert ab[1..] == a[1..] + b;
      FilteredConcat(a[1..], b, p);
      var head := if p(a[0]) then [a[0]] else [];
      assert Filtered(ab, p) == head + Filtered(a[1..] + b, p);
      assert Filtered(a, p) == head + Filtered(a[1..], p);
    }
  }

  /** An element is kept exactly when it occurs in the input and satisfies `p`. */
  lemma {:induction false} FilteredMembers<T>(v: seq<T>, p: T -> bool, x: T)
    ensures x in Filtered(v, p) <==> x in v && p(x)
  {
    if v != [] {
      FilteredMembers(v[1..], p, x);
      assert v == [v[0]] + v[1..];
    }
  }

  /** `a` is obtained from `b` by deleting elements, keeping the order of the rest. */
  predicate IsSubsequence<T(==)>(a: seq<T>, b: seq<T>)
    decreases |b|
  {
    if a == [] then true
    else if b == [] then false
    else (a[0] == b[0] && IsSubsequence(a[1..], b[1..])) || IsSubsequence(a, b[1..])
  }

  /** The kept elements appear in the same relative order as in the input. */
  lemma {:induction false} FilteredIsSubsequence<T>(v: seq<T>, p: T -> bool)
    ensures IsSubsequence(Filtered(v, p), v)
  {
    if v != [] {
      FilteredIsSubsequence(v[1..], p);
      if p(v[0]) {
        assert Filtered(v, p) == [v[0]] + Filtered(v[1..], p);
        assert Filtered(v, p)[1..] == Filtered(v[1..], p);
      } else {
        assert Filtered(v, p) == Filtered(v[1..], p);
        SubsequenceOfTail(Filtered(v[1..], p), v);
      }
    }
  }

  lemma {:induction false} SubsequenceOfTail<T>(a: seq<T>, b: seq<T>)
    requires b != []
    requires IsSubsequence(a, b[1..])
    ensures IsSubsequence(a, b)
  {
  }

  /** No element occurs twice. */
  predicate Distinct<T(==)>(v: seq<T>)
  {
    forall i, j | 0 <= i < j < |v| :: v[i] != v[j]
  }

  /** Filtering a sequence without duplicates yields one without duplicates. */
  lemma {:induction false} FilteredDistinct<T>(v: seq<T>, p: T -> bool)
    requires Distinct(v)
    ensures Distinct(Filtered(v, p))
  {
    if v != [] {
      assert Distinct(v[1..]) by {
        forall i, j | 0 <= i < j < |v[1..]| ensures v[1..][i] != v[1..][j] {
          assert v[1..][i] == v[i + 1] && v[1..][j] == v[j + 1];
        }
      }
      FilteredDistinct(v[1..], p);
      if p(v[0]) {
        FilteredMembers(v[1..], p, v[0]);
        assert v[0] !in v[1..] by {
          forall k | 0 <= k < |v[1..]| ensures v[1..][k] != v[0] {
            assert v[1..][k] == v[k + 1];
          }
        }
        var r := Filtered(v, p);
        assert r == [v[0]] + Filtered(v[1..], p);
        forall i, j | 0 <= i < j < |r| ensures r[i] != r[j] {
          if i == 0 {
            assert r[j] == Filtered(v[1..], p)[j - 1];
            assert r[j] in Filtered(v[1..], p);
          } else {
            assert r[i] == Filtered(v[1..], p)[i - 1];
            assert r[j] == Filtered(v[1..], p)[j - 1];
          }
        }
      }
    }
  }

  /** `filter`: the elements satisfying `p`, pushed back in order. */
  method Filter<T>(v: seq<T>, p: T -> bool) returns (r: seq<T>)
    ensures r == Filtered(v, p)
  {
    r := [];
    var i := 0;
    while i < |v|
      invariant 0 <= i <= |v|
      invariant r == Filtered(v[..i], p)
    {
      assert v[..i + 1] == v[..i] + [v[i]];
      FilteredConcat(v[..i], [v[i]], p);
      if p(v[i]) {
        r := r + [v[i]];
      }
      i := i + 1;
    }
    assert v[..i] == v;
  }

  /** `join`, as a value: the strings with `d` between neighbours. */
  function Joined(v: seq<string>, d: string): string
  {
    if |v| == 0 then ""
    else if |v| == 1 then v[0]
    else v[0] + d + Joined(v[1..], d)
  }

  /** Total length of a list of strings. */
  function TotalLength(v: seq<string>): nat
  {
    if v == [] then 0 else |v[0]| + TotalLength(v[1..])
  }

  /** A joined string holds every piece and one delimiter between each two neighbours. */
  lemma {:induction false} JoinedLength(v: seq<string>, d: string)
    requires |v| >= 1
    ensures |Joined(v, d)| == TotalLength(v) + (|v| - 1) * |d|
  {
    if |v| > 1 {
      JoinedLength(v[1..], d);
    }
  }

  /** Appending one more piece appends the delimiter and that piece. */
  lemma {:induction false} JoinedSnoc(v: seq<string>, x: string, d: string)
    requires |v| >= 1
    ensures Joined(v + [x], d) == Joined(v, d) + d + x
  {
    if |v| == 1 {
      assert (v + [x])[1..] == [x];
    } else {
      assert (v + [x])[1..] == v[1..] + [x];
      JoinedSnoc(v[1..], x, d);
    }
  }

  /** Joining two non-empty lists puts one delimiter between their joins. */
  lemma {:induction false} JoinedConcat(a: seq<string>, b: seq<string>, d: string)
    requires |a| >= 1 && |b| >= 1
    ensures Joined(a + b, d) == Joined(a, d) + d + Joined(b, d)
  {
    if |a| == 1 {
      assert (a + b)[1..] == b;
    } else {
      assert (a + b)[1..] == a[1..] + b;
      JoinedConcat(a[1..], b, d);
    }
  }

  /** `join`: start from the first piece and append delimiter and piece for each further one. */
  method Join(v: seq<string>, d: string) returns (s: string)
    ensures s == Joined(v, d)
  {
    if |v| < 2 {
      return if |v| > 0 then v[0] else "";
    }
    s := v[0];
    var i := 1;
    while i < |v|
      invariant 1 <= i <= |v|
      invariant s == Joined(v[..i], d)
    {
      assert v[..i + 1] == v[..i] + [v[i]];
      JoinedSnoc(v[..i], v[i], d);
      s := s + (d + v[i]);
      i := i + 1;
    }
    assert v[..i] == v;
  }
}
