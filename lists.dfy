/** List operations the components share: `filter(v => v !== x)` and the
    "remove if present, else append" toggle used by the degree modal and the
    faculty selector. */
module Lists {

  /** No value occurs twice in `xs`. */
  predicate NoDup(xs: seq<string>) {
    forall i, j :: 0 <= i < j < |xs| ==> xs[i] != xs[j]
  }

  /** `xs.filter(v => v !== x)`: every occurrence of `x` dropped, the rest in order. */
  function RemoveAll(xs: seq<string>, x: string): (r: seq<string>)
    ensures x !in r
    ensures forall y :: y in r <==> y in xs && y != x
    ensures |r| <= |xs|
  {
    if xs == [] then []
    else if xs[0] == x then RemoveAll(xs[1..], x)
    else [xs[0]] + RemoveAll(xs[1..], x)
  }

  /** `xs.includes(x) ? xs.filter(v => v !== x) : [...xs, x]`. */
  function Toggle(xs: seq<string>, x: string): seq<string> {
    if x in xs then RemoveAll(xs, x) else xs + [x]
  }

  /** Dropping values from a duplicate-free list keeps it duplicate-free. */
  lemma {:induction false} RemoveAllNoDup(xs: seq<string>, x: string)
    requires NoDup(xs)
    ensures NoDup(RemoveAll(xs, x))
  {
    if xs != [] {
      assert NoDup(xs[1..]);
      RemoveAllNoDup(xs[1..], x);
      if xs[0] != x {
        assert xs[0] !in xs[1..];
        assert xs[0] !in RemoveAll(xs[1..], x);
      }
    }
  }

  /** A value that does not occur is left in place by RemoveAll. */
  lemma {:induction false} RemoveAbsent(xs: seq<string>, x: string)
    requires x !in xs
    ensures RemoveAll(xs, x) == xs
  {
    if xs != [] {
      RemoveAbsent(xs[1..], x);
    }
  }

  /** Toggling a present value removes every occurrence of it; toggling an
      absent one appends it at the end. */
  lemma ToggleCases(xs: seq<string>, x: string)
    ensures x in xs ==> x !in Toggle(xs, x) && forall y :: y != x ==> (y in Toggle(xs, x) <==> y in xs)
    ensures x !in xs ==> Toggle(xs, x) == xs + [x]
  {
  }

  /** A duplicate-free list stays duplicate-free under Toggle. */
  lemma ToggleNoDup(xs: seq<string>, x: string)
    requires NoDup(xs)
    ensures NoDup(Toggle(xs, x))
  {
    if x in xs {
      RemoveAllNoDup(xs, x);
    }
  }

  /** Toggling the same value twice gives back the same set of values (the
      order may differ: a removed value comes back at the end). */
  lemma ToggleTwice(xs: seq<string>, x: string)
    ensures forall y :: y in Toggle(Toggle(xs, x), x) <==> y in xs
  {
    if x in xs {
      assert x !in RemoveAll(xs, x);
    } else {
      RemoveAbsent(xs, x);
    }
  }

  /** When `x` is absent, toggling it twice gives back the very same list. */
  lemma ToggleTwiceAbsent(xs: seq<string>, x: string)
    requires x !in xs
    ensures Toggle(Toggle(xs, x), x) == xs
  {
    assert x in xs + [x];
    RemoveAllAppended(xs, x);
  }

  lemma {:induction false} RemoveAllAppended(xs: seq<string>, x: string)
    requires x !in xs
    ensures RemoveAll(xs + [x], x) == xs
  {
    if xs == [] {
      assert [x][1..] == [];
    } else {
      assert (xs + [x])[1..] == xs[1..] + [x];
      RemoveAllAppended(xs[1..], x);
    }
  }

  /** A prefix one longer is the prefix with the next element appended. */
  lemma TakeNext<T>(xs: seq<T>, k: nat)
    requires k < |xs|
    ensures xs[..k + 1] == xs[..k] + [xs[k]]
  {
  }

  /** The prefix one longer, cut back, is the shorter prefix. */
  lemma TakeTake<T>(xs: seq<T>, i: nat)
    requires i < |xs|
    ensures xs[..i + 1][..i] == xs[..i] && xs[..i + 1][i] == xs[i]
  {
  }

  /** The whole prefix is the sequence. */
  lemma TakeAll<T>(xs: seq<T>)
    ensures xs[..|xs|] == xs
  {
  }

  /** Appending and cutting back the last element undo each other. */
  lemma SnocInit<T>(xs: seq<T>, x: T)
    ensures (xs + [x])[..|xs|] == xs
  {
  }

  /** A non-empty sequence is its front with its last element appended. */
  lemma InitLast<T>(xs: seq<T>)
    requires xs != []
    ensures xs[..|xs| - 1] + [xs[|xs| - 1]] == xs
  {
  }

  /** Indexing a concatenation on either side of the seam. */
  lemma IndexAppend<T>(a: seq<T>, b: seq<T>, i: nat)
    requires i < |a| + |b|
    ensures i < |a| ==> (a + b)[i] == a[i]
    ensures |a| <= i ==> (a + b)[i] == b[i - |a|]
  {
  }

  /** The head and the tail of a concatenation whose front is non-empty. */
  lemma HeadTailAppend<T>(a: seq<T>, b: seq<T>)
    requires a != []
    ensures (a + b)[0] == a[0] && (a + b)[1..] == a[1..] + b
  {
  }

  /** Concatenation is associative. */
  lemma AppendAssoc<T>(a: seq<T>, b: seq<T>, c: seq<T>)
    ensures (a + b) + c == a + (b + c)
  {
  }

  /** The empty sequence is a left unit of concatenation. */
  lemma EmptyAppend<T>(a: seq<T>)
    ensures [] + a == a
  {
  }

  /** The empty sequence is a right unit of concatenation. */
  lemma AppendEmpty<T>(a: seq<T>)
    ensures a + [] == a
  {
  }

  /** The pieces `f(xs[0]) + ... + f(xs[n - 1])`, in order. */
  function FlatMapUpTo<T, U>(xs: seq<T>, f: T -> seq<U>, n: nat): seq<U>
    requires n <= |xs|
  {
    if n == 0 then [] else FlatMapUpTo(xs, f, n - 1) + f(xs[n - 1])
  }

  /** Every element of every piece appears in the concatenation, at a
      position the lemma returns. */
  lemma {:induction false} FlatMapAt<T, U>(xs: seq<T>, f: T -> seq<U>, n: nat, i: int, m: nat) returns (j: nat)
    requires 0 <= i < n <= |xs| && m < |f(xs[i])|
    ensures j < |FlatMapUpTo(xs, f, n)| && FlatMapUpTo(xs, f, n)[j] == f(xs[i])[m]
  {
    var prev := FlatMapUpTo(xs, f, n - 1);
    if i < n - 1 {
      j := FlatMapAt(xs, f, n - 1, i, m);
    } else {
      j := |prev| + m;
    }
    IndexAppend(prev, f(xs[n - 1]), j);
  }
}
