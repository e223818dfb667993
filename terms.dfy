/** The eight academic terms and JavaScript's `Array.prototype.indexOf`,
    shared by the checklist, the schedule planner and the course graph. */
module Terms {

  /** The ordered academic terms, earliest first. */
  const TERMS: seq<string> := ["1A", "1B", "2A", "2B", "3A", "3B", "4A", "4B"]

  /** `xs.indexOf(x)`: the first position holding `x`, or -1 when there is none. */
  function IndexOf<T(==)>(xs: seq<T>, x: T): (i: int)
    ensures -1 <= i < |xs|
    ensures i == -1 <==> x !in xs
    ensures 0 <= i ==> xs[i] == x && forall j :: 0 <= j < i ==> xs[j] != x
  {
    if xs == [] then -1
    else if xs[0] == x then 0
    else
      var k := IndexOf(xs[1..], x);
      if k < 0 then -1 else k + 1
  }

  /** `TERMS.indexOf(t)`, written out term by term so that the verifier does
      not have to search the list; TermIndexIsIndexOf proves the two equal. */
  function TermIndex(t: string): (i: int)
    ensures -1 <= i < |TERMS|
  {
    if t == "1A" then 0 else if t == "1B" then 1
    else if t == "2A" then 2 else if t == "2B" then 3
    else if t == "3A" then 4 else if t == "3B" then 5
    else if t == "4A" then 6 else if t == "4B" then 7
    else -1
  }

  /** TermIndex is `TERMS.indexOf`: -1 exactly for the strings that are not
      terms, and otherwise the term's position. */
  lemma TermIndexIsIndexOf(t: string)
    ensures TermIndex(t) == IndexOf(TERMS, t)
    ensures TermIndex(t) == -1 <==> t !in TERMS
    ensures 0 <= TermIndex(t) ==> TERMS[TermIndex(t)] == t
  {
    var i := IndexOf(TERMS, t);
    if i >= 0 {
      assert TERMS[i] == t;
      TermIndexOfTerm(i);
    }
  }

  /** `TERMS.indexOf(t) < TERMS.indexOf(u)`, the comparison every component
      uses to decide that `t` lies before `u`. */
  predicate Before(t: string, u: string) {
    TermIndex(t) < TermIndex(u)
  }

  /** Each term's index is its position in TERMS. */
  lemma TermIndexOfTerm(k: int)
    requires 0 <= k < |TERMS|
    ensures TermIndex(TERMS[k]) == k
  {
  }

  /** Only the eight terms have a non-negative index. */
  lemma KnownTerm(t: string)
    ensures 0 <= TermIndex(t) <==> t in TERMS
  {
    TermIndexIsIndexOf(t);
  }

  /** An unknown term has index -1: nothing lies before it, and it lies
      before every known term. */
  lemma UnknownTerm(u: string)
    requires u !in TERMS
    ensures forall t :: !Before(t, u)
    ensures forall t :: t in TERMS ==> Before(u, t)
  {
    KnownTerm(u);
    forall t | t in TERMS ensures Before(u, t) {
      KnownTerm(t);
    }
  }
}
