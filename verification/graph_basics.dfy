/**
 * Shared vocabulary of the graph package: the errors its operations raise,
 * the "no cost" marker of the Graph interface, and small facts about
 * sequences used by the traversals and by the string form of a graph.
 */
module GraphBasics {

  /** The exceptions the graph operations throw, one constructor per cause. */
  datatype GraphError =
    | InvalidSize     // constructor called with a negative vertex count
    | InvalidVertex   // a vertex index outside [0, numVertices())
    | InvalidCost     // an explicit edge cost below zero
    | NoSuchElement   // next() on an exhausted neighbour iterator

  /** The value of an operation that returns something or throws. */
  datatype Result<+T> = Ok(value: T) | Err(error: GraphError)

  /** The value of an operation that returns nothing or throws. */
  datatype Outcome = Pass | Fail(error: GraphError)

  type NegativeInt = x: int | x < 0 witness -1

  /**
   * The cost stored for an edge that was added without a cost.  Its value
   * belongs to the Graph interface, which is not part of this model; all
   * the code relies on is that no legal user cost (those are >= 0) equals it.
   */
  const NO_COST: NegativeInt

  /** A cost that may be stored in a graph: the marker or a non-negative integer. */
  predicate StorableCost(c: int) {
    c == NO_COST || c >= 0
  }

  /** No element occurs twice. */
  predicate NoDup<T(==)>(s: seq<T>) {
    forall i, j :: 0 <= i < j < |s| ==> s[i] != s[j]
  }

  /** The set of elements of a sequence. */
  function Elems<T>(s: seq<T>): set<T> {
    set x | x in s
  }

  lemma {:induction false} NoDupAppend<T>(a: seq<T>, b: seq<T>)
    requires NoDup(a) && NoDup(b)
    requires forall x :: x in a ==> x !in b
    ensures NoDup(a + b)
  {
    forall i, j | 0 <= i < j < |a + b|
      ensures (a + b)[i] != (a + b)[j]
    {
      if j < |a| {
      } else if i < |a| {
        assert (a + b)[i] in a;
        assert (a + b)[j] == b[j - |a|];
      } else {
        assert (a + b)[i] == b[i - |a|];
        assert (a + b)[j] == b[j - |a|];
      }
    }
  }

  /** Appending to the second part of a concatenation appends to the whole. */
  lemma AppendOne<T>(a: seq<T>, b: seq<T>, x: T)
    ensures a + b + [x] == a + (b + [x])
  {
  }
}
