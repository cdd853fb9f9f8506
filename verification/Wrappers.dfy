/** Results and finite collections shared by the models. */
module Wrappers {

  datatype Option<+T> = None | Some(value: T)

  /** A Go `(value, error)` pair in which the value is only meaningful when there is no error. */
  datatype Result<+T, +E> = Ok(value: T) | Err(error: E)

  /** The elements of a slice, forgetting order and repetition. */
  function SetOf<T>(s: seq<T>): set<T> {
    set x | x in s
  }

  predicate Distinct<T(==)>(s: seq<T>) {
    forall i, j :: 0 <= i < j < |s| ==> s[i] != s[j]
  }

  lemma SetOfConcat<T>(s: seq<T>, t: seq<T>)
    ensures SetOf(s + t) == SetOf(s) + SetOf(t)
  {
    assert forall x :: x in s + t <==> x in s || x in t;
  }

  lemma SameElements<T>(s: seq<T>, t: seq<T>)
    requires SetOf(s) == SetOf(t)
    ensures forall x :: x in s <==> x in t
  {
    assert forall x :: x in s <==> x in SetOf(s);
    assert forall x :: x in t <==> x in SetOf(t);
  }

  lemma SetOfAppend<T>(s: seq<T>, x: T)
    ensures SetOf(s + [x]) == SetOf(s) + {x}
  {
    assert (s + [x])[|s|] == x;
  }

  lemma SetOfTake<T>(s: seq<T>, i: nat)
    requires i < |s|
    ensures SetOf(s[..i + 1]) == SetOf(s[..i]) + {s[i]}
  {
    assert s[..i + 1] == s[..i] + [s[i]];
    SetOfAppend(s[..i], s[i]);
  }
}
