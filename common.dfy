/** Small value wrappers shared by the labs. */
module Common {

  datatype Option<T> = None | Some(value: T)

  /** The outcome of an operation that the original program can abort with an exception. */
  datatype Result<T, E> = Ok(value: T) | Err(error: E)

  /** The values occurring in `s`. */
  function Elems<T>(s: seq<T>): set<T> {
    set x | x in s
  }

  /** The list reversed, as `list.reverse()` or `[::-1]` leave it. */
  function Reversed<T>(s: seq<T>): (r: seq<T>)
    ensures |r| == |s| && forall i :: 0 <= i < |s| ==> r[i] == s[|s| - 1 - i]
  {
    if s == [] then [] else Reversed(s[1..]) + [s[0]]
  }

  /** A set that is not empty has a member to choose. */
  lemma Inhabited(s: set<int>)
    requires s != {}
    ensures exists x :: x in s
  {
    if forall x :: x !in s {
      assert false;
    }
  }

  /** A suffix is its first element followed by the rest. */
  lemma SuffixCons<T>(s: seq<T>, i: int)
    requires 0 <= i < |s|
    ensures s[i..] == [s[i]] + s[i + 1..]
  {
  }

  /** A list built backwards from the end of s, one more element of s added. */
  lemma ReversedSuffix<T>(cols: seq<T>, s: seq<T>, y: int, a: T)
    requires 0 <= y < |s| && Reversed(cols) == s[y + 1..] && s[y] == a
    ensures Reversed(cols + [a]) == s[y..]
  {
    ReversedAppend(cols, a);
    SuffixCons(s, y);
  }

  lemma ReversedAppend<T>(s: seq<T>, a: T)
    ensures Reversed(s + [a]) == [a] + Reversed(s)
  {
  }

  /** A non-empty list is its front followed by its last element. */
  lemma FrontLast<T>(s: seq<T>)
    requires |s| >= 1
    ensures s[..|s| - 1] + [s[|s| - 1]] == s
  {
  }

  /** Concatenation regroups freely. */
  lemma AppendAssoc<T>(a: seq<T>, b: seq<T>, c: seq<T>)
    ensures a + b + c == a + (b + c)
  {
  }

  /** No value occurs twice in `s`. */
  predicate Distinct<T(==)>(s: seq<T>) {
    forall i, j :: 0 <= i < j < |s| ==> s[i] != s[j]
  }
}
