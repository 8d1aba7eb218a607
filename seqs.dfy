/**
  The two shapes every builder of src/lib.rs has: a string built by appending one piece per
  element (`FlatMap`), and a length measured by adding one count per element (`Sum`).
 */
module Seqs {

  /** The pieces `f(s[0])`, `f(s[1])`, ... joined in order. */
  function FlatMap<T, U>(f: T -> seq<U>, s: seq<T>): seq<U>
    decreases |s|
  {
    if s == [] then [] else f(s[0]) + FlatMap(f, s[1..])
  }

  /** `f(s[0]) + f(s[1]) + ...`. */
  function Sum<T>(f: T -> nat, s: seq<T>): nat
    decreases |s|
  {
    if s == [] then 0 else f(s[0]) + Sum(f, s[1..])
  }

  lemma {:induction false} FlatMapAppend<T, U>(f: T -> seq<U>, a: seq<T>, b: seq<T>)
    ensures FlatMap(f, a + b) == FlatMap(f, a) + FlatMap(f, b)
    decreases |a|
  {
    if a == [] {
      assert a + b == b;
    } else {
      assert (a + b)[1..] == a[1..] + b;
      FlatMapAppend(f, a[1..], b);
    }
  }

  /** Appending one element appends its piece: the step of a loop that builds the string. */
  lemma FlatMapSnoc<T, U>(f: T -> seq<U>, s: seq<T>, x: T)
    ensures FlatMap(f, s + [x]) == FlatMap(f, s) + f(x)
  {
    FlatMapAppend(f, s, [x]);
    assert FlatMap(f, [x]) == f(x) + FlatMap(f, []);
  }

  /** Element `i` contributes its piece between the pieces of the elements before and after it. */
  lemma FlatMapAt<T, U>(f: T -> seq<U>, s: seq<T>, i: nat)
    requires i < |s|
    ensures FlatMap(f, s) == FlatMap(f, s[..i]) + f(s[i]) + FlatMap(f, s[i + 1..])
  {
    var tail := s[i..];
    assert s == s[..i] + tail;
    FlatMapAppend(f, s[..i], tail);
    assert tail[1..] == s[i + 1..];
  }

  /** The length of a joined string, when every piece has the length `g` gives it. */
  lemma {:induction false} FlatMapLength<T, U>(f: T -> seq<U>, g: T -> nat, s: seq<T>)
    requires forall i :: 0 <= i < |s| ==> |f(s[i])| == g(s[i])
    ensures |FlatMap(f, s)| == Sum(g, s)
    decreases |s|
  {
    if s != [] {
      assert forall i :: 0 <= i < |s[1..]| ==> s[1..][i] == s[i + 1];
      FlatMapLength(f, g, s[1..]);
    }
  }

  lemma {:induction false} SumAppend<T>(f: T -> nat, a: seq<T>, b: seq<T>)
    ensures Sum(f, a + b) == Sum(f, a) + Sum(f, b)
    decreases |a|
  {
    if a == [] {
      assert a + b == b;
    } else {
      assert (a + b)[1..] == a[1..] + b;
      SumAppend(f, a[1..], b);
    }
  }

  /** Cutting `a + b` inside `a`. */
  lemma AppendCut<T>(a: seq<T>, b: seq<T>, n: nat)
    requires n <= |a|
    ensures (a + b)[..n] == a[..n] && (a + b)[n..] == a[n..] + b
  {
  }

  lemma AppendAssoc<T>(a: seq<T>, b: seq<T>, c: seq<T>)
    ensures (a + b) + c == a + (b + c)
  {
  }
}
