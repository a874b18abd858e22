/** Types shared by the models of the individual source files. */
module Common {
  datatype Option<+T> = None | Some(value: T)

  function Min(x: int, y: int): int {
    if x <= y then x else y
  }

  function Max(x: int, y: int): int {
    if x >= y then x else y
  }

  /** `f` applied to every element, in order. */
  function MapSeq<A, B>(f: A -> B, s: seq<A>): (r: seq<B>)
    ensures |r| == |s| && forall i {:trigger r[i]} :: 0 <= i < |s| ==> r[i] == f(s[i])
  {
    seq(|s|, i requires 0 <= i < |s| => f(s[i]))
  }

  /** The first `n` pieces, one after the other. */
  function Concat<T>(ps: seq<seq<T>>, n: nat): (r: seq<T>)
    requires n <= |ps|
  {
    if n == 0 then [] else Concat(ps, n - 1) + ps[n - 1]
  }

  /** Element `x` of piece `k` comes right after the pieces before it. */
  lemma {:induction false} ConcatAt<T>(ps: seq<seq<T>>, n: nat, k: nat, x: nat)
    requires k < n <= |ps| && x < |ps[k]|
    ensures |Concat(ps, k)| + x < |Concat(ps, n)| && Concat(ps, n)[|Concat(ps, k)| + x] == ps[k][x]
  {
    if k < n - 1 {
      ConcatAt(ps, n - 1, k, x);
    }
  }

  lemma MapConcat<A, B>(f: A -> B, s: seq<A>, t: seq<A>)
    ensures MapSeq(f, s + t) == MapSeq(f, s) + MapSeq(f, t)
  {
  }

  lemma {:induction false} ConcatMap<A, B>(f: A -> B, ps: seq<seq<A>>, qs: seq<seq<B>>, n: nat)
    requires n <= |ps| && n <= |qs| && forall k :: 0 <= k < n ==> qs[k] == MapSeq(f, ps[k])
    ensures Concat(qs, n) == MapSeq(f, Concat(ps, n))
  {
    if n > 0 {
      ConcatMap(f, ps, qs, n - 1);
      MapConcat(f, Concat(ps, n - 1), ps[n - 1]);
    }
  }
}
