/** Facts about integers and sequences, error codes, and paths in trees, that several components share. */
module Basics {

  const ERROR_INVALID: int := -6
  const ERROR_NOT_FOUND: int := -51

  function Max(a: int, b: int): int {
    if a < b then b else a
  }

  lemma MulLe(a: int, b: int, d: int)
    requires a <= b && d >= 0
    ensures a * d <= b * d
  {
  }

  lemma MulNext(k: int, d: int)
    ensures (k + 1) * d == k * d + d
  {
  }

  lemma Euclid(k: int, c: int)
    requires c > 0
    ensures k == k / c * c + k % c && 0 <= k % c < c
    ensures 0 <= k ==> 0 <= k / c
  {
  }

  lemma Regroup<T>(a: seq<T>, b: seq<T>, c: seq<T>)
    ensures a + b + c == a + (b + c)
  {
  }

  // ---------- paths in a tree ----------

  /** The numbers of the children on the way down from the root. */
  type Path = seq<nat>

  function Prefixed(k: nat, paths: seq<Path>): (r: seq<Path>)
    ensures |r| == |paths|
    ensures forall i :: 0 <= i < |r| ==> r[i] == [k] + paths[i]
  {
    seq(|paths|, i requires 0 <= i < |paths| => [k] + paths[i])
  }

  /** Document order: a widget comes before what is below it and before what is right of it. */
  predicate Before(p: Path, q: Path) {
    q != [] && (p == [] || p[0] < q[0] || (p[0] == q[0] && Before(p[1..], q[1..])))
  }

  lemma {:induction false} BeforeIsStrict(p: Path, q: Path)
    requires Before(p, q)
    ensures !Before(q, p) && p != q
  {
    if p != [] && p[0] == q[0] {
      BeforeIsStrict(p[1..], q[1..]);
      assert p == [p[0]] + p[1..] && q == [q[0]] + q[1..];
    }
  }
}
