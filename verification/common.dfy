/** Shared vocabulary of the model: optional values, results, the byte range
    of a classification, and the truncating `(int)` cast of C#. */
module Common {

  /** An absent or present value; `None` plays the part of a C# `null`. */
  datatype Option<+T> = None | Some(value: T)

  /** The outcome of an operation that the original either completes or aborts. */
  datatype Result<+T, +E> = Ok(value: T) | Err(error: E)

  /** The values of a C# `byte`. */
  type Byte = b: int | 0 <= b < 256

  /** C#'s `(int)` conversion of a finite double: rounds toward zero. */
  function Trunc(r: real): (n: int)
    ensures 0.0 <= r ==> 0 <= n && n as real <= r < n as real + 1.0
    ensures r < 0.0 ==> n <= 0 && n as real - 1.0 < r <= n as real
  {
    if r >= 0.0 then r.Floor else -((-r).Floor)
  }

  /** C#'s integer `n / 2`, which rounds toward zero. */
  function Half(n: int): (q: int)
    ensures n >= 0 ==> 0 <= q && q + q <= n <= q + q + 1
    ensures n < 0 ==> q <= 0 && q + q >= n >= q + q - 1
  {
    if n >= 0 then n / 2 else -((-n) / 2)
  }

  /** No element occurs twice. */
  predicate NoDuplicates<T(==)>(s: seq<T>) {
    forall i, j :: 0 <= i < j < |s| ==> s[i] != s[j]
  }

  /** The elements of a sequence, as a set. */
  function Elements<T>(s: seq<T>): set<T> {
    set x | x in s
  }

  /** A sequence without repetitions has as many distinct elements as it is long. */
  lemma {:induction false} DistinctElements<T>(s: seq<T>)
    requires NoDuplicates(s)
    ensures |Elements(s)| == |s|
  {
    if |s| > 0 {
      var init := s[..|s| - 1];
      assert NoDuplicates(init);
      DistinctElements(init);
      assert Elements(s) == Elements(init) + {s[|s| - 1]};
      assert s[|s| - 1] !in Elements(init) by {
        forall i | 0 <= i < |init| ensures init[i] != s[|s| - 1] {
          assert s[i] != s[|s| - 1];
        }
      }
    }
  }

  /** A proper subset of a finite set is strictly smaller. */
  lemma ProperSubsetSmaller<T>(a: set<T>, b: set<T>)
    requires a < b
    ensures |a| < |b|
  {
    var x :| x in b && x !in a;
    assert b == a + (b - a);
    assert x in b - a;
  }

  /** A subset of a finite set is no larger. */
  lemma SubsetNoLarger<T>(a: set<T>, b: set<T>)
    requires a <= b
    ensures |a| <= |b|
  {
    if a != b {
      ProperSubsetSmaller(a, b);
    }
  }
}
