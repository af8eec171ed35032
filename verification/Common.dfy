/** Vocabulary shared by every part of the model: optional values, results,
    the 32-bit range of the contracts' counters, and duplicate-free lists. */
module Common {

  datatype Option<+T> = None | Some(value: T)

  /** A check that either passes or stops the call with an error. */
  datatype Outcome<+E> = Pass | Fail(error: E) {
    predicate IsFailure() {
      Fail?
    }

    function PropagateFailure<U>(): Result<U, E>
      requires Fail?
    {
      Failure(error)
    }
  }

  datatype Result<+R, +E> = Success(value: R) | Failure(error: E) {
    predicate IsFailure() {
      Failure?
    }

    function PropagateFailure<U>(): Result<U, E>
      requires Failure?
    {
      Failure(error)
    }

    function Extract(): R
      requires Success?
    {
      value
    }
  }

  /** A check that fails with `error` unless the condition holds. */
  function Need<E>(condition: bool, error: E): Outcome<E> {
    if condition then Pass else Fail(error)
  }

  /** The call did what `spec` says: on success the storage is the new one, and on
      failure the error is returned and the storage is as it was. */
  ghost predicate Follows<S, E>(spec: Result<S, E>, before: S, after: S, r: Outcome<E>) {
    match spec
    case Success(s) => r.Pass? && after == s
    case Failure(e) => r == Fail(e) && after == before
  }

  const U32_MAX := 0xFFFF_FFFF
  const U64_MAX := 0xFFFF_FFFF_FFFF_FFFF

  type u32 = x: int | 0 <= x <= U32_MAX
  type u64 = x: int | 0 <= x <= U64_MAX

  function Min(a: int, b: int): int {
    if a < b then a else b
  }

  function Max(a: int, b: int): int {
    if a < b then b else a
  }

  function SaturatingAdd(a: u32, b: u32): u32 {
    if a + b > U32_MAX then U32_MAX else a + b
  }

  function SaturatingSub(a: nat, b: nat): nat {
    if a < b then 0 else a - b
  }

  predicate NoDup<T(==)>(xs: seq<T>) {
    forall i, j :: 0 <= i < j < |xs| ==> xs[i] != xs[j]
  }

  /** The last `cap` elements, or all of them. */
  function Newest<T>(xs: seq<T>, cap: nat): seq<T> {
    if |xs| > cap then xs[|xs| - cap..] else xs
  }

  /** `xs` with every occurrence of `x` dropped, order kept. */
  function Without<T(==)>(xs: seq<T>, x: T): seq<T> {
    if xs == [] then []
    else
      var last := xs[|xs| - 1];
      var rest := Without(xs[..|xs| - 1], x);
      if last == x then rest else rest + [last]
  }

  lemma {:induction false} WithoutElements<T>(xs: seq<T>, x: T)
    ensures forall y :: y in Without(xs, x) <==> y in xs && y != x
    ensures x !in xs ==> Without(xs, x) == xs
    ensures NoDup(xs) ==> NoDup(Without(xs, x)) && |Without(xs, x)| == |xs| - if x in xs then 1 else 0
  {
    if xs != [] {
      var n := |xs| - 1;
      assert xs == xs[..n] + [xs[n]];
      WithoutElements(xs[..n], x);
      if NoDup(xs) && xs[n] != x {
        AppendNoDup(Without(xs[..n], x), xs[n]);
      }
    }
  }

  /** Appending an absent element keeps a list duplicate-free. */
  lemma AppendNoDup<T>(xs: seq<T>, x: T)
    requires NoDup(xs) && x !in xs
    ensures NoDup(xs + [x])
  {
  }

  lemma NoDupSplits<T>(xs: seq<T>, n: nat)
    requires NoDup(xs) && n + 1 == |xs|
    ensures NoDup(xs[..n]) && xs[n] !in xs[..n]
    ensures forall x :: x in xs <==> x in xs[..n] || x == xs[n]
  {
    assert xs == xs[..n] + [xs[n]];
  }

  /** A duplicate-free list that enumerates a set is exactly as long as the set. */
  lemma {:induction false} NoDupLength<T>(xs: seq<T>, s: set<T>)
    requires NoDup(xs)
    requires forall x :: x in xs <==> x in s
    ensures |xs| == |s|
  {
    if xs == [] {
      assert s == {};
    } else {
      var n := |xs| - 1;
      var last := xs[n];
      assert xs == xs[..n] + [last];
      NoDupLength(xs[..n], s - {last});
    }
  }

  lemma InsertSize<T>(s: set<T>, x: T)
    requires x !in s
    ensures |s + {x}| == |s| + 1
  {
  }

  lemma InsertLast<T>(a: set<T>, b: set<T>, x: T)
    ensures a + b + {x} == a + (b + {x})
  {
  }

  lemma PutKeys<K, V>(m: map<K, V>, k: K, v: V)
    ensures m[k := v].Keys == m.Keys + {k}
  {
  }

  const LOWER := "abcdefghijklmnopqrstuvwxyz"
  const UPPER := "ABCDEFGHIJKLMNOPQRSTUVWXYZ"
  const DIGITS := "0123456789"

  lemma LettersAt(i: nat)
    ensures |LOWER| == |UPPER| == 26
    ensures i < 26 ==> LOWER[i] as int == 'a' as int + i && UPPER[i] as int == 'A' as int + i
    ensures |DIGITS| == 10 && (i < 10 ==> DIGITS[i] as int == '0' as int + i)
  {
  }

  lemma Regroup<T>(a: seq<T>, b: seq<T>, c: seq<T>)
    ensures a + b + c == a + (b + c)
  {
  }
}
