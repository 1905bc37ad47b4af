/** Shared wrapper types: Python's `None`-able values and raised exceptions. */
module Base {

  /** A value that may be Python's `None`. */
  datatype Option<T> = None | Some(value: T) {
    /** The wrapped value, or `default` for `None`. */
    function GetOr(default: T): T {
      match this
      case Some(v) => v
      case None => default
    }
  }

  /** The present values of `xs`, in order (a comprehension with an `if` filter). */
  function Somes<T>(xs: seq<Option<T>>): (r: seq<T>)
    ensures |r| <= |xs|
    decreases |xs|
  {
    if |xs| == 0 then []
    else
      var init := Somes(xs[..|xs| - 1]);
      match xs[|xs| - 1]
      case Some(v) => init + [v]
      case None => init
  }

  lemma {:induction false} SomesAppend<T>(a: seq<Option<T>>, b: seq<Option<T>>)
    ensures Somes(a + b) == Somes(a) + Somes(b)
    decreases |b|
  {
    if |b| == 0 {
      assert a + b == a;
    } else {
      var n := |b| - 1;
      assert (a + b)[..|a + b| - 1] == a + b[..n];
      SomesAppend(a, b[..n]);
    }
  }

  /** Concatenation is associative (Dafny needs it spelled out for nested sequence terms). */
  lemma AppendAssoc<T>(a: seq<T>, b: seq<T>, c: seq<T>)
    ensures (a + b) + c == a + (b + c)
  {}

  /** A non-empty sequence is its front followed by its last element. */
  lemma SplitLast<T>(a: seq<T>)
    requires |a| > 0
    ensures a[..|a| - 1] + [a[|a| - 1]] == a
  {}

  /** The values of a sequence with no `None`. */
  function Values<T>(xs: seq<Option<T>>): (r: seq<T>)
    requires forall i :: 0 <= i < |xs| ==> xs[i].Some?
    ensures |r| == |xs|
    ensures forall i :: 0 <= i < |xs| ==> r[i] == xs[i].value
  {
    seq(|xs|, i requires 0 <= i < |xs| => xs[i].value)
  }

  /** Without `None`, every value is kept. */
  lemma {:induction false} SomesAllPresent<T>(xs: seq<Option<T>>)
    requires forall i :: 0 <= i < |xs| ==> xs[i].Some?
    ensures Somes(xs) == Values(xs)
    decreases |xs|
  {
    if |xs| > 0 {
      SomesAllPresent(xs[..|xs| - 1]);
    }
  }

  /** The exception classes the modelled code raises. */
  datatype Error =
    | ValueError(message: string)
    | RuntimeError(message: string)
    | IndexError
    | FileNotFoundError(message: string)

  /** A return value or a raised exception. */
  datatype Result<T> = Ok(value: T) | Err(error: Error)
}
