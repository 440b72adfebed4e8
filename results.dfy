/** Failure-carrying results: a C++ `throw` or `std::exit` with a message becomes an error value. */
module Results {

  datatype Option<+T> = None | Some(value: T)

  datatype Result<+T> = Ok(value: T) | Err(message: string) {
    predicate IsFailure() {
      Err?
    }

    function PropagateFailure<U>(): Result<U>
      requires Err?
    {
      Err(message)
    }

    function Extract(): T
      requires Ok?
    {
      value
    }
  }

  /** The outcome of an operation that returns nothing but may throw. */
  datatype Outcome = Pass | Fail(message: string)

  /** A prefix one element longer is the shorter prefix with that element appended. */
  lemma PrefixSnoc<T>(s: seq<T>, i: nat)
    requires i < |s|
    ensures s[..i + 1] == s[..i] + [s[i]]
  {
  }

  /** Storing at index `i` and keeping the first `i + 1` elements appends the stored value. */
  lemma PrefixUpdate<T>(s: seq<T>, i: nat, v: T)
    requires i < |s|
    ensures s[i := v][..i + 1] == s[..i] + [v]
  {
  }

  /** A sequence whose elements after the first are those of `rest`. */
  lemma ConsOfShift<T>(s: seq<T>, rest: seq<T>)
    requires |s| == |rest| + 1
    requires forall k | 0 <= k < |rest| :: s[k + 1] == rest[k]
    ensures s == [s[0]] + rest
  {
  }

  lemma AppendAssoc<T>(a: seq<T>, b: seq<T>, c: seq<T>)
    ensures a + b + c == a + (b + c)
  {
  }

  /** A slice is the concatenation of its two halves. */
  lemma SliceSplit<T>(s: seq<T>, lo: nat, mid: nat, hi: nat)
    requires lo <= mid <= hi <= |s|
    ensures s[lo..hi] == s[lo..mid] + s[mid..hi]
  {
  }

  /** A slice of the middle part of a three-part concatenation. */
  lemma MiddleSlice<T>(a: seq<T>, b: seq<T>, c: seq<T>, lo: nat, hi: nat)
    requires lo <= hi <= |b|
    ensures (a + b + c)[|a| + lo..|a| + hi] == b[lo..hi]
  {
    assert forall k | 0 <= k < hi - lo :: (a + b + c)[|a| + lo..|a| + hi][k] == b[lo..hi][k];
  }

  /** The first part of a three-part concatenation. */
  lemma PrefixOf<T>(a: seq<T>, b: seq<T>, c: seq<T>)
    ensures (a + b + c)[..|a|] == a
  {
  }
}
