/** Optional values and results shared by every module of the model. */
module Wrappers {

  /** A value that may be missing: Python's `None` versus a present value. */
  datatype Option<+T> = None | Some(value: T) {
    function GetOr(default: T): T {
      match this
      case Some(v) => v
      case None => default
    }
  }

  /** The outcome of an operation that may raise: the value, or the error it raises. */
  datatype Result<+T, +E> = Ok(value: T) | Err(error: E)

  /** A prefix one longer is the shorter prefix and the next element. */
  lemma PrefixStep<T>(s: seq<T>, i: nat)
    requires i < |s|
    ensures s[..i + 1] == s[..i] + [s[i]]
  {
  }

  /** The values of the `Some` entries of `s`, in order. */
  function Somes<T>(s: seq<Option<T>>): (r: seq<T>)
    ensures |r| <= |s|
  {
    if |s| == 0 then []
    else Somes(s[..|s| - 1]) + (if s[|s| - 1].Some? then [s[|s| - 1].value] else [])
  }

  lemma {:induction false} SomesMeaning<T>(s: seq<Option<T>>)
    ensures forall y :: y in Somes(s) <==> Some(y) in s
  {
    if |s| > 0 {
      SomesMeaning(s[..|s| - 1]);
      assert s == s[..|s| - 1] + [s[|s| - 1]];
    }
  }

  lemma SomesAppend<T>(s: seq<Option<T>>, x: Option<T>)
    ensures Somes(s + [x]) == Somes(s) + (if x.Some? then [x.value] else [])
  {
    assert (s + [x])[..|s|] == s;
  }

  /** The kept values of one more element of a prefix. */
  lemma SomesPrefix<T>(s: seq<Option<T>>, k: nat)
    requires k < |s|
    ensures Somes(s[..k + 1]) == Somes(s[..k]) + (if s[k].Some? then [s[k].value] else [])
  {
    assert s[..k + 1] == s[..k] + [s[k]];
    SomesAppend(s[..k], s[k]);
  }
}
