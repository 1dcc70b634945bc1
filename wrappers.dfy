/** Failure-compatible wrappers shared by every module: an optional value, the
    exceptions the scripts can raise, and results that carry either a value or
    the exception that ended the computation. */
module Wrappers {

  datatype Option<+T> = None | Some(value: T)

  /** The Python exceptions the two scripts can raise, as far as the model
      distinguishes them. */
  datatype Exception =
    | KeyError(key: string)       // a dict lookup of a missing key
    | IndexError                  // `[-1]` on an empty list
    | TypeError                   // iterating, indexing or writing `None`
    | AttributeError              // `.name` looked up on a `str`
    | FileNotFound(path: string)  // `open(path, "r")` on a missing file
    | FetchFailed                 // the download raised
    | CacheNotLoaded              // "Unable to find new content?"

  /** The value of an expression that may raise. */
  datatype Result<+T> = Ok(value: T) | Err(error: Exception) {
    predicate IsFailure() { Err? }
    function PropagateFailure<U>(): Result<U>
      requires Err?
    {
      Err(error)
    }
    function Extract(): T
      requires Ok?
    {
      value
    }
  }

  /** The outcome of a statement that may raise and returns nothing. */
  datatype Outcome = Pass | Fail(error: Exception) {
    predicate IsFailure() { Fail? }
    function PropagateFailure(): Outcome
      requires Fail?
    {
      this
    }
  }

  /** `[f(x) for x in xs]` where `f` may raise: the values in order, or the
      exception of the first element that raises. */
  function Collect<T, U>(f: T -> Result<U>, xs: seq<T>): (r: Result<seq<U>>)
    ensures r.Ok? ==> |r.value| == |xs|
  {
    if xs == [] then Ok([])
    else
      var done :- Collect(f, xs[..|xs| - 1]);
      var y :- f(xs[|xs| - 1]);
      Ok(done + [y])
  }

  /** Collecting succeeds exactly when every element succeeds, keeps one value
      per element in order, and otherwise raises what the first failing
      element raises. */
  lemma {:induction false} CollectSpec<T, U>(f: T -> Result<U>, xs: seq<T>)
    ensures Collect(f, xs).Ok? <==> forall i :: 0 <= i < |xs| ==> f(xs[i]).Ok?
    ensures Collect(f, xs).Ok? ==> forall i :: 0 <= i < |xs| ==> f(xs[i]) == Ok(Collect(f, xs).value[i])
    ensures Collect(f, xs).Err? ==>
      exists i :: 0 <= i < |xs| && f(xs[i]) == Err(Collect(f, xs).error)
        && forall j :: 0 <= j < i ==> f(xs[j]).Ok?
  {
    if xs != [] {
      var n := |xs| - 1;
      var init := xs[..n];
      CollectSpec(f, init);
      assert forall i :: 0 <= i < n ==> init[i] == xs[i];
      var c := Collect(f, init);
      if c.Err? {
        var i :| 0 <= i < n && f(init[i]) == Err(c.error) && forall j :: 0 <= j < i ==> f(init[j]).Ok?;
        assert f(xs[i]) == Err(Collect(f, xs).error);
      } else if f(xs[n]).Err? {
        assert Collect(f, xs) == Err(f(xs[n]).error);
      } else {
        var r := c.value + [f(xs[n]).value];
        assert Collect(f, xs) == Ok(r);
        forall i | 0 <= i < |xs| ensures f(xs[i]) == Ok(r[i]) {
          if i < n {
            assert r[i] == c.value[i];
          }
        }
      }
    }
  }

  /** One more element that succeeds extends the collected prefix. */
  lemma CollectSnoc<T, U>(f: T -> Result<U>, xs: seq<T>, i: nat, ys: seq<U>, y: U)
    requires i < |xs|
    requires Collect(f, xs[..i]) == Ok(ys) && f(xs[i]) == Ok(y)
    ensures Collect(f, xs[..i + 1]) == Ok(ys + [y])
  {
    assert xs[..i + 1][..i] == xs[..i] && xs[..i + 1][i] == xs[i];
  }

  lemma {:induction false} CollectErr<T, U>(f: T -> Result<U>, xs: seq<T>, i: nat, e: Exception)
    requires i <= |xs|
    requires Collect(f, xs[..i]) == Err(e)
    ensures Collect(f, xs) == Err(e)
    decreases |xs| - i
  {
    if i < |xs| {
      assert xs[..i + 1][..i] == xs[..i];
      CollectErr(f, xs, i + 1, e);
    } else {
      assert xs[..i] == xs;
    }
  }

  /** The first element that raises after a successful prefix decides the
      whole collection. */
  lemma CollectFail<T, U>(f: T -> Result<U>, xs: seq<T>, i: nat, ys: seq<U>, e: Exception)
    requires i < |xs|
    requires Collect(f, xs[..i]) == Ok(ys) && f(xs[i]) == Err(e)
    ensures Collect(f, xs) == Err(e)
  {
    assert xs[..i + 1][..i] == xs[..i] && xs[..i + 1][i] == xs[i];
    CollectErr(f, xs, i + 1, e);
  }
}
