/** Database transactions: all or nothing, with a bounded number of retries. */
module Transaction {
  import opened Wrappers

  const NUM_RETRIES := 5

  /**
    * Runs `f` on the stored state, at most five times, always from the state before the transaction. What `f`
    * does may differ from attempt to attempt, since the errors worth retrying come from outside.
    */
  method Transaction<S, T, E>(before: S, f: (nat, S) -> (Result<T, E>, S), shouldRetry: E -> bool)
    returns (r: Result<T, E>, after: S)
    ensures exists k: nat :: k < 5 && Settles(before, f, shouldRetry, k, r, after)
  {
    var i := 0;
    while true
      invariant 0 <= i < NUM_RETRIES
      invariant forall j: nat :: j < i ==> f(j, before).0.Err? && shouldRetry(f(j, before).0.error)
      decreases NUM_RETRIES - i
    {
      var (result, changed) := f(i, before);
      if result.Ok? {
        r, after := result, changed;
        assert Settles(before, f, shouldRetry, i, r, after);
        return;
      }
      if !shouldRetry(result.error) || i == NUM_RETRIES - 1 {
        r, after := result, before;
        assert Settles(before, f, shouldRetry, i, r, after);
        return;
      }
      i := i + 1;
    }
  }

  /**
    * Attempt `k` is the last one: all earlier ones failed with an error worth retrying, and only the effect of
    * this one is kept, and only if it succeeded.
    */
  ghost predicate Settles<S, T, E>(
    before: S, f: (nat, S) -> (Result<T, E>, S), shouldRetry: E -> bool, k: nat, r: Result<T, E>, after: S)
  {
    && (forall j: nat :: j < k ==> f(j, before).0.Err? && shouldRetry(f(j, before).0.error))
    && r == f(k, before).0
    && after == (if r.Ok? then f(k, before).1 else before)
    && (r.Err? ==> !shouldRetry(r.error) || k == 4)
  }

  /** The outcome is determined: no two attempts can both be the last one. */
  lemma SettlesOnce<S, T, E>(
    before: S, f: (nat, S) -> (Result<T, E>, S), shouldRetry: E -> bool,
    k: nat, r: Result<T, E>, s: S, l: nat, q: Result<T, E>, t: S)
    requires k < 5 && l < 5
    requires Settles(before, f, shouldRetry, k, r, s) && Settles(before, f, shouldRetry, l, q, t)
    ensures k == l && r == q && s == t
  {
  }
}
