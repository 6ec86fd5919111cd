/** Balances as a walk over mints and burns: additions wrap, subtractions stop at zero. */
module BalanceWalk {
  import opened Numbers

  datatype Flow = Minted(tokenId: U64, amount: U64) | Burned(tokenId: U64, amount: U64)

  function Get(balances: map<U64, U64>, token: U64): U64 {
    if token in balances then balances[token] else 0
  }

  /** The effect of one mint or burn on the balance of its token. */
  function Applied(balance: U64, f: Flow): U64 {
    match f
    case Minted(_, amount) => WrappingAdd(balance, amount)
    case Burned(_, amount) => if amount > balance then 0 else balance - amount
  }

  function ApplyFlow(balances: map<U64, U64>, f: Flow): map<U64, U64> {
    balances[f.tokenId := Applied(Get(balances, f.tokenId), f)]
  }

  function BalancesOf(flows: seq<Flow>): map<U64, U64> {
    if flows == [] then map[]
    else ApplyFlow(BalancesOf(flows[..|flows| - 1]), flows[|flows| - 1])
  }

  function Balance(flows: seq<Flow>, token: U64): U64 {
    Get(BalancesOf(flows), token)
  }

  /** A burn of more than there is. */
  predicate Exceeds(balances: map<U64, U64>, f: Flow) {
    f.Burned? && f.amount > Get(balances, f.tokenId)
  }

  /** The number of burns, of any token, that exceeded the balance they met. */
  function Clamps(flows: seq<Flow>): nat {
    if flows == [] then 0
    else
      var before := flows[..|flows| - 1];
      Clamps(before) + if Exceeds(BalancesOf(before), flows[|flows| - 1]) then 1 else 0
  }

  /* Independent accounts of the same flows, per token and over unbounded integers */

  ghost function TotalMinted(flows: seq<Flow>, token: U64): nat {
    if flows == [] then 0
    else
      var f := flows[|flows| - 1];
      TotalMinted(flows[..|flows| - 1], token) + if f.Minted? && f.tokenId == token then f.amount else 0
  }

  ghost function TotalBurned(flows: seq<Flow>, token: U64): nat {
    if flows == [] then 0
    else
      var f := flows[|flows| - 1];
      TotalBurned(flows[..|flows| - 1], token) + if f.Burned? && f.tokenId == token then f.amount else 0
  }

  /** What the exceeding burns took beyond zero. */
  ghost function Shortfall(flows: seq<Flow>, token: U64): nat {
    if flows == [] then 0
    else
      var before, f := flows[..|flows| - 1], flows[|flows| - 1];
      Shortfall(before, token) +
      if f.tokenId == token && Exceeds(BalancesOf(before), f) then f.amount - Balance(before, token) else 0
  }

  /** How often a mint overflowed the 64-bit balance. */
  ghost function Wraps(flows: seq<Flow>, token: U64): nat {
    if flows == [] then 0
    else
      var before, f := flows[..|flows| - 1], flows[|flows| - 1];
      Wraps(before, token) +
      if f.Minted? && f.tokenId == token && Balance(before, token) + f.amount >= TWO_64 then 1 else 0
  }

  /** Mints minus burns. */
  ghost function Net(flows: seq<Flow>, token: U64): int {
    TotalMinted(flows, token) - TotalBurned(flows, token)
  }

  /** A flow's signed contribution to one token. */
  ghost function Delta(f: Flow, token: U64): int {
    if f.tokenId != token then 0
    else match f
      case Minted(_, amount) => amount
      case Burned(_, amount) => 0 - amount
  }

  lemma BalancesOfAppend(flows: seq<Flow>, f: Flow)
    ensures BalancesOf(flows + [f]) == ApplyFlow(BalancesOf(flows), f)
    ensures Clamps(flows + [f]) == Clamps(flows) + if Exceeds(BalancesOf(flows), f) then 1 else 0
  {
    assert (flows + [f])[..|flows|] == flows;
  }

  lemma TotalsAppend(flows: seq<Flow>, f: Flow, token: U64)
    ensures Net(flows + [f], token) == Net(flows, token) + Delta(f, token)
    ensures TotalMinted(flows + [f], token) ==
            TotalMinted(flows, token) + if f.Minted? && f.tokenId == token then f.amount else 0
    ensures TotalBurned(flows + [f], token) ==
            TotalBurned(flows, token) + if f.Burned? && f.tokenId == token then f.amount else 0
  {
    assert (flows + [f])[..|flows|] == flows;
  }

  /** Nothing is lost or created: every run accounts for its clamped burns and its overflowing mints. */
  lemma {:induction false} Conservation(flows: seq<Flow>, token: U64)
    ensures Balance(flows, token) + TotalBurned(flows, token) + TWO_64 * Wraps(flows, token)
            == TotalMinted(flows, token) + Shortfall(flows, token)
  {
    if flows != [] {
      Conservation(flows[..|flows| - 1], token);
    }
  }

  /** The balance and the burns add up to the mints and the shortfall exactly when no mint overflowed. */
  lemma ConservationExactlyWhen(flows: seq<Flow>, token: U64)
    ensures Balance(flows, token) + TotalBurned(flows, token) == TotalMinted(flows, token) + Shortfall(flows, token)
            <==> Wraps(flows, token) == 0
  {
    Conservation(flows, token);
  }

  /** A total that fits 64 bits never overflows on the way. */
  lemma {:induction false} SmallTotalsDoNotWrap(flows: seq<Flow>, token: U64)
    requires TotalMinted(flows, token) < TWO_64
    ensures Wraps(flows, token) == 0 && Balance(flows, token) <= TotalMinted(flows, token)
  {
    if flows != [] {
      SmallTotalsDoNotWrap(flows[..|flows| - 1], token);
    }
  }

  /** The counter of exceeding burns is zero exactly when no token has a shortfall. */
  lemma {:induction false} ClampsWitnessShortfall(flows: seq<Flow>)
    ensures Clamps(flows) == 0 <==> forall t: U64 :: Shortfall(flows, t) == 0
  {
    if flows != [] {
      var before, f := flows[..|flows| - 1], flows[|flows| - 1];
      ClampsWitnessShortfall(before);
      if Exceeds(BalancesOf(before), f) {
        assert Shortfall(flows, f.tokenId) > 0;
      } else if Clamps(before) != 0 {
        var t: U64 :| Shortfall(before, t) != 0;
        assert Shortfall(flows, t) != 0;
      } else {
        forall t: U64
          ensures Shortfall(flows, t) == 0
        {
          assert Shortfall(before, t) == 0;
        }
      }
    }
  }

  /** The balance is not mints minus burns. */
  ghost predicate Deviates(flows: seq<Flow>, token: U64) {
    Balance(flows, token) != Net(flows, token)
  }

  /** A balance is right exactly when its shortfall and its overflows cancel out. */
  lemma DeviatesExactlyWhen(flows: seq<Flow>, token: U64)
    ensures Deviates(flows, token) <==> Shortfall(flows, token) != TWO_64 * Wraps(flows, token)
  {
    Conservation(flows, token);
  }

  /** The counter of exceeding burns tells the truth: it is zero exactly when every balance is minted - burned. */
  ghost predicate CounterTellsTruth(flows: seq<Flow>) {
    Clamps(flows) == 0 <==> forall t: U64 :: !Deviates(flows, t)
  }

  /** Some mint of the token overflowed. */
  ghost predicate Overflows(flows: seq<Flow>, token: U64) {
    Wraps(flows, token) != 0
  }

  /** A zero counter means right balances exactly when nothing overflowed. */
  lemma ZeroCounterExactlyWhen(flows: seq<Flow>)
    requires Clamps(flows) == 0
    ensures (forall t: U64 :: !Deviates(flows, t)) <==> forall t: U64 :: !Overflows(flows, t)
  {
    ClampsWitnessShortfall(flows);
    forall t: U64
      ensures Deviates(flows, t) <==> Overflows(flows, t)
    {
      assert Shortfall(flows, t) == 0;
      DeviatesExactlyWhen(flows, t);
    }
  }

  /** The shortfall of the token is not what its overflows took away. */
  ghost predicate Unbalanced(flows: seq<Flow>, token: U64) {
    Shortfall(flows, token) != TWO_64 * Wraps(flows, token)
  }

  /** A positive counter means a wrong balance exactly when some shortfall and its overflows do not cancel out. */
  lemma PositiveCounterExactlyWhen(flows: seq<Flow>)
    ensures (exists t: U64 :: Deviates(flows, t)) <==> exists t: U64 :: Unbalanced(flows, t)
  {
    forall t: U64
      ensures Deviates(flows, t) <==> Unbalanced(flows, t)
    {
      DeviatesExactlyWhen(flows, t);
    }
  }

  /** What the truth of the counter hangs on, zero or not. */
  ghost predicate CounterIsReliable(flows: seq<Flow>) {
    if Clamps(flows) == 0 then forall t: U64 :: !Overflows(flows, t)
    else exists t: U64 :: Unbalanced(flows, t)
  }

  lemma CounterTellsTruthExactlyWhen(flows: seq<Flow>)
    ensures CounterTellsTruth(flows) <==> CounterIsReliable(flows)
  {
    if Clamps(flows) == 0 {
      ZeroCounterExactlyWhen(flows);
    } else {
      PositiveCounterExactlyWhen(flows);
    }
  }

  /** Without overflow the counter always tells the truth. */
  lemma OverBurnWitness(flows: seq<Flow>)
    requires forall t: U64 :: !Overflows(flows, t)
    ensures CounterTellsTruth(flows)
  {
    ClampsWitnessShortfall(flows);
    if Clamps(flows) != 0 {
      var t: U64 :| Shortfall(flows, t) != 0;
      assert !Overflows(flows, t);
      assert Unbalanced(flows, t);
    }
    CounterTellsTruthExactlyWhen(flows);
  }

  /* With overflow the counter may be wrong at zero, wrong above zero, or right */

  lemma FullThenOne(token: U64)
    ensures var flows := [Minted(token, TWO_64 - 1), Minted(token, 1)];
            && BalancesOf(flows) == map[token := 0] && Clamps(flows) == 0 && Net(flows, token) == TWO_64
  {
    var one := [Minted(token, TWO_64 - 1)];
    var flows := one + [Minted(token, 1)];
    assert one == [] + one;
    BalancesOfAppend([], one[0]);
    TotalsAppend([], one[0], token);
    BalancesOfAppend(one, flows[1]);
    TotalsAppend(one, flows[1], token);
    assert BalancesOf(one) == map[token := TWO_64 - 1];
    assert flows == [Minted(token, TWO_64 - 1), Minted(token, 1)];
  }

  /** Two mints overflow and no burn ever clamps: the counter is zero and the balance wrong. */
  lemma OverBurnWitnessNeedsNoOverflow(token: U64)
    ensures var flows := [Minted(token, TWO_64 - 1), Minted(token, 1)];
            Clamps(flows) == 0 && Balance(flows, token) == 0 && Net(flows, token) == TWO_64 && !CounterTellsTruth(flows)
  {
    FullThenOne(token);
    assert Deviates([Minted(token, TWO_64 - 1), Minted(token, 1)], token);
  }

  lemma BurnFromNothing(flows: seq<Flow>, token: U64, amount: U64)
    requires BalancesOf(flows) == map[token := 0] && amount > 0
    ensures var more := flows + [Burned(token, amount)];
            && BalancesOf(more) == map[token := 0] && Clamps(more) == Clamps(flows) + 1
            && Net(more, token) == Net(flows, token) - amount
  {
    BalancesOfAppend(flows, Burned(token, amount));
    TotalsAppend(flows, Burned(token, amount), token);
  }

  /** The same overflow followed by one clamped burn: the counter is positive and the balance wrong, as it says. */
  lemma OverflowCanLeaveCounterRight(token: U64)
    ensures var flows := [Minted(token, TWO_64 - 1), Minted(token, 1), Burned(token, 1)];
            Clamps(flows) == 1 && Balance(flows, token) == 0 && Net(flows, token) == TWO_64 - 1
            && CounterTellsTruth(flows)
  {
    FullThenOne(token);
    var two := [Minted(token, TWO_64 - 1), Minted(token, 1)];
    BurnFromNothing(two, token, 1);
    assert two + [Burned(token, 1)] == [Minted(token, TWO_64 - 1), Minted(token, 1), Burned(token, 1)];
    assert Deviates(two + [Burned(token, 1)], token);
  }

  /** Burns that clamp away exactly what overflowed: the counter is positive although the balance is right. */
  lemma OverflowCanCancelOut(token: U64)
    ensures var flows := [Minted(token, TWO_64 - 1), Minted(token, 1), Burned(token, TWO_64 - 1), Burned(token, 1)];
            Clamps(flows) == 2 && Balance(flows, token) == 0 && Net(flows, token) == 0
  {
    FullThenOne(token);
    var two := [Minted(token, TWO_64 - 1), Minted(token, 1)];
    var three := two + [Burned(token, TWO_64 - 1)];
    BurnFromNothing(two, token, TWO_64 - 1);
    BurnFromNothing(three, token, 1);
    assert three + [Burned(token, 1)] ==
           [Minted(token, TWO_64 - 1), Minted(token, 1), Burned(token, TWO_64 - 1), Burned(token, 1)];
  }

  /** The balance is the largest net amount over all suffixes of the flows, the empty one included. */
  ghost predicate IsLargestSuffix(flows: seq<Flow>, token: U64) {
    && (forall k :: 0 <= k <= |flows| ==> Net(flows[k..], token) <= Balance(flows, token))
    && (exists k :: 0 <= k <= |flows| && Net(flows[k..], token) == Balance(flows, token))
  }

  lemma BalanceStep(before: seq<Flow>, f: Flow, token: U64)
    ensures Balance(before + [f], token) ==
            if f.tokenId == token then Applied(Balance(before, token), f) else Balance(before, token)
  {
    BalancesOfAppend(before, f);
  }

  lemma SuffixNet(before: seq<Flow>, f: Flow, k: nat, token: U64)
    requires k <= |before|
    ensures Net((before + [f])[k..], token) == Net(before[k..], token) + Delta(f, token)
  {
    TotalsAppend(before[k..], f, token);
    assert (before + [f])[k..] == before[k..] + [f];
  }

  lemma LargestSuffixStep(before: seq<Flow>, f: Flow, token: U64)
    requires IsLargestSuffix(before, token)
    requires f.Minted? && f.tokenId == token ==> Balance(before, token) + f.amount < TWO_64
    ensures IsLargestSuffix(before + [f], token)
  {
    var flows := before + [f];
    BalanceStep(before, f, token);
    assert Net(flows[|flows|..], token) == 0;
    forall k | 0 <= k <= |flows|
      ensures Net(flows[k..], token) <= Balance(flows, token)
    {
      if k < |flows| {
        SuffixNet(before, f, k, token);
      }
    }
    var best :| 0 <= best <= |before| && Net(before[best..], token) == Balance(before, token);
    SuffixNet(before, f, best, token);
    assert Net(flows[best..], token) == Balance(flows, token) || Net(flows[|flows|..], token) == Balance(flows, token);
  }

  /** Closed form: without overflow, the balance is the largest net amount over all suffixes of the flows. */
  lemma {:induction false} BalanceIsLargestSuffix(flows: seq<Flow>, token: U64)
    requires Wraps(flows, token) == 0
    ensures IsLargestSuffix(flows, token)
  {
    if flows == [] {
      assert Net(flows[0..], token) == 0;
    } else {
      var before, f := flows[..|flows| - 1], flows[|flows| - 1];
      BalanceIsLargestSuffix(before, token);
      assert flows == before + [f];
      LargestSuffixStep(before, f, token);
    }
  }

  /** A mint that overflows leaves less than the net amount of the suffix that ends in it. */
  lemma OverflowBreaksClosedForm(before: seq<Flow>, f: Flow, token: U64)
    requires IsLargestSuffix(before, token)
    requires f.Minted? && f.tokenId == token && Balance(before, token) + f.amount >= TWO_64
    ensures !IsLargestSuffix(before + [f], token)
  {
    var best :| 0 <= best <= |before| && Net(before[best..], token) == Balance(before, token);
    assert (before + [f])[best..] == before[best..] + [f];
    TotalsAppend(before[best..], f, token);
  }

  lemma {:induction false} PrefixesDoNotWrap(flows: seq<Flow>, n: nat, token: U64)
    requires n <= |flows| && Wraps(flows, token) == 0
    ensures Wraps(flows[..n], token) == 0
  {
    if n < |flows| {
      var before := flows[..|flows| - 1];
      PrefixesDoNotWrap(before, n, token);
      assert before[..n] == flows[..n];
    } else {
      assert flows[..n] == flows;
    }
  }

  lemma {:induction false} ClosedFormForbidsWraps(flows: seq<Flow>, token: U64)
    requires forall n :: 0 <= n <= |flows| ==> IsLargestSuffix(flows[..n], token)
    ensures Wraps(flows, token) == 0
  {
    if flows != [] {
      var before, f := flows[..|flows| - 1], flows[|flows| - 1];
      forall n | 0 <= n <= |before|
        ensures IsLargestSuffix(before[..n], token)
      {
        assert before[..n] == flows[..n];
      }
      ClosedFormForbidsWraps(before, token);
      assert flows == before + [f] && before == flows[..|before|] && flows == flows[..|flows|];
      if f.Minted? && f.tokenId == token && Balance(before, token) + f.amount >= TWO_64 {
        OverflowBreaksClosedForm(before, f, token);
      }
    }
  }

  /** The closed form holds all along the way exactly when no mint overflows. */
  lemma ClosedFormExactlyWhen(flows: seq<Flow>, token: U64)
    ensures (forall n :: 0 <= n <= |flows| ==> IsLargestSuffix(flows[..n], token)) <==> Wraps(flows, token) == 0
  {
    if Wraps(flows, token) == 0 {
      forall n | 0 <= n <= |flows|
        ensures IsLargestSuffix(flows[..n], token)
      {
        PrefixesDoNotWrap(flows, n, token);
        BalanceIsLargestSuffix(flows[..n], token);
      }
    } else if forall n :: 0 <= n <= |flows| ==> IsLargestSuffix(flows[..n], token) {
      ClosedFormForbidsWraps(flows, token);
    }
  }

  /** Tokens are never dropped from the balances. */
  lemma {:induction false} TokensOnlyGrow(flows: seq<Flow>, more: seq<Flow>)
    ensures BalancesOf(flows).Keys <= BalancesOf(flows + more).Keys
  {
    if more == [] {
      assert flows + more == flows;
    } else {
      var before, f := more[..|more| - 1], more[|more| - 1];
      TokensOnlyGrow(flows, before);
      assert flows + more == (flows + before) + [f];
      BalancesOfAppend(flows + before, f);
    }
  }
}
