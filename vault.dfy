/** The vault's exchange-rate ledger: the persistent `State` record of the
    liquid-staking vault and its one operation, the recomputation of the
    bond/derivative exchange rate from the bonded total and the derivative
    supply. */
module Vault {
  import opened Numerics

  /** A user's pending unbond claims: `(batch id, amount)` pairs in order. */
  type UnbondRequest = seq<(Uint64, Uint128)>

  /** What is recorded about one unbonding batch. */
  datatype UnbondHistory = UnbondHistory(
    batchId: Uint64,
    time: Uint64,
    amount: Uint128,
    appliedExchangeRate: Decimal,
    withdrawRate: Decimal,
    released: bool)

  /** The seven fields of the vault's `State`, as a value. */
  datatype StateValue = StateValue(
    exchangeRate: Decimal,
    totalBondAmount: Uint128,
    lastIndexModification: Uint64,
    prevVaultBalance: Uint128,
    actualUnbondedAmount: Uint128,
    lastUnbondedTime: Uint64,
    lastProcessedBatch: Uint64)

  /** The exchange rate for `totalBondAmount` bonded against a supply of
      `totalIssued + requestedWithFee`: exactly one when either side is zero,
      otherwise the truncated ratio. The supply is summed first, so an
      overflowing sum aborts even when nothing is bonded; the ratio aborts
      when it does not fit a Decimal. A division by zero never happens. */
  function ExchangeRate(totalBondAmount: Uint128, totalIssued: Uint128, requestedWithFee: Uint128): (r: Result<Decimal>)
    ensures r.Err? ==> r.error == Overflow
    ensures r.Err? <==>
      || totalIssued + requestedWithFee >= UINT128_LIMIT
      || (&& totalBondAmount > 0
          && totalIssued + requestedWithFee > 0
          && totalBondAmount * DECIMAL_FRACTIONAL >= UINT128_LIMIT * (totalIssued + requestedWithFee))
    ensures r.Ok? && (totalBondAmount == 0 || totalIssued + requestedWithFee == 0) ==> r.value == ONE
    ensures r.Ok? && totalBondAmount > 0 && totalIssued + requestedWithFee > 0 ==>
      && r.value.atomics * (totalIssued + requestedWithFee) <= totalBondAmount * DECIMAL_FRACTIONAL
      && totalBondAmount * DECIMAL_FRACTIONAL < (r.value.atomics + 1) * (totalIssued + requestedWithFee)
  {
    match CheckedAdd(totalIssued, requestedWithFee)
    case Err(e) => Err(e)
    case Ok(actualSupply) =>
      if totalBondAmount == 0 || actualSupply == 0 then Ok(ONE)
      else FromRatio(totalBondAmount, actualSupply)
  }

  /** The state after `update_exchange_rate`: the new rate, or the abort. */
  function Updated(s: StateValue, totalIssued: Uint128, requestedWithFee: Uint128): (r: Result<StateValue>)
    ensures r.Ok? <==> ExchangeRate(s.totalBondAmount, totalIssued, requestedWithFee).Ok?
    ensures r.Err? ==> r.error == Overflow
    ensures r.Ok? ==> r.value.exchangeRate == ExchangeRate(s.totalBondAmount, totalIssued, requestedWithFee).value
    ensures r.Ok? ==> r.value.(exchangeRate := s.exchangeRate) == s
  {
    match ExchangeRate(s.totalBondAmount, totalIssued, requestedWithFee)
    case Err(e) => Err(e)
    case Ok(rate) => Ok(s.(exchangeRate := rate))
  }

  /** With nothing bonded the rate is one, whatever the supply, unless the
      supply itself overflows. */
  lemma ZeroBondRateIsOne(totalIssued: Uint128, requestedWithFee: Uint128)
    requires totalIssued + requestedWithFee < UINT128_LIMIT
    ensures ExchangeRate(0, totalIssued, requestedWithFee) == Ok(ONE)
  {
  }

  /** With no supply the rate is one, whatever is bonded. */
  lemma ZeroSupplyRateIsOne(totalBondAmount: Uint128)
    ensures ExchangeRate(totalBondAmount, 0, 0) == Ok(ONE)
  {
  }

  /** With both sides nonzero the rate's atomics are
      `floor(totalBondAmount * 10^18 / supply)`. */
  lemma RateIsFloor(totalBondAmount: Uint128, totalIssued: Uint128, requestedWithFee: Uint128)
    requires totalBondAmount > 0 && totalIssued + requestedWithFee > 0
    requires ExchangeRate(totalBondAmount, totalIssued, requestedWithFee).Ok?
    ensures ExchangeRate(totalBondAmount, totalIssued, requestedWithFee).value.atomics
         == totalBondAmount * DECIMAL_FRACTIONAL / (totalIssued + requestedWithFee)
  {
    // The floor bounds of ExchangeRate's contract determine the quotient.
    DivBounds(totalBondAmount * DECIMAL_FRACTIONAL, totalIssued + requestedWithFee);
  }

  /** Only the sum of the two supply arguments matters: swapping them, or
      moving an amount from one to the other, gives the same outcome. */
  lemma RateDependsOnlyOnSupply(totalBondAmount: Uint128, i1: Uint128, r1: Uint128, i2: Uint128, r2: Uint128)
    requires i1 + r1 == i2 + r2
    ensures ExchangeRate(totalBondAmount, i1, r1) == ExchangeRate(totalBondAmount, i2, r2)
  {
  }

  /** Bonded total equal to the (nonzero) supply gives a rate of exactly one. */
  lemma RateIsOneAtPar(totalBondAmount: Uint128, totalIssued: Uint128, requestedWithFee: Uint128)
    requires totalBondAmount > 0 && totalBondAmount == totalIssued + requestedWithFee
    ensures ExchangeRate(totalBondAmount, totalIssued, requestedWithFee) == Ok(ONE)
  {
    var b := totalBondAmount;
    assert b * DECIMAL_FRACTIONAL == DECIMAL_FRACTIONAL * b;
    MulMono(DECIMAL_FRACTIONAL, UINT128_LIMIT, b);
    var r := ExchangeRate(b, totalIssued, requestedWithFee);
    assert r.Ok?;
    var q := r.value.atomics;
    if q < DECIMAL_FRACTIONAL {
      MulMono(q + 1, DECIMAL_FRACTIONAL, b);
    } else if q > DECIMAL_FRACTIONAL {
      MulMono(DECIMAL_FRACTIONAL + 1, q, b);
    }
  }

  /** Bonded 100 against a supply of 0 + 100 gives 1.0. */
  lemma ParExample()
    ensures ExchangeRate(100, 0, 100) == Ok(ONE)
  {
    RateIsOneAtPar(100, 0, 100);
  }

  /** Above zero, more bonded against the same supply never lowers the rate. */
  lemma RateMonotoneInBond(b1: Uint128, b2: Uint128, totalIssued: Uint128, requestedWithFee: Uint128)
    requires 0 < b1 <= b2
    requires ExchangeRate(b1, totalIssued, requestedWithFee).Ok?
    requires ExchangeRate(b2, totalIssued, requestedWithFee).Ok?
    ensures ExchangeRate(b1, totalIssued, requestedWithFee).value.atomics
         <= ExchangeRate(b2, totalIssued, requestedWithFee).value.atomics
  {
    var s := totalIssued + requestedWithFee;
    if s > 0 {
      assert ExchangeRate(b1, totalIssued, requestedWithFee) == FromRatio(b1, s);
      assert ExchangeRate(b2, totalIssued, requestedWithFee) == FromRatio(b2, s);
      FromRatioMonotone(b1, b2, s);
    }
  }

  /** With something bonded, a larger supply never raises the rate. */
  lemma RateAntitoneInSupply(totalBondAmount: Uint128, i1: Uint128, r1: Uint128, i2: Uint128, r2: Uint128)
    requires totalBondAmount > 0 && 0 < i1 + r1 <= i2 + r2
    requires ExchangeRate(totalBondAmount, i1, r1).Ok?
    requires ExchangeRate(totalBondAmount, i2, r2).Ok?
    ensures ExchangeRate(totalBondAmount, i2, r2).value.atomics
         <= ExchangeRate(totalBondAmount, i1, r1).value.atomics
  {
    assert ExchangeRate(totalBondAmount, i1, r1) == FromRatio(totalBondAmount, i1 + r1);
    assert ExchangeRate(totalBondAmount, i2, r2) == FromRatio(totalBondAmount, i2 + r2);
    FromRatioAntitone(totalBondAmount, i1 + r1, i2 + r2);
  }

  /** The zero guard makes the rate jump: nothing bonded against a supply of
      10 gives 1.0, while 1 bonded against the same supply gives 0.1. */
  lemma ZeroGuardIsNotMonotone()
    ensures ExchangeRate(0, 10, 0) == Ok(ONE)
    ensures ExchangeRate(1, 10, 0) == Ok(Decimal(DECIMAL_FRACTIONAL / 10))
  {
    RateIsFloor(1, 10, 0);
  }

  /** A nonzero bonded total can still yield a zero rate once the supply
      exceeds it by more than 10^18 times. */
  lemma RateCanTruncateToZero()
    ensures ExchangeRate(1, DECIMAL_FRACTIONAL + 1, 0) == Ok(Decimal(0))
  {
    RateIsFloor(1, DECIMAL_FRACTIONAL + 1, 0);
  }

  /** Recomputing the rate a second time with the same arguments changes
      nothing, because the update does not read what it writes. */
  lemma UpdateIdempotent(s: StateValue, totalIssued: Uint128, requestedWithFee: Uint128)
    requires Updated(s, totalIssued, requestedWithFee).Ok?
    ensures Updated(Updated(s, totalIssued, requestedWithFee).value, totalIssued, requestedWithFee)
         == Updated(s, totalIssued, requestedWithFee)
  {
  }

  /** With k > 0, scaling the bonded total and the supply by the same factor
      leaves the outcome unchanged: the rate is a function of their ratio. */
  lemma RateIsScaleInvariant(totalBondAmount: Uint128, totalIssued: Uint128, requestedWithFee: Uint128,
                             k: nat, scaledBond: Uint128, scaledIssued: Uint128, scaledRequested: Uint128)
    requires k > 0
    requires scaledBond == k * totalBondAmount
    requires scaledIssued + scaledRequested == k * (totalIssued + requestedWithFee)
    requires scaledIssued + scaledRequested < UINT128_LIMIT
    ensures ExchangeRate(scaledBond, scaledIssued, scaledRequested)
         == ExchangeRate(totalBondAmount, totalIssued, requestedWithFee)
  {
    var s := totalIssued + requestedWithFee;
    MulMono(1, k, s);
    MulMono(1, k, totalBondAmount);
    if totalBondAmount > 0 && s > 0 {
      FromRatioIsScaleInvariant(totalBondAmount, s, k, scaledBond, scaledIssued + scaledRequested);
    }
  }

  /** The record after a sequence of `update_exchange_rate` calls, each its
      own transaction: a call that aborts leaves the record as it was and the
      next call runs on that record. However many calls run, only the
      exchange rate ever changes. */
  function Replay(s: StateValue, calls: seq<(Uint128, Uint128)>): (r: StateValue)
    decreases |calls|
    ensures r.(exchangeRate := s.exchangeRate) == s
  {
    if calls == [] then s
    else
      var next := match Updated(s, calls[0].0, calls[0].1)
                  case Ok(t) => t
                  case Err(_) => s;
      Replay(next, calls[1..])
  }

  /** The rate keeps no memory of earlier calls: after any sequence ending in
      a call that succeeds, the record is what that last call alone makes of
      the starting record. */
  lemma {:induction false} ReplayLastCallWins(s: StateValue, calls: seq<(Uint128, Uint128)>)
    requires calls != []
    requires Updated(s, calls[|calls| - 1].0, calls[|calls| - 1].1).Ok?
    ensures Replay(s, calls) == Updated(s, calls[|calls| - 1].0, calls[|calls| - 1].1).value
    decreases |calls|
  {
    var next := match Updated(s, calls[0].0, calls[0].1)
                case Ok(t) => t
                case Err(_) => s;
    if |calls| > 1 {
      var last := calls[|calls| - 1];
      assert calls[1..][|calls[1..]| - 1] == last;
      assert next.(exchangeRate := s.exchangeRate) == s;
      ReplayLastCallWins(next, calls[1..]);
      var rate := ExchangeRate(s.totalBondAmount, last.0, last.1).value;
      assert next.(exchangeRate := rate) == s.(exchangeRate := rate);
    }
  }

  /** A sequence of calls that all abort leaves the record unchanged. */
  lemma {:induction false} ReplayAllAbort(s: StateValue, calls: seq<(Uint128, Uint128)>)
    requires forall j :: 0 <= j < |calls| ==> Updated(s, calls[j].0, calls[j].1).Err?
    ensures Replay(s, calls) == s
  {
    if calls != [] {
      forall j | 0 <= j < |calls[1..]|
        ensures Updated(s, calls[1..][j].0, calls[1..][j].1).Err?
      {
        assert calls[1..][j] == calls[j + 1];
      }
      ReplayAllAbort(s, calls[1..]);
    }
  }

  /** The vault's persistent state record. */
  class State {
    var exchangeRate: Decimal
    var totalBondAmount: Uint128
    var lastIndexModification: Uint64
    var prevVaultBalance: Uint128
    var actualUnbondedAmount: Uint128
    var lastUnbondedTime: Uint64
    var lastProcessedBatch: Uint64

    /** The record's current fields as a value. */
    function Value(): StateValue
      reads this
    {
      StateValue(exchangeRate, totalBondAmount, lastIndexModification, prevVaultBalance,
                 actualUnbondedAmount, lastUnbondedTime, lastProcessedBatch)
    }

    /** The derived default: every field zero, the rate included. */
    constructor Default()
      ensures Value() == StateValue(Decimal(0), 0, 0, 0, 0, 0, 0)
    {
      exchangeRate := Decimal(0);
      totalBondAmount := 0;
      lastIndexModification := 0;
      prevVaultBalance := 0;
      actualUnbondedAmount := 0;
      lastUnbondedTime := 0;
      lastProcessedBatch := 0;
    }

    /** `update_exchange_rate`: recomputes `exchangeRate` from the bonded
        total and the supply `totalIssued + requestedWithFee`; on an abort
        the state is left as it was. No other field is written. */
    method UpdateExchangeRate(totalIssued: Uint128, requestedWithFee: Uint128) returns (outcome: Outcome)
      modifies this`exchangeRate
      ensures outcome.Pass? <==> Updated(old(Value()), totalIssued, requestedWithFee).Ok?
      ensures outcome.Pass? ==> Value() == Updated(old(Value()), totalIssued, requestedWithFee).value
      ensures outcome.Pass? ==> exchangeRate == ExchangeRate(totalBondAmount, totalIssued, requestedWithFee).value
      ensures outcome.Fail? ==> outcome.error == Overflow && Value() == old(Value())
    {
      var supply := CheckedAdd(totalIssued, requestedWithFee);
      if supply.Err? {
        return Fail(supply.error);
      }
      var actualSupply := supply.value;
      if totalBondAmount == 0 || actualSupply == 0 {
        exchangeRate := ONE;
      } else {
        var ratio := FromRatio(totalBondAmount, actualSupply);
        if ratio.Err? {
          return Fail(ratio.error);
        }
        exchangeRate := ratio.value;
      }
      return Pass;
    }
  }

  /** Two calls in a row with the same arguments leave the record as one call does. */
  method UpdateTwice(st: State, totalIssued: Uint128, requestedWithFee: Uint128)
    returns (first: Outcome, second: Outcome)
    modifies st
    ensures first == second
    ensures first.Pass? ==> Updated(old(st.Value()), totalIssued, requestedWithFee) == Ok(st.Value())
    ensures first.Fail? ==> st.Value() == old(st.Value())
  {
    first := st.UpdateExchangeRate(totalIssued, requestedWithFee);
    second := st.UpdateExchangeRate(totalIssued, requestedWithFee);
    if first.Pass? {
      UpdateIdempotent(old(st.Value()), totalIssued, requestedWithFee);
    }
  }
}
