/**
 What the floors of programs/albus-stake-pool/src/state.rs guarantee: the value
 of a pool token never falls, the manager's fee dilutes by no more than the
 reward, and deposit fees split exactly.
 */
module SharePrice {
  import opened Wrappers
  import opened StakeState

  /** A token of q is worth at least what a token of p was: total'/supply' >= total/supply. */
  ghost predicate NotBelow(p: StakePool, q: StakePool) {
    q.totalLamports * p.poolTokenSupply >= p.totalLamports * q.poolTokenSupply
  }

  // ------------------------------------------------------------- steps

  ghost predicate DepositStep(p: StakePool, q: StakePool, lamports: U64, tokens: U64) {
    && p.CalcPoolTokensForDeposit(lamports) == Some(tokens)
    && q.totalLamports == p.totalLamports + lamports
    && q.poolTokenSupply == p.poolTokenSupply + tokens
  }

  /** The lamports may be truncated below the computed amount. */
  ghost predicate WithdrawStep(p: StakePool, q: StakePool, burnt: U64, lamports: U64) {
    && p.CalcLamportsWithdrawAmount(burnt).Some? && lamports <= p.CalcLamportsWithdrawAmount(burnt).value
    && q.totalLamports == p.totalLamports - lamports
    && q.poolTokenSupply == p.poolTokenSupply - burnt
  }

  /** A balance update whose total did not drop, with at most the computed fee minted. */
  ghost predicate UpdateStep(p: StakePool, q: StakePool, fee: U64) {
    && p.totalLamports <= q.totalLamports
    && (fee == 0 || p.CalcEpochFeeAmount(q.totalLamports - p.totalLamports) == Some(fee))
    && p.epochFee.AtMostOne()
    && q.poolTokenSupply <= p.poolTokenSupply + fee
  }

  ghost predicate Step(p: StakePool, q: StakePool) {
    || (q.totalLamports == p.totalLamports && q.poolTokenSupply == p.poolTokenSupply)
    || (exists l: U64, t: U64 :: DepositStep(p, q, l, t))
    || (exists t: U64, l: U64 :: WithdrawStep(p, q, t, l))
    || (exists fee: U64 :: UpdateStep(p, q, fee))
  }

  lemma StillStep(p: StakePool, q: StakePool)
    requires q.totalLamports == p.totalLamports && q.poolTokenSupply == p.poolTokenSupply
    ensures Step(p, q)
  {
  }

  lemma DepositIsStep(p: StakePool, q: StakePool, lamports: U64, tokens: U64)
    requires DepositStep(p, q, lamports, tokens)
    ensures Step(p, q)
  {
  }

  lemma WithdrawIsStep(p: StakePool, q: StakePool, burnt: U64, lamports: U64)
    requires WithdrawStep(p, q, burnt, lamports)
    ensures Step(p, q)
  {
  }

  lemma UpdateIsStep(p: StakePool, q: StakePool, fee: U64)
    requires UpdateStep(p, q, fee)
    ensures Step(p, q)
  {
  }

  /**
   Tokens minted are their share rounded down, the greatest number with tokens * T <=
   lamports * S; a pool without lamports or without tokens mints one for one.
   */
  lemma MintedShare(p: StakePool, lamports: U64, tokens: U64)
    requires p.CalcPoolTokensForDeposit(lamports) == Some(tokens)
    ensures p.totalLamports == 0 || p.poolTokenSupply == 0 ==> tokens == lamports
    ensures p.poolTokenSupply > 0 ==> tokens * p.totalLamports <= lamports * p.poolTokenSupply
    ensures p.totalLamports > 0 && p.poolTokenSupply > 0 ==>
      lamports * p.poolTokenSupply < (tokens + 1) * p.totalLamports
  {
    if p.totalLamports > 0 { DivBounds(lamports * p.poolTokenSupply, p.totalLamports); }
  }

  /** The conversions fail exactly where the share does not fit 64 bits. */
  lemma ConversionsDefined(p: StakePool, amount: U64)
    ensures p.CalcPoolTokensForDeposit(amount).Some? <==>
      p.totalLamports == 0 || p.poolTokenSupply == 0
      || amount * p.poolTokenSupply < (U64_MAX + 1) * p.totalLamports
    ensures p.CalcLamportsWithdrawAmount(amount).Some? <==>
      p.poolTokenSupply == 0 || amount * p.totalLamports < (U64_MAX + 1) * p.poolTokenSupply
  {
    var T: int, S: int := p.totalLamports, p.poolTokenSupply;
    if T > 0 { FloorIs(amount * S, T, U64_MAX + 1); }
    if S > 0 { FloorIs(amount * T, S, U64_MAX + 1); }
  }

  /** The value of one token is rounded up: the least number of lamports with lamports * S >= T. */
  lemma PerTokenIsCeiling(p: StakePool, lamports: U64)
    ensures var r := p.GetLamportsPerPoolToken();
      && (r.Some? <==> p.poolTokenSupply > 0 && p.totalLamports + p.poolTokenSupply <= U64_MAX)
      && (r.Some? ==> (r.value <= lamports <==> p.totalLamports <= lamports * p.poolTokenSupply))
  {
    var T: int, S: int := p.totalLamports, p.poolTokenSupply;
    if S > 0 {
      FloorIs(T + S - 1, S, lamports + 1);
      assert (lamports + 1) * S == lamports * S + S;
    }
  }

  /** Lamports paid out are their share rounded down; nothing is paid by a pool without tokens. */
  lemma PaidShare(p: StakePool, burnt: U64, lamports: U64)
    requires p.CalcLamportsWithdrawAmount(burnt) == Some(lamports)
    ensures p.poolTokenSupply == 0 ==> lamports == 0
    ensures lamports * p.poolTokenSupply <= burnt * p.totalLamports
    ensures p.poolTokenSupply > 0 ==> burnt * p.totalLamports < (lamports + 1) * p.poolTokenSupply
  {
    var n, s := burnt * p.totalLamports, p.poolTokenSupply;
    if !(n < s || s == 0) { DivBounds(n, s); }
  }

  lemma DepositKeepsPrice(p: StakePool, q: StakePool, lamports: U64, tokens: U64)
    requires DepositStep(p, q, lamports, tokens) && p.poolTokenSupply > 0
    ensures NotBelow(p, q)
  {
    MintedShare(p, lamports, tokens);
    AddShares(p.totalLamports, p.poolTokenSupply, lamports, tokens);
  }

  lemma AddShares(T: int, S: int, l: int, t: int)
    ensures (T + l) * S - T * (S + t) == l * S - t * T
  {
  }

  lemma WithdrawKeepsPrice(p: StakePool, q: StakePool, burnt: U64, lamports: U64)
    requires WithdrawStep(p, q, burnt, lamports)
    ensures NotBelow(p, q)
  {
    var full := p.CalcLamportsWithdrawAmount(burnt).value;
    PaidShare(p, burnt, full);
    MulMono(lamports, full, p.poolTokenSupply);
    SubShares(p.totalLamports, p.poolTokenSupply, lamports, burnt);
  }

  lemma SubShares(T: int, S: int, l: int, t: int)
    ensures (T - l) * S - T * (S - t) == t * T - l * S
  {
  }

  /**
   The fee tokens f for a reward R: f / (S + f) of the new total is at most the
   fee in lamports, and the holders' part of the new total is at least the old
   total.
   */
  lemma EpochFeeDilution(p: StakePool, reward: U64, f: U64)
    requires p.epochFee.AtMostOne() && p.poolTokenSupply > 0
    requires p.CalcEpochFeeAmount(reward) == Some(f)
    ensures f * (p.totalLamports + reward) <= p.epochFee.Apply(reward) * (p.poolTokenSupply + f)
    ensures p.totalLamports * (p.poolTokenSupply + f) <= p.poolTokenSupply * (p.totalLamports + reward)
  {
    var T: int, S: int, R: int := p.totalLamports, p.poolTokenSupply, reward;
    if R > 0 {
      var F := p.epochFee.Apply(R);
      FeeWithin(p.epochFee, R);
      if T + R == F {
        MulMono(R, S + R, R);
        assert R * R <= (S + R) * R == R * (S + R);
        assert S * R >= 0;
      } else {
        DivBounds(S * F, T + R - F);
        DilutionArithmetic(T, S, R, F, f);
      }
    }
  }

  /**
   The fee tokens are the greatest number whose part of the new total is within the
   fee in lamports, as long as the fee is not all of the new total.
   */
  lemma EpochFeeIsFloor(p: StakePool, reward: U64, f: U64)
    requires p.epochFee.AtMostOne() && p.poolTokenSupply > 0
    requires p.CalcEpochFeeAmount(reward) == Some(f)
    ensures var fee, total := p.epochFee.Apply(reward), p.totalLamports + reward;
      if reward == 0 then f == 0
      else if fee == total then f == reward
      else f * total <= fee * (p.poolTokenSupply + f) && (f + 1) * total > fee * (p.poolTokenSupply + f + 1)
  {
    var T: int, S: int, R: int := p.totalLamports, p.poolTokenSupply, reward;
    var F := p.epochFee.Apply(R);
    FeeWithin(p.epochFee, R);
    if R > 0 && T + R != F {
      EpochFeeDilution(p, R, f);
      DivBounds(S * F, T + R - F);
      assert (f + 1) * (T + R - F) == (f + 1) * (T + R) - (f + 1) * F;
      assert F * (S + f + 1) == S * F + (f + 1) * F;
    }
  }

  /** Into a pool without tokens the whole reward is minted, and the fee exists unless it does not fit 64 bits. */
  lemma EpochFeeDefined(p: StakePool, reward: U64)
    requires p.epochFee.AtMostOne() && reward > 0
    ensures p.poolTokenSupply == 0 ==> p.CalcEpochFeeAmount(reward) == Some(reward)
    ensures var fee, total := p.epochFee.Apply(reward), p.totalLamports + reward;
      p.poolTokenSupply > 0 && fee < total ==>
      (p.CalcEpochFeeAmount(reward).Some? <==> p.poolTokenSupply * fee < (U64_MAX + 1) * (total - fee))
  {
    var T: int, S: int, F := p.totalLamports, p.poolTokenSupply, p.epochFee.Apply(reward);
    FeeWithin(p.epochFee, reward);
    if S > 0 && F < T + reward {
      MulMono(S, U64_MAX, F);
      MulMono(F, U64_MAX, U64_MAX);
      assert F * U64_MAX == U64_MAX * F;
      FloorIs(S * F, T + reward - F, U64_MAX + 1);
    }
  }

  lemma DilutionArithmetic(T: nat, S: nat, R: nat, F: nat, f: nat)
    requires F <= R && f * (T + R - F) <= S * F
    ensures f * (T + R) <= F * (S + f) && T * (S + f) <= S * (T + R)
  {
    assert f * (T + R - F) == f * (T + R) - f * F;
    assert F * (S + f) == S * F + f * F;
    MulMono(T, T + R - F, f);
    assert T * f <= (T + R - F) * f == f * (T + R - F);
    MulMono(F, R, S);
    assert F * S == S * F && R * S == S * R;
    assert T * (S + f) == T * S + T * f && S * (T + R) == T * S + S * R;
  }

  lemma UpdateKeepsPrice(p: StakePool, q: StakePool, fee: U64)
    requires UpdateStep(p, q, fee) && p.poolTokenSupply > 0
    ensures NotBelow(p, q)
  {
    var T: int, S: int := p.totalLamports, p.poolTokenSupply;
    var R := q.totalLamports - T;
    if fee == 0 {
      MulMono(T, T + R, S);
      assert T * (S + fee) == T * S;
    } else {
      EpochFeeDilution(p, R, fee);
      assert S * (T + R) == (T + R) * S;
    }
    MulMono(q.poolTokenSupply, S + fee, T);
    assert q.poolTokenSupply * T == T * q.poolTokenSupply && (S + fee) * T == T * (S + fee);
  }

  lemma StepKeepsPrice(p: StakePool, q: StakePool)
    requires Step(p, q) && p.poolTokenSupply > 0
    ensures NotBelow(p, q)
  {
    if l: U64, t: U64 :| DepositStep(p, q, l, t) { DepositKeepsPrice(p, q, l, t); }
    if t: U64, l: U64 :| WithdrawStep(p, q, t, l) { WithdrawKeepsPrice(p, q, t, l); }
    if fee: U64 :| UpdateStep(p, q, fee) { UpdateKeepsPrice(p, q, fee); }
  }

  lemma PriceTransitive(T0: int, S0: int, T1: int, S1: int, T2: int, S2: int)
    requires S0 >= 0 && S1 > 0 && S2 >= 0
    requires T1 * S0 >= T0 * S1 && T2 * S1 >= T1 * S2
    ensures T2 * S0 >= T0 * S2
  {
    MulMono(T1 * S2, T2 * S1, S0);
    MulMono(T0 * S1, T1 * S0, S2);
    assert (T2 * S1) * S0 == (T2 * S0) * S1;
    assert (T1 * S2) * S0 == (T1 * S0) * S2;
    assert (T0 * S1) * S2 == (T0 * S2) * S1;
    MulCancel(T0 * S2, T2 * S0, S1);
  }

  /** A run: every state follows from the one before, and the supply stays positive. */
  ghost predicate Run(trace: seq<StakePool>) {
    && |trace| > 0
    && (forall i :: 0 <= i < |trace| ==> trace[i].poolTokenSupply > 0)
    && (forall i :: 0 < i < |trace| ==> Step(trace[i - 1], trace[i]))
  }

  /** Over any run of deposits, withdrawals and updates the share price does not fall. */
  lemma {:induction false} RunKeepsPrice(trace: seq<StakePool>)
    requires Run(trace)
    ensures NotBelow(trace[0], trace[|trace| - 1])
  {
    hide Step;
    var n := |trace| - 1;
    if n > 0 {
      var init := trace[..n];
      assert forall i :: 0 <= i < |init| ==> init[i] == trace[i];
      RunKeepsPrice(init);
      StepKeepsPrice(trace[n - 1], trace[n]);
      var a, b, c := trace[0], trace[n - 1], trace[n];
      assert init[|init| - 1] == b;
      PriceTransitive(a.totalLamports, a.poolTokenSupply, b.totalLamports, b.poolTokenSupply, c.totalLamports,
                      c.poolTokenSupply);
    }
  }

  /** A run that brings the supply back leaves at least the old total. */
  lemma NoExtraction(trace: seq<StakePool>)
    requires Run(trace) && trace[|trace| - 1].poolTokenSupply == trace[0].poolTokenSupply
    ensures trace[|trace| - 1].totalLamports >= trace[0].totalLamports
  {
    RunKeepsPrice(trace);
    MulCancel(trace[0].totalLamports, trace[|trace| - 1].totalLamports, trace[0].poolTokenSupply);
  }

  /** What is within its share at a later price is within its share at the earlier one. */
  lemma ShareAtNewPrice(T: nat, S: nat, T': nat, S': nat, l: nat, t: nat)
    requires T' > 0 && T' * S >= T * S' && t * T' <= l * S'
    ensures t * T <= l * S
  {
    MulMono(t * T', l * S', T);
    MulMono(T * S', T' * S, l);
    assert (t * T') * T == (t * T) * T';
    assert (l * S') * T == (T * S') * l;
    assert (T' * S) * l == (l * S) * T';
    MulCancel(t * T, l * S, T');
  }

  lemma SplitWithinShares(p: StakePool, q: StakePool, l1: U64, t1: U64, l2: U64, t2: U64, whole: U64)
    requires p.totalLamports > 0 && p.poolTokenSupply > 0
    requires DepositStep(p, q, l1, t1) && q.CalcPoolTokensForDeposit(l2) == Some(t2)
    requires l1 + l2 <= U64_MAX && p.CalcPoolTokensForDeposit(l1 + l2) == Some(whole)
    ensures t1 + t2 <= whole
  {
    var T: int, S: int := p.totalLamports, p.poolTokenSupply;
    MintedShare(p, l1, t1);
    MintedShare(q, l2, t2);
    DepositKeepsPrice(p, q, l1, t1);
    ShareAtNewPrice(T, S, q.totalLamports, q.poolTokenSupply, l2, t2);
    assert (t1 + t2) * T == t1 * T + t2 * T && (l1 + l2) * S == l1 * S + l2 * S;
    FloorIs((l1 + l2) * S, T, t1 + t2);
  }

  /** Into a pool without tokens, the second part of a deposit mints at most one for one. */
  lemma SplitWithoutSupply(T: nat, l1: nat, l2: nat)
    requires l1 > 0
    ensures (l2 * l1) / (T + l1) <= l2
  {
    FloorIs(l2 * l1, T + l1, l2 + 1);
    assert (l2 + 1) * (T + l1) == l2 * l1 + l2 * T + T + l1;
    assert l2 * T >= 0;
  }

  /** Into a pool without lamports, the first part of a deposit sets the price of the second. */
  lemma SplitWithoutTotal(S: nat, l1: nat, l2: nat)
    requires l1 > 0
    ensures (l2 * (S + l1)) / l1 > l2 <==> l2 * S >= l1
  {
    assert (l2 + 1) * l1 == l2 * l1 + l1 && l2 * (S + l1) == l2 * S + l2 * l1;
    FloorIs(l2 * (S + l1), l1, l2 + 1);
  }

  /**
   Splitting a deposit in two mints more tokens than making it at once if and only if
   the pool has tokens but no lamports, and the second part times these tokens is at
   least the first part: the code mints the first part one for one, which sets a price
   of less than one for the second.
   */
  lemma SplitDepositGainsIff(p: StakePool, q: StakePool, l1: U64, t1: U64, l2: U64, t2: U64, whole: U64)
    requires DepositStep(p, q, l1, t1) && q.CalcPoolTokensForDeposit(l2) == Some(t2)
    requires l1 + l2 <= U64_MAX && p.CalcPoolTokensForDeposit(l1 + l2) == Some(whole)
    ensures t1 + t2 > whole <==>
      p.totalLamports == 0 && p.poolTokenSupply > 0 && l1 > 0 && l2 * p.poolTokenSupply >= l1
  {
    if p.totalLamports > 0 && p.poolTokenSupply > 0 {
      SplitWithinShares(p, q, l1, t1, l2, t2, whole);
    } else if l1 > 0 && p.poolTokenSupply == 0 {
      SplitWithoutSupply(p.totalLamports, l1, l2);
    } else if l1 > 0 {
      SplitWithoutTotal(p.poolTokenSupply, l1, l2);
    }
  }

  /** One lamport first, and a deposit of 1 SOL mints 3_282_881 times the tokens. */
  lemma SplitDepositGains(p: StakePool)
    requires p.totalLamports == 0 && p.poolTokenSupply == 3_282_880
    ensures var q := p.(totalLamports := 1, poolTokenSupply := 3_282_881);
      && DepositStep(p, q, 1, 1)
      && q.CalcPoolTokensForDeposit(1_000_000_000) == Some(3_282_881_000_000_000)
      && p.CalcPoolTokensForDeposit(1_000_000_001) == Some(1_000_000_001)
  {
  }

  lemma RoundTripWithinShares(p: StakePool, q: StakePool, lamports: U64, tokens: U64, out: U64)
    requires p.poolTokenSupply > 0 && p.totalLamports > 0
    requires DepositStep(p, q, lamports, tokens) && q.CalcLamportsWithdrawAmount(tokens) == Some(out)
    ensures out <= lamports
  {
    var T: int, S: int := p.totalLamports, p.poolTokenSupply;
    MintedShare(p, lamports, tokens);
    PaidShare(q, tokens, out);
    // out * (S + t) <= t * (T + l) <= l * (S + t)
    assert tokens * (T + lamports) == tokens * T + tokens * lamports;
    assert lamports * (S + tokens) == lamports * S + tokens * lamports;
    MulCancel(out, lamports, S + tokens);
  }

  /** One for one into a pool without lamports: the old tokens take their part of the deposit. */
  lemma RoundTripWithoutTotal(p: StakePool, q: StakePool, lamports: U64, out: U64)
    requires p.totalLamports == 0
    requires DepositStep(p, q, lamports, lamports) && q.CalcLamportsWithdrawAmount(lamports) == Some(out)
    ensures out <= lamports
  {
    if lamports > 0 {
      PaidShare(q, lamports, out);
      assert lamports * (p.poolTokenSupply + lamports) == lamports * p.poolTokenSupply + lamports * lamports;
      assert lamports * p.poolTokenSupply >= 0;
      MulCancel(out, lamports, p.poolTokenSupply + lamports);
    }
  }

  /** Into a pool without tokens: the depositor's tokens are all there are. */
  lemma RoundTripWithoutSupply(p: StakePool, q: StakePool, lamports: U64, out: U64)
    requires p.poolTokenSupply == 0 && lamports > 0
    requires DepositStep(p, q, lamports, lamports) && q.CalcLamportsWithdrawAmount(lamports) == Some(out)
    ensures out == p.totalLamports + lamports
  {
    var n := p.totalLamports + lamports;
    assert lamports * n == n * lamports >= lamports by { MulMono(1, n, lamports); }
    assert (n * lamports) / lamports == n by { Quotient(n, lamports); }
  }

  lemma Quotient(n: nat, d: nat)
    requires d > 0
    ensures (n * d) / d == n
  {
    FloorIs(n * d, d, n);
    FloorIs(n * d, d, n + 1);
    assert (n + 1) * d == n * d + d;
  }

  /**
   Withdrawing the tokens a deposit minted pays out more than was put in if and only
   if the pool had lamports but no tokens: the depositor then owns all of them.
   */
  lemma DepositWithdrawGainsIff(p: StakePool, q: StakePool, lamports: U64, tokens: U64, out: U64)
    requires DepositStep(p, q, lamports, tokens) && q.CalcLamportsWithdrawAmount(tokens) == Some(out)
    ensures out > lamports <==> p.poolTokenSupply == 0 && p.totalLamports > 0 && lamports > 0
  {
    if p.poolTokenSupply > 0 && p.totalLamports > 0 {
      RoundTripWithinShares(p, q, lamports, tokens, out);
    } else if p.totalLamports == 0 {
      RoundTripWithoutTotal(p, q, lamports, out);
    } else if lamports > 0 {
      RoundTripWithoutSupply(p, q, lamports, out);
    }
  }

  /** The least t with L * S <= t * T. */
  lemma CeilShare(L: nat, S: nat, T: nat) returns (t: nat)
    requires T > 0 && L <= T
    ensures t <= S && L * S <= t * T < L * S + T
  {
    var q := (L * S) / T;
    DivBounds(L * S, T);
    t := if q * T == L * S then q else q + 1;
    assert (q + 1) * T == q * T + T;
    MulMono(L, T, S);
    assert T * S == S * T && (t - 1) * T == t * T - T;
    MulCancelStrict(t - 1, S, T);
  }

  lemma MulCancelStrict(a: int, b: int, c: int)
    requires c > 0 && a * c < b * c
    ensures a < b
  {
    if b <= a { MulMono(b, a, c); }
  }

  /**
   Some amount of tokens withdraws a whole account: the paid amount lies between
   the balance and the balance plus the rounded-up value of one token.
   */
  lemma WholeAccountWithdrawable(p: StakePool, L: U64) returns (t: U64)
    requires p.totalLamports > 0 && p.poolTokenSupply > 0 && L <= p.totalLamports
    requires p.totalLamports + p.poolTokenSupply <= U64_MAX
    ensures t <= p.poolTokenSupply
    ensures p.CalcLamportsWithdrawAmount(t).Some? && p.GetLamportsPerPoolToken().Some?
    ensures L <= p.CalcLamportsWithdrawAmount(t).value <= L + p.GetLamportsPerPoolToken().value
  {
    t := CeilShare(L, p.poolTokenSupply, p.totalLamports);
    PaidAmount(p, t, L);
    PerTokenBound(p, t, L);
  }

  lemma PaidAmount(p: StakePool, t: U64, L: U64)
    requires p.poolTokenSupply > 0 && t <= p.poolTokenSupply && L * p.poolTokenSupply <= t * p.totalLamports
    ensures p.CalcLamportsWithdrawAmount(t).Some? && L <= p.CalcLamportsWithdrawAmount(t).value
  {
    var n: int, S: int, T: int := t * p.totalLamports, p.poolTokenSupply, p.totalLamports;
    FloorIs(n, S, L);
    MulMono(t, S, T);
    assert S * T == T * S;
    FloorIs(n, S, T + 1);
    assert (T + 1) * S == T * S + S;
    FloorIs(n, S, 1);
  }

  lemma PerTokenBound(p: StakePool, t: U64, L: U64)
    requires p.poolTokenSupply > 0 && p.totalLamports > 0 && p.totalLamports + p.poolTokenSupply <= U64_MAX
    requires t * p.totalLamports < L * p.poolTokenSupply + p.totalLamports
    requires p.CalcLamportsWithdrawAmount(t).Some?
    ensures p.CalcLamportsWithdrawAmount(t).value <= L + p.GetLamportsPerPoolToken().value
  {
    var T: int, S: int, r: int := p.totalLamports, p.poolTokenSupply, p.GetLamportsPerPoolToken().value;
    var w: int := p.CalcLamportsWithdrawAmount(t).value;
    PaidShare(p, t, w);
    DivBounds(T + S - 1, S);
    assert (r + 1) * S == r * S + S;
    assert (L + r) * S == L * S + r * S;
    MulCancel(w, L + r, S);
  }

  // -------------------------------------------------------- deposit fees

  /** The tokens of a deposit, split between the user, the manager and the referrer. */
  datatype DepositSplit = DepositSplit(minted: U64, user: U64, manager: U64, referral: U64)

  /**
   The chain of checked subtractions and the re-check of the sum that follow
   the conversions of a deposit: `minted` tokens, `fee` of them charged, `pct`
   percent of the fee to the referrer.
   */
  function SplitTokens(p: StakePool, minted: U64, fee: Option<U64>, pct: nat): Option<DepositSplit> {
    if fee.None? then None
    else
      var user := CheckedSub(minted, fee.value);
      if user.None? then None
      else
        var referral := p.CalcReferralFee(pct, fee.value);
        if referral.None? then None
        else
          var manager := CheckedSub(fee.value, referral.value);
          if manager.None? then None
          else if SaturatingAdd(SaturatingAdd(user.value, manager.value), referral.value) != minted then None
          else Some(DepositSplit(minted, user.value, manager.value, referral.value))
  }

  function SolDepositSplit(p: StakePool, minted: U64): Option<DepositSplit> {
    SplitTokens(p, minted, ToU64(p.solDepositFee.Apply(minted)), p.solReferralFee)
  }

  /** A stake deposit charges the delegated part and the extra lamports separately. */
  function StakeDepositSplit(p: StakePool, minted: U64, fromStake: U64): Option<DepositSplit> {
    var fromSol := CheckedSub(minted, fromStake);
    if fromSol.None? then None
    else
      var stakeFee := ToU64(p.stakeDepositFee.Apply(fromStake));
      var solFee := ToU64(p.solDepositFee.Apply(fromSol.value));
      if stakeFee.None? || solFee.None? then None
      else SplitTokens(p, minted, CheckedAdd(stakeFee.value, solFee.value), p.stakeReferralFee)
  }

  /** `part` is so many percent of the whole, rounded down. */
  predicate Percent(pct: nat, whole: int, part: int) {
    100 * part <= whole * pct < 100 * (part + 1)
  }

  lemma PercentUnique(pct: nat, whole: int, x: int, y: int)
    requires Percent(pct, whole, x) && Percent(pct, whole, y)
    ensures x == y
  {
  }

  lemma SplitExact(p: StakePool, minted: U64, fee: U64, pct: nat)
    requires fee <= minted && pct <= 100
    ensures var s := SplitTokens(p, minted, Some(fee), pct);
      s.Some? && s.value.minted == minted && s.value.user == minted - fee
      && s.value.user + s.value.manager + s.value.referral == minted
      && Percent(pct, fee, s.value.referral)
  {
    DivBounds(fee * pct, 100);
    PercentWithin(pct, fee);
  }

  /** With the fees that can be in place, no check of a SOL deposit's split fails. */
  lemma SolDepositSplitTotal(p: StakePool, minted: U64)
    requires p.FeesBounded()
    ensures var s := SolDepositSplit(p, minted);
      && s.Some? && s.value.user + s.value.manager + s.value.referral == s.value.minted == minted
      && minted - s.value.user == p.solDepositFee.Apply(minted)
      && Percent(p.solReferralFee, minted - s.value.user, s.value.referral)
  {
    FeeWithin(p.solDepositFee, minted);
    SplitExact(p, minted, p.solDepositFee.Apply(minted), p.solReferralFee);
  }

  /** A smaller deposit mints no more. */
  lemma ConversionMonotone(p: StakePool, small: U64, large: U64)
    requires small <= large && p.CalcPoolTokensForDeposit(large).Some?
    ensures p.CalcPoolTokensForDeposit(small).Some?
    ensures p.CalcPoolTokensForDeposit(small).value <= p.CalcPoolTokensForDeposit(large).value
  {
    var T: int, S: int := p.totalLamports, p.poolTokenSupply;
    if T > 0 && S > 0 {
      MulMono(small, large, S);
      var k := (small * S) / T;
      DivBounds(small * S, T);
      FloorIs(large * S, T, k);
    }
  }

  /** The same for a stake deposit, whose delegated part is at most the whole. */
  lemma StakeDepositSplitTotal(p: StakePool, total: U64, stake: U64)
    requires p.FeesBounded() && stake <= total && p.CalcPoolTokensForDeposit(total).Some?
    ensures p.CalcPoolTokensForDeposit(stake).Some?
    ensures var minted := p.CalcPoolTokensForDeposit(total).value;
      var s := StakeDepositSplit(p, minted, p.CalcPoolTokensForDeposit(stake).value);
      var fromStake := p.CalcPoolTokensForDeposit(stake).value;
      && s.Some? && s.value.user + s.value.manager + s.value.referral == s.value.minted == minted
      && fromStake <= minted
      && minted - s.value.user == p.stakeDepositFee.Apply(fromStake) + p.solDepositFee.Apply(minted - fromStake)
      && Percent(p.stakeReferralFee, minted - s.value.user, s.value.referral)
  {
    ConversionMonotone(p, stake, total);
    var minted, fromStake := p.CalcPoolTokensForDeposit(total).value, p.CalcPoolTokensForDeposit(stake).value;
    FeeWithin(p.stakeDepositFee, fromStake);
    FeeWithin(p.solDepositFee, minted - fromStake);
    SplitExact(p, minted, p.stakeDepositFee.Apply(fromStake) + p.solDepositFee.Apply(minted - fromStake),
               p.stakeReferralFee);
  }
}
