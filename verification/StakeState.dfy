/**
 Conversions and fees of programs/albus-stake-pool/src/state.rs: floor
 arithmetic on 64-bit amounts with 128-bit intermediate products.
 */
module StakeState {
  import opened Wrappers

  const U64_MAX: int := 0xFFFF_FFFF_FFFF_FFFF
  const U128_MAX: int := 0xFFFF_FFFF_FFFF_FFFF_FFFF_FFFF_FFFF_FFFF

  type U64 = n: int | 0 <= n <= 0xFFFF_FFFF_FFFF_FFFF

  /** `u64::try_from(x).ok()`. */
  function ToU64(x: nat): Option<U64> {
    if x <= U64_MAX then Some(x) else None
  }

  function CheckedAdd(x: U64, y: U64): Option<U64> {
    ToU64(x + y)
  }

  function CheckedSub(x: U64, y: U64): Option<U64> {
    if y <= x then Some(x - y) else None
  }

  function SaturatingAdd(x: nat, y: nat): U64 {
    if x + y <= U64_MAX then x + y else U64_MAX
  }

  function SaturatingSub(x: nat, y: nat): nat {
    if y <= x then x - y else 0
  }

  /** `checked_mul` on u128. */
  function CheckedMul128(x: nat, y: nat): Option<nat> {
    if x * y <= U128_MAX then Some(x * y) else None
  }

  /** x * y / d rounded down; two 64-bit factors fit the 128-bit product. */
  function MulDiv(x: nat, y: nat, d: nat): nat
    requires d > 0
  {
    (x * y) / d
  }

  // ---------------------------------------------------------------- fees

  datatype Fee = Fee(denominator: U64, numerator: U64) {
    /** The fee on an amount, rounded down; a zero denominator means no fee. */
    function Apply(amt: U64): nat {
      if denominator == 0 then 0 else MulDiv(amt, numerator, denominator)
    }

    /** Not more than the whole amount. */
    predicate AtMostOne() {
      numerator <= denominator
    }
  }

  /** A value that takes effect after one or two epoch boundaries. */
  datatype FutureEpoch<T> = Nothing | One(value: T) | Two(value: T) {
    function UpdateEpoch(): FutureEpoch<T> {
      match this
      case Nothing => Nothing
      case One(_) => Nothing
      case Two(v) => One(v)
    }

    function Get(): Option<T> {
      if One? then Some(value) else None
    }
  }

  datatype FeeType =
    | SolReferral(pct: nat)
    | StakeReferral(pct: nat)
    | Epoch(fee: Fee)
    | StakeWithdrawal(fee: Fee)
    | SolDeposit(fee: Fee)
    | StakeDeposit(fee: Fee)
    | SolWithdrawal(fee: Fee)
  {
    predicate TooHigh() {
      match this
      case SolReferral(p) => p > 100
      case StakeReferral(p) => p > 100
      case _ => fee.numerator > fee.denominator
    }

    predicate CanOnlyChangeNextEpoch() {
      StakeWithdrawal? || SolWithdrawal? || Epoch?
    }
  }

  datatype StakePoolError =
    | CalculationFailure
    | FeeTooHigh
    | FeeIncreaseTooHigh
    | StakeListAndPoolOutOfDate
    | StakeListOutOfDate
    | DepositTooSmall
    | WithdrawalTooSmall
    | ExceededSlippage
    | ValidatorNotFound
    | ValidatorAlreadyAdded
    | IncorrectDepositVoteAddress
    | IncorrectWithdrawVoteAddress
    | InvalidPreferredValidator
    | InvalidStakeAccountAddress
    | StakeLamportsNotEqualToMinimum
    | SolWithdrawalTooLarge
    | TransientAccountInUse
    | InvalidSeeds
    | WrongStakeStake
    | ReserveDepleted
    | InsufficientFunds
    | AccountNotRentExempt
    | InsufficientDelegation
    | AccountDataTooSmall
    | UnexpectedValidatorListAccountSize
    | StakeProgramRefused
    | TokenProgramRefused
    | NonZeroPoolTokenSupply

  // ----------------------------------------------------- the stake pool

  datatype StakePool = StakePool(
    totalLamports: U64,
    poolTokenSupply: U64,
    lastUpdateEpoch: U64,
    epochFee: Fee, nextEpochFee: FutureEpoch<Fee>,
    preferredDeposit: Option<nat>, preferredWithdraw: Option<nat>,
    stakeDepositFee: Fee,
    stakeWithdrawalFee: Fee, nextStakeWithdrawalFee: FutureEpoch<Fee>,
    stakeReferralFee: nat,
    solDepositFee: Fee, solReferralFee: nat,
    solWithdrawalFee: Fee, nextSolWithdrawalFee: FutureEpoch<Fee>,
    lastEpochPoolTokenSupply: U64, lastEpochTotalLamports: U64)
  {
    function CalcPoolTokensForDeposit(lamports: U64): Option<U64> {
      if totalLamports == 0 || poolTokenSupply == 0 then Some(lamports)
      else ToU64(MulDiv(lamports, poolTokenSupply, totalLamports))
    }

    function CalcLamportsWithdrawAmount(poolTokens: U64): Option<U64> {
      var numerator := poolTokens * totalLamports;
      if numerator < poolTokenSupply || poolTokenSupply == 0 then Some(0)
      else ToU64(numerator / poolTokenSupply)
    }

    function CalcReferralFee(pct: nat, fee: U64): Option<U64> {
      ToU64(MulDiv(fee, pct, 100))
    }

    /** The manager's share of a reward, in pool tokens. */
    function CalcEpochFeeAmount(reward: U64): Option<U64> {
      if reward == 0 then Some(0)
      else
        var total := totalLamports + reward;
        var feeLamports := epochFee.Apply(reward);
        if total == feeLamports || poolTokenSupply == 0 then Some(reward)
        else
          var product := CheckedMul128(poolTokenSupply, feeLamports);
          if product.None? || total < feeLamports then None
          else ToU64(product.value / (total - feeLamports))
    }

    /** The value of one pool token, rounded up. */
    function GetLamportsPerPoolToken(): Option<U64> {
      if totalLamports + poolTokenSupply > U64_MAX then None
      else if totalLamports + poolTokenSupply == 0 then None
      else if poolTokenSupply == 0 then None
      else Some((totalLamports + poolTokenSupply - 1) / poolTokenSupply)
    }

    /** Every fee that Initialize or SetFee can have put in place. */
    predicate FeesBounded() {
      && epochFee.AtMostOne() && stakeDepositFee.AtMostOne() && solDepositFee.AtMostOne()
      && stakeWithdrawalFee.AtMostOne() && solWithdrawalFee.AtMostOne()
      && (!nextEpochFee.Nothing? ==> nextEpochFee.value.AtMostOne())
      && (!nextStakeWithdrawalFee.Nothing? ==> nextStakeWithdrawalFee.value.AtMostOne())
      && (!nextSolWithdrawalFee.Nothing? ==> nextSolWithdrawalFee.value.AtMostOne())
      && stakeReferralFee <= 100 && solReferralFee <= 100
    }
  }

  // ------------------------------------------------- floors of quotients

  lemma DivBounds(x: nat, d: nat)
    requires d > 0
    ensures (x / d) * d <= x < (x / d + 1) * d
  {
    assert x == (x / d) * d + x % d;
    assert (x / d + 1) * d == (x / d) * d + d;
  }

  /** The floor of x / d is the greatest q with q * d <= x. */
  lemma FloorIs(x: nat, d: nat, q: int)
    requires d > 0
    ensures q <= x / d <==> q * d <= x
  {
    DivBounds(x, d);
    var k := x / d;
    if q <= k { MulMono(q, k, d); }
    if q >= k + 1 { MulMono(k + 1, q, d); }
  }

  lemma MulMono(a: int, b: int, c: int)
    requires a <= b && c >= 0
    ensures a * c <= b * c
  {
    assert (b - a) * c >= 0;
    assert (b - a) * c == b * c - a * c;
  }

  lemma MulCancel(a: int, b: int, c: int)
    requires c > 0 && a * c <= b * c
    ensures a <= b
  {
    assert (b + 1) * c == b * c + c;
    if a > b { MulMono(b + 1, a, c); }
  }

  /** `charged` is the fee's share of the amount rounded down, or nothing when the fee has no denominator. */
  predicate Charged(f: Fee, amt: int, charged: int) {
    if f.denominator == 0 then charged == 0
    else charged * f.denominator <= amt * f.numerator < (charged + 1) * f.denominator
  }

  /** The amount and the fee determine what is charged. */
  lemma ChargedUnique(f: Fee, amt: int, x: int, y: int)
    requires Charged(f, amt, x) && Charged(f, amt, y)
    ensures x == y
  {
    if f.denominator > 0 && x < y { MulMono(x + 1, y, f.denominator); }
    if f.denominator > 0 && y < x { MulMono(y + 1, x, f.denominator); }
  }

  lemma ApplyCharges(f: Fee, amt: U64)
    ensures Charged(f, amt, f.Apply(amt))
  {
    if f.denominator != 0 { DivBounds(amt * f.numerator, f.denominator); }
  }

  /** A fee of at most one takes no more than the amount. */
  lemma FeeWithin(f: Fee, amt: U64)
    requires f.AtMostOne()
    ensures f.Apply(amt) <= amt && Charged(f, amt, f.Apply(amt))
  {
    ApplyCharges(f, amt);
    if f.denominator != 0 {
      MulMono(f.numerator, f.denominator, amt);
      var x := amt * f.numerator;
      assert x == f.numerator * amt && f.denominator * amt == amt * f.denominator;
      FloorIs(x, f.denominator, amt + 1);
      assert (amt + 1) * f.denominator == amt * f.denominator + f.denominator;
    }
  }

  /** Whatever fee of a pool is in place or pending, it takes no more than the amount. */
  lemma EveryFeeWithin(p: StakePool, amt: U64)
    requires p.FeesBounded()
    ensures p.epochFee.Apply(amt) <= amt
    ensures p.stakeDepositFee.Apply(amt) <= amt && p.solDepositFee.Apply(amt) <= amt
    ensures p.stakeWithdrawalFee.Apply(amt) <= amt && p.solWithdrawalFee.Apply(amt) <= amt
    ensures !p.nextEpochFee.Nothing? ==> p.nextEpochFee.value.Apply(amt) <= amt
    ensures !p.nextStakeWithdrawalFee.Nothing? ==> p.nextStakeWithdrawalFee.value.Apply(amt) <= amt
    ensures !p.nextSolWithdrawalFee.Nothing? ==> p.nextSolWithdrawalFee.value.Apply(amt) <= amt
    ensures (amt * p.stakeReferralFee) / 100 <= amt && (amt * p.solReferralFee) / 100 <= amt
  {
    hide Charged, Fee.Apply;
    FeeWithin(p.epochFee, amt);
    FeeWithin(p.stakeDepositFee, amt);
    FeeWithin(p.solDepositFee, amt);
    FeeWithin(p.stakeWithdrawalFee, amt);
    FeeWithin(p.solWithdrawalFee, amt);
    if !p.nextEpochFee.Nothing? { FeeWithin(p.nextEpochFee.value, amt); }
    if !p.nextStakeWithdrawalFee.Nothing? { FeeWithin(p.nextStakeWithdrawalFee.value, amt); }
    if !p.nextSolWithdrawalFee.Nothing? { FeeWithin(p.nextSolWithdrawalFee.value, amt); }
    PercentWithin(p.stakeReferralFee, amt);
    PercentWithin(p.solReferralFee, amt);
  }

  lemma PercentWithin(pct: nat, fee: U64)
    requires pct <= 100
    ensures (fee * pct) / 100 <= fee
  {
    MulMono(pct, 100, fee);
    assert pct * fee == fee * pct;
  }
}
