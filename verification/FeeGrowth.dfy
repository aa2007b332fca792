/**
 Fee changes of programs/albus-stake-pool: what `check_withdrawal` accepts, how a
 pending fee lands at epoch boundaries, and how fast a withdrawal fee can grow.
 */
module FeeGrowth {
  import opened Wrappers
  import opened StakeState

  const WITHDRAWAL_BASELINE_FEE := Fee(1000, 1)
  const MAX_WITHDRAWAL_FEE_INCREASE := Fee(2, 3)

  /** The derived order on Option: None is below every Some. */
  predicate OptionLess(x: Option<nat>, y: Option<nat>) {
    y.Some? && (x.None? || x.value < y.value)
  }

  /** The fee an increase is measured against: the baseline when the old fee is zero. */
  function Reference(prior: Fee): (r: Fee)
    ensures r.denominator > 0 && r.numerator > 0
  {
    if prior.denominator == 0 || prior.numerator == 0 then WITHDRAWAL_BASELINE_FEE else prior
  }

  function OldProduct(fee: Fee, prior: Fee): nat {
    Reference(prior).numerator * fee.denominator
  }

  function NewProduct(fee: Fee, prior: Fee): nat {
    fee.numerator * Reference(prior).denominator
  }

  function CheckWithdrawal(fee: Fee, prior: Fee): Result<(), StakePoolError> {
    if OptionLess(CheckedMul128(OldProduct(fee, prior), MAX_WITHDRAWAL_FEE_INCREASE.numerator),
                  CheckedMul128(NewProduct(fee, prior), MAX_WITHDRAWAL_FEE_INCREASE.denominator))
    then Err(FeeIncreaseTooHigh)
    else Ok(())
  }

  /** The intended condition: fee / reference <= 3 / 2, cross-multiplied. */
  predicate Within(fee: Fee, prior: Fee) {
    2 * NewProduct(fee, prior) <= 3 * OldProduct(fee, prior)
  }

  predicate NewOverflows(fee: Fee, prior: Fee) {
    2 * NewProduct(fee, prior) > U128_MAX
  }

  predicate OldOverflows(fee: Fee, prior: Fee) {
    3 * OldProduct(fee, prior) > U128_MAX
  }

  /** The exact set of accepted fees. */
  lemma AcceptedIff(fee: Fee, prior: Fee)
    ensures CheckWithdrawal(fee, prior).Ok? <==>
      NewOverflows(fee, prior) || (!OldOverflows(fee, prior) && Within(fee, prior))
  {
    hide NewProduct, OldProduct;
  }

  /**
   The verdict is the intended one exactly when either no product overflows, or
   the overflowing product still is within the factor.
   */
  lemma VerdictRightIff(fee: Fee, prior: Fee)
    ensures (CheckWithdrawal(fee, prior).Ok? <==> Within(fee, prior)) <==>
      if NewOverflows(fee, prior) then Within(fee, prior) else !OldOverflows(fee, prior)
  {
    hide NewProduct, OldProduct;
    AcceptedIff(fee, prior);
  }

  /** With terms up to 2^63 neither product overflows. */
  predicate SmallTerms(f: Fee) {
    f.numerator <= 0x8000_0000_0000_0000 && f.denominator <= 0x8000_0000_0000_0000
  }

  lemma SmallProduct(x: nat, y: nat)
    requires x <= 0x8000_0000_0000_0000 && y <= 0x8000_0000_0000_0000
    ensures x * y <= 0x4000_0000_0000_0000_0000_0000_0000_0000
  {
    MulMono(x, 0x8000_0000_0000_0000, y);
  }

  lemma SmallTermsDecideRight(fee: Fee, prior: Fee)
    requires SmallTerms(fee) && SmallTerms(prior)
    ensures CheckWithdrawal(fee, prior).Ok? <==> Within(fee, prior)
  {
    SmallProduct(Reference(prior).numerator, fee.denominator);
    SmallProduct(fee.numerator, Reference(prior).denominator);
    VerdictRightIff(fee, prior);
  }

  /** An overflow on the right lets any increase through: from 1 / (2^64 - 1) to the whole amount. */
  lemma OverflowIsAccepted()
    ensures var prior, fee := Fee(0xFFFF_FFFF_FFFF_FFFF, 1), Fee(0xFFFF_FFFF_FFFF_FFFF, 0xFFFF_FFFF_FFFF_FFFF);
      CheckWithdrawal(fee, prior).Ok? && !FeeType.StakeWithdrawal(fee).TooHigh()
      && !Within(fee, prior) && NewProduct(fee, prior) == 0xFFFF_FFFF_FFFF_FFFF * OldProduct(fee, prior)
  {
    AcceptedIff(Fee(0xFFFF_FFFF_FFFF_FFFF, 0xFFFF_FFFF_FFFF_FFFF), Fee(0xFFFF_FFFF_FFFF_FFFF, 1));
  }

  /** And an overflow on the left alone refuses an unchanged fee. */
  lemma OverflowIsRefused()
    ensures var fee := Fee(0xFFFF_FFFF_FFFF_FFFF, 0x7000_0000_0000_0000);
      CheckWithdrawal(fee, fee) == Err(FeeIncreaseTooHigh) && Within(fee, fee)
  {
  }

  // ------------------------------------------------------------- changing fees

  function UpdateFee(p: StakePool, fee: FeeType): Result<StakePool, StakePoolError> {
    match fee
    case SolReferral(pct) => Ok(p.(solReferralFee := pct))
    case StakeReferral(pct) => Ok(p.(stakeReferralFee := pct))
    case Epoch(f) => Ok(p.(nextEpochFee := Two(f)))
    case StakeWithdrawal(f) =>
      if CheckWithdrawal(f, p.stakeWithdrawalFee).Err? then Err(FeeIncreaseTooHigh)
      else Ok(p.(nextStakeWithdrawalFee := Two(f)))
    case SolWithdrawal(f) =>
      if CheckWithdrawal(f, p.solWithdrawalFee).Err? then Err(FeeIncreaseTooHigh)
      else Ok(p.(nextSolWithdrawalFee := Two(f)))
    case SolDeposit(f) => Ok(p.(solDepositFee := f))
    case StakeDeposit(f) => Ok(p.(stakeDepositFee := f))
  }

  function SetFee(p: StakePool, epoch: U64, fee: FeeType): Result<StakePool, StakePoolError> {
    if fee.CanOnlyChangeNextEpoch() && p.lastUpdateEpoch < epoch then Err(StakeListAndPoolOutOfDate)
    else if fee.TooHigh() then Err(FeeTooHigh)
    else UpdateFee(p, fee)
  }

  function Landed(fee: Fee, next: FutureEpoch<Fee>): Fee {
    if next.Get().Some? then next.Get().value else fee
  }

  /** The part of a balance update done once an epoch: ready fees take effect, the others move one step. */
  function LandFees(p: StakePool): StakePool {
    p.(epochFee := Landed(p.epochFee, p.nextEpochFee),
       nextEpochFee := p.nextEpochFee.UpdateEpoch(),
       stakeWithdrawalFee := Landed(p.stakeWithdrawalFee, p.nextStakeWithdrawalFee),
       nextStakeWithdrawalFee := p.nextStakeWithdrawalFee.UpdateEpoch(),
       solWithdrawalFee := Landed(p.solWithdrawalFee, p.nextSolWithdrawalFee),
       nextSolWithdrawalFee := p.nextSolWithdrawalFee.UpdateEpoch())
  }

  /** Only fees of at most one can be in place, whatever is set and landed. */
  lemma SetFeeKeepsFeesBounded(p: StakePool, epoch: U64, fee: FeeType)
    requires p.FeesBounded() && SetFee(p, epoch, fee).Ok?
    ensures SetFee(p, epoch, fee).value.FeesBounded()
  {
    hide CheckWithdrawal;
  }

  /** Setting a fee touches neither the total nor the supply. */
  lemma SetFeeKeepsAmounts(p: StakePool, epoch: U64, fee: FeeType)
    requires SetFee(p, epoch, fee).Ok?
    ensures var q := SetFee(p, epoch, fee).value;
      q.totalLamports == p.totalLamports && q.poolTokenSupply == p.poolTokenSupply
        && q.lastUpdateEpoch == p.lastUpdateEpoch
  {
    hide CheckWithdrawal;
  }

  lemma LandFeesKeepsFeesBounded(p: StakePool)
    requires p.FeesBounded()
    ensures LandFees(p).FeesBounded()
  {
  }

  /** Deposit and referral fees change at once, and a change of any kind touches no other fee, in force or pending. */
  lemma DepositFeesAtOnce(p: StakePool, epoch: U64, fee: FeeType)
    requires SetFee(p, epoch, fee).Ok?
    ensures var q := SetFee(p, epoch, fee).value;
      && (fee.SolDeposit? ==> q == p.(solDepositFee := fee.fee))
      && (fee.StakeDeposit? ==> q == p.(stakeDepositFee := fee.fee))
      && (fee.SolReferral? ==> q == p.(solReferralFee := fee.pct))
      && (fee.StakeReferral? ==> q == p.(stakeReferralFee := fee.pct))
      && (fee.Epoch? ==> q == p.(nextEpochFee := q.nextEpochFee))
      && (fee.StakeWithdrawal? ==> q == p.(nextStakeWithdrawalFee := q.nextStakeWithdrawalFee))
      && (fee.SolWithdrawal? ==> q == p.(nextSolWithdrawalFee := q.nextSolWithdrawalFee))
  {
    hide CheckWithdrawal;
  }

  /**
   The changes that are accepted: none of more than the whole, one that waits only in an
   updated pool, and a withdrawal fee only within the growth check against the fee it replaces.
   */
  lemma SetFeeAcceptsIff(p: StakePool, epoch: U64, fee: FeeType)
    ensures SetFee(p, epoch, fee).Ok? <==>
      match fee
      case SolReferral(pct) => pct <= 100
      case StakeReferral(pct) => pct <= 100
      case SolDeposit(f) => f.AtMostOne()
      case StakeDeposit(f) => f.AtMostOne()
      case Epoch(f) => f.AtMostOne() && epoch <= p.lastUpdateEpoch
      case SolWithdrawal(f) =>
        f.AtMostOne() && epoch <= p.lastUpdateEpoch && CheckWithdrawal(f, p.solWithdrawalFee).Ok?
      case StakeWithdrawal(f) =>
        f.AtMostOne() && epoch <= p.lastUpdateEpoch && CheckWithdrawal(f, p.stakeWithdrawalFee).Ok?
  {
    hide CheckWithdrawal;
  }

  /** At a boundary a pending fee takes effect if it has waited for one already, and otherwise waits on. */
  lemma LandsWhenReady(p: StakePool)
    ensures var q := LandFees(p);
      && q.epochFee == (if p.nextEpochFee.One? then p.nextEpochFee.value else p.epochFee)
      && q.nextEpochFee == (if p.nextEpochFee.Two? then One(p.nextEpochFee.value) else Nothing)
      && SolTrack(q) == (match p.nextSolWithdrawalFee
                         case Nothing => SolTrack(p)
                         case One(f) => Track(f, Nothing)
                         case Two(f) => Track(p.solWithdrawalFee, One(f)))
      && StakeTrack(q) == (match p.nextStakeWithdrawalFee
                           case Nothing => StakeTrack(p)
                           case One(f) => Track(f, Nothing)
                           case Two(f) => Track(p.stakeWithdrawalFee, One(f)))
      && q == p.(epochFee := q.epochFee, nextEpochFee := q.nextEpochFee,
                 stakeWithdrawalFee := q.stakeWithdrawalFee, nextStakeWithdrawalFee := q.nextStakeWithdrawalFee,
                 solWithdrawalFee := q.solWithdrawalFee, nextSolWithdrawalFee := q.nextSolWithdrawalFee)
  {
  }

  /** A fee that waits for the next epoch never changes what this epoch charges. */
  lemma WithdrawalFeesWait(p: StakePool, epoch: U64, fee: FeeType)
    requires SetFee(p, epoch, fee).Ok?
    ensures var q := SetFee(p, epoch, fee).value;
      q.epochFee == p.epochFee && q.stakeWithdrawalFee == p.stakeWithdrawalFee
        && q.solWithdrawalFee == p.solWithdrawalFee
    ensures var q := LandFees(SetFee(p, epoch, fee).value);
      (fee.StakeWithdrawal? ==>
       q.stakeWithdrawalFee == p.stakeWithdrawalFee && LandFees(q).stakeWithdrawalFee == fee.fee)
      && (fee.SolWithdrawal? ==> q.solWithdrawalFee == p.solWithdrawalFee && LandFees(q).solWithdrawalFee == fee.fee)
      && (fee.Epoch? ==> q.epochFee == p.epochFee && LandFees(q).epochFee == fee.fee)
  {
    hide CheckWithdrawal;
  }

  // ---------------------------------------------------------- growth of a fee

  /** A withdrawal fee and the change waiting for it. */
  datatype Track = Track(fee: Fee, next: FutureEpoch<Fee>)

  function StakeTrack(p: StakePool): Track {
    Track(p.stakeWithdrawalFee, p.nextStakeWithdrawalFee)
  }

  function SolTrack(p: StakePool): Track {
    Track(p.solWithdrawalFee, p.nextSolWithdrawalFee)
  }

  /** What one operation may do to a withdrawal fee; no product of an accepted change overflows. */
  ghost predicate TrackStep(t: Track, u: Track, advance: bool) {
    if advance then u == Track(Landed(t.fee, t.next), t.next.UpdateEpoch())
    else
      || u == t
      || (u.fee == t.fee && u.next.Two?
          && CheckWithdrawal(u.next.value, t.fee).Ok? && !NewOverflows(u.next.value, t.fee))
  }

  function Ratio(f: Fee): real {
    if f.denominator == 0 then 0.0 else f.numerator as real / f.denominator as real
  }

  function Max(x: real, y: real): real {
    if x < y then y else x
  }

  /** The larger of a fee and the baseline 1 / 1000. */
  function Base(f: Fee): real {
    Max(Ratio(f), 0.001)
  }

  function Growth(k: nat): (g: real)
    ensures g >= 1.0
  {
    if k == 0 then 1.0 else 1.5 * Growth(k - 1)
  }

  /** Growth(k) is 1.5 to the k. */
  lemma {:induction false} GrowthIsPower(j: nat, k: nat)
    ensures Growth(0) == 1.0 && Growth(1) == 1.5 && Growth(j + k) == Growth(j) * Growth(k)
  {
    if j > 0 {
      GrowthIsPower(j - 1, k);
      assert Growth(j - 1 + k) == Growth(j - 1) * Growth(k);
      assert Growth(j) * Growth(k) == 1.5 * (Growth(j - 1) * Growth(k));
    }
  }

  lemma GrowthMonotone(j: nat, k: nat)
    requires j <= k
    ensures Growth(j) <= Growth(k)
  {
  }

  lemma Fraction(nn: nat, nd: nat, on: nat, od: nat)
    requires nd > 0 && od > 0 && 2 * (nn * od) <= 3 * (on * nd)
    ensures nn as real / nd as real <= 1.5 * (on as real / od as real)
  {
    var a, b, c, d := nn as real, nd as real, on as real, od as real;
    assert (nn * od) as real == a * d && (on * nd) as real == c * b;
    assert 2.0 * (a * d) <= 3.0 * (c * b);
    Divide(a, b, c, d);
  }

  lemma Divide(a: real, b: real, c: real, d: real)
    requires b > 0.0 && d > 0.0 && 2.0 * (a * d) <= 3.0 * (c * b)
    ensures a / b <= 1.5 * (c / d)
  {
    var x, y := a / b, c / d;
    assert a == x * b && c == y * d;
    assert a * d == x * (b * d) && c * b == y * (b * d);
    var bd := b * d;
    assert bd > 0.0;
    if x > 1.5 * y {
      Strict(1.5 * y, x, bd);
    }
  }

  lemma Strict(x: real, y: real, z: real)
    requires x < y && z > 0.0
    ensures x * z < y * z
  {
  }

  lemma AcceptedRatio(fee: Fee, prior: Fee)
    requires CheckWithdrawal(fee, prior).Ok? && !NewOverflows(fee, prior)
    ensures Ratio(fee) <= 1.5 * Base(prior)
  {
    AcceptedIff(fee, prior);
    var r := Reference(prior);
    if fee.denominator > 0 {
      Fraction(fee.numerator, fee.denominator, r.numerator, r.denominator);
      assert r == WITHDRAWAL_BASELINE_FEE ==> Ratio(r) == 0.001;
    }
  }

  /** `m` changes have landed in `n` epochs; a pending one is within 3/2 of the fee in force. */
  ghost predicate GrowthInv(t: Track, start: real, n: nat, m: nat) {
    && 2 * m + (if t.next.One? then 1 else 0) <= n
    && Base(t.fee) <= start * Growth(m)
    && (!t.next.Nothing? ==> Ratio(t.next.value) <= 1.5 * Base(t.fee))
  }

  lemma GrowthStep(t: Track, u: Track, advance: bool, start: real, n: nat, m: nat) returns (m': nat)
    requires TrackStep(t, u, advance) && GrowthInv(t, start, n, m) && start >= 0.001
    ensures GrowthInv(u, start, if advance then n + 1 else n, m')
  {
    hide CheckWithdrawal, NewOverflows;
    m' := if advance && t.next.One? then m + 1 else m;
    if advance && t.next.One? {
      var g := Growth(m);
      assert start * Growth(m') == 1.5 * (start * g);
    } else if !advance && u != t {
      AcceptedRatio(u.next.value, t.fee);
    }
  }

  ghost predicate TrackRun(tracks: seq<Track>, advances: seq<bool>) {
    && |tracks| == |advances| + 1
    && forall i :: 0 <= i < |advances| ==> TrackStep(tracks[i], tracks[i + 1], advances[i])
  }

  function Advances(advances: seq<bool>): nat {
    if advances == [] then 0
    else Advances(advances[..|advances| - 1]) + if advances[|advances| - 1] then 1 else 0
  }

  lemma {:induction false} RunInv(tracks: seq<Track>, advances: seq<bool>) returns (m: nat)
    requires TrackRun(tracks, advances) && tracks[0].next.Nothing?
    ensures GrowthInv(tracks[|advances|], Base(tracks[0].fee), Advances(advances), m)
  {
    if advances == [] {
      m := 0;
    } else {
      var k := |advances| - 1;
      var before := RunInv(tracks[..k + 1], advances[..k]);
      m := GrowthStep(tracks[k], tracks[k + 1], advances[k], Base(tracks[0].fee), Advances(advances[..k]), before);
    }
  }

  /**
   After n epoch boundaries a withdrawal fee is at most max(initial, 1/1000) *
   (3/2)^(n/2): a pending value is within 3/2 of the fee in force and takes two
   boundaries to land.
   */
  lemma FeeGrowthBound(tracks: seq<Track>, advances: seq<bool>)
    requires TrackRun(tracks, advances) && tracks[0].next.Nothing?
    ensures Ratio(tracks[|advances|].fee) <= Base(tracks[0].fee) * Growth(Advances(advances) / 2)
  {
    hide Ratio, Growth, Base, Advances, TrackStep;
    var m := RunInv(tracks, advances);
    BaseBounds(tracks[0].fee);
    BaseBounds(tracks[|advances|].fee);
    GrowthMonotone(m, Advances(advances) / 2);
    Scale(Base(tracks[0].fee), Growth(m), Growth(Advances(advances) / 2));
  }

  lemma BaseBounds(f: Fee)
    ensures Base(f) >= 0.001 && Ratio(f) <= Base(f)
  {
  }

  lemma Scale(x: real, y: real, z: real)
    requires x >= 0.0 && y <= z
    ensures x * y <= x * z
  {
  }

  // ----------------------------------------------- runs of the program itself

  /** One operation on the pool, as far as its fees are concerned. */
  datatype FeeOp = Set(epoch: U64, change: FeeType) | Land | Other

  ghost predicate PoolStep(p: StakePool, q: StakePool, op: FeeOp) {
    match op
    case Set(epoch, change) => SetFee(p, epoch, change) == Ok(q)
    case Land => StakeTrack(q) == StakeTrack(LandFees(p)) && SolTrack(q) == SolTrack(LandFees(p))
    case Other => StakeTrack(q) == StakeTrack(p) && SolTrack(q) == SolTrack(p)
  }

  ghost predicate SmallOp(op: FeeOp) {
    op.Set? && (op.change.StakeWithdrawal? || op.change.SolWithdrawal?) ==> SmallTerms(op.change.fee)
  }

  ghost predicate PoolRun(pools: seq<StakePool>, ops: seq<FeeOp>) {
    && |pools| == |ops| + 1
    && (forall i :: 0 <= i < |ops| ==> PoolStep(pools[i], pools[i + 1], ops[i]) && SmallOp(ops[i]))
  }

  ghost predicate SmallTrack(t: Track) {
    SmallTerms(t.fee) && (!t.next.Nothing? ==> SmallTerms(t.next.value))
  }

  lemma StepIsTrackStep(p: StakePool, q: StakePool, op: FeeOp)
    requires PoolStep(p, q, op) && SmallOp(op) && SmallTrack(StakeTrack(p)) && SmallTrack(SolTrack(p))
    ensures TrackStep(StakeTrack(p), StakeTrack(q), op.Land?) && TrackStep(SolTrack(p), SolTrack(q), op.Land?)
    ensures SmallTrack(StakeTrack(q)) && SmallTrack(SolTrack(q))
  {
    if op.Set? && op.change.StakeWithdrawal? { NoOverflow(op.change.fee, p.stakeWithdrawalFee); }
    if op.Set? && op.change.SolWithdrawal? { NoOverflow(op.change.fee, p.solWithdrawalFee); }
    hide CheckWithdrawal, NewOverflows;
  }

  lemma NoOverflow(fee: Fee, prior: Fee)
    requires SmallTerms(fee) && SmallTerms(prior)
    ensures !NewOverflows(fee, prior)
  {
    SmallProduct(fee.numerator, Reference(prior).denominator);
  }

  function LandFlags(ops: seq<FeeOp>): (r: seq<bool>)
    ensures |r| == |ops|
  {
    seq(|ops|, i requires 0 <= i < |ops| => ops[i].Land?)
  }

  lemma {:induction false} StaysSmall(pools: seq<StakePool>, ops: seq<FeeOp>, k: nat)
    requires PoolRun(pools, ops) && k <= |ops|
    requires SmallTrack(StakeTrack(pools[0])) && SmallTrack(SolTrack(pools[0]))
    ensures SmallTrack(StakeTrack(pools[k])) && SmallTrack(SolTrack(pools[k]))
  {
    if k > 0 {
      hide PoolStep, TrackStep, SmallTrack;
      StaysSmall(pools, ops, k - 1);
      StepIsTrackStep(pools[k - 1], pools[k], ops[k - 1]);
    }
  }

  /** No change of a withdrawal fee is pending, and the fees have small terms. */
  ghost predicate SettledFees(p: StakePool) {
    && p.nextStakeWithdrawalFee.Nothing? && SmallTerms(p.stakeWithdrawalFee)
    && p.nextSolWithdrawalFee.Nothing? && SmallTerms(p.solWithdrawalFee)
  }

  /** Over n epochs a fee at most became (3/2)^(n/2) times the larger of its start and 1/1000. */
  ghost predicate Grown(start: Fee, fee: Fee, n: nat) {
    Ratio(fee) <= Base(start) * Growth(n / 2)
  }

  lemma GrownLonger(start: Fee, fee: Fee, m: nat, n: nat)
    requires Grown(start, fee, m) && m <= n
    ensures Grown(start, fee, n)
  {
    hide Ratio, Base, Growth;
    GrowthMonotone(m / 2, n / 2);
    BaseBounds(start);
    Scale(Base(start), Growth(m / 2), Growth(n / 2));
  }

  /**
   In every run of SetFee, balance updates and other operations from a freshly
   initialised pool, with withdrawal fee terms at most 2^63, both withdrawal
   fees obey the growth bound.
   */
  lemma WithdrawalFeesGrowSlowly(pools: seq<StakePool>, ops: seq<FeeOp>)
    requires PoolRun(pools, ops) && SettledFees(pools[0])
    ensures Grown(pools[0].stakeWithdrawalFee, pools[|ops|].stakeWithdrawalFee, Advances(LandFlags(ops)))
    ensures Grown(pools[0].solWithdrawalFee, pools[|ops|].solWithdrawalFee, Advances(LandFlags(ops)))
  {
    hide PoolStep, TrackStep, Ratio, Growth, Base, Advances;
    var stake := seq(|pools|, i requires 0 <= i < |pools| => StakeTrack(pools[i]));
    var sol := seq(|pools|, i requires 0 <= i < |pools| => SolTrack(pools[i]));
    var flags := LandFlags(ops);
    forall i | 0 <= i < |flags|
      ensures TrackStep(stake[i], stake[i + 1], flags[i]) && TrackStep(sol[i], sol[i + 1], flags[i])
    {
      StaysSmall(pools, ops, i);
      StepIsTrackStep(pools[i], pools[i + 1], ops[i]);
    }
    FeeGrowthBound(stake, flags);
    FeeGrowthBound(sol, flags);
  }

  /** Without the bound on the terms the growth is unlimited: two boundaries take 1 / (2^64 - 1) to 1. */
  lemma LargeTermsJump(p: StakePool, epoch: U64)
    requires p.stakeWithdrawalFee == Fee(0xFFFF_FFFF_FFFF_FFFF, 1) && p.nextStakeWithdrawalFee.Nothing?
    requires p.lastUpdateEpoch == epoch
    ensures var whole := Fee(0xFFFF_FFFF_FFFF_FFFF, 0xFFFF_FFFF_FFFF_FFFF);
      SetFee(p, epoch, StakeWithdrawal(whole)).Ok?
      && LandFees(LandFees(SetFee(p, epoch, StakeWithdrawal(whole)).value)).stakeWithdrawalFee == whole
      && Ratio(whole) == 1.0 > Base(p.stakeWithdrawalFee) * Growth(1)
  {
    OverflowIsAccepted();
    assert Growth(1) == 1.5 * Growth(0);
  }
}
