/**
 The validator list of programs/albus-stake-pool/src/state.rs and what it records
 about the accounts: the shape of the list, the recorded lamports, and the
 agreement between records and balances.
 */
module ValidatorLists {
  import opened Wrappers
  import opened StakeState
  import opened StakeProgram
  import opened BigVectors

  datatype StakeStatus = Active | DeactivatingTransient | ReadyForRemoval | DeactivatingValidator | DeactivatingAll {
    function RemoveValidatorStake(): StakeStatus {
      match this
      case DeactivatingAll => DeactivatingTransient
      case DeactivatingValidator => ReadyForRemoval
      case _ => this
    }

    function RemoveTransientStake(): StakeStatus {
      match this
      case DeactivatingAll => DeactivatingValidator
      case DeactivatingTransient => ReadyForRemoval
      case _ => this
    }
  }

  datatype ValidatorStakeInfo = ValidatorStakeInfo(
    active: U64,
    transient: U64,
    lastUpdateEpoch: U64,
    transientSeed: U64,
    validatorSeed: nat,
    status: StakeStatus,
    vote: nat)
  {
    function StakeLamports(): Option<U64> {
      CheckedAdd(active, transient)
    }

    function ValidatorAddress(): Address {
      Validator(vote, validatorSeed)
    }

    function TransientAddress(): Address {
      Transient(vote, transientSeed)
    }

    predicate IsNotRemoved() {
      status != ReadyForRemoval
    }
  }

  /**
   Removing both parts, in either order, readies a validator for removal unless it is
   active; after removing one part nothing waits for that part any more.
   */
  lemma StatusDowngrades(s: StakeStatus)
    ensures s.RemoveValidatorStake().RemoveTransientStake() == s.RemoveTransientStake().RemoveValidatorStake()
    ensures s.RemoveValidatorStake().RemoveTransientStake() == if s == Active then Active else ReadyForRemoval
    ensures s.RemoveValidatorStake() in {Active, DeactivatingTransient, ReadyForRemoval}
    ensures s.RemoveTransientStake() in {Active, DeactivatingValidator, ReadyForRemoval}
    ensures s.RemoveValidatorStake() == ReadyForRemoval <==> s in {DeactivatingValidator, ReadyForRemoval}
    ensures s.RemoveTransientStake() == ReadyForRemoval <==> s in {DeactivatingTransient, ReadyForRemoval}
  {
  }

  type Records = seq<ValidatorStakeInfo>

  /** `find` with a comparison of the vote address: the first record of the validator. */
  function FindFrom(v: Records, vote: nat, i: nat): (r: Option<nat>)
    requires i <= |v|
    ensures r.Some? ==> i <= r.value < |v| && v[r.value].vote == vote
    ensures r.Some? ==> forall j :: i <= j < r.value ==> v[j].vote != vote
    ensures r.None? ==> forall j :: i <= j < |v| ==> v[j].vote != vote
    decreases |v| - i
  {
    if i == |v| then None else if v[i].vote == vote then Some(i) else FindFrom(v, vote, i + 1)
  }

  function FindVote(v: Records, vote: nat): (r: Option<nat>)
    ensures r.Some? ==> r.value < |v| && v[r.value].vote == vote
    ensures r.None? <==> forall j :: 0 <= j < |v| ==> v[j].vote != vote
  {
    FindFrom(v, vote, 0)
  }

  // ---------------------------------------------------------- list shape

  /** The size of a packed record, of the header, and of the vector's length. */
  const RECORD_LEN: nat := 73
  const HEADER_LEN: nat := 5

  function CalculateMaxValidators(bufferLength: nat): nat {
    SaturatingSub(bufferLength, HEADER_LEN + VEC_SIZE_BYTES) / RECORD_LEN
  }

  ghost predicate DistinctVotes(v: Records) {
    forall i, j :: 0 <= i < j < |v| ==> v[i].vote != v[j].vote
  }

  /** One record a validator, and no more records than the account was made for. */
  ghost predicate ListFits(v: Records, maxValidators: nat, bufferLength: nat) {
    DistinctVotes(v) && |v| <= maxValidators == CalculateMaxValidators(bufferLength)
  }

  lemma ReplacedFits(v: Records, i: nat, r: ValidatorStakeInfo, maxValidators: nat, bufferLength: nat)
    requires i < |v| && r.vote == v[i].vote
    ensures ListFits(v, maxValidators, bufferLength) ==> ListFits(v[i := r], maxValidators, bufferLength)
  {
  }

  lemma AppendedDistinct(v: Records, r: ValidatorStakeInfo)
    requires FindVote(v, r.vote).None?
    ensures DistinctVotes(v) ==> DistinctVotes(v + [r])
  {
  }

  /** The number of validators that fits is exact. */
  lemma MaxValidatorsFits(bufferLength: nat, n: nat)
    requires bufferLength >= HEADER_LEN + VEC_SIZE_BYTES
    ensures n <= CalculateMaxValidators(bufferLength) <==>
      HEADER_LEN + VEC_SIZE_BYTES + RECORD_LEN * n <= bufferLength
  {
  }

  /**
   After the header check of add-validator there is room: the vector behind the
   header accepts one more record.
   */
  lemma PushNeverFails(bufferLength: nat, n: nat)
    requires n < CalculateMaxValidators(bufferLength)
    ensures VEC_SIZE_BYTES + Extent(n + 1, RECORD_LEN) <= bufferLength - HEADER_LEN
  {
    MaxValidatorsFits(bufferLength, n + 1);
  }

  // ------------------------------------------------------ recorded lamports

  function Recorded(v: Records): nat {
    if v == [] then 0 else Recorded(v[..|v| - 1]) + v[|v| - 1].active + v[|v| - 1].transient
  }

  lemma {:induction false} RecordedUpdate(v: Records, i: nat, r: ValidatorStakeInfo)
    requires i < |v|
    ensures Recorded(v[i := r]) == Recorded(v) - v[i].active - v[i].transient + r.active + r.transient
    decreases |v|
  {
    var n := |v| - 1;
    if i == n {
      assert v[i := r][..n] == v[..n];
    } else {
      assert v[i := r][..n] == v[..n][i := r];
      RecordedUpdate(v[..n], i, r);
    }
  }

  lemma RecordedAppend(v: Records, r: ValidatorStakeInfo)
    ensures Recorded(v + [r]) == Recorded(v) + r.active + r.transient
  {
    assert (v + [r])[..|v|] == v;
  }

  lemma {:induction false} RecordedPrefix(v: Records, k: nat)
    requires k <= |v|
    ensures Recorded(v[..k]) <= Recorded(v)
    decreases |v|
  {
    var n := |v| - 1;
    if k <= n {
      assert v[..n][..k] == v[..k];
      RecordedPrefix(v[..n], k);
    } else {
      assert v[..k] == v;
    }
  }

  // --------------------------------------- records and accounts in agreement

  /** What the list says one account holds. */
  ghost predicate RecordMatches(l: Ledger, r: ValidatorStakeInfo) {
    && (forall s :: Balance(l, Validator(r.vote, s)) == if s == r.validatorSeed then r.active else 0)
    && (forall s :: Balance(l, Transient(r.vote, s)) == if s == r.transientSeed then r.transient else 0)
  }

  /** No lamports in derived accounts of validators that are not in the list. */
  ghost predicate NothingElsewhere(l: Ledger, v: Records) {
    && (forall vote, s :: FindVote(v, vote).None? ==> Balance(l, Validator(vote, s)) == 0)
    && (forall vote, s :: FindVote(v, vote).None? ==> Balance(l, Transient(vote, s)) == 0)
    && (forall s :: Balance(l, Ephemeral(s)) == 0)
  }

  /** Each record equals its accounts, and every other derived account is empty. */
  ghost predicate Matches(l: Ledger, v: Records) {
    && (forall i :: 0 <= i < |v| ==> RecordMatches(l, v[i]))
    && NothingElsewhere(l, v)
  }

  predicate Of(a: Address, vote: nat) {
    (a.Validator? || a.Transient?) && a.vote == vote
  }

  /** Pool accounts of other validators and ephemeral accounts hold what they held. */
  ghost predicate OthersKept(l: Ledger, m: Ledger, vote: nat) {
    forall a :: !Of(a, vote) && !a.Reserve? && !a.External? ==> Balance(m, a) == Balance(l, a)
  }

  /** One record and its own accounts change together. */
  lemma MatchesUpdate(l: Ledger, m: Ledger, v: Records, i: nat, r: ValidatorStakeInfo)
    requires Matches(l, v) && DistinctVotes(v) && i < |v| && r.vote == v[i].vote
    requires OthersKept(l, m, r.vote) && RecordMatches(m, r)
    ensures Matches(m, v[i := r]) && DistinctVotes(v[i := r])
  {
    var w := v[i := r];
    forall j | 0 <= j < |w| ensures RecordMatches(m, w[j]) {
      assert j != i ==> RecordMatches(l, v[j]);
    }
    forall vote | FindVote(w, vote).None? ensures FindVote(v, vote).None? && vote != r.vote {
      assert w[i].vote == r.vote;
      assert forall j :: 0 <= j < |v| ==> w[j].vote == v[j].vote;
    }
  }

  /** A new record arrives with its funded accounts. */
  lemma MatchesAppend(l: Ledger, m: Ledger, v: Records, r: ValidatorStakeInfo)
    requires Matches(l, v) && DistinctVotes(v) && FindVote(v, r.vote).None?
    requires OthersKept(l, m, r.vote) && RecordMatches(m, r)
    ensures Matches(m, v + [r]) && DistinctVotes(v + [r])
  {
    var w := v + [r];
    forall j | 0 <= j < |w| ensures RecordMatches(m, w[j]) {
      assert j < |v| ==> RecordMatches(l, v[j]);
    }
    forall vote | FindVote(w, vote).None? ensures FindVote(v, vote).None? && vote != r.vote {
      assert w[|v|].vote == r.vote;
      assert forall j :: 0 <= j < |v| ==> w[j].vote == v[j].vote;
    }
  }

  /** Nothing but the reserve and users' accounts changes. */
  lemma MatchesKept(l: Ledger, m: Ledger, v: Records)
    requires Matches(l, v)
    requires forall a: Address :: !a.Reserve? && !a.External? ==> Balance(m, a) == Balance(l, a)
    ensures Matches(m, v)
  {
    forall j | 0 <= j < |v| ensures RecordMatches(m, v[j]) {
      assert RecordMatches(l, v[j]);
    }
  }

  // ------------------------------------------------------------- clean-up

  function Kept(v: Records): Records {
    Filter((r: ValidatorStakeInfo) => r.IsNotRemoved(), v)
  }

  function Dropped(v: Records): Records {
    Filter((r: ValidatorStakeInfo) => !r.IsNotRemoved(), v)
  }

  lemma {:induction false} RecordedFront(v: Records)
    requires v != []
    ensures Recorded(v) == v[0].active + v[0].transient + Recorded(v[1..])
    decreases |v|
  {
    var n := |v| - 1;
    if n > 0 {
      RecordedFront(v[..n]);
      assert v[..n][1..] == v[1..][..n - 1];
    }
  }

  /** Clean-up takes exactly the lamports of the dropped records off the list. */
  lemma {:induction false} RecordedSplit(v: Records)
    ensures Recorded(v) == Recorded(Kept(v)) + Recorded(Dropped(v))
  {
    if v != [] {
      RecordedSplit(v[1..]);
      RecordedFront(v);
      var k, d := Kept(v), Dropped(v);
      if v[0].IsNotRemoved() {
        RecordedFront(k);
        assert k[1..] == Kept(v[1..]) && d == Dropped(v[1..]);
      } else {
        RecordedFront(d);
        assert d[1..] == Dropped(v[1..]) && k == Kept(v[1..]);
      }
    }
  }

  lemma {:induction false} KeptMembers(v: Records)
    ensures |Kept(v)| <= |v|
    ensures forall i :: 0 <= i < |Kept(v)| ==> Kept(v)[i] in v && Kept(v)[i].IsNotRemoved()
    ensures forall i :: 0 <= i < |v| && v[i].IsNotRemoved() ==> v[i] in Kept(v)
  {
    if v != [] {
      KeptMembers(v[1..]);
      var k := Kept(v);
      assert k == (if v[0].IsNotRemoved() then [v[0]] else []) + Kept(v[1..]);
      assert v == [v[0]] + v[1..];
    }
  }

  /** One removed record among others that stay is all that is dropped. */
  lemma {:induction false} DroppedOne(v: Records, i: nat)
    requires i < |v| && !v[i].IsNotRemoved()
    requires forall j :: 0 <= j < |v| && j != i ==> v[j].IsNotRemoved()
    ensures Dropped(v) == [v[i]]
  {
    var t := v[1..];
    if i == 0 {
      DroppedNone(t);
    } else {
      assert t[i - 1] == v[i];
      DroppedOne(t, i - 1);
    }
  }

  lemma {:induction false} DroppedNone(v: Records)
    requires forall j :: 0 <= j < |v| ==> v[j].IsNotRemoved()
    ensures Dropped(v) == []
  {
    if v != [] { DroppedNone(v[1..]); }
  }

  lemma {:induction false} KeptDistinct(v: Records)
    requires DistinctVotes(v)
    ensures DistinctVotes(Kept(v))
  {
    if v != [] {
      var t := v[1..];
      assert forall i, j :: 0 <= i < j < |t| ==> t[i].vote == v[i + 1].vote && t[j].vote == v[j + 1].vote;
      KeptDistinct(t);
      KeptMembers(t);
      assert Kept(v) == (if v[0].IsNotRemoved() then [v[0]] else []) + Kept(t);
      forall j | 0 <= j < |Kept(t)| ensures Kept(t)[j].vote != v[0].vote {
        var i :| 0 <= i < |t| && t[i] == Kept(t)[j];
        assert t[i] == v[i + 1];
      }
    }
  }
}
