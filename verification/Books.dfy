/**
 The balance-sheet of a pool on plain values: what the pool's total, the list and
 the accounts say about each other, and how a change of one record keeps it.
 */
module Books {
  import opened StakeState
  import opened StakeProgram
  import opened ValidatorLists

  /** The lamports the pool accounts for, less what the pool claims to hold. */
  function Drift(p: StakePool, l: Ledger, v: Records, minReserve: nat): int {
    Balance(l, Reserve) + Recorded(v) - p.totalLamports - minReserve
  }

  /** Books balance, and records, accounts and addresses agree. */
  ghost predicate Sound(p: StakePool, l: Ledger, v: Records, minReserve: nat) {
    && Drift(p, l, v, minReserve) == 0
    && Matches(l, v)
    && DistinctVotes(v)
  }

  /** The record of one validator, the first in the list, is replaced. */
  predicate Replaced(v: Records, w: Records, vote: nat, r: ValidatorStakeInfo) {
    FindVote(v, vote).Some? && w == v[FindVote(v, vote).value := r]
  }

  function RecordOf(v: Records, vote: nat): ValidatorStakeInfo
    requires FindVote(v, vote).Some?
  {
    v[FindVote(v, vote).value]
  }

  /** Balances of all other accounts are the same. */
  ghost predicate BalancesExcept(l: Ledger, m: Ledger, changed: set<Address>) {
    forall a: Address :: a !in changed ==> Balance(m, a) == Balance(l, a)
  }

  /** One record changes with its own accounts; the pool's total follows. */
  lemma RecordStep(p: StakePool, q: StakePool, l: Ledger, m: Ledger, v: Records, i: nat, r: ValidatorStakeInfo,
                   min: nat)
    requires Sound(p, l, v, min) && i < |v| && r.vote == v[i].vote
    requires OthersKept(l, m, r.vote) && RecordMatches(m, r)
    requires Balance(m, Reserve) + r.active + r.transient - q.totalLamports
          == Balance(l, Reserve) + v[i].active + v[i].transient - p.totalLamports
    ensures Sound(q, m, v[i := r], min)
  {
    hide RecordMatches, NothingElsewhere, OthersKept;
    RecordedUpdate(v, i, r);
    MatchesUpdate(l, m, v, i, r);
  }

  /** Marking a record changes no amounts. */
  lemma MarkRecord(p: StakePool, q: StakePool, l: Ledger, m: Ledger, v: Records, i: nat, status: StakeStatus, min: nat)
    requires Sound(p, l, v, min) && i < |v| && BalancesExcept(l, m, {}) && q.totalLamports == p.totalLamports
    ensures Sound(q, m, v[i := v[i].(status := status)], min)
  {
    RecordAccounts(l, v, i);
    RecordStep(p, q, l, m, v, i, v[i].(status := status), min);
  }

  lemma EphemeralEmpty(p: StakePool, l: Ledger, v: Records, min: nat, seed: nat)
    requires Sound(p, l, v, min)
    ensures Balance(l, Ephemeral(seed)) == 0
  {
  }

  /** Lamports go from the reserve into a validator's transient account. */
  lemma IncreaseKeeps(p: StakePool, l: Ledger, m: Ledger, v: Records, i: nat, seed: U64, total: U64, min: nat)
    requires Sound(p, l, v, min) && i < |v| && v[i].transient + total <= U64_MAX
    requires v[i].transient > 0 ==> seed == v[i].transientSeed
    requires Moved(l, m, Reserve, Transient(v[i].vote, seed), total)
    ensures Sound(p, m, v[i := v[i].(transient := v[i].transient + total, transientSeed := seed)], min)
  {
    RecordAccounts(l, v, i);
    RecordStep(p, p, l, m, v, i, v[i].(transient := v[i].transient + total, transientSeed := seed), min);
  }

  /** `lamports` left one account for another, and the reserve paid `paid` on top. */
  ghost predicate Released(l: Ledger, m: Ledger, source: Address, target: Address, lamports: int, paid: int) {
    && BalancesExcept(l, m, {Reserve, source, target})
    && Balance(m, Reserve) as int == Balance(l, Reserve) - paid
    && Balance(m, source) as int == Balance(l, source) - lamports
    && Balance(m, target) as int == Balance(l, target) + lamports + paid
  }

  /** Lamports go from a validator's account, and rent from the reserve, into its transient account. */
  lemma DecreaseKeeps(p: StakePool, l: Ledger, m: Ledger, v: Records, i: nat, seed: U64, lamports: U64, rent: U64,
                      min: nat)
    requires Sound(p, l, v, min) && i < |v| && lamports <= v[i].active
    requires v[i].transient > 0 ==> seed == v[i].transientSeed
    requires Released(l, m, v[i].ValidatorAddress(), Transient(v[i].vote, seed), lamports, rent)
    ensures Balance(m, Transient(v[i].vote, seed)) == v[i].transient + lamports + rent
    ensures Sound(p, m, v[i := v[i].(active := v[i].active - lamports,
                                     transient := Balance(m, Transient(v[i].vote, seed)), transientSeed := seed)], min)
  {
    var target := Transient(v[i].vote, seed);
    RecordAccounts(l, v, i);
    RecordStep(p, p, l, m, v, i,
               v[i].(active := v[i].active - lamports, transient := Balance(m, target), transientSeed := seed), min);
  }

  /** Lamports leave the pool from one account of a record, which follows. */
  lemma OneAccountKeeps(p: StakePool, q: StakePool, l: Ledger, m: Ledger, v: Records, i: nat, r: ValidatorStakeInfo,
                        source: Address, target: Address, paid: U64, min: nat)
    requires Sound(p, l, v, min) && i < |v| && target.External? && Moved(l, m, source, target, paid)
    requires
      || (source == v[i].ValidatorAddress() && paid <= v[i].active
          && r == v[i].(active := v[i].active - paid, status := r.status))
      || (source == v[i].TransientAddress() && paid <= v[i].transient
          && r == v[i].(transient := v[i].transient - paid))
    requires q.totalLamports == p.totalLamports - paid
    ensures Sound(q, m, v[i := r], min)
  {
    RecordAccounts(l, v, i);
    RecordStep(p, q, l, m, v, i, r, min);
  }

  /** A user's stake account is emptied: `absorbed` lamports stay with the validator, the rest reaches the reserve. */
  ghost predicate Taken(l: Ledger, m: Ledger, stake: Address, deposit: Address, absorbed: U64) {
    && absorbed <= Balance(l, deposit)
    && Balance(m, stake) == Balance(l, stake) + absorbed
    && Balance(m, Reserve) == Balance(l, Reserve) + Balance(l, deposit) - absorbed
    && At(m, deposit) == CLOSED
    && (Balance(m, stake) > 0 ==> StateKept(l, m, stake)) && StateKept(l, m, Reserve)
    && SameExcept(l, m, {stake, Reserve, deposit})
  }

  /** Deposited lamports reach the validator's account and the reserve. */
  lemma DepositKeeps(p: StakePool, q: StakePool, l: Ledger, m: Ledger, v: Records, i: nat, deposit: Address,
                     absorbed: U64, min: nat)
    requires Sound(p, l, v, min) && i < |v| && deposit.External?
    requires Taken(l, m, v[i].ValidatorAddress(), deposit, absorbed)
    requires q.totalLamports == p.totalLamports + Balance(l, deposit)
    ensures Sound(q, m, v[i := v[i].(active := Balance(m, v[i].ValidatorAddress()))], min)
  {
    RecordAccounts(l, v, i);
    RecordStep(p, q, l, m, v, i, v[i].(active := Balance(m, v[i].ValidatorAddress())), min);
  }

  /** A new validator's account is funded from the reserve. */
  lemma NewRecord(p: StakePool, l: Ledger, m: Ledger, v: Records, r: ValidatorStakeInfo, min: nat)
    requires Sound(p, l, v, min) && FindVote(v, r.vote).None? && r.transient == 0
    requires Moved(l, m, Reserve, r.ValidatorAddress(), r.active)
    ensures Sound(p, m, v + [r], min)
  {
    NewAccounts(l, m, v, r);
    hide Recorded, RecordMatches, NothingElsewhere, OthersKept, FindVote;
    RecordedAppend(v, r);
    MatchesAppend(l, m, v, r);
  }

  lemma NewAccounts(l: Ledger, m: Ledger, v: Records, r: ValidatorStakeInfo)
    requires NothingElsewhere(l, v) && FindVote(v, r.vote).None? && r.transient == 0
    requires Moved(l, m, Reserve, r.ValidatorAddress(), r.active)
    ensures OthersKept(l, m, r.vote) && RecordMatches(m, r)
  {
  }

  /** The balances of the two accounts a record names, and of all others derived for its validator. */
  lemma RecordAccounts(l: Ledger, v: Records, i: nat)
    requires Matches(l, v) && i < |v|
    ensures RecordMatches(l, v[i])
    ensures Balance(l, v[i].ValidatorAddress()) == v[i].active
    ensures Balance(l, v[i].TransientAddress()) == v[i].transient
  {
    assert RecordMatches(l, v[i]);
  }

  /** A validator without transient stake leaves all its transient addresses empty. */
  lemma FreshTransientEmpty(p: StakePool, l: Ledger, v: Records, min: nat, i: nat, seed: nat)
    requires Sound(p, l, v, min) && i < |v| && v[i].transient == 0
    ensures Balance(l, Transient(v[i].vote, seed)) == 0
  {
    assert RecordMatches(l, v[i]);
  }

  /** Replacing a record by one of the same validator does not change what is found. */
  lemma SameFinds(v: Records, i: nat, r: ValidatorStakeInfo, vote: nat)
    requires i < |v| && r.vote == v[i].vote
    ensures FindVote(v[i := r], vote) == FindVote(v, vote)
  {
    FindUnique(v, v[i := r], vote, 0);
  }

  lemma FindUnique(v: Records, w: Records, vote: nat, i: nat)
    requires |v| == |w| && i <= |v| && forall j :: 0 <= j < |v| ==> v[j].vote == w[j].vote
    ensures FindFrom(v, vote, i) == FindFrom(w, vote, i)
    decreases |v| - i
  {
  }

  /**
   Both halves of a redelegation: the sender's record and the reserve pay into the
   sender's transient account and the ephemeral one, which the receiver's
   transient account then takes over.
   */
  lemma RedelegationKeeps(p: StakePool, l0: Ledger, l1: Ledger, l2: Ledger, v: Records, i: nat,
                          sender: ValidatorStakeInfo, j: nat, receiver: ValidatorStakeInfo, between: Address,
                          lamports: U64, min: nat)
    requires Sound(p, l0, v, min) && i < |v| && j < |v| && i != j && between.Ephemeral?
    requires v[i].transient == 0 && lamports <= v[i].active
    requires sender
      == v[i].(active := v[i].active - lamports, transient := sender.transient, transientSeed := sender.transientSeed)
    requires v[j].transient + lamports <= U64_MAX
    requires receiver == v[j].(transient := v[j].transient + lamports, transientSeed := receiver.transientSeed)
    requires v[j].transient > 0 ==> receiver.transientSeed == v[j].transientSeed
    requires BalancesExcept(l0, l1, {Reserve, v[i].ValidatorAddress(), sender.TransientAddress(), between})
    requires Balance(l1, Reserve) as int == Balance(l0, Reserve) - sender.transient
    requires Balance(l1, v[i].ValidatorAddress()) as int == Balance(l0, v[i].ValidatorAddress()) - lamports
    requires Balance(l1, sender.TransientAddress()) == sender.transient && Balance(l1, between) == lamports
    requires Moved(l1, l2, between, receiver.TransientAddress(), lamports)
    ensures Sound(p, l2, v[i := sender][j := receiver], min)
    ensures BalancesExcept(l0, l2,
                           {Reserve, v[i].ValidatorAddress(), sender.TransientAddress(), receiver.TransientAddress()})
    ensures Balance(l2, Reserve) as int == Balance(l0, Reserve) - sender.transient
  {
    RecordAccounts(l0, v, i);
    RecordAccounts(l0, v, j);
    assert v[i].vote != v[j].vote && Balance(l0, between) == 0;
    hide *;
    SenderMatches(l0, l1, l2, v[i], sender, between, receiver.TransientAddress(), lamports);
    ReceiverMatches(l0, l1, l2, v[j], receiver, v[i], sender, between, lamports);
    OthersKeptByTwo(l0, l1, l2, v[i], sender, receiver, between, lamports);
    TwoRecords(l0, l2, v, i, sender, j, receiver);
    SumTwo(v, i, sender, j, receiver);
    DriftOf(p, l0, l2, v, v[i := sender][j := receiver], min);
  }

  lemma SenderMatches(l0: Ledger, l1: Ledger, l2: Ledger, from: ValidatorStakeInfo, sender: ValidatorStakeInfo,
                      between: Address, target: Address, lamports: U64)
    requires RecordMatches(l0, from) && from.transient == 0 && lamports <= from.active && between.Ephemeral?
    requires sender
      == from.(active := from.active - lamports, transient := sender.transient, transientSeed := sender.transientSeed)
    requires BalancesExcept(l0, l1, {Reserve, from.ValidatorAddress(), sender.TransientAddress(), between})
    requires Balance(l1, from.ValidatorAddress()) as int == Balance(l0, from.ValidatorAddress()) - lamports
    requires Balance(l1, sender.TransientAddress()) == sender.transient
    requires target.Transient? && target.vote != from.vote && Moved(l1, l2, between, target, lamports)
    ensures RecordMatches(l2, sender)
  {
  }

  lemma ReceiverMatches(l0: Ledger, l1: Ledger, l2: Ledger, to: ValidatorStakeInfo, receiver: ValidatorStakeInfo,
                        from: ValidatorStakeInfo, sender: ValidatorStakeInfo, between: Address, lamports: U64)
    requires RecordMatches(l0, to) && to.transient + lamports <= U64_MAX && between.Ephemeral?
    requires from.vote == sender.vote != to.vote
    requires receiver == to.(transient := to.transient + lamports, transientSeed := receiver.transientSeed)
    requires to.transient > 0 ==> receiver.transientSeed == to.transientSeed
    requires BalancesExcept(l0, l1, {Reserve, from.ValidatorAddress(), sender.TransientAddress(), between})
    requires Moved(l1, l2, between, receiver.TransientAddress(), lamports)
    ensures RecordMatches(l2, receiver)
  {
  }

  lemma OthersKeptByTwo(l0: Ledger, l1: Ledger, l2: Ledger, from: ValidatorStakeInfo, sender: ValidatorStakeInfo,
                        receiver: ValidatorStakeInfo, between: Address, lamports: U64)
    requires between.Ephemeral? && Balance(l0, between) == 0 && Balance(l1, between) == lamports
      && sender.vote == from.vote
    requires BalancesExcept(l0, l1, {Reserve, from.ValidatorAddress(), sender.TransientAddress(), between})
    requires Moved(l1, l2, between, receiver.TransientAddress(), lamports)
    ensures Balance(l2, Reserve) == Balance(l1, Reserve)
    ensures BalancesExcept(l0, l2,
                           {Reserve, from.ValidatorAddress(), sender.TransientAddress(), receiver.TransientAddress()})
    ensures forall a: Address :: !Of(a, sender.vote) && !Of(a, receiver.vote) && !a.Reserve? && !a.External? ==>
      Balance(l2, a) == Balance(l0, a)
  {
  }

  lemma SumTwo(v: Records, i: nat, r: ValidatorStakeInfo, j: nat, s: ValidatorStakeInfo)
    requires i < |v| && j < |v| && i != j
    ensures Recorded(v[i := r][j := s]) ==
      Recorded(v) - v[i].active - v[i].transient + r.active + r.transient - v[j].active - v[j].transient + s.active
        + s.transient
  {
    RecordedUpdate(v, i, r);
    RecordedUpdate(v[i := r], j, s);
  }

  lemma DriftOf(p: StakePool, l: Ledger, m: Ledger, v: Records, w: Records, min: nat)
    requires Balance(m, Reserve) + Recorded(w) == Balance(l, Reserve) + Recorded(v)
    ensures Drift(p, m, w, min) == Drift(p, l, v, min)
  {
  }

  /** Two records of different validators change together with their accounts. */
  lemma TwoRecords(l: Ledger, m: Ledger, v: Records, i: nat, r: ValidatorStakeInfo, j: nat, s: ValidatorStakeInfo)
    requires Matches(l, v) && DistinctVotes(v) && i < |v| && j < |v| && i != j
    requires r.vote == v[i].vote && s.vote == v[j].vote
    requires RecordMatches(m, r) && RecordMatches(m, s)
    requires forall a: Address :: !Of(a, r.vote) && !Of(a, s.vote) && !a.Reserve? && !a.External? ==>
      Balance(m, a) == Balance(l, a)
    ensures Matches(m, v[i := r][j := s]) && DistinctVotes(v[i := r][j := s])
  {
    var w := v[i := r][j := s];
    assert forall k :: 0 <= k < |v| ==> w[k].vote == v[k].vote;
    forall k | 0 <= k < |w| ensures RecordMatches(m, w[k]) {
      assert RecordMatches(l, v[k]);
    }
    forall vote | FindVote(w, vote).None? ensures FindVote(v, vote).None? && vote != r.vote && vote != s.vote {
      assert w[i].vote == r.vote && w[j].vote == s.vote;
    }
  }

  /** Records leave no choice for the balances of derived accounts. */
  lemma MatchesFixBalances(l: Ledger, m: Ledger, v: Records)
    requires Matches(l, v) && Matches(m, v)
    ensures forall a: Address :: !a.Reserve? && !a.External? ==> Balance(m, a) == Balance(l, a)
  {
    forall a: Address | a.Validator? || a.Transient? ensures Balance(m, a) == Balance(l, a) {
      var found := FindVote(v, a.vote);
      if found.Some? {
        RecordAccounts(l, v, found.value);
        RecordAccounts(m, v, found.value);
      }
    }
  }

  /** A payment out of the reserve that lowers the total balances unless it goes to an account of the pool. */
  lemma PaymentKeepsBooksIff(p: StakePool, q: StakePool, l: Ledger, m: Ledger, v: Records, target: Address, amount: U64,
                             min: nat)
    requires Sound(p, l, v, min) && amount > 0 && PaidOut(l, m, Reserve, target, amount)
    requires q.totalLamports == p.totalLamports - amount
    ensures Sound(q, m, v, min) <==> target.External?
  {
    assert target != Reserve ==> Balance(m, target) == Balance(l, target) + amount;
    if target.External? {
      MatchesKept(l, m, v);
    } else if Matches(m, v) {
      MatchesFixBalances(l, m, v);
    }
  }

  // ------------------------------------------------------------- clean-up

  lemma {:induction false} RecordedZero(v: Records, i: nat)
    requires Recorded(v) == 0 && i < |v|
    ensures v[i].active == 0 && v[i].transient == 0
    decreases |v|
  {
    if i < |v| - 1 { RecordedZero(v[..|v| - 1], i); }
  }

  lemma {:induction false} DroppedMembers(v: Records)
    ensures forall i :: 0 <= i < |v| && !v[i].IsNotRemoved() ==> v[i] in Dropped(v)
  {
    if v != [] {
      DroppedMembers(v[1..]);
      assert Dropped(v) == (if v[0].IsNotRemoved() then [] else [v[0]]) + Dropped(v[1..]);
      assert v == [v[0]] + v[1..];
    }
  }

  /** Records and accounts still agree when the dropped records hold nothing. */
  lemma CleanupMatches(l: Ledger, v: Records)
    requires Matches(l, v) && DistinctVotes(v) && Recorded(Dropped(v)) == 0
    ensures Matches(l, Kept(v))
  {
    KeptMembers(v);
    DroppedMembers(v);
    var w := Kept(v);
    forall j | 0 <= j < |w| ensures RecordMatches(l, w[j]) {
      var i :| 0 <= i < |v| && v[i] == w[j];
      assert RecordMatches(l, v[i]);
    }
    forall vote, s | FindVote(w, vote).None?
      ensures Balance(l, Validator(vote, s)) == 0 && Balance(l, Transient(vote, s)) == 0
    {
      if FindVote(v, vote).Some? {
        var i := FindVote(v, vote).value;
        assert RecordMatches(l, v[i]);
        assert !v[i].IsNotRemoved();
        var j :| 0 <= j < |Dropped(v)| && Dropped(v)[j] == v[i];
        RecordedZero(Dropped(v), j);
      }
    }
  }

  // -------------------------------------------------- no stray lamports

  /** A derived address that no record names. */
  predicate Stray(v: Records, a: Address) {
    && !a.Reserve? && !a.External?
    && forall i :: 0 <= i < |v| ==> a != v[i].ValidatorAddress() && a != v[i].TransientAddress()
  }

  ghost predicate NoStray(l: Ledger, v: Records) {
    forall a :: Stray(v, a) ==> Balance(l, a) == 0
  }

  /** Records that equal the two accounts they name, and nothing elsewhere, is full agreement. */
  lemma NoStrayMatches(l: Ledger, v: Records)
    requires NoStray(l, v) && DistinctVotes(v)
    requires forall i :: 0 <= i < |v| ==>
      Balance(l, v[i].ValidatorAddress()) == v[i].active && Balance(l, v[i].TransientAddress()) == v[i].transient
    ensures Matches(l, v)
  {
    forall i | 0 <= i < |v| ensures RecordMatches(l, v[i]) {
      forall s | s != v[i].validatorSeed ensures Balance(l, Validator(v[i].vote, s)) == 0 {
        assert Stray(v, Validator(v[i].vote, s));
      }
      forall s | s != v[i].transientSeed ensures Balance(l, Transient(v[i].vote, s)) == 0 {
        assert Stray(v, Transient(v[i].vote, s));
      }
    }
    forall vote, s | FindVote(v, vote).None?
      ensures Balance(l, Validator(vote, s)) == 0 && Balance(l, Transient(vote, s)) == 0
    {
      assert Stray(v, Validator(vote, s)) && Stray(v, Transient(vote, s));
    }
    forall s: nat ensures Balance(l, Ephemeral(s)) == 0 {
      assert Stray(v, Ephemeral(s));
    }
  }
}
