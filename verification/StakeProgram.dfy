/**
 The stake, system and token programs as the stake pool sees them: lamport
 moves between accounts, the state a stake account is left in, and pool token
 balances.
 */
module StakeProgram {
  import opened Wrappers
  import opened StakeState

  const EPOCH_MAX: U64 := 0xFFFF_FFFF_FFFF_FFFF

  /**
   An account by the way its address is derived. Distinct values are distinct
   addresses. External accounts belong to users.
   */
  datatype Address =
    | Reserve
    | Validator(vote: nat, seed: nat)
    | Transient(vote: nat, seed: nat)
    | Ephemeral(seed: nat)
    | External(id: nat)

  datatype Kind = Uninitialized | Initialized | Delegated(voter: nat, activation: U64, deactivation: U64)

  /** `usable`: authorities and lockup are the pool's. */
  datatype StakeAccount = StakeAccount(lamports: U64, usable: bool, kind: Kind)

  /** An address without an account. */
  const CLOSED := StakeAccount(0, false, Uninitialized)

  type Ledger = map<Address, StakeAccount>

  /** An address that was never used holds nothing. */
  function At(l: Ledger, a: Address): StakeAccount {
    if a in l then l[a] else CLOSED
  }

  function Balance(l: Ledger, a: Address): U64 {
    At(l, a).lamports
  }

  predicate DelegatedTo(a: StakeAccount, vote: nat) {
    a.kind.Delegated? && a.kind.voter == vote
  }

  /** `m` is `l` after `amount` lamports went from one account to another. */
  ghost predicate Moved(l: Ledger, m: Ledger, from: Address, to: Address, amount: int) {
    from != to && forall a ::
      Balance(m, a) as int == Balance(l, a) + (if a == from then -amount else if a == to then amount else 0)
  }

  /** Only the given accounts differ. */
  ghost predicate SameExcept(l: Ledger, m: Ledger, changed: set<Address>) {
    forall a :: a !in changed ==> At(m, a) == At(l, a)
  }

  /** Only the account's lamports differ. */
  predicate StateKept(l: Ledger, m: Ledger, a: Address) {
    At(m, a) == At(l, a).(lamports := At(m, a).lamports)
  }

  /** A transfer of lamports; refused when the source is short, the target overflows, or they are the same. */
  function Pay(l: Ledger, from: Address, to: Address, amount: U64): (r: Option<Ledger>)
    ensures r.Some? <==> from != to && amount <= Balance(l, from) && Balance(l, to) + amount <= U64_MAX
    ensures r.Some? ==> Moved(l, r.value, from, to, amount) && SameExcept(l, r.value, {from, to})
    ensures r.Some? ==> At(r.value, from) == At(l, from).(lamports := Balance(l, from) - amount)
    ensures r.Some? ==> At(r.value, to) == At(l, to).(lamports := Balance(l, to) + amount)
  {
    var f, t := At(l, from), At(l, to);
    if from == to || amount > f.lamports || t.lamports + amount > U64_MAX then None
    else Some(l[from := f.(lamports := f.lamports - amount)][to := t.(lamports := t.lamports + amount)])
  }

  function SetKind(l: Ledger, a: Address, kind: Kind): (m: Ledger)
    ensures forall b :: Balance(m, b) == Balance(l, b)
    ensures At(m, a) == At(l, a).(kind := kind) && SameExcept(l, m, {a})
  {
    l[a := At(l, a).(kind := kind)]
  }

  /** Allocate and assign: refused for an account in use. */
  predicate Creatable(l: Ledger, a: Address) {
    At(l, a).kind.Uninitialized?
  }

  /** An account left without lamports is gone. */
  function CloseIfEmpty(l: Ledger, a: Address): (m: Ledger)
    ensures forall b :: Balance(m, b) == Balance(l, b)
    ensures SameExcept(l, m, {a})
    ensures At(m, a) == if Balance(l, a) == 0 then CLOSED else At(l, a)
  {
    if Balance(l, a) == 0 then l[a := CLOSED] else l
  }

  /** The target takes over authorities and delegation. */
  function Split(l: Ledger, from: Address, to: Address, amount: U64): (r: Option<Ledger>)
    ensures r.Some? ==> Moved(l, r.value, from, to, amount) && SameExcept(l, r.value, {from, to})
    ensures r.Some? ==> At(r.value, to) == StakeAccount(Balance(l, to) + amount, At(l, from).usable, At(l, from).kind)
    ensures r.Some? && amount < Balance(l, from) ==>
      At(r.value, from) == At(l, from).(lamports := Balance(l, from) - amount)
    ensures r.Some? && amount == Balance(l, from) ==> At(r.value, from) == CLOSED
    ensures r.Some? <==>
      && from != to && !At(l, from).kind.Uninitialized? && At(l, to).kind.Uninitialized?
      && amount <= Balance(l, from) && Balance(l, to) + amount <= U64_MAX
  {
    var paid := Pay(l, from, to, amount);
    if At(l, from).kind.Uninitialized? || !At(l, to).kind.Uninitialized? || paid.None? then None
    else
      var m := paid.value[to := StakeAccount(Balance(l, to) + amount, At(l, from).usable, At(l, from).kind)];
      Some(CloseIfEmpty(m, from))
  }

  function Merge(l: Ledger, from: Address, to: Address): (r: Option<Ledger>)
    ensures r.Some? ==> Moved(l, r.value, from, to, Balance(l, from)) && SameExcept(l, r.value, {from, to})
    ensures r.Some? ==> At(r.value, to) == At(l, to).(lamports := Balance(l, to) + Balance(l, from))
    ensures r.Some? ==> At(r.value, from) == CLOSED
    ensures r.Some? <==>
      && from != to && !At(l, from).kind.Uninitialized? && !At(l, to).kind.Uninitialized?
      && Balance(l, to) + Balance(l, from) <= U64_MAX
  {
    var paid := Pay(l, from, to, Balance(l, from));
    if At(l, from).kind.Uninitialized? || At(l, to).kind.Uninitialized? || paid.None? then None
    else Some(CloseIfEmpty(paid.value, from))
  }

  function Withdraw(l: Ledger, from: Address, to: Address, amount: U64): (r: Option<Ledger>)
    ensures r.Some? ==> Moved(l, r.value, from, to, amount) && SameExcept(l, r.value, {from, to})
    ensures r.Some? ==> At(r.value, to) == At(l, to).(lamports := Balance(l, to) + amount)
    ensures r.Some? && amount < Balance(l, from) ==>
      At(r.value, from) == At(l, from).(lamports := Balance(l, from) - amount)
    ensures r.Some? && amount == Balance(l, from) ==> At(r.value, from) == CLOSED
    ensures r.Some? <==>
      && from != to && !At(l, from).kind.Uninitialized? && amount <= Balance(l, from)
      && Balance(l, to) + amount <= U64_MAX
  {
    var paid := Pay(l, from, to, amount);
    if At(l, from).kind.Uninitialized? || paid.None? then None
    else Some(CloseIfEmpty(paid.value, from))
  }

  /** A withdrawal into the account itself moves nothing; a full one still clears the account's state. */
  function WithdrawTo(l: Ledger, from: Address, to: Address, amount: U64): (r: Option<Ledger>)
    ensures r.Some? ==> PaidOut(l, r.value, from, to, amount) && SameExcept(l, r.value, {from, to})
    ensures r.Some? && amount < Balance(l, from) ==> StateKept(l, r.value, from)
    ensures r.Some? <==>
      && !At(l, from).kind.Uninitialized? && amount <= Balance(l, from)
      && (from != to ==> Balance(l, to) + amount <= U64_MAX)
  {
    if from != to then Withdraw(l, from, to, amount)
    else if At(l, from).kind.Uninitialized? || amount > Balance(l, from) then None
    else Some(if amount == Balance(l, from) then SetKind(l, from, Uninitialized) else l)
  }

  /** Lamports moved, or stayed where they are when source and target are the same. */
  ghost predicate PaidOut(l: Ledger, m: Ledger, from: Address, to: Address, amount: int) {
    if from == to then forall a :: Balance(m, a) == Balance(l, a) else Moved(l, m, from, to, amount)
  }

  function Delegate(l: Ledger, a: Address, vote: nat, epoch: U64): (r: Option<Ledger>)
    ensures r.Some? ==> (forall b :: Balance(r.value, b) == Balance(l, b)) && SameExcept(l, r.value, {a})
    ensures r.Some? ==> At(r.value, a) == At(l, a).(kind := Delegated(vote, epoch, EPOCH_MAX))
    ensures r.Some? <==> !At(l, a).kind.Uninitialized?
  {
    if At(l, a).kind.Uninitialized? then None else Some(SetKind(l, a, Delegated(vote, epoch, EPOCH_MAX)))
  }

  /** Refused for stake that is not delegated or is deactivated already. */
  function Deactivate(l: Ledger, a: Address, epoch: U64): (r: Option<Ledger>)
    ensures r.Some? ==> (forall b :: Balance(r.value, b) == Balance(l, b)) && SameExcept(l, r.value, {a})
    ensures r.Some? <==> At(l, a).kind.Delegated? && At(l, a).kind.deactivation == EPOCH_MAX
    ensures r.Some? ==> At(r.value, a) == At(l, a).(kind := At(l, a).kind.(deactivation := epoch))
  {
    var k := At(l, a).kind;
    if !k.Delegated? || k.deactivation != EPOCH_MAX then None else Some(SetKind(l, a, k.(deactivation := epoch)))
  }

  /** All but the rent goes to the new account, the old one starts to deactivate. Refused for the same vote account. */
  function Redelegate(l: Ledger, from: Address, to: Address, vote: nat, epoch: U64, rent: U64): (r: Option<Ledger>)
    ensures r.Some? ==> SameExcept(l, r.value, {from, to})
    ensures r.Some? ==> Moved(l, r.value, from, to, Balance(l, from) - rent)
    ensures r.Some? ==>
      At(r.value, to) == StakeAccount(Balance(l, to) + Balance(l, from) - rent, At(l, from).usable,
                                      Delegated(vote, epoch, EPOCH_MAX))
    ensures r.Some? <==>
      && At(l, from).kind.Delegated? && !DelegatedTo(At(l, from), vote) && At(l, to).kind.Uninitialized?
      && rent <= Balance(l, from) && Balance(l, to) + Balance(l, from) - rent <= U64_MAX
    ensures r.Some? ==>
      At(r.value, from) == At(l, from).(lamports := rent, kind := At(l, from).kind.(deactivation := epoch))
  {
    var f := At(l, from);
    if rent > f.lamports || !f.kind.Delegated? || f.kind.voter == vote || !At(l, to).kind.Uninitialized? then None
    else
      var paid := Pay(l, from, to, f.lamports - rent);
      if paid.None? then None
      else
        var m := SetKind(paid.value, from, f.kind.(deactivation := epoch));
        Some(m[to := StakeAccount(Balance(m, to), f.usable, Delegated(vote, epoch, EPOCH_MAX))])
  }

  // ---------------------------------------------------------------- tokens

  type Tokens = map<nat, U64>

  function TokensOf(t: Tokens, holder: nat): U64 {
    if holder in t then t[holder] else 0
  }

  function Mint(t: Tokens, holder: nat, amount: U64): Option<Tokens> {
    if TokensOf(t, holder) + amount > U64_MAX then None else Some(t[holder := TokensOf(t, holder) + amount])
  }

  function Burn(t: Tokens, holder: nat, amount: U64): Option<Tokens> {
    if TokensOf(t, holder) < amount then None else Some(t[holder := TokensOf(t, holder) - amount])
  }

  function Transfer(t: Tokens, from: nat, to: nat, amount: U64): Option<Tokens> {
    var burnt := Burn(t, from, amount);
    if burnt.None? then None else Mint(burnt.value, to, amount)
  }

  /** All tokens in existence. */
  ghost function Supply(t: Tokens): nat {
    if t == map[] then 0 else var k :| k in t; t[k] + Supply(t - {k})
  }

  lemma {:induction false} SupplyWithout(t: Tokens, k: nat)
    requires k in t
    ensures Supply(t) == t[k] + Supply(t - {k})
    decreases |t|
  {
    var c :| c in t && Supply(t) == t[c] + Supply(t - {c});
    if c != k {
      SupplyWithout(t - {c}, k);
      SupplyWithout(t - {k}, c);
      assert t - {c} - {k} == t - {k} - {c};
    }
  }

  lemma SupplySet(t: Tokens, k: nat, v: U64)
    ensures Supply(t[k := v]) == Supply(t) - TokensOf(t, k) + v
  {
    SupplyWithout(t[k := v], k);
    if k in t {
      SupplyWithout(t, k);
      assert t[k := v] - {k} == t - {k};
    } else {
      assert t[k := v] - {k} == t;
    }
  }

  /** Whether anybody holds tokens. */
  predicate HasTokens(t: Tokens) {
    exists h :: h in t && t[h] > 0
  }

  lemma {:induction false} NoTokens(t: Tokens)
    ensures HasTokens(t) <==> Supply(t) > 0
    decreases |t|
  {
    if t != map[] {
      var k :| k in t && Supply(t) == t[k] + Supply(t - {k});
      NoTokens(t - {k});
      if h :| h in t && t[h] > 0 { SupplyWithout(t, h); }
    }
  }

  lemma TokensWithin(t: Tokens, holder: nat)
    ensures TokensOf(t, holder) <= Supply(t)
  {
    if holder in t { SupplyWithout(t, holder); }
  }

  /** Minting creates and burning destroys exactly the amount; a transfer keeps the supply. */
  lemma MintSupply(t: Tokens, to: nat, amount: U64)
    ensures Mint(t, to, amount).Some? <==> TokensOf(t, to) + amount <= U64_MAX
    ensures Mint(t, to, amount).Some? ==> Supply(Mint(t, to, amount).value) == Supply(t) + amount
  {
    if Mint(t, to, amount).Some? { SupplySet(t, to, TokensOf(t, to) + amount); }
  }

  lemma BurnSupply(t: Tokens, from: nat, amount: U64)
    ensures Burn(t, from, amount).Some? <==> amount <= TokensOf(t, from)
    ensures Burn(t, from, amount).Some? ==> Supply(Burn(t, from, amount).value) == Supply(t) - amount
  {
    if Burn(t, from, amount).Some? { SupplySet(t, from, TokensOf(t, from) - amount); }
  }

  lemma TransferSupply(t: Tokens, from: nat, to: nat, amount: U64)
    requires Transfer(t, from, to, amount).Some?
    ensures Supply(Transfer(t, from, to, amount).value) == Supply(t)
  {
    hide Supply;
    BurnSupply(t, from, amount);
    MintSupply(Burn(t, from, amount).value, to, amount);
  }
}
