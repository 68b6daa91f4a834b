/** Whole runs of the constant-product pool (liquidity_pool/src/contract.rs). */
module PoolRuns {
  import opened Words
  import opened PoolQuotes
  import opened PoolSteps
  import opened PoolInvariants

  /** An invocation of the pool, or tokens reaching it from outside (a transfer or a
      positive rebase). */
  datatype Call =
    | CallDeposit(ledger: nat, desired: seq<nat>, minShares: nat)
    | CallSwap(ledger: nat, inIdx: nat, outIdx: nat, amount: nat, outMin: nat)
    | CallSwapStrict(ledger: nat, inIdx: nat, outIdx: nat, out: nat, inMax: nat)
    | CallWithdraw(ledger: nat, shares: nat, min: seq<nat>)
    | CallClaim
    | CallSetFraction(fraction: nat)
    | CallGetReserves(ledger: nat)
    | Credit(coin: nat, amount: nat)

  function Outcome(cfg: PoolConfig, s: PoolState, c: Call): Result<PoolState>
  {
    match c
    case CallDeposit(ledger, desired, minShares) =>
      var r :- Deposit(cfg, s, ledger, desired, minShares); Ok(r.0)
    case CallSwap(ledger, inIdx, outIdx, amount, outMin) =>
      var r :- Swap(cfg, s, ledger, inIdx, outIdx, amount, outMin); Ok(r.0)
    case CallSwapStrict(ledger, inIdx, outIdx, out, inMax) =>
      var r :- SwapStrictReceive(cfg, s, ledger, inIdx, outIdx, out, inMax); Ok(r.0)
    case CallWithdraw(ledger, shares, min) =>
      var r :- Withdraw(cfg, s, ledger, shares, min); Ok(r.0)
    case CallClaim =>
      var r :- ClaimProtocolFees(s); Ok(r.0)
    case CallSetFraction(fraction) => SetProtocolFeeFraction(s, fraction)
    case CallGetReserves(ledger) => Sync(cfg, s, ledger)
    case Credit(coin, amount) => if coin < 2 then Receive(s, coin, amount) else Err(Host)
  }

  /** A panic undoes the whole invocation. */
  function Apply(cfg: PoolConfig, s: PoolState, c: Call): PoolState
  {
    var r := Outcome(cfg, s, c);
    if r.Ok? then r.value else s
  }

  function Run(cfg: PoolConfig, s: PoolState, calls: seq<Call>): PoolState
    decreases |calls|
  {
    if calls == [] then s else Run(cfg, Apply(cfg, s, calls[0]), calls[1..])
  }

  lemma EmptyPoolIsInv()
    ensures Inv(EMPTY_POOL)
  {
  }

  /** Claiming pays out exactly the recorded fees. */
  lemma ClaimKeeps(s: PoolState)
    requires Inv(s)
    ensures var r := ClaimProtocolFees(s);
      && r.Ok? && Inv(r.value.0) && r.value.0.reserves == s.reserves && r.value.0.shares == s.shares
      && r.value.1.amounts == s.fees
      && forall i | 0 <= i < 2 :: Surplus(r.value.0, i) == Surplus(s, i)
  {
  }

  lemma SameIsGrowth(s: PoolState, s': PoolState)
    requires s'.reserves == s.reserves && s'.shares == s.shares
    ensures Grew(s, s')
  {
  }

  /** One step, failed or not: the invariant holds after it, and while shares remain the
      reserves behind a share have not fallen. */
  lemma StepKeeps(cfg: PoolConfig, s: PoolState, c: Call)
    requires Inv(s)
    ensures Inv(Apply(cfg, s, c))
    ensures s.shares > 0 ==> Grew(s, Apply(cfg, s, c))
  {
    SameIsGrowth(s, s);
    if Outcome(cfg, s, c).Ok? {
      match c {
        case CallDeposit(ledger, desired, minShares) => DepositKeeps(cfg, s, ledger, desired, minShares);
        case CallSwap(ledger, inIdx, outIdx, amount, outMin) => SwapKeeps(cfg, s, ledger, inIdx, outIdx, amount, outMin);
        case CallSwapStrict(ledger, inIdx, outIdx, out, inMax) => SwapStrictKeeps(cfg, s, ledger, inIdx, outIdx, out, inMax);
        case CallWithdraw(ledger, shares, min) => WithdrawKeeps(cfg, s, ledger, shares, min);
        case CallGetReserves(ledger) => SyncKeeps(cfg, s, ledger);
        case CallClaim =>
          ClaimKeeps(s);
          SameIsGrowth(s, Apply(cfg, s, c));
        case CallSetFraction(fraction) => SameIsGrowth(s, Apply(cfg, s, c));
        case Credit(coin, amount) => SameIsGrowth(s, Apply(cfg, s, c));
      }
    }
    hide Deposit, Swap, SwapStrictReceive, Withdraw, Sync, Grew, Product;
  }

  /** The pool keeps some shares outstanding all along. */
  predicate AlwaysShared(cfg: PoolConfig, s: PoolState, calls: seq<Call>)
    decreases |calls|
  {
    s.shares > 0 && (calls == [] || AlwaysShared(cfg, Apply(cfg, s, calls[0]), calls[1..]))
  }

  /** Every run from a reachable state keeps the invariant, and over every run along which
      shares remain, reserves per share do not fall. */
  lemma {:induction false} RunKeeps(cfg: PoolConfig, s: PoolState, calls: seq<Call>)
    requires Inv(s)
    ensures Inv(Run(cfg, s, calls))
    ensures AlwaysShared(cfg, s, calls) ==> Grew(s, Run(cfg, s, calls))
    decreases |calls|
  {
    hide Inv, Grew, Apply;
    if calls == [] {
      SameIsGrowth(s, s);
    } else {
      var s1 := Apply(cfg, s, calls[0]);
      StepKeeps(cfg, s, calls[0]);
      RunKeeps(cfg, s1, calls[1..]);
      if AlwaysShared(cfg, s, calls) {
        SharedAtOnce(cfg, s1, calls[1..]);
        GrewIsTransitive(s, s1, Run(cfg, s1, calls[1..]));
      }
    }
  }

  lemma SharedAtOnce(cfg: PoolConfig, s: PoolState, calls: seq<Call>)
    requires AlwaysShared(cfg, s, calls)
    ensures s.shares > 0
  {
  }

  /** In every state reachable from an empty pool the pool holds enough of both coins to pay
      the reserves and the protocol's fees, and each share is backed. */
  lemma ReachableIsSolvent(cfg: PoolConfig, calls: seq<Call>, i: nat)
    requires i < 2
    ensures var s := Run(cfg, EMPTY_POOL, calls);
      && Surplus(s, i) >= 0
      && (s.shares == 0 <==> s.reserves == [0, 0])
      && s.reserves[0] * s.reserves[1] >= s.shares * s.shares
  {
    EmptyPoolIsInv();
    RunKeeps(cfg, EMPTY_POOL, calls);
  }

  /** No run that ends with the shares it began with, however it trades in between, takes
      out of one reserve without the other growing to match. */
  lemma NoRunDrainsReserves(cfg: PoolConfig, s: PoolState, calls: seq<Call>)
    requires Inv(s) && AlwaysShared(cfg, s, calls) && Run(cfg, s, calls).shares == s.shares
    ensures var s' := Run(cfg, s, calls);
      && s'.reserves[0] * s'.reserves[1] >= s.reserves[0] * s.reserves[1]
      && (s'.reserves[0] < s.reserves[0] ==> s'.reserves[1] > s.reserves[1])
      && (s'.reserves[1] < s.reserves[1] ==> s'.reserves[0] > s.reserves[0])
  {
    var s' := Run(cfg, s, calls);
    RunKeeps(cfg, s, calls);
    SharedAtOnce(cfg, s, calls);
    assert s.shares * s.shares > 0;
    MulCancel(Product(s.reserves), Product(s'.reserves), s.shares * s.shares);
    CannotBothFall(s.reserves[0], s.reserves[1], s'.reserves[0], s'.reserves[1]);
    CannotBothFall(s.reserves[1], s.reserves[0], s'.reserves[1], s'.reserves[0]);
  }

  lemma CannotBothFall(a: nat, b: nat, a': nat, b': nat)
    requires a' * b' >= a * b && b > 0
    ensures a' < a ==> b' > b
  {
    assert (a' + 1) * b == a' * b + b;
    if a' < a && b' <= b {
      MulMono2(a', b', a', b);
      MulMono(a' + 1, a, b);
    }
  }

  /** Does a call sync, and in which ledger. */
  function SyncedIn(c: Call): Option<nat>
  {
    match c
    case CallDeposit(ledger, _, _) => Some(ledger)
    case CallSwap(ledger, _, _, _, _) => Some(ledger)
    case CallSwapStrict(ledger, _, _, _, _) => Some(ledger)
    case CallWithdraw(ledger, _, _) => Some(ledger)
    case CallGetReserves(ledger) => Some(ledger)
    case CallClaim => None
    case CallSetFraction(_) => None
    case Credit(_, _) => None
  }

  /** Balance beyond reserves and fees is moved by nothing but tokens from outside and the
      first sync of a ledger, which hands it to the share holders whole. */
  lemma SurplusMovesOnlyBySync(cfg: PoolConfig, s: PoolState, c: Call, i: nat)
    requires Inv(s) && i < 2 && !c.Credit?
    ensures var s' := Apply(cfg, s, c);
      Surplus(s', i) ==
        if Outcome(cfg, s, c).Ok? && SyncedIn(c).Some? && SyncedIn(c).value != s.syncLedger && s.shares > 0 && !cfg.isReward[i]
        then 0 else Surplus(s, i)
  {
    if Outcome(cfg, s, c).Ok? {
      if SyncedIn(c).Some? {
        SyncKeeps(cfg, s, SyncedIn(c).value);
      }
      match c {
        case CallDeposit(ledger, desired, minShares) => DepositParts(cfg, s, ledger, desired, minShares);
        case CallSwap(ledger, inIdx, outIdx, amount, outMin) => SwapKeeps(cfg, s, ledger, inIdx, outIdx, amount, outMin);
        case CallSwapStrict(ledger, inIdx, outIdx, out, inMax) => SwapStrictKeeps(cfg, s, ledger, inIdx, outIdx, out, inMax);
        case CallWithdraw(ledger, shares, min) => WithdrawKeeps(cfg, s, ledger, shares, min);
        case CallClaim => ClaimKeeps(s);
        case _ =>
      }
    }
    hide Deposit, Swap, SwapStrictReceive, Withdraw, Sync, Grew, Product, Inv;
  }
}
