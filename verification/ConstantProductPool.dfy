/** The constant-product pool as the contract runs it: storage fields overwritten step by
    step, and undone whole when the invocation panics (liquidity_pool/src/contract.rs,
    utils/src/u256_math.rs). */
module ConstantProductPool {
  import opened Words
  import opened PoolQuotes
  import opened PoolSteps
  import opened PoolInvariants
  import opened PoolRuns

  /** `sqrt` of a 256-bit integer, by Newton's iteration from above. */
  method Sqrt(x: nat) returns (y: nat)
    requires x + 1 < TWO_256
    ensures y == Isqrt(x)
  {
    var z := (x + 1) / 2;
    y := x;
    if x > 0 {
      DivModUnique(x, x, 1, 0);
    }
    while z < y
      invariant x == 0 ==> y == 0 && z == 0
      invariant x > 0 ==> y > 0 && z == (x / y + y) / 2
      invariant x < (y + 1) * (y + 1)
      decreases y
    {
      NewtonStaysAbove(x, y);
      y := z;
      z := (x / z + z) / 2;
    }
    if x > 0 {
      FloorGalois(y, x, y);
    }
    RootIsUnique(x, y, Isqrt(x));
  }

  /** A Newton step never falls below the root, nor to zero. */
  lemma NewtonStaysAbove(x: nat, y: nat)
    requires x > 0 && y > 0
    ensures var z := (x / y + y) / 2;
      x < (z + 1) * (z + 1) && z > 0
  {
    FloorBounds(x, y);
    Remainder(x, y);
    MeanIsAbove(x / y + 1, y);
    if y == 1 {
      DivModUnique(x, 1, x, 0);
    }
  }

  lemma MeanIsAbove(a: nat, b: nat)
    requires a > 0
    ensures var z := (a - 1 + b) / 2; a * b <= (z + 1) * (z + 1)
  {
    var m := (a - 1 + b) / 2 + 1;
    var s := a + b;
    assert s * s - 4 * (a * b) == (a - b) * (a - b);
    assert (a - b) * (a - b) >= 0;
    MulMono(s, 2 * m, s);
    MulMono(s, 2 * m, 2 * m);
    assert (2 * m) * (2 * m) == 4 * (m * m);
  }

  lemma RootIsUnique(x: nat, a: nat, b: nat)
    requires a * a <= x < (a + 1) * (a + 1) && b * b <= x < (b + 1) * (b + 1)
    ensures a == b
  {
    if a < b {
      MulMono(a + 1, b, a + 1);
      MulMono(a + 1, b, b);
    } else if b < a {
      MulMono(b + 1, a, b + 1);
      MulMono(b + 1, a, a);
    }
  }

  lemma SquareBelow(a: nat, b: nat)
    requires a < TWO_128 && b < TWO_128
    ensures a * b + 1 < TWO_256
  {
    MulMono(a, TWO_128 - 1, b);
    MulMono(b, TWO_128 - 1, TWO_128 - 1);
  }

  class Pool {
    const cfg: PoolConfig
    var reserves: Pair
    var fees: Pair
    var balances: Pair
    var shares: nat
    var protocolFraction: nat
    var syncLedger: nat

    constructor (cfg: PoolConfig)
      ensures State() == EMPTY_POOL && this.cfg == cfg
    {
      this.cfg := cfg;
      reserves, fees, balances := [0, 0], [0, 0], [0, 0];
      shares, protocolFraction, syncLedger := 0, 0, 0;
    }

    function State(): PoolState
      reads this
    {
      PoolState(reserves, fees, balances, shares, protocolFraction, syncLedger)
    }

    /** What the host does after a panic. */
    method Revert(s: PoolState)
      modifies this
      ensures State() == s
    {
      reserves, fees, balances := s.reserves, s.fees, s.balances;
      shares, protocolFraction, syncLedger := s.shares, s.protocolFraction, s.syncLedger;
    }

    /** `_sync_reserves`: a loop over the coins that raises each reserve to the available balance. */
    method SyncReserves(ledger: nat) returns (r: Result<()>)
      modifies `reserves, `syncLedger
      ensures match Sync(cfg, old(State()), ledger)
        case Ok(s) => r == Ok(()) && State() == s
        case Err(e) => r == Err(e)
    {
      if syncLedger == ledger {
        return Ok(());
      }
      if shares == 0 {
        syncLedger := ledger;
        return Ok(());
      }
      ghost var s := State();
      var updated: Pair := reserves;
      for i := 0 to 2
        invariant State() == s
        invariant forall k | i <= k < 2 :: updated[k] == reserves[k]
        invariant forall k | 0 <= k < i :: SyncedReserve(cfg, s, k) == Ok(updated[k])
      {
        if cfg.isReward[i] {
          continue;
        }
        if balances[i] < fees[i] {
          return Err(Host);
        }
        var available := balances[i] - fees[i];
        if available > updated[i] {
          updated := updated[i := available];
        }
      }
      reserves := updated;
      syncLedger := ledger;
      assert updated == [updated[0], updated[1]];
      return Ok(());
    }

    /** A token transfer to the pool, then one from it. */
    method TransferIn(i: nat, amount: nat) returns (r: Result<()>)
      requires i < 2
      modifies `balances
      ensures match Receive(old(State()), i, amount)
        case Ok(s) => r == Ok(()) && State() == s
        case Err(e) => r == Err(e)
    {
      if balances[i] + amount > TOKEN_MAX {
        return Err(Host);
      }
      balances := balances[i := balances[i] + amount];
      return Ok(());
    }

    method TransferOut(i: nat, amount: nat) returns (r: Result<()>)
      requires i < 2
      modifies `balances
      ensures match Send(old(State()), i, amount)
        case Ok(s) => r == Ok(()) && State() == s
        case Err(e) => r == Err(e)
    {
      if amount > balances[i] || amount > TOKEN_MAX {
        return Err(Host);
      }
      balances := balances[i := balances[i] - amount];
      return Ok(());
    }

    /** Shares after a deposit. */
    method TotalSharesAfter(before: Pair, after: Pair) returns (r: Result<nat>)
      requires after[0] < TWO_128 && after[1] < TWO_128
      ensures r == NewTotalShares(before, after, shares)
    {
      if before[0] > 0 && before[1] > 0 {
        var a :- MulDiv128(after[0], shares, before[0], false);
        var b :- MulDiv128(after[1], shares, before[1], false);
        return Ok(if a <= b then a else b);
      }
      var product :- Checked256(after[0] * after[1]);
      SquareBelow(after[0], after[1]);
      var root := Sqrt(product);
      var total :- Checked(root);
      return Ok(total);
    }

    // ---------------------------------------------------------------- entry points

    /** Sending nothing back changes nothing. */
    lemma NoRefund(s: PoolState, i: nat)
      requires i < 2
      ensures Send(s, i, 0) == Ok(s)
    {
      assert s.balances[i := s.balances[i]] == s.balances;
    }

    /** `deposit`, up to a panic: storage is then what the panic left, until it is undone. */
    method TryDeposit(ledger: nat, desired: seq<nat>, minShares: nat) returns (r: Result<Receipt>)
      modifies this
      ensures match Deposit(cfg, old(State()), ledger, desired, minShares)
        case Ok(v) => r == Ok(v.1) && State() == v.0
        case Err(e) => r == Err(e)
    {
      hide Sync, DepositSynced;
      if |desired| != 2 {
        return Err(WrongInputVecSize);
      }
      var _ :- SyncReserves(ledger);
      var r' := TakeDeposit(desired, minShares);
      return r';
    }

    /** The rest of `deposit`, once reserves are synced. */
    method TakeDeposit(desired: seq<nat>, minShares: nat) returns (r: Result<Receipt>)
      requires |desired| == 2
      modifies this
      ensures match DepositSynced(old(State()), desired, minShares)
        case Ok(v) => r == Ok(v.1) && State() == v.0
        case Err(e) => r == Err(e)
    {
      hide Collect, MintFor;
      var before := reserves;
      var amounts :- CollectDeposit(desired);
      var minted :- MintShares(before, minShares);
      return Ok(Receipt(amounts, minted));
    }

    method CollectDeposit(desired: seq<nat>) returns (r: Result<Pair>)
      requires |desired| == 2
      modifies `balances, `reserves
      ensures match Collect(old(State()), desired)
        case Ok(v) => r == Ok(v.1) && State() == v.0 && reserves[0] < TWO_128 && reserves[1] < TWO_128
        case Err(e) => r == Err(e)
    {
      hide DepositAmounts, Receive, Send;
      var before := reserves;
      if before == [0, 0] && (desired[0] == 0 || desired[1] == 0) {
        return Err(AllCoinsRequired);
      }
      var _ :- TransferIn(0, desired[0]);
      var _ :- TransferIn(1, desired[1]);
      var amounts :- DepositAmounts((desired[0], desired[1]), (0, 0), (before[0], before[1]));
      var (a, b) := amounts;
      var reserveA :- Checked(before[0] + a);
      var reserveB :- Checked(before[1] + b);
      reserves := reserves[0 := reserveA];
      reserves := reserves[1 := reserveB];
      assert reserves == [reserveA, reserveB];
      NoRefund(State(), 0);
      if a < desired[0] {
        var _ :- TransferOut(0, desired[0] - a);
      }
      NoRefund(State(), 1);
      if b < desired[1] {
        var _ :- TransferOut(1, desired[1] - b);
      }
      return Ok([a, b]);
    }

    method MintShares(before: Pair, minShares: nat) returns (r: Result<nat>)
      requires reserves[0] < TWO_128 && reserves[1] < TWO_128
      modifies `shares
      ensures match MintFor(old(State()), before, minShares)
        case Ok(v) => r == Ok(v.1) && State() == v.0
        case Err(e) => r == Err(e)
    {
      hide NewTotalShares;
      var total :- TotalSharesAfter(before, reserves);
      var minted :- Checked(total - shares);
      if minted < minShares {
        return Err(OutMinNotSatisfied);
      }
      if minted > TOKEN_MAX {
        return Err(Host);
      }
      shares := shares + minted;
      return Ok(minted);
    }

    /** The invariant check both swaps make once the input is added to the reserves. */
    method CheckInvariant(before: Pair, out: Pair) returns (r: Result<bool>)
      ensures r == (match Residue(cfg, protocolFraction)
                    case Ok(residue) => InvariantHolds(before, reserves, out, residue)
                    case Err(e) => Err(e))
    {
      hide InvariantFactor, Checked256;
      var residue :- Residue(cfg, protocolFraction);
      var newA :- InvariantFactor(reserves[0], before[0], out[0], residue);
      var newB :- InvariantFactor(reserves[1], before[1], out[1], residue);
      var oldA :- Checked256(FEE_MULTIPLIER * before[0]);
      var oldB :- Checked256(FEE_MULTIPLIER * before[1]);
      var newProduct :- Checked256(newA as int * newB as int);
      var oldProduct :- Checked256(oldA as int * oldB as int);
      return Ok(newProduct >= oldProduct);
    }

    /** The common end of both swaps. */
    method SettleSwap(inIdx: nat, amountIn: nat, out: nat, totalFee: nat) returns (r: Result<()>)
      requires inIdx < 2
      modifies this
      ensures match Settle(cfg, old(State()), inIdx, amountIn, out, totalFee)
        case Ok(s) => r == Ok(()) && State() == s
        case Err(e) => r == Err(e)
    {
      hide InvariantHolds, Residue, ProtocolPart, Send;
      var outIdx := 1 - inIdx;
      var before := reserves;
      var grown :- Checked(reserves[inIdx] + amountIn);
      reserves := reserves[inIdx := grown];
      var holds :- CheckInvariant(before, [0, 0][outIdx := out]);
      if !holds {
        return Err(InvariantDoesNotHold);
      }
      var protocolFee :- ProtocolPart(totalFee, protocolFraction);
      var _ :- TransferOut(outIdx, out);
      var reserveOut :- Checked(reserves[outIdx] - out);
      var reserveIn :- Checked(reserves[inIdx] as int - protocolFee as int);
      var fee :- Checked(fees[inIdx] + protocolFee);
      fees := fees[inIdx := fee];
      reserves := reserves[outIdx := reserveOut];
      reserves := reserves[inIdx := reserveIn];
      assert reserves == before[outIdx := reserveOut][inIdx := reserveIn];
      return Ok(());
    }

    method TrySwap(ledger: nat, inIdx: nat, outIdx: nat, amount: nat, outMin: nat) returns (r: Result<Receipt>)
      modifies this
      ensures match Swap(cfg, old(State()), ledger, inIdx, outIdx, amount, outMin)
        case Ok(v) => r == Ok(v.1) && State() == v.0
        case Err(e) => r == Err(e)
    {
      hide Settle, AmountOut, Sync;
      var _ :- CheckedIndexes(inIdx, outIdx);
      if amount == 0 {
        return Err(ZeroAmount);
      }
      var _ :- SyncReserves(ledger);
      var (sell, buy) := (reserves[inIdx], reserves[outIdx]);
      if sell == 0 || buy == 0 {
        return Err(EmptyPool);
      }
      var quote :- AmountOut(amount, sell, buy, cfg.fee);
      var (out, totalFee) := quote;
      var protocolFee :- ProtocolPart(totalFee, protocolFraction);
      var lpFee :- Checked(totalFee - protocolFee);
      if out < outMin {
        return Err(OutMinNotSatisfied);
      }
      var _ :- TransferIn(inIdx, amount);
      var _ :- SettleSwap(inIdx, amount, out, totalFee);
      return Ok(Receipt([0, 0][inIdx := amount], out));
    }

    method TrySwapStrictReceive(ledger: nat, inIdx: nat, outIdx: nat, out: nat, inMax: nat) returns (r: Result<Receipt>)
      modifies this
      ensures match SwapStrictReceive(cfg, old(State()), ledger, inIdx, outIdx, out, inMax)
        case Ok(v) => r == Ok(v.1) && State() == v.0
        case Err(e) => r == Err(e)
    {
      hide Settle, AmountIn, Sync, Receive;
      var _ :- CheckedIndexes(inIdx, outIdx);
      if out == 0 {
        return Err(ZeroAmount);
      }
      var _ :- SyncReserves(ledger);
      var (sell, buy) := (reserves[inIdx], reserves[outIdx]);
      if sell == 0 || buy == 0 {
        return Err(EmptyPool);
      }
      var quote :- AmountIn(out, sell, buy, cfg.fee);
      var (amount, totalFee) := quote;
      if amount > inMax {
        return Err(InMaxNotSatisfied);
      }
      var _ :- TransferIn(inIdx, inMax);
      NoRefund(State(), inIdx);
      if inMax - amount > 0 {
        var _ :- TransferOut(inIdx, inMax - amount);
      }
      var _ :- SettleSwap(inIdx, amount, out, totalFee);
      return Ok(Receipt([0, 0][outIdx := out], amount));
    }

    method TryWithdraw(ledger: nat, burned: nat, min: seq<nat>) returns (r: Result<Receipt>)
      modifies this
      ensures match Withdraw(cfg, old(State()), ledger, burned, min)
        case Ok(v) => r == Ok(v.1) && State() == v.0
        case Err(e) => r == Err(e)
    {
      hide Sync;
      if |min| != 2 {
        return Err(WrongInputVecSize);
      }
      var _ :- SyncReserves(ledger);
      var total := shares;
      var left :- Checked(shares - burned);
      shares := left;
      var outA :- MulDiv128(reserves[0], burned, total, false);
      var outB :- MulDiv128(reserves[1], burned, total, false);
      if outA < min[0] || outB < min[1] {
        return Err(OutMinNotSatisfied);
      }
      var _ :- TransferOut(0, outA);
      var _ :- TransferOut(1, outB);
      var reserveA :- Checked(reserves[0] - outA);
      var reserveB :- Checked(reserves[1] - outB);
      reserves := reserves[0 := reserveA];
      reserves := reserves[1 := reserveB];
      return Ok(Receipt([outA, outB], burned));
    }

    method TryClaimProtocolFees() returns (r: Result<Receipt>)
      modifies this
      ensures match ClaimProtocolFees(old(State()))
        case Ok(v) => r == Ok(v.1) && State() == v.0
        case Err(e) => r == Err(e)
    {
      var (feeA, feeB) := (fees[0], fees[1]);
      NoRefund(State(), 0);
      if feeA > 0 {
        var _ :- TransferOut(0, feeA);
        fees := fees[0 := 0];
      }
      NoRefund(State().(fees := old(fees)), 1);
      if feeB > 0 {
        var _ :- TransferOut(1, feeB);
        fees := fees[1 := 0];
      }
      assert fees == [0, 0] && [feeA, feeB] == old(fees);
      return Ok(Receipt([feeA, feeB], 0));
    }

    method TrySetProtocolFeeFraction(fraction: nat) returns (r: Result<Receipt>)
      modifies `protocolFraction
      ensures match SetProtocolFeeFraction(old(State()), fraction)
        case Ok(s) => r.Ok? && State() == s
        case Err(e) => r == Err(e)
    {
      if fraction > FEE_MULTIPLIER {
        return Err(FeeOutOfBounds);
      }
      protocolFraction := fraction;
      return Ok(Receipt([0, 0], fraction));
    }

    /** The call itself; a panic leaves storage as far as the call had got. */
    method Dispatch(c: Call) returns (r: Result<Receipt>)
      modifies this
      ensures match Outcome(cfg, old(State()), c)
        case Ok(s) => r.Ok? && State() == s
        case Err(e) => r == Err(e)
    {
      hide Deposit, Swap, SwapStrictReceive, Withdraw, ClaimProtocolFees, Sync, Receive;
      match c {
        case CallDeposit(ledger, desired, minShares) => r := TryDeposit(ledger, desired, minShares);
        case CallSwap(ledger, inIdx, outIdx, amount, outMin) => r := TrySwap(ledger, inIdx, outIdx, amount, outMin);
        case CallSwapStrict(ledger, inIdx, outIdx, out, inMax) =>
          r := TrySwapStrictReceive(ledger, inIdx, outIdx, out, inMax);
        case CallWithdraw(ledger, burned, min) => r := TryWithdraw(ledger, burned, min);
        case CallClaim => r := TryClaimProtocolFees();
        case CallSetFraction(fraction) => r := TrySetProtocolFeeFraction(fraction);
        case CallGetReserves(ledger) =>
          var synced :- SyncReserves(ledger);
          r := Ok(Receipt(reserves, 0));
        case Credit(coin, amount) =>
          if coin >= 2 {
            return Err(Host);
          }
          var credited :- TransferIn(coin, amount);
          r := Ok(Receipt([0, 0], amount));
      }
    }

    /** An invocation, undone whole when it panics: from a state in which the pool is solvent
        and its shares are backed it leads to another, and never lowers what backs a share. */
    method Invoke(c: Call) returns (r: Result<Receipt>)
      modifies this
      ensures State() == Apply(cfg, old(State()), c)
      ensures r.Ok? <==> Outcome(cfg, old(State()), c).Ok?
      ensures old(Inv(State())) ==> Inv(State()) && (old(shares) > 0 ==> Grew(old(State()), State()))
    {
      hide Outcome, Inv, Grew;
      var saved := State();
      if Inv(saved) {
        StepKeeps(cfg, saved, c);
      }
      r := Dispatch(c);
      if r.Err? {
        Revert(saved);
      }
    }
  }
}
