/** Entry points of the constant-product pool as steps over one state, and what every run
    of them keeps (liquidity_pool/src/contract.rs). */
module PoolSteps {
  import opened Words
  import opened PoolQuotes

  const TOKEN_MAX: nat := 0x7FFFFFFF_FFFFFFFF_FFFFFFFF_FFFFFFFF

  /** One number per coin of the pair. */
  type Pair = p: seq<nat> | |p| == 2 witness [0, 0]

  /** Fixed at initialization: the fee, and which coins are also the reward token. */
  datatype Config = Config(fee: nat, isReward: seq<bool>)

  type PoolConfig = c: Config | c.fee < FEE_MULTIPLIER && |c.isReward| == 2 witness Config(0, [false, false])

  /** Reserves, protocol fees and sync ledger in storage, the pool's token balances, and the
      number of shares outstanding. */
  datatype PoolState = PoolState(
    reserves: Pair, fees: Pair, balances: Pair, shares: nat, protocolFraction: nat, syncLedger: nat)

  const EMPTY_POOL: PoolState := PoolState([0, 0], [0, 0], [0, 0], 0, 0, 0)

  // ------------------------------------------------------------------ token moves

  /** A token transfer into the pool; tokens count in signed 128 bits. */
  function Receive(s: PoolState, i: nat, amount: nat): Result<PoolState>
    requires i < 2
  {
    if s.balances[i] + amount > TOKEN_MAX then Err(Host)
    else Ok(s.(balances := s.balances[i := s.balances[i] + amount]))
  }

  function Send(s: PoolState, i: nat, amount: nat): Result<PoolState>
    requires i < 2
  {
    if amount > s.balances[i] || amount > TOKEN_MAX then Err(Host)
    else Ok(s.(balances := s.balances[i := s.balances[i] - amount]))
  }

  // ------------------------------------------------------------------------- sync

  function SyncedReserve(cfg: PoolConfig, s: PoolState, i: nat): Result<nat>
    requires i < 2
  {
    if cfg.isReward[i] then Ok(s.reserves[i])
    else if s.balances[i] < s.fees[i] then Err(Host)
    else
      var available := s.balances[i] - s.fees[i];
      Ok(if available > s.reserves[i] then available else s.reserves[i])
  }

  /** `_sync_reserves`. */
  function Sync(cfg: PoolConfig, s: PoolState, ledger: nat): Result<PoolState>
  {
    if s.syncLedger == ledger then Ok(s)
    else if s.shares == 0 then Ok(s.(syncLedger := ledger))
    else
      var a :- SyncedReserve(cfg, s, 0);
      var b :- SyncedReserve(cfg, s, 1);
      Ok(s.(reserves := [a, b], syncLedger := ledger))
  }

  // ---------------------------------------------------------------------- deposit

  /** The largest number whose square is at most n. */
  function Isqrt(n: nat): (r: nat)
    ensures r * r <= n < (r + 1) * (r + 1)
  {
    if n == 0 then 0
    else
      var half := Isqrt(n / 4);
      IsqrtStep(n, half);
      if (2 * half + 1) * (2 * half + 1) <= n then 2 * half + 1 else 2 * half
  }

  lemma IsqrtStep(n: nat, half: nat)
    requires half * half <= n / 4 < (half + 1) * (half + 1)
    ensures (2 * half) * (2 * half) <= n < (2 * half + 2) * (2 * half + 2)
  {
    assert (2 * half) * (2 * half) == 4 * (half * half);
    assert (2 * half + 2) * (2 * half + 2) == 4 * ((half + 1) * (half + 1));
  }

  function NewTotalShares(before: Pair, after: Pair, shares: nat): Result<nat>
  {
    if before[0] > 0 && before[1] > 0 then
      var a :- MulDiv128(after[0], shares, before[0], false);
      var b :- MulDiv128(after[1], shares, before[1], false);
      Ok(if a <= b then a else b)
    else
      var product :- Checked256(after[0] * after[1]);
      Checked(Isqrt(product))
  }

  /** What a call returns: amounts moved, and shares or an amount. */
  datatype Receipt = Receipt(amounts: Pair, number: nat)

  function Deposit(cfg: PoolConfig, s: PoolState, ledger: nat, desired: seq<nat>, minShares: nat)
    : Result<(PoolState, Receipt)>
  {
    if |desired| != 2 then Err(WrongInputVecSize)
    else
      var s1 :- Sync(cfg, s, ledger);
      DepositSynced(s1, desired, minShares)
  }

  function DepositSynced(s: PoolState, desired: seq<nat>, minShares: nat): Result<(PoolState, Receipt)>
    requires |desired| == 2
  {
    var (s1, amounts) :- Collect(s, desired);
    var (s2, minted) :- MintFor(s1, s.reserves, minShares);
    Ok((s2, Receipt(amounts, minted)))
  }

  /** Takes what is offered, keeps what the reserves' ratio asks for and refunds the rest. */
  function Collect(s: PoolState, desired: seq<nat>): Result<(PoolState, Pair)>
    requires |desired| == 2
  {
    if s.reserves == [0, 0] && (desired[0] == 0 || desired[1] == 0) then Err(AllCoinsRequired)
    else
      var s2 :- Receive(s, 0, desired[0]);
      var s3 :- Receive(s2, 1, desired[1]);
      var (a, b) :- DepositAmounts((desired[0], desired[1]), (0, 0), (s.reserves[0], s.reserves[1]));
      var reserveA :- Checked(s.reserves[0] + a);
      var reserveB :- Checked(s.reserves[1] + b);
      var s4 :- Send(s3.(reserves := [reserveA, reserveB]), 0, Max0(desired[0] - a));
      var s5 :- Send(s4, 1, Max0(desired[1] - b));
      Ok((s5, [a, b]))
  }

  function MintFor(s: PoolState, before: Pair, minShares: nat): Result<(PoolState, nat)>
  {
    var total :- NewTotalShares(before, s.reserves, s.shares);
    var minted :- Checked(total - s.shares);
    if minted < minShares then Err(OutMinNotSatisfied)
    else if minted > TOKEN_MAX then Err(Host)
    else Ok((s.(shares := s.shares + minted), minted))
  }

  /** Refunds are made only when positive. */
  function Max0(x: int): nat
  {
    if x > 0 then x else 0
  }

  // ------------------------------------------------------------------------ swaps

  /** The invariant's view of one reserve after the fee, scaled by FEE_MULTIPLIER. */
  function InvariantFactor(reserve: nat, before: nat, out: nat, residue: nat): Result<U256>
  {
    var gained :- Checked(reserve - before);
    if gained > out then
      Checked256(FEE_MULTIPLIER * before + residue * (gained - out))
    else
      var floor :- Checked(before + out);
      Checked256(FEE_MULTIPLIER * before + FEE_MULTIPLIER * reserve - FEE_MULTIPLIER * floor)
  }

  /** Whether the scaled product of `after`, once `out` has left, is at least that of `before`. */
  function InvariantHolds(before: Pair, after: Pair, out: Pair, residue: nat): Result<bool>
  {
    var newA :- InvariantFactor(after[0], before[0], out[0], residue);
    var newB :- InvariantFactor(after[1], before[1], out[1], residue);
    var oldA :- Checked256(FEE_MULTIPLIER * before[0]);
    var oldB :- Checked256(FEE_MULTIPLIER * before[1]);
    var newProduct :- Checked256(newA * newB);
    var oldProduct :- Checked256(oldA * oldB);
    Ok(newProduct >= oldProduct)
  }

  function Residue(cfg: PoolConfig, protocolFraction: nat): Result<nat>
  {
    var protocolFee := cfg.fee * protocolFraction / FEE_MULTIPLIER;
    var poolFee :- Checked(cfg.fee - protocolFee);
    Checked(FEE_MULTIPLIER - poolFee)
  }

  function ProtocolPart(totalFee: nat, protocolFraction: nat): Result<nat>
  {
    var scaled :- Checked(totalFee * protocolFraction);
    Ok(scaled / FEE_MULTIPLIER)
  }

  function CheckedIndexes(inIdx: nat, outIdx: nat): Result<bool>
  {
    if inIdx == outIdx then Err(CannotSwapSameToken)
    else if inIdx > 1 then Err(InTokenOutOfBounds)
    else if outIdx > 1 then Err(OutTokenOutOfBounds)
    else Ok(true)
  }

  /** The part both swaps share: the input has arrived, the output is checked and sent, and
      the protocol's part of the fee leaves the reserves. */
  function Settle(cfg: PoolConfig, s: PoolState, inIdx: nat, amountIn: nat, out: nat, totalFee: nat)
    : Result<PoolState>
    requires inIdx < 2
  {
    var outIdx := 1 - inIdx;
    var grown :- Checked(s.reserves[inIdx] + amountIn);
    var after := s.reserves[inIdx := grown];
    var residue :- Residue(cfg, s.protocolFraction);
    var holds :- InvariantHolds(s.reserves, after, [0, 0][outIdx := out], residue);
    if !holds then Err(InvariantDoesNotHold)
    else
      var protocolFee :- ProtocolPart(totalFee, s.protocolFraction);
      var s' :- Send(s.(reserves := after), outIdx, out);
      var reserveOut :- Checked(after[outIdx] - out);
      var reserveIn :- Checked(grown - protocolFee);
      var fee :- Checked(s.fees[inIdx] + protocolFee);
      Ok(s'.(reserves := s.reserves[outIdx := reserveOut][inIdx := reserveIn], fees := s.fees[inIdx := fee]))
  }

  function Swap(cfg: PoolConfig, s: PoolState, ledger: nat, inIdx: nat, outIdx: nat, amount: nat, outMin: nat)
    : Result<(PoolState, Receipt)>
  {
    var _ :- CheckedIndexes(inIdx, outIdx);
    if amount == 0 then Err(ZeroAmount)
    else
      var s1 :- Sync(cfg, s, ledger);
      var (sell, buy) := (s1.reserves[inIdx], s1.reserves[outIdx]);
      if sell == 0 || buy == 0 then Err(EmptyPool)
      else
        var (out, totalFee) :- AmountOut(amount, sell, buy, cfg.fee);
        var protocolFee :- ProtocolPart(totalFee, s1.protocolFraction);
        var lpFee :- Checked(totalFee - protocolFee);
        if out < outMin then Err(OutMinNotSatisfied)
        else
          var s2 :- Receive(s1, inIdx, amount);
          var s3 :- Settle(cfg, s2, inIdx, amount, out, totalFee);
          Ok((s3, Receipt([0, 0][inIdx := amount], out)))
  }

  function SwapStrictReceive(cfg: PoolConfig, s: PoolState, ledger: nat, inIdx: nat, outIdx: nat, out: nat, inMax: nat)
    : Result<(PoolState, Receipt)>
  {
    var _ :- CheckedIndexes(inIdx, outIdx);
    if out == 0 then Err(ZeroAmount)
    else
      var s1 :- Sync(cfg, s, ledger);
      StrictSynced(cfg, s1, inIdx, out, inMax)
  }

  function StrictSynced(cfg: PoolConfig, s: PoolState, inIdx: nat, out: nat, inMax: nat): Result<(PoolState, Receipt)>
    requires inIdx < 2
  {
    var (sell, buy) := (s.reserves[inIdx], s.reserves[1 - inIdx]);
    if sell == 0 || buy == 0 then Err(EmptyPool)
    else
      var (amount, totalFee) :- AmountIn(out, sell, buy, cfg.fee);
      if amount > inMax then Err(InMaxNotSatisfied)
      else
        var s1 :- Receive(s, inIdx, inMax);
        var s2 :- Send(s1, inIdx, inMax - amount);
        var s3 :- Settle(cfg, s2, inIdx, amount, out, totalFee);
        Ok((s3, Receipt([0, 0][1 - inIdx := out], amount)))
  }

  // ------------------------------------------------------- withdraw, fees, outsiders

  function Withdraw(cfg: PoolConfig, s: PoolState, ledger: nat, shares: nat, min: seq<nat>)
    : Result<(PoolState, Receipt)>
  {
    if |min| != 2 then Err(WrongInputVecSize)
    else
      var s1 :- Sync(cfg, s, ledger);
      var left :- Checked(s1.shares - shares);
      var outA :- MulDiv128(s1.reserves[0], shares, s1.shares, false);
      var outB :- MulDiv128(s1.reserves[1], shares, s1.shares, false);
      if outA < min[0] || outB < min[1] then Err(OutMinNotSatisfied)
      else
        var s2 :- Send(s1, 0, outA);
        var s3 :- Send(s2, 1, outB);
        var reserveA :- Checked(s1.reserves[0] - outA);
        var reserveB :- Checked(s1.reserves[1] - outB);
        Ok((s3.(reserves := [reserveA, reserveB], shares := left), Receipt([outA, outB], shares)))
  }

  function ClaimProtocolFees(s: PoolState): Result<(PoolState, Receipt)>
  {
    var s1 :- Send(s, 0, s.fees[0]);
    var s2 :- Send(s1, 1, s.fees[1]);
    Ok((s2.(fees := [0, 0]), Receipt(s.fees, 0)))
  }

  function SetProtocolFeeFraction(s: PoolState, fraction: nat): Result<PoolState>
  {
    if fraction > FEE_MULTIPLIER then Err(FeeOutOfBounds) else Ok(s.(protocolFraction := fraction))
  }
}
