/** What every run of the constant-product pool keeps (liquidity_pool/src/contract.rs). */
module PoolInvariants {
  import opened Words
  import opened PoolQuotes
  import opened PoolSteps

  function Product(r: Pair): nat
  {
    r[0] * r[1]
  }

  /** The pool can pay its reserves and its protocol fees, shares and reserves vanish
      together, and every share is backed: reserves multiply to at least shares squared. */
  ghost predicate Inv(s: PoolState)
  {
    && (forall i | 0 <= i < 2 :: s.reserves[i] + s.fees[i] <= s.balances[i] <= TOKEN_MAX)
    && (s.shares == 0 ==> s.reserves == [0, 0])
    && (s.shares > 0 ==> s.reserves[0] > 0 && s.reserves[1] > 0)
    && Product(s.reserves) >= s.shares * s.shares
    && s.protocolFraction <= FEE_MULTIPLIER
  }

  /** The reserves behind one share, multiplied over both coins, did not fall:
      product' / shares'^2 >= product / shares^2, free of division. */
  ghost predicate Grew(s: PoolState, s': PoolState)
  {
    Product(s'.reserves) * (s.shares * s.shares) >= Product(s.reserves) * (s'.shares * s'.shares)
  }

  /** Tokens in the pool that belong to neither the reserves nor the protocol. */
  function Surplus(s: PoolState, i: nat): int
    requires i < 2
  {
    var balance: int := s.balances[i];
    balance - (s.reserves[i] + s.fees[i])
  }

  // ------------------------------------------------------------------- arithmetic

  lemma MulMono2(a: nat, b: nat, c: nat, d: nat)
    requires a <= c && b <= d
    ensures a * b <= c * d
  {
    MulMono(a, c, b);
    MulMono(b, d, c);
  }

  /** Growth of each reserve relative to the shares is growth of the product. */
  lemma EachGrew(a: nat, b: nat, n: nat, a': nat, b': nat, n': nat)
    requires a' * n >= a * n' && b' * n >= b * n'
    ensures (a' * b') * (n * n) >= (a * b) * (n' * n')
  {
    MulMono2(a * n', b * n', a' * n, b' * n);
    Regroup(a, n', b, n');
    Regroup(a', n, b', n);
  }

  lemma Regroup(a: int, b: int, c: int, d: int)
    ensures (a * b) * (c * d) == (a * c) * (b * d)
  {
    assert (a * b) * (c * d) == a * (b * (c * d));
    assert b * (c * d) == c * (b * d);
    assert a * (c * (b * d)) == (a * c) * (b * d);
  }

  lemma GrewChain(p: nat, n: nat, p': nat, n': nat, p'': nat, n'': nat)
    requires n' > 0 && p' * n >= p * n' && p'' * n' >= p' * n''
    ensures p'' * n >= p * n''
  {
    MulMono(p * n', p' * n, n'');
    MulMono(p' * n'', p'' * n', n);
    assert (p * n') * n'' == (p * n'') * n';
    assert (p' * n) * n'' == (p' * n'') * n;
    assert (p'' * n') * n == (p'' * n) * n';
    MulCancel(p * n'', p'' * n, n');
  }

  lemma GrewIsTransitive(s: PoolState, s': PoolState, s'': PoolState)
    requires s'.shares > 0 && Grew(s, s') && Grew(s', s'')
    ensures Grew(s, s'')
  {
    assert s'.shares * s'.shares > 0;
    GrewChain(Product(s.reserves), s.shares * s.shares, Product(s'.reserves), s'.shares * s'.shares,
              Product(s''.reserves), s''.shares * s''.shares);
  }

  /** Growth from a backed state ends in a backed state. */
  lemma GrewKeepsBacking(s: PoolState, s': PoolState)
    requires s.shares > 0 && Product(s.reserves) >= s.shares * s.shares && Grew(s, s')
    ensures Product(s'.reserves) >= s'.shares * s'.shares
  {
    var n, n' := s.shares * s.shares, s'.shares * s'.shares;
    assert n > 0;
    MulMono(n, Product(s.reserves), n');
    assert n' * n == n * n';
    MulCancel(n', Product(s'.reserves), n);
  }

  // ------------------------------------------------------------------------- sync

  /** Sync never panics in a reachable state, changes nothing but reserves and the sync
      ledger, raises reserves only to what the pool holds beyond the protocol's fees, and
      leaves no surplus in a synced coin. */
  lemma SyncKeeps(cfg: PoolConfig, s: PoolState, ledger: nat)
    requires Inv(s)
    ensures var r := Sync(cfg, s, ledger);
      && r.Ok? && Inv(r.value) && (s.shares > 0 ==> Grew(s, r.value))
      && r.value == s.(reserves := r.value.reserves, syncLedger := ledger)
      && forall i | 0 <= i < 2 :: Surplus(r.value, i) ==
           if s.syncLedger == ledger || s.shares == 0 || cfg.isReward[i] then Surplus(s, i) else 0
  {
    var s' := Sync(cfg, s, ledger).value;
    MulMono2(s.reserves[0], s.reserves[1], s'.reserves[0], s'.reserves[1]);
    MulMono(Product(s.reserves), Product(s'.reserves), s.shares * s.shares);
  }

  // ---------------------------------------------------------------------- deposit

  /** A number of shares not above the growth of either reserve. */
  predicate InProportion(before: Pair, after: Pair, shares: nat, total: nat)
  {
    before[0] * total <= after[0] * shares && before[1] * total <= after[1] * shares
  }

  /** The shares a deposit leaves: the most in proportion to both reserves, or the square root of
      their product when there was nothing before. */
  ghost predicate IsTotal(before: Pair, after: Pair, shares: nat, total: nat)
  {
    if before[0] > 0 && before[1] > 0 then
      forall n: nat :: InProportion(before, after, shares, n) <==> n <= total
    else total * total <= Product(after) < (total + 1) * (total + 1)
  }

  lemma TotalIsLargest(before: Pair, after: Pair, shares: nat)
    requires NewTotalShares(before, after, shares).Ok?
    ensures IsTotal(before, after, shares, NewTotalShares(before, after, shares).value)
  {
    if before[0] > 0 && before[1] > 0 {
      var total := NewTotalShares(before, after, shares).value;
      forall n: nat
        ensures InProportion(before, after, shares, n) <==> n <= total
      {
        FloorGalois(n, after[0] * shares, before[0]);
        FloorGalois(n, after[1] * shares, before[1]);
      }
    }
  }

  /** Shares after a deposit are at most in proportion to each reserve, and one more would not be. */
  lemma TotalIsProportional(before: Pair, after: Pair, shares: nat, total: nat)
    requires before[0] > 0 && before[1] > 0 && IsTotal(before, after, shares, total)
    ensures after[0] * shares >= before[0] * total && after[1] * shares >= before[1] * total
    ensures after[0] * shares < before[0] * (total + 1) || after[1] * shares < before[1] * (total + 1)
  {
    assert InProportion(before, after, shares, total) && !InProportion(before, after, shares, total + 1);
  }

  /** What is taken of the coins offered: all of one of them, and of the other the most that the
      reserves' ratio allows; all of both when there are none yet. */
  predicate TakesRatio(a: nat, b: nat, desired: seq<nat>, reserves: Pair)
    requires |desired| == 2
  {
    && a <= desired[0] && b <= desired[1]
    && if reserves[0] == 0 then a == desired[0] && b == desired[1]
       else || (a == desired[0] && b * reserves[0] <= a * reserves[1] < (b + 1) * reserves[0])
            || (b == desired[1] && a * reserves[1] <= b * reserves[0] < (a + 1) * reserves[1])
  }

  lemma DepositedAmounts(desired: seq<nat>, reserves: Pair)
    requires |desired| == 2 && ((reserves[0] == 0 && reserves[1] == 0) || (reserves[0] > 0 && reserves[1] > 0))
    requires DepositAmounts((desired[0], desired[1]), (0, 0), (reserves[0], reserves[1])).Ok?
    ensures var (a, b) := DepositAmounts((desired[0], desired[1]), (0, 0), (reserves[0], reserves[1])).value;
      TakesRatio(a, b, desired, reserves)
  {
    if reserves[0] > 0 {
      DepositFollowsRatio((desired[0], desired[1]), (0, 0), (reserves[0], reserves[1]));
    }
  }

  /** The state after a deposit, by its parts. */
  lemma DepositParts(cfg: PoolConfig, s: PoolState, ledger: nat, desired: seq<nat>, minShares: nat)
    requires Inv(s) && Deposit(cfg, s, ledger, desired, minShares).Ok?
    ensures |desired| == 2
    ensures var (s', r) := Deposit(cfg, s, ledger, desired, minShares).value;
      var s1 := Sync(cfg, s, ledger).value;
      && s'.shares == s1.shares + r.number && r.number >= minShares
      && (forall i | 0 <= i < 2 ::
            && s'.reserves[i] == s1.reserves[i] + r.amounts[i]
            && s'.balances[i] == s1.balances[i] + r.amounts[i] <= TOKEN_MAX)
      && TakesRatio(r.amounts[0], r.amounts[1], desired, s1.reserves)
      && s'.fees == s1.fees && s'.protocolFraction == s1.protocolFraction && s'.syncLedger == ledger
      && IsTotal(s1.reserves, s'.reserves, s1.shares, s'.shares)
      && (s1.shares == 0 ==> r.amounts[0] > 0 && r.amounts[1] > 0)
  {
    SyncKeeps(cfg, s, ledger);
    var s1 := Sync(cfg, s, ledger).value;
    DepositedAmounts(desired, s1.reserves);
    hide NewTotalShares, DepositAmounts, Isqrt, Sync, Inv, IsTotal;
    var (s', r) := Deposit(cfg, s, ledger, desired, minShares).value;
    assert s'.reserves[0] == s1.reserves[0] + r.amounts[0];
    TotalIsLargest(s1.reserves, s'.reserves, s1.shares);
  }

  lemma DepositKeeps(cfg: PoolConfig, s: PoolState, ledger: nat, desired: seq<nat>, minShares: nat)
    requires Inv(s) && Deposit(cfg, s, ledger, desired, minShares).Ok?
    ensures var (s', r) := Deposit(cfg, s, ledger, desired, minShares).value;
      Inv(s') && (s.shares > 0 ==> Grew(s, s')) && s'.shares > 0
  {
    SyncKeeps(cfg, s, ledger);
    DepositParts(cfg, s, ledger, desired, minShares);
    var s1 := Sync(cfg, s, ledger).value;
    var (s', r) := Deposit(cfg, s, ledger, desired, minShares).value;
    hide Deposit, Sync;
    if s1.shares > 0 {
      TotalIsProportional(s1.reserves, s'.reserves, s1.shares, s'.shares);
      EachGrew(s1.reserves[0], s1.reserves[1], s1.shares, s'.reserves[0], s'.reserves[1], s'.shares);
      GrewKeepsBacking(s1, s');
      GrewIsTransitive(s, s1, s');
    } else {
      FirstDepositMints(s1.reserves, s'.reserves, s1.shares, s'.shares);
    }
  }

  lemma FirstDepositMints(before: Pair, after: Pair, shares: nat, total: nat)
    requires before == [0, 0] && after[0] > 0 && after[1] > 0 && IsTotal(before, after, shares, total)
    ensures 0 < total && total * total <= Product(after)
  {
    assert Product(after) > 0;
  }

  // ------------------------------------------------------------------------ swaps

  /** What settling does to the state when it succeeds. */
  lemma SettleParts(cfg: PoolConfig, s: PoolState, inIdx: nat, amountIn: nat, out: nat, totalFee: nat)
    requires inIdx < 2 && Settle(cfg, s, inIdx, amountIn, out, totalFee).Ok?
    ensures var s' := Settle(cfg, s, inIdx, amountIn, out, totalFee).value;
      var fee := totalFee * s.protocolFraction / FEE_MULTIPLIER;
      && out <= s.reserves[1 - inIdx]
      && s'.reserves[inIdx] == s.reserves[inIdx] + amountIn - fee
      && s'.reserves[1 - inIdx] == s.reserves[1 - inIdx] - out
      && s'.fees[inIdx] == s.fees[inIdx] + fee && s'.fees[1 - inIdx] == s.fees[1 - inIdx]
      && s'.balances[inIdx] == s.balances[inIdx] && s'.balances[1 - inIdx] == s.balances[1 - inIdx] - out
      && s'.shares == s.shares && s'.protocolFraction == s.protocolFraction && s'.syncLedger == s.syncLedger
  {
    hide InvariantHolds;
  }

  /** The protocol takes no more than the fee. */
  lemma PartOfFee(totalFee: nat, protocolFraction: nat)
    requires protocolFraction <= FEE_MULTIPLIER
    ensures totalFee * protocolFraction / FEE_MULTIPLIER <= totalFee
  {
    MulMono(protocolFraction, FEE_MULTIPLIER, totalFee);
    FloorGalois(totalFee + 1, totalFee * protocolFraction, FEE_MULTIPLIER);
  }

  /** Both swaps: when the input net of the whole fee already pays for the output, the
      product of the reserves does not fall and the pool still covers what it owes. */
  lemma SettleKeeps(cfg: PoolConfig, s: PoolState, inIdx: nat, amountIn: nat, out: nat, totalFee: nat)
    requires inIdx < 2 && Settle(cfg, s, inIdx, amountIn, out, totalFee).Ok?
    requires s.protocolFraction <= FEE_MULTIPLIER && s.shares > 0 && totalFee <= amountIn
    requires s.reserves[inIdx] > 0 && out < s.reserves[1 - inIdx]
    requires Product(s.reserves) >= s.shares * s.shares
    requires s.reserves[inIdx] + amountIn + s.fees[inIdx] <= s.balances[inIdx] <= TOKEN_MAX
    requires s.reserves[1 - inIdx] + s.fees[1 - inIdx] <= s.balances[1 - inIdx] <= TOKEN_MAX
    requires (s.reserves[inIdx] + amountIn - totalFee) * (s.reserves[1 - inIdx] - out) >= s.reserves[inIdx] * s.reserves[1 - inIdx]
    ensures var s' := Settle(cfg, s, inIdx, amountIn, out, totalFee).value;
      && Inv(s') && Product(s'.reserves) >= Product(s.reserves) && Grew(s, s')
      && Surplus(s', inIdx) == Surplus(s, inIdx) - amountIn && Surplus(s', 1 - inIdx) == Surplus(s, 1 - inIdx)
  {
    SettleParts(cfg, s, inIdx, amountIn, out, totalFee);
    PartOfFee(totalFee, s.protocolFraction);
    var s' := Settle(cfg, s, inIdx, amountIn, out, totalFee).value;
    hide Settle;
    var fee := totalFee * s.protocolFraction / FEE_MULTIPLIER;
    MulMono(s.reserves[inIdx] + amountIn - totalFee, s.reserves[inIdx] + amountIn - fee, s.reserves[1 - inIdx] - out);
    ByIndex(s.reserves, inIdx);
    ByIndex(s'.reserves, inIdx);
    MulMono(Product(s.reserves), Product(s'.reserves), s.shares * s.shares);
  }

  lemma ByIndex(r: Pair, i: nat)
    requires i < 2
    ensures Product(r) == r[i] * r[1 - i]
  {
  }

  /** The scaled product of the reserves after a swap, as the invariant check computes it. */
  function NewProduct(before: Pair, inIdx: nat, amountIn: nat, out: nat, residue: nat): int
    requires inIdx < 2
  {
    (FEE_MULTIPLIER * before[inIdx] + residue * amountIn) * (FEE_MULTIPLIER * (before[1 - inIdx] - out))
  }

  /** The invariant check of an input that pays for its output, exactly: it accepts when the scaled
      product and the sum of output and reserve fit their words, and otherwise overflows. It
      never says that the invariant does not hold. */
  lemma InvariantExactly(before: Pair, after: Pair, inIdx: nat, amountIn: nat, out: nat, net: nat, fee: nat, residue: nat)
    requires inIdx < 2 && after == before[inIdx := before[inIdx] + amountIn] && amountIn > 0 && after[inIdx] < TWO_128
    requires fee <= FEE_MULTIPLIER && FEE_MULTIPLIER - fee <= residue <= FEE_MULTIPLIER && net <= NetOfFee(amountIn, fee)
    requires out <= before[1 - inIdx]
    requires (before[inIdx] + net) * (before[1 - inIdx] - out) >= before[inIdx] * before[1 - inIdx]
    ensures InvariantHolds(before, after, [0, 0][1 - inIdx := out], residue)
         == if before[1 - inIdx] + out < TWO_128 && NewProduct(before, inIdx, amountIn, out, residue) < TWO_256 then Ok(true) else Err(Host)
  {
    var i, o := before[inIdx], before[1 - inIdx];
    InFactor(i, amountIn, net, fee, residue);
    OutFactor(o, out, residue);
    var (a, b) := (FEE_MULTIPLIER * i + residue * amountIn, FEE_MULTIPLIER * (o - out));
    ScaledProducts(i, o, net, out, a);
    hide InvariantFactor, InvariantHolds;
    if o + out >= TWO_128 {
      FactorFails(before, after, [0, 0][1 - inIdx := out], residue);
    } else if inIdx == 0 {
      CompareFactors(before, after, [0, out], residue, a, b);
    } else {
      CompareFactors(before, after, [out, 0], residue, b, a);
      ProductCommutes(a, b);
    }
  }

  lemma ProductCommutes(a: int, b: int)
    ensures a * b == b * a
  {
  }

  /** Both factors known: the check compares their product. */
  lemma CompareFactors(before: Pair, after: Pair, out: Pair, residue: nat, a: nat, b: nat)
    requires InvariantFactor(after[0], before[0], out[0], residue) == Ok(a)
    requires InvariantFactor(after[1], before[1], out[1], residue) == Ok(b)
    requires before[0] < TWO_128 && before[1] < TWO_128
    requires a * b >= (FEE_MULTIPLIER * before[0]) * (FEE_MULTIPLIER * before[1])
    ensures InvariantHolds(before, after, out, residue) == if a * b < TWO_256 then Ok(true) else Err(Host)
  {
    ProductNonNegative(FEE_MULTIPLIER * before[0], FEE_MULTIPLIER * before[1]);
    hide InvariantFactor;
  }

  lemma FactorFails(before: Pair, after: Pair, out: Pair, residue: nat)
    requires forall i | 0 <= i < 2 :: var f := InvariantFactor(after[i], before[i], out[i], residue); f.Err? ==> f.error == Host
    requires exists i | 0 <= i < 2 :: InvariantFactor(after[i], before[i], out[i], residue).Err?
    ensures InvariantHolds(before, after, out, residue) == Err(Host)
  {
    hide InvariantFactor;
  }

  lemma ProductNonNegative(a: nat, b: nat)
    ensures a * b >= 0
  {
  }

  lemma ScaledProducts(sell: nat, buy: nat, net: nat, out: nat, grown: nat)
    requires out <= buy && (sell + net) * (buy - out) >= sell * buy
    requires grown >= FEE_MULTIPLIER * (sell + net)
    ensures grown * (FEE_MULTIPLIER * (buy - out)) >= (FEE_MULTIPLIER * sell) * (FEE_MULTIPLIER * buy)
    ensures (FEE_MULTIPLIER * (buy - out)) * grown >= (FEE_MULTIPLIER * buy) * (FEE_MULTIPLIER * sell)
  {
    var d := FEE_MULTIPLIER;
    MulMono(d * (sell + net), grown, d * (buy - out));
    Regroup(d, sell + net, d, buy - out);
    Regroup(d, sell, d, buy);
    MulMono(sell * buy, (sell + net) * (buy - out), d * d);
    Regroup(d, buy, d, sell);
  }

  lemma InFactor(reserve: nat, amountIn: nat, net: nat, fee: nat, residue: nat)
    requires amountIn > 0 && reserve + amountIn < TWO_128
    requires fee <= FEE_MULTIPLIER && FEE_MULTIPLIER - fee <= residue <= FEE_MULTIPLIER && net <= NetOfFee(amountIn, fee)
    ensures InvariantFactor(reserve + amountIn, reserve, 0, residue) == Ok(FEE_MULTIPLIER * reserve + residue * amountIn)
    ensures FEE_MULTIPLIER * reserve + residue * amountIn >= FEE_MULTIPLIER * (reserve + net)
  {
    MulMono(FEE_MULTIPLIER - fee, residue, amountIn);
    MulMono(residue, FEE_MULTIPLIER, amountIn);
    FloorGalois(net, amountIn * (FEE_MULTIPLIER - fee), FEE_MULTIPLIER);
  }

  lemma OutFactor(reserve: nat, out: nat, residue: nat)
    requires out <= reserve
    ensures InvariantFactor(reserve, reserve, out, residue)
         == if reserve + out < TWO_128 then Ok(FEE_MULTIPLIER * (reserve - out)) else Err(Host)
  {
  }

  lemma ResidueIs(cfg: PoolConfig, protocolFraction: nat)
    requires protocolFraction <= FEE_MULTIPLIER
    ensures Residue(cfg, protocolFraction).Ok? && FEE_MULTIPLIER - cfg.fee <= Residue(cfg, protocolFraction).value <= FEE_MULTIPLIER
  {
    PartOfFee(cfg.fee, protocolFraction);
  }

  /** Settling an input that pays for its output never fails the invariant check. */
  lemma SettleNeverRejects(cfg: PoolConfig, s: PoolState, inIdx: nat, amountIn: nat, out: nat, totalFee: nat, net: nat)
    requires inIdx < 2 && amountIn > 0 && s.protocolFraction <= FEE_MULTIPLIER
    requires out <= s.reserves[1 - inIdx] && net <= NetOfFee(amountIn, cfg.fee)
    requires (s.reserves[inIdx] + net) * (s.reserves[1 - inIdx] - out) >= s.reserves[inIdx] * s.reserves[1 - inIdx]
    ensures var r := Settle(cfg, s, inIdx, amountIn, out, totalFee); r.Err? ==> r.error == Host
  {
    var after := s.reserves[inIdx := s.reserves[inIdx] + amountIn];
    ResidueIs(cfg, s.protocolFraction);
    var residue := Residue(cfg, s.protocolFraction).value;
    if after[inIdx] < TWO_128 {
      InvariantExactly(s.reserves, after, inIdx, amountIn, out, net, cfg.fee, residue);
    }
    hide InvariantHolds, Residue, NewProduct;
  }

  lemma SwapNeverRejectsItself(cfg: PoolConfig, s: PoolState, ledger: nat, inIdx: nat, outIdx: nat, amount: nat, outMin: nat)
    requires s.protocolFraction <= FEE_MULTIPLIER
    ensures Swap(cfg, s, ledger, inIdx, outIdx, amount, outMin) != Err(InvariantDoesNotHold)
  {
    var s1 := Sync(cfg, s, ledger);
    if inIdx != outIdx && inIdx < 2 && outIdx < 2 && amount > 0 && s1.Ok? && s1.value.reserves[inIdx] > 0 {
      var (sell, buy) := (s1.value.reserves[inIdx], s1.value.reserves[outIdx]);
      var quote := AmountOut(amount, sell, buy, cfg.fee);
      if quote.Ok? {
        AmountOutKeepsProduct(amount, sell, buy, cfg.fee);
        var s2 := Receive(s1.value, inIdx, amount);
        if s2.Ok? {
          var (out, kept) := quote.value;
          SettleNeverRejects(cfg, s2.value, inIdx, amount, out, kept, amount - kept);
        }
      }
      hide AmountOut, Settle, Sync, ProtocolPart;
    }
  }

  lemma StrictSettles(cfg: PoolConfig, s: PoolState, inIdx: nat, out: nat, inMax: nat)
    requires inIdx < 2 && out > 0 && s.protocolFraction <= FEE_MULTIPLIER
    requires s.reserves[inIdx] > 0 && AmountIn(out, s.reserves[inIdx], s.reserves[1 - inIdx], cfg.fee).Ok?
    requires var amount := AmountIn(out, s.reserves[inIdx], s.reserves[1 - inIdx], cfg.fee).value.0;
      amount <= inMax && Receive(s, inIdx, inMax).Ok? && Send(Receive(s, inIdx, inMax).value, inIdx, inMax - amount).Ok?
    ensures var (amount, kept) := AmountIn(out, s.reserves[inIdx], s.reserves[1 - inIdx], cfg.fee).value;
      var r := Settle(cfg, Send(Receive(s, inIdx, inMax).value, inIdx, inMax - amount).value, inIdx, amount, out, kept);
      r.Err? ==> r.error == Host
  {
    var (sell, buy) := (s.reserves[inIdx], s.reserves[1 - inIdx]);
    var (amount, kept) := AmountIn(out, sell, buy, cfg.fee).value;
    AmountInKeepsProduct(out, sell, buy, cfg.fee);
    var s' := Send(Receive(s, inIdx, inMax).value, inIdx, inMax - amount).value;
    hide AmountIn, Settle, NetNeeded, NetOfFee;
    SettleNeverRejects(cfg, s', inIdx, amount, out, kept, amount - kept);
  }

  lemma StrictSyncedNeverRejects(cfg: PoolConfig, s: PoolState, inIdx: nat, out: nat, inMax: nat)
    requires inIdx < 2 && out > 0 && s.protocolFraction <= FEE_MULTIPLIER
    ensures StrictSynced(cfg, s, inIdx, out, inMax) != Err(InvariantDoesNotHold)
  {
    var quote := AmountIn(out, s.reserves[inIdx], s.reserves[1 - inIdx], cfg.fee);
    assert quote != Err(InvariantDoesNotHold);
    assert Receive(s, inIdx, inMax) != Err(InvariantDoesNotHold);
    hide AmountIn, Settle, Receive;
    if s.reserves[inIdx] > 0 && quote.Ok? && quote.value.0 <= inMax && Receive(s, inIdx, inMax).Ok? {
      var sent := Send(Receive(s, inIdx, inMax).value, inIdx, inMax - quote.value.0);
      assert sent != Err(InvariantDoesNotHold);
      hide Send;
      if sent.Ok? {
        StrictSettles(cfg, s, inIdx, out, inMax);
      }
    }
  }

  lemma SwapStrictNeverRejectsItself(cfg: PoolConfig, s: PoolState, ledger: nat, inIdx: nat, outIdx: nat, out: nat, inMax: nat)
    requires s.protocolFraction <= FEE_MULTIPLIER
    ensures SwapStrictReceive(cfg, s, ledger, inIdx, outIdx, out, inMax) != Err(InvariantDoesNotHold)
  {
    if CheckedIndexes(inIdx, outIdx).Ok? && out > 0 && Sync(cfg, s, ledger).Ok? {
      StrictSyncedNeverRejects(cfg, Sync(cfg, s, ledger).value, inIdx, out, inMax);
    }
    hide StrictSynced;
  }

  /** An input and an output as either quote computes them. */
  predicate IsQuote(cfg: PoolConfig, s: PoolState, inIdx: nat, amount: nat, out: nat, kept: nat)
    requires inIdx < 2
  {
    var (sell, buy) := (s.reserves[inIdx], s.reserves[1 - inIdx]);
    AmountOut(amount, sell, buy, cfg.fee) == Ok((out, kept)) || (out > 0 && AmountIn(out, sell, buy, cfg.fee) == Ok((amount, kept)))
  }

  /** The two products a settlement computes fit their words. */
  predicate ProductsFit(cfg: PoolConfig, s: PoolState, inIdx: nat, amount: nat, out: nat, kept: nat)
    requires inIdx < 2
  {
    && kept * s.protocolFraction < TWO_128
    && Residue(cfg, s.protocolFraction).Ok?
    && NewProduct(s.reserves, inIdx, amount, out, Residue(cfg, s.protocolFraction).value) < TWO_256
  }

  /** A quoted swap that has been paid in settles exactly when the scaled product and that of fee
      and protocol fraction fit. */
  lemma SettlesExactly(cfg: PoolConfig, s: PoolState, inIdx: nat, amount: nat, out: nat, kept: nat)
    requires Inv(s) && inIdx < 2 && s.reserves[inIdx] > 0 && amount > 0 && s.balances[inIdx] + amount <= TOKEN_MAX
    requires IsQuote(cfg, s, inIdx, amount, out, kept)
    ensures Settle(cfg, Paid(s, inIdx, amount), inIdx, amount, out, kept).Ok? <==> ProductsFit(cfg, s, inIdx, amount, out, kept)
  {
    var paid, sell, buy := Paid(s, inIdx, amount), s.reserves[inIdx], s.reserves[1 - inIdx];
    QuotePays(cfg, s, inIdx, amount, out, kept);
    ResidueIs(cfg, s.protocolFraction);
    PartOfFee(kept, s.protocolFraction);
    var residue, after := Residue(cfg, s.protocolFraction).value, s.reserves[inIdx := sell + amount];
    assert sell + amount <= TOKEN_MAX && buy + out <= 2 * TOKEN_MAX;
    hide AmountOut, AmountIn, IsQuote, InvariantHolds, Residue, NewProduct, NetOfFee;
    InvariantExactly(s.reserves, after, inIdx, amount, out, amount - kept, cfg.fee, residue);
    SettleRest(cfg, paid, inIdx, amount, out, kept, residue);
  }

  lemma QuotePays(cfg: PoolConfig, s: PoolState, inIdx: nat, amount: nat, out: nat, kept: nat)
    requires inIdx < 2 && s.reserves[inIdx] > 0 && IsQuote(cfg, s, inIdx, amount, out, kept)
    ensures var (sell, buy) := (s.reserves[inIdx], s.reserves[1 - inIdx]);
      out <= buy && 0 <= kept <= amount && amount - kept <= NetOfFee(amount, cfg.fee) && (sell + amount - kept) * (buy - out) >= sell * buy
  {
    var (sell, buy) := (s.reserves[inIdx], s.reserves[1 - inIdx]);
    if AmountOut(amount, sell, buy, cfg.fee) == Ok((out, kept)) {
      AmountOutKeepsProduct(amount, sell, buy, cfg.fee);
    } else {
      AmountInKeepsProduct(out, sell, buy, cfg.fee);
    }
    hide AmountOut, AmountIn, NetOfFee, NetNeeded;
  }

  /** What else settling checks: all of it holds where reserves and fees are covered, but for the
      product of fee and protocol fraction. */
  lemma SettleRest(cfg: PoolConfig, s: PoolState, inIdx: nat, amountIn: nat, out: nat, totalFee: nat, residue: nat)
    requires inIdx < 2 && Residue(cfg, s.protocolFraction) == Ok(residue) && s.reserves[inIdx] + amountIn < TWO_128
    requires totalFee * s.protocolFraction / FEE_MULTIPLIER <= totalFee <= amountIn
    requires out <= s.reserves[1 - inIdx] <= s.balances[1 - inIdx] <= TOKEN_MAX
    requires s.reserves[inIdx] + amountIn + s.fees[inIdx] <= TOKEN_MAX
    ensures Settle(cfg, s, inIdx, amountIn, out, totalFee).Ok? <==>
      && InvariantHolds(s.reserves, s.reserves[inIdx := s.reserves[inIdx] + amountIn], [0, 0][1 - inIdx := out], residue) == Ok(true)
      && totalFee * s.protocolFraction < TWO_128
  {
    hide InvariantHolds, Residue;
  }

  /** Below the threshold at which no swap settles, some still do not: a pool of spare capacity
      refuses its own quote because the scaled product overflows. */
  lemma MediumPoolRefusesQuote()
    ensures var reserve, amount, out := 34_011218318090118725983846958608412, 30_000000000000000000000000000000000, 15854871570717711688495695421217284;
      && FEE_MULTIPLIER * FEE_MULTIPLIER * Product([reserve, reserve]) < TWO_256
      && AmountOut(amount, reserve, reserve, 100) == Ok((out, 300000000000000000000000000000000))
      && InvariantHolds([reserve, reserve], [reserve + amount, reserve], [0, out], FEE_MULTIPLIER) == Err(Host)
  {
  }

  /** A pool whose reserves multiply to 2^256 / 10^8 or more cannot trade: the products the
      invariant check scales by the fee multiplier leave 256 bits. */
  lemma HugePoolCannotTrade(cfg: PoolConfig, s: PoolState, inIdx: nat, amountIn: nat, out: nat, totalFee: nat)
    requires inIdx < 2 && FEE_MULTIPLIER * FEE_MULTIPLIER * Product(s.reserves) >= TWO_256
    ensures Settle(cfg, s, inIdx, amountIn, out, totalFee).Err?
  {
    var d := FEE_MULTIPLIER;
    Regroup(d, s.reserves[0], d, s.reserves[1]);
    assert (d * s.reserves[0]) * (d * s.reserves[1]) >= TWO_256;
    hide InvariantFactor, Residue;
  }

  /** The state a swap settles in: the input has arrived. */
  function Paid(s: PoolState, i: nat, amount: nat): PoolState
    requires i < 2
  {
    s.(balances := s.balances[i := s.balances[i] + amount])
  }

  /** Both swaps settle the input paid against the output, from the synced state. */
  lemma SwapSettles(cfg: PoolConfig, s: PoolState, ledger: nat, inIdx: nat, outIdx: nat, amount: nat, outMin: nat)
    requires Swap(cfg, s, ledger, inIdx, outIdx, amount, outMin).Ok?
    ensures inIdx < 2 && outIdx == 1 - inIdx && amount > 0 && Sync(cfg, s, ledger).Ok?
    ensures var s1 := Sync(cfg, s, ledger).value;
      && s1.reserves[inIdx] > 0 && s1.reserves[outIdx] > 0 && s1.balances[inIdx] + amount <= TOKEN_MAX
      && AmountOut(amount, s1.reserves[inIdx], s1.reserves[outIdx], cfg.fee).Ok?
      && var (out, kept) := AmountOut(amount, s1.reserves[inIdx], s1.reserves[outIdx], cfg.fee).value;
         var settled := Settle(cfg, Paid(s1, inIdx, amount), inIdx, amount, out, kept);
         settled.Ok? && out >= outMin
         && Swap(cfg, s, ledger, inIdx, outIdx, amount, outMin) == Ok((settled.value, Receipt([0, 0][inIdx := amount], out)))
  {
    hide Sync, AmountOut, Settle, ProtocolPart;
  }

  lemma StrictSwapSettles(cfg: PoolConfig, s: PoolState, ledger: nat, inIdx: nat, outIdx: nat, out: nat, inMax: nat)
    requires SwapStrictReceive(cfg, s, ledger, inIdx, outIdx, out, inMax).Ok?
    ensures inIdx < 2 && outIdx == 1 - inIdx && out > 0 && Sync(cfg, s, ledger).Ok?
    ensures var s1 := Sync(cfg, s, ledger).value;
      && s1.reserves[inIdx] > 0 && s1.reserves[outIdx] > 0
      && AmountIn(out, s1.reserves[inIdx], s1.reserves[outIdx], cfg.fee).Ok?
      && var (amount, kept) := AmountIn(out, s1.reserves[inIdx], s1.reserves[outIdx], cfg.fee).value;
         var settled := Settle(cfg, Paid(s1, inIdx, amount), inIdx, amount, out, kept);
         settled.Ok? && amount <= inMax && s1.balances[inIdx] + inMax <= TOKEN_MAX
         && SwapStrictReceive(cfg, s, ledger, inIdx, outIdx, out, inMax) == Ok((settled.value, Receipt([0, 0][outIdx := out], amount)))
  {
    hide Sync, AmountIn, Settle;
    var s1 := Sync(cfg, s, ledger).value;
    var amount := AmountIn(out, s1.reserves[inIdx], s1.reserves[outIdx], cfg.fee).value.0;
    assert Send(Receive(s1, inIdx, inMax).value, inIdx, inMax - amount).value == Paid(s1, inIdx, amount);
  }

  /** What a swap of a synced pool needs: a quote within its bound, tokens that arrive, and products
      that fit. */
  predicate SwapFits(cfg: PoolConfig, s: PoolState, inIdx: nat, amount: nat, outMin: nat)
    requires inIdx < 2
  {
    && amount > 0 && s.shares > 0 && s.balances[inIdx] + amount <= TOKEN_MAX
    && var quote := AmountOut(amount, s.reserves[inIdx], s.reserves[1 - inIdx], cfg.fee);
       quote.Ok? && quote.value.0 >= outMin && ProductsFit(cfg, s, inIdx, amount, quote.value.0, quote.value.1)
  }

  lemma ProtocolPartFits(cfg: PoolConfig, s: PoolState, inIdx: nat, amount: nat, out: nat, kept: nat)
    requires inIdx < 2 && ProductsFit(cfg, s, inIdx, amount, out, kept) && s.protocolFraction <= FEE_MULTIPLIER && kept < TWO_128
    ensures ProtocolPart(kept, s.protocolFraction).Ok? && Checked(kept - ProtocolPart(kept, s.protocolFraction).value).Ok?
  {
    PartOfFee(kept, s.protocolFraction);
    hide Residue, NewProduct;
  }

  lemma FittingSwap(cfg: PoolConfig, s: PoolState, ledger: nat, inIdx: nat, amount: nat, outMin: nat)
    requires Inv(s) && inIdx < 2 && Sync(cfg, s, ledger).Ok? && Inv(Sync(cfg, s, ledger).value)
    requires SwapFits(cfg, Sync(cfg, s, ledger).value, inIdx, amount, outMin)
    ensures Swap(cfg, s, ledger, inIdx, 1 - inIdx, amount, outMin).Ok?
  {
    var s1 := Sync(cfg, s, ledger).value;
    var quote := AmountOut(amount, s1.reserves[inIdx], s1.reserves[1 - inIdx], cfg.fee);
    hide Sync, AmountOut, Settle, ProductsFit, Product, ProtocolPart, Swap;
    SettlesExactly(cfg, s1, inIdx, amount, quote.value.0, quote.value.1);
    ProtocolPartFits(cfg, s1, inIdx, amount, quote.value.0, quote.value.1);
    SwapFrom(cfg, s, ledger, inIdx, amount, outMin, s1, quote.value.0, quote.value.1);
  }

  lemma SwapFrom(cfg: PoolConfig, s: PoolState, ledger: nat, inIdx: nat, amount: nat, outMin: nat, s1: PoolState, out: nat, kept: nat)
    requires inIdx < 2 && amount > 0 && Sync(cfg, s, ledger) == Ok(s1) && s1.reserves[0] > 0 && s1.reserves[1] > 0
    requires AmountOut(amount, s1.reserves[inIdx], s1.reserves[1 - inIdx], cfg.fee) == Ok((out, kept)) && outMin <= out
    requires ProtocolPart(kept, s1.protocolFraction).Ok? && Checked(kept - ProtocolPart(kept, s1.protocolFraction).value).Ok?
    requires s1.balances[inIdx] + amount <= TOKEN_MAX && Settle(cfg, Paid(s1, inIdx, amount), inIdx, amount, out, kept).Ok?
    ensures Swap(cfg, s, ledger, inIdx, 1 - inIdx, amount, outMin).Ok?
  {
    hide Sync, AmountOut, Settle, ProtocolPart, Checked;
  }

  /** Exactly when a swap of a reachable pool goes through. */
  lemma SwapSucceeds(cfg: PoolConfig, s: PoolState, ledger: nat, inIdx: nat, outIdx: nat, amount: nat, outMin: nat)
    requires Inv(s)
    ensures Sync(cfg, s, ledger).Ok?
    ensures Swap(cfg, s, ledger, inIdx, outIdx, amount, outMin).Ok? <==>
      inIdx < 2 && outIdx == 1 - inIdx && SwapFits(cfg, Sync(cfg, s, ledger).value, inIdx, amount, outMin)
  {
    SyncKeeps(cfg, s, ledger);
    var s1 := Sync(cfg, s, ledger).value;
    if Swap(cfg, s, ledger, inIdx, outIdx, amount, outMin).Ok? {
      SwapSettles(cfg, s, ledger, inIdx, outIdx, amount, outMin);
      var (out, kept) := AmountOut(amount, s1.reserves[inIdx], s1.reserves[outIdx], cfg.fee).value;
      SettlesExactly(cfg, s1, inIdx, amount, out, kept);
    } else if inIdx < 2 && outIdx == 1 - inIdx && SwapFits(cfg, s1, inIdx, amount, outMin) {
      FittingSwap(cfg, s, ledger, inIdx, amount, outMin);
    }
    hide Sync, Swap, AmountOut, Settle, ProductsFit, Product;
  }

  /** The same for an exact output. */
  predicate StrictFits(cfg: PoolConfig, s: PoolState, inIdx: nat, out: nat, inMax: nat)
    requires inIdx < 2
  {
    && out > 0 && s.shares > 0 && s.balances[inIdx] + inMax <= TOKEN_MAX
    && var quote := AmountIn(out, s.reserves[inIdx], s.reserves[1 - inIdx], cfg.fee);
       quote.Ok? && quote.value.0 <= inMax && ProductsFit(cfg, s, inIdx, quote.value.0, out, quote.value.1)
  }

  lemma FittingStrict(cfg: PoolConfig, s: PoolState, inIdx: nat, out: nat, inMax: nat)
    requires Inv(s) && inIdx < 2 && StrictFits(cfg, s, inIdx, out, inMax)
    ensures StrictSynced(cfg, s, inIdx, out, inMax).Ok?
  {
    var quote := AmountIn(out, s.reserves[inIdx], s.reserves[1 - inIdx], cfg.fee).value;
    AmountInKeepsProduct(out, s.reserves[inIdx], s.reserves[1 - inIdx], cfg.fee);
    hide AmountIn, Settle, ProductsFit, Product, NetNeeded, NetOfFee;
    SettlesExactly(cfg, s, inIdx, quote.0, out, quote.1);
    assert Send(Receive(s, inIdx, inMax).value, inIdx, inMax - quote.0).value == Paid(s, inIdx, quote.0);
  }

  /** Exactly when an exact-output swap of a reachable pool goes through. */
  lemma SwapStrictSucceeds(cfg: PoolConfig, s: PoolState, ledger: nat, inIdx: nat, outIdx: nat, out: nat, inMax: nat)
    requires Inv(s)
    ensures Sync(cfg, s, ledger).Ok?
    ensures SwapStrictReceive(cfg, s, ledger, inIdx, outIdx, out, inMax).Ok? <==>
      inIdx < 2 && outIdx == 1 - inIdx && StrictFits(cfg, Sync(cfg, s, ledger).value, inIdx, out, inMax)
  {
    SyncKeeps(cfg, s, ledger);
    var s1 := Sync(cfg, s, ledger).value;
    if SwapStrictReceive(cfg, s, ledger, inIdx, outIdx, out, inMax).Ok? {
      StrictSwapSettles(cfg, s, ledger, inIdx, outIdx, out, inMax);
      var (amount, kept) := AmountIn(out, s1.reserves[inIdx], s1.reserves[outIdx], cfg.fee).value;
      AmountInKeepsProduct(out, s1.reserves[inIdx], s1.reserves[outIdx], cfg.fee);
      SettlesExactly(cfg, s1, inIdx, amount, out, kept);
    } else if inIdx < 2 && outIdx == 1 - inIdx && StrictFits(cfg, s1, inIdx, out, inMax) {
      FittingStrict(cfg, s1, inIdx, out, inMax);
    }
    hide Sync, StrictSynced, AmountIn, Settle, ProductsFit, Product, NetNeeded, NetOfFee;
  }

  /** What settling a paid input does to a synced reachable state. */
  lemma PaidSwapKeeps(cfg: PoolConfig, s: PoolState, inIdx: nat, amount: nat, out: nat, kept: nat)
    requires Inv(s) && inIdx < 2 && s.reserves[inIdx] > 0 && out < s.reserves[1 - inIdx]
    requires kept <= amount && s.balances[inIdx] + amount <= TOKEN_MAX
    requires (s.reserves[inIdx] + amount - kept) * (s.reserves[1 - inIdx] - out) >= s.reserves[inIdx] * s.reserves[1 - inIdx]
    requires Settle(cfg, Paid(s, inIdx, amount), inIdx, amount, out, kept).Ok?
    ensures var s' := Settle(cfg, Paid(s, inIdx, amount), inIdx, amount, out, kept).value;
      && Inv(s') && Grew(s, s') && s'.shares == s.shares > 0 && Product(s'.reserves) >= Product(s.reserves)
      && (forall i | 0 <= i < 2 :: Surplus(s', i) == Surplus(s, i))
      && s'.balances[inIdx] == s.balances[inIdx] + amount && s'.balances[1 - inIdx] == s.balances[1 - inIdx] - out
  {
    var p := Paid(s, inIdx, amount);
    SettleKeeps(cfg, p, inIdx, amount, out, kept);
    SettleParts(cfg, p, inIdx, amount, out, kept);
    hide Settle, Product;
    assert Grew(s, Settle(cfg, p, inIdx, amount, out, kept).value);
  }

  /** A swap leaves the backing of shares and every promise of the pool intact, and the
      surplus of both coins as the sync found it; the user and the pool trade exactly the
      amounts on the receipt. */
  lemma SwapKeeps(cfg: PoolConfig, s: PoolState, ledger: nat, inIdx: nat, outIdx: nat, amount: nat, outMin: nat)
    requires Inv(s) && Swap(cfg, s, ledger, inIdx, outIdx, amount, outMin).Ok?
    ensures inIdx < 2 && outIdx == 1 - inIdx
    ensures var (s', r) := Swap(cfg, s, ledger, inIdx, outIdx, amount, outMin).value;
      var s1 := Sync(cfg, s, ledger).value;
      && Inv(s') && Grew(s, s') && s'.shares == s.shares > 0
      && (forall i | 0 <= i < 2 :: Surplus(s', i) == Surplus(s1, i))
      && r.number >= outMin && r.amounts[inIdx] == amount
      && s'.balances[inIdx] == s.balances[inIdx] + amount && s'.balances[outIdx] == s.balances[outIdx] - r.number
  {
    SyncKeeps(cfg, s, ledger);
    SwapSettles(cfg, s, ledger, inIdx, outIdx, amount, outMin);
    var s1 := Sync(cfg, s, ledger).value;
    var (out, kept) := AmountOut(amount, s1.reserves[inIdx], s1.reserves[outIdx], cfg.fee).value;
    AmountOutKeepsProduct(amount, s1.reserves[inIdx], s1.reserves[outIdx], cfg.fee);
    hide Sync, AmountOut, Product, Settle, Swap, NetOfFee;
    PaidSwapKeeps(cfg, s1, inIdx, amount, out, kept);
    GrewIsTransitive(s, s1, Settle(cfg, Paid(s1, inIdx, amount), inIdx, amount, out, kept).value);
  }

  lemma SwapStrictKeeps(cfg: PoolConfig, s: PoolState, ledger: nat, inIdx: nat, outIdx: nat, out: nat, inMax: nat)
    requires Inv(s) && SwapStrictReceive(cfg, s, ledger, inIdx, outIdx, out, inMax).Ok?
    ensures inIdx < 2 && outIdx == 1 - inIdx
    ensures var (s', r) := SwapStrictReceive(cfg, s, ledger, inIdx, outIdx, out, inMax).value;
      var s1 := Sync(cfg, s, ledger).value;
      && Inv(s') && Grew(s, s') && s'.shares == s.shares > 0
      && (forall i | 0 <= i < 2 :: Surplus(s', i) == Surplus(s1, i))
      && r.number <= inMax && r.amounts[outIdx] == out
      && s'.balances[inIdx] == s.balances[inIdx] + r.number && s'.balances[outIdx] == s.balances[outIdx] - out
  {
    SyncKeeps(cfg, s, ledger);
    StrictSwapSettles(cfg, s, ledger, inIdx, outIdx, out, inMax);
    var s1 := Sync(cfg, s, ledger).value;
    var (amount, kept) := AmountIn(out, s1.reserves[inIdx], s1.reserves[outIdx], cfg.fee).value;
    AmountInKeepsProduct(out, s1.reserves[inIdx], s1.reserves[outIdx], cfg.fee);
    hide Sync, AmountIn, Product, Settle, SwapStrictReceive, NetOfFee, NetNeeded;
    PaidSwapKeeps(cfg, s1, inIdx, amount, out, kept);
    GrewIsTransitive(s, s1, Settle(cfg, Paid(s1, inIdx, amount), inIdx, amount, out, kept).value);
  }

  /** What an input and an output do to the pool: the protocol gets its fraction of the fee, rounded
      down, and the reserves all the rest of the input. */
  predicate Traded(s: PoolState, s': PoolState, inIdx: nat, amount: nat, out: nat, kept: nat)
    requires inIdx < 2
  {
    var cut := kept * s.protocolFraction / FEE_MULTIPLIER;
    && s'.reserves[inIdx] == s.reserves[inIdx] + amount - cut && s'.reserves[1 - inIdx] == s.reserves[1 - inIdx] - out
    && s'.fees[inIdx] == s.fees[inIdx] + cut && s'.fees[1 - inIdx] == s.fees[1 - inIdx]
  }

  /** A swap pays the most its input net of the fee buys without lowering the product of reserves. */
  lemma SwapPaysMost(cfg: PoolConfig, s: PoolState, ledger: nat, inIdx: nat, outIdx: nat, amount: nat, outMin: nat)
    requires Swap(cfg, s, ledger, inIdx, outIdx, amount, outMin).Ok?
    ensures inIdx < 2 && outIdx == 1 - inIdx && Sync(cfg, s, ledger).Ok?
    ensures var (s', r) := Swap(cfg, s, ledger, inIdx, outIdx, amount, outMin).value;
      var s1, net := Sync(cfg, s, ledger).value, NetOfFee(amount, cfg.fee);
      && IsOutput(net, s1.reserves[inIdx], s1.reserves[outIdx], r.number)
      && net <= amount && Traded(s1, s', inIdx, amount, r.number, amount - net)
  {
    SwapSettles(cfg, s, ledger, inIdx, outIdx, amount, outMin);
    var s1 := Sync(cfg, s, ledger).value;
    var (out, kept) := AmountOut(amount, s1.reserves[inIdx], s1.reserves[outIdx], cfg.fee).value;
    AmountOutKeepsProduct(amount, s1.reserves[inIdx], s1.reserves[outIdx], cfg.fee);
    AmountOutIsMost(amount, s1.reserves[inIdx], s1.reserves[outIdx], cfg.fee);
    hide Sync, AmountOut, Settle, Swap, NetOfFee, IsOutput;
    SettleParts(cfg, Paid(s1, inIdx, amount), inIdx, amount, out, kept);
  }

  /** An exact-output swap takes the least input that pays for its output. */
  lemma SwapStrictTakesLeast(cfg: PoolConfig, s: PoolState, ledger: nat, inIdx: nat, outIdx: nat, out: nat, inMax: nat)
    requires SwapStrictReceive(cfg, s, ledger, inIdx, outIdx, out, inMax).Ok?
    ensures inIdx < 2 && outIdx == 1 - inIdx && Sync(cfg, s, ledger).Ok?
    ensures var (s', r) := SwapStrictReceive(cfg, s, ledger, inIdx, outIdx, out, inMax).value;
      var s1 := Sync(cfg, s, ledger).value;
      var (sell, buy) := (s1.reserves[inIdx], s1.reserves[outIdx]);
      && out < buy && NetNeeded(out, sell, buy) <= r.number && IsInput(r.number, sell, buy, out, cfg.fee)
      && Traded(s1, s', inIdx, r.number, out, r.number - NetNeeded(out, sell, buy))
  {
    StrictSwapSettles(cfg, s, ledger, inIdx, outIdx, out, inMax);
    var s1 := Sync(cfg, s, ledger).value;
    var (amount, kept) := AmountIn(out, s1.reserves[inIdx], s1.reserves[outIdx], cfg.fee).value;
    AmountInKeepsProduct(out, s1.reserves[inIdx], s1.reserves[outIdx], cfg.fee);
    AmountInIsLeast(out, s1.reserves[inIdx], s1.reserves[outIdx], cfg.fee);
    hide Sync, AmountIn, Settle, SwapStrictReceive, NetOfFee, NetNeeded, IsInput;
    SettleParts(cfg, Paid(s1, inIdx, amount), inIdx, amount, out, kept);
  }

  // --------------------------------------------------------------------- withdraw

  /** A proportional payout leaves at least the proportion of the shares that stay. */
  lemma PayoutLeaves(reserve: nat, shares: nat, burned: nat)
    requires 0 < shares && burned <= shares
    ensures var out := reserve * burned / shares;
      && out <= reserve
      && (reserve - out) * shares >= reserve * (shares - burned)
      && (burned == shares ==> out == reserve)
      && (burned < shares && reserve > 0 ==> out < reserve)
  {
    var out := reserve * burned / shares;
    FloorBounds(reserve * burned, shares);
    MulMono(burned, shares, reserve);
    FloorGalois(reserve, reserve * burned, shares);
    FloorGalois(reserve + 1, reserve * burned, shares);
    assert (reserve + 1) * shares == reserve * shares + shares;
    assert (reserve - out) * shares == reserve * shares - out * shares;
    assert reserve * (shares - burned) == reserve * shares - reserve * burned;
    if burned < shares && reserve > 0 {
      assert reserve * (shares - burned) > 0;
    }
  }

  lemma WithdrawParts(cfg: PoolConfig, s: PoolState, ledger: nat, shares: nat, min: seq<nat>)
    requires Inv(s) && Withdraw(cfg, s, ledger, shares, min).Ok?
    ensures var (s', r) := Withdraw(cfg, s, ledger, shares, min).value;
      var s1 := Sync(cfg, s, ledger).value;
      && 0 < s1.shares && s'.shares == s1.shares - shares >= 0 && s'.syncLedger == ledger
      && s'.fees == s1.fees && s'.protocolFraction == s1.protocolFraction
      && forall i | 0 <= i < 2 ::
           && r.amounts[i] == s1.reserves[i] * shares / s1.shares <= s1.reserves[i]
           && s'.reserves[i] == s1.reserves[i] - r.amounts[i] && s'.balances[i] == s1.balances[i] - r.amounts[i]
  {
    SyncKeeps(cfg, s, ledger);
    var s1 := Sync(cfg, s, ledger).value;
    PayoutLeaves(s1.reserves[0], s1.shares, shares);
    PayoutLeaves(s1.reserves[1], s1.shares, shares);
    hide Sync, Inv;
    var (s', r) := Withdraw(cfg, s, ledger, shares, min).value;
    assert r.amounts[0] == s1.reserves[0] * shares / s1.shares;
    assert r.amounts[1] == s1.reserves[1] * shares / s1.shares;
  }

  lemma WithdrawKeeps(cfg: PoolConfig, s: PoolState, ledger: nat, shares: nat, min: seq<nat>)
    requires Inv(s) && Withdraw(cfg, s, ledger, shares, min).Ok?
    ensures var (s', r) := Withdraw(cfg, s, ledger, shares, min).value;
      var s1 := Sync(cfg, s, ledger).value;
      && Inv(s') && Grew(s, s') && s.shares > 0
      && (forall i | 0 <= i < 2 :: Surplus(s', i) == Surplus(s1, i))
  {
    SyncKeeps(cfg, s, ledger);
    WithdrawParts(cfg, s, ledger, shares, min);
    var s1 := Sync(cfg, s, ledger).value;
    var s' := Withdraw(cfg, s, ledger, shares, min).value.0;
    hide Sync, Withdraw;
    PayoutLeaves(s1.reserves[0], s1.shares, shares);
    PayoutLeaves(s1.reserves[1], s1.shares, shares);
    EachGrew(s1.reserves[0], s1.reserves[1], s1.shares, s'.reserves[0], s'.reserves[1], s'.shares);
    GrewKeepsBacking(s1, s');
    GrewIsTransitive(s, s1, s');
  }

  /** The most a coin comes back short after a deposit: less than one token, what one share is worth
      in it and what one token of the other coin is worth in it; nothing from an empty pool. */
  predicate ShortBy(put: nat, back: int, reserve: nat, other: nat, shares: nat, total: nat)
  {
    if shares == 0 then back == put
    else back <= put && (put - back - 1) * total * other < reserve * (other + shares)
  }

  /** Withdrawing at once the shares a deposit minted succeeds and returns what was put in, coin by
      coin, whatever the pool held before: never more, and short of it by that little. */
  lemma DepositThenWithdraw(cfg: PoolConfig, s: PoolState, ledger: nat, desired: seq<nat>, minShares: nat)
    requires Inv(s) && Deposit(cfg, s, ledger, desired, minShares).Ok?
    ensures var (s', put) := Deposit(cfg, s, ledger, desired, minShares).value;
      var s1 := Sync(cfg, s, ledger).value;
      var back := Withdraw(cfg, s', ledger, put.number, [0, 0]);
      && back.Ok? && back.value.0.shares == s.shares
      && forall i | 0 <= i < 2 ::
           ShortBy(put.amounts[i], back.value.1.amounts[i], s1.reserves[i], s1.reserves[1 - i], s1.shares, s'.shares)
  {
    SyncKeeps(cfg, s, ledger);
    DepositParts(cfg, s, ledger, desired, minShares);
    DepositKeeps(cfg, s, ledger, desired, minShares);
    var (s', put) := Deposit(cfg, s, ledger, desired, minShares).value;
    assert Inv(s') && s'.shares > 0;
    hide Deposit, Sync, IsTotal, ShortBy, Inv, TakesRatio, Withdraw, Grew, Surplus;
    BackFrom(cfg, Sync(cfg, s, ledger).value, s', ledger, desired, put);
  }

  lemma BackFrom(cfg: PoolConfig, s1: PoolState, s': PoolState, ledger: nat, desired: seq<nat>, put: Receipt)
    requires Inv(s1) && Inv(s') && s'.shares > 0 && |desired| == 2 && s'.shares == s1.shares + put.number && s'.syncLedger == ledger
    requires forall i | 0 <= i < 2 :: s'.reserves[i] == s1.reserves[i] + put.amounts[i]
    requires TakesRatio(put.amounts[0], put.amounts[1], desired, s1.reserves) && IsTotal(s1.reserves, s'.reserves, s1.shares, s'.shares)
    ensures var back := Withdraw(cfg, s', ledger, put.number, [0, 0]);
      && back.Ok? && back.value.0.shares == s1.shares
      && forall i | 0 <= i < 2 ::
           ShortBy(put.amounts[i], back.value.1.amounts[i], s1.reserves[i], s1.reserves[1 - i], s1.shares, s'.shares)
  {
    hide IsTotal, ShortBy, Inv, TakesRatio, Withdraw;
    InvParts(s1);
    InvParts(s');
    assert s'.reserves == [s1.reserves[0] + put.amounts[0], s1.reserves[1] + put.amounts[1]];
    BackIsShort(s1.reserves, s'.reserves, s1.shares, s'.shares, put.amounts, desired, 0);
    BackIsShort(s1.reserves, s'.reserves, s1.shares, s'.shares, put.amounts, desired, 1);
    assert Sync(cfg, s', ledger) == Ok(s');
    hide Sync;
    WithdrawSucceeds(cfg, s', ledger, put.number);
  }

  lemma InvParts(s: PoolState)
    requires Inv(s)
    ensures s.shares <= TOKEN_MAX && forall i | 0 <= i < 2 :: s.reserves[i] <= s.balances[i] <= TOKEN_MAX
    ensures if s.shares > 0 then s.reserves[0] > 0 && s.reserves[1] > 0 else s.reserves == [0, 0]
  {
    SharesFit(s);
  }

  lemma SharesFit(s: PoolState)
    requires Inv(s)
    ensures s.shares <= TOKEN_MAX
  {
    MulMono2(s.reserves[0], s.reserves[1], TOKEN_MAX, TOKEN_MAX);
    if s.shares > TOKEN_MAX {
      MulMono2(TOKEN_MAX + 1, TOKEN_MAX + 1, s.shares, s.shares);
    }
  }

  lemma BackIsShort(before: Pair, after: Pair, shares: nat, total: nat, put: Pair, desired: seq<nat>, i: nat)
    requires i < 2 && total >= shares && total > 0 && |desired| == 2
    requires after == [before[0] + put[0], before[1] + put[1]] && IsTotal(before, after, shares, total)
    requires TakesRatio(put[0], put[1], desired, before)
    requires if shares > 0 then before[0] > 0 && before[1] > 0 else before == [0, 0]
    ensures var back := after[i] * (total - shares) / total;
      back <= put[i] && ShortBy(put[i], back, before[i], before[1 - i], shares, total)
  {
    hide IsTotal, TakesRatio, ShortBy, Over;
    var back := after[i] * (total - shares) / total;
    if shares > 0 {
      TotalIsProportional(before, after, shares, total);
      OverIs(before[0], put[0], shares, total);
      OverIs(before[1], put[1], shares, total);
      assert before == [before[0], before[1]];
      OneBinds(before[0], before[1], put[0], put[1], desired, shares, total);
      Shortfall(before[i], before[1 - i], put[i], shares, total, back);
    } else {
      AllComesBack(put[i], total, back, before[i], before[1 - i]);
    }
  }

  lemma AllComesBack(put: nat, total: nat, back: int, reserve: nat, other: nat)
    requires total > 0 && back == put * total / total
    ensures back == put && ShortBy(put, back, reserve, other, 0, total)
  {
    FloorGalois(put, put * total, total);
    FloorGalois(put + 1, put * total, total);
  }

  lemma GiveBack(reserve: nat, put: nat, shares: nat, total: nat)
    requires shares <= total && total > 0
    requires (reserve + put) * shares >= reserve * total
    ensures 0 <= (reserve + put) * (total - shares) / total <= put
  {
    var all: nat := reserve + put;
    assert all * (total - shares) == all * total - all * shares;
    assert all * total == reserve * total + put * total;
    assert all * (total - shares) >= 0;
    FloorGalois(0, all * (total - shares), total);
    RoundedAtMost(all * (total - shares), total, false, put);
  }

  lemma OneBinds(a: nat, b: nat, putA: nat, putB: nat, desired: seq<nat>, shares: nat, total: nat)
    requires a > 0 && b > 0 && shares > 0 && |desired| == 2 && TakesRatio(putA, putB, desired, [a, b])
    requires Over(a, putA, shares, total) < a || Over(b, putB, shares, total) < b
    ensures Over(a, putA, shares, total) * b < a * (b + shares)
    ensures Over(b, putB, shares, total) * a < b * (a + shares)
  {
    hide Over;
    if putB * a <= putA * b < (putB + 1) * a {
      RoundedBinds(a, b, putA, putB, shares, total);
    } else {
      RoundedBinds(b, a, putB, putA, shares, total);
    }
  }

  /** By how much a reserve after a deposit exceeds its proportion to the new total. */
  function Over(reserve: int, put: int, shares: int, total: int): int
  {
    (reserve + put) * shares - reserve * total
  }

  /** The coin that was rounded to the ratio decides the total; the other exceeds its proportion by
      what that rounding left out. */
  lemma RoundedBinds(a: nat, b: nat, putA: nat, putB: nat, shares: nat, total: nat)
    requires a > 0 && b > 0 && shares > 0 && putB * a <= putA * b < (putB + 1) * a
    requires Over(a, putA, shares, total) < a || Over(b, putB, shares, total) < b
    ensures Over(b, putB, shares, total) < b
    ensures Over(a, putA, shares, total) * b < a * (b + shares)
    ensures Over(b, putB, shares, total) * a < b * (a + shares)
  {
    hide Over;
    var x, y := Over(a, putA, shares, total), Over(b, putB, shares, total);
    var left := putA * b - putB * a;
    OverTimes(a, b, putA, putB, shares, total);
    assert (putB + 1) * a == putB * a + a;
    MulMono(0, left, shares);
    MulMono(left, a, shares);
    Binds(x, y, a, b, shares * left);
    assert a * shares == shares * a && 0 <= b * shares;
    assert a * (b + shares) == a * b + a * shares;
    assert b * (a + shares) == a * b + b * shares;
  }

  lemma Binds(x: int, y: int, a: nat, b: nat, gap: nat)
    requires a > 0 && b > 0 && y * a == x * b - gap && (x < a || y < b)
    ensures y < b && y * a < a * b && x * b < a * b + gap
  {
    if x < a {
      Below(x, a, b);
      MulCancelStrict(y, b, a);
    }
    Below(y, b, a);
  }

  lemma Below(x: int, a: nat, b: nat)
    requires x < a && b > 0
    ensures x * b < a * b
  {
    MulMono(x + 1, a, b);
    assert (x + 1) * b == x * b + b;
  }

  lemma MulCancelStrict(y: int, b: int, a: int)
    requires a > 0 && y * a < b * a
    ensures y < b
  {
    if y >= b {
      MulMono(b, y, a);
    }
  }

  lemma OverTimes(a: int, b: int, putA: int, putB: int, shares: int, total: int)
    ensures Over(b, putB, shares, total) * a == Over(a, putA, shares, total) * b - shares * (putA * b - putB * a)
  {
    assert (b + putB) * shares * a == b * shares * a + putB * a * shares;
    assert (a + putA) * shares * b == a * shares * b + putA * b * shares;
    assert b * total * a == a * total * b;
  }

  lemma OverIs(reserve: nat, put: nat, shares: nat, total: nat)
    ensures (reserve + put) * shares >= reserve * total <==> Over(reserve, put, shares, total) >= 0
    ensures (reserve + put) * shares < reserve * (total + 1) <==> Over(reserve, put, shares, total) < reserve
  {
    assert reserve * (total + 1) == reserve * total + reserve;
  }

  lemma Shortfall(reserve: nat, other: nat, put: nat, shares: nat, total: nat, back: int)
    requires 0 < shares <= total && other > 0
    requires 0 <= Over(reserve, put, shares, total) && Over(reserve, put, shares, total) * other < reserve * (other + shares)
    requires back == (reserve + put) * (total - shares) / total
    ensures 0 <= back <= put && ShortBy(put, back, reserve, other, shares, total)
  {
    hide *;
    OverIs(reserve, put, shares, total);
    GiveBack(reserve, put, shares, total);
    Loss(reserve, put, shares, total, back);
    MulMono((put - back - 1) * total, Over(reserve, put, shares, total), other);
    IsShort(put, back, reserve, other, shares, total);
  }

  lemma IsShort(put: nat, back: int, reserve: nat, other: nat, shares: nat, total: nat)
    requires shares > 0 && back <= put && (put - back - 1) * total * other < reserve * (other + shares)
    ensures ShortBy(put, back, reserve, other, shares, total)
  {
  }

  lemma Loss(reserve: nat, put: nat, shares: nat, total: nat, back: int)
    requires 0 < shares <= total && back == (reserve + put) * (total - shares) / total
    ensures (put - back - 1) * total < Over(reserve, put, shares, total)
  {
    var all: nat := reserve + put;
    FloorBounds(all * (total - shares), total);
    assert all * (total - shares) == all * total - all * shares;
    assert all * total == reserve * total + put * total;
    assert (put - back - 1) * total == put * total - back * total - total;
  }

  lemma WithdrawSucceeds(cfg: PoolConfig, s: PoolState, ledger: nat, shares: nat)
    requires Sync(cfg, s, ledger) == Ok(s) && shares <= s.shares < TWO_128 && 0 < s.shares
    requires forall i | 0 <= i < 2 :: s.reserves[i] <= s.balances[i] <= TOKEN_MAX
    ensures var r := Withdraw(cfg, s, ledger, shares, [0, 0]);
      && r.Ok? && r.value.0.shares == s.shares - shares
      && forall i | 0 <= i < 2 :: r.value.1.amounts[i] == s.reserves[i] * shares / s.shares
  {
    PayoutLeaves(s.reserves[0], s.shares, shares);
    PayoutLeaves(s.reserves[1], s.shares, shares);
    hide Sync;
  }
}
