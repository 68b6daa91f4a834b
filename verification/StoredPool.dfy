/** The concentrated pool over its storage: deposits, withdrawals, fee claims and swaps change ticks,
    index, bounds, counters, positions and reserves exactly as the books say
    (liquidity_pool_concentrated/src/contract/extensions.rs, internal.rs,
    liquidity_pool_interface.rs). */
module StoredPool {
  import opened Words
  import opened TickMath
  import opened TickAccuracy
  import opened ChunkStore
  import opened TickIndex
  import opened TickMaintenance
  import opened TickUpdate
  import opened LiquidityLedger
  import opened PositionWorth
  import opened SwapRounds
  import opened SwapLoop
  import opened Solvency
  import opened SolvencyRuns
  import Minting
  import Steps = SwapStep
  import opened StoredLedger
  import opened StoredBooks

  /** The pool's storage, with the books it stands for. */
  class ConcentratedPool {
    const store: TickStorage
    const spacing: int
    const fee: U128
    var protocolFraction: nat
    var price: U256
    var tick: int
    var liquidity: U128
    var growth: Counters
    var positions: seq<StoredPosition>
    var reserves: Amounts
    var balances: Amounts
    var protocol: Amounts
    ghost var books: Books
    ghost var history: seq<Event>

    constructor (spacing: int, fee: U128)
      requires spacing > 0 && fee < Steps.FEE_DENOMINATOR
      ensures IsEmptyPool(books) && Valid() && fresh(store)
    {
      hide IsEmptyPool, Solvent, TicksOk, Mirrors, SqrtRatioAtTick, EmptyBooks;
      this.spacing, this.fee, protocolFraction := spacing, fee, 0;
      store := new TickStorage();
      price, tick, liquidity, growth, positions := SqrtRatioAtTick(0), 0, 0, [0, 0], [];
      reserves, balances, protocol := [0, 0], [0, 0], [0, 0];
      books, history := EmptyBooks(spacing), [];
      new;
      EmptyStore(spacing);
      EmptyBooksAreEmpty(spacing);
      EmptyBooksAre(spacing);
      EmptyTicks(store, spacing);
    }

    /** Storage shows the ledger and what positions are owed. */
    ghost predicate ShowsLedger(s: Ledger, owed: seq<Amounts>)
      reads this, store
    {
      && TicksOk(store, spacing) && Mirrors(store.chunks, s) && s.spacing == spacing
      && tick == s.tick && liquidity == s.active && growth == s.growth
      && |owed| == |s.positions| && positions == StoredAll(s.positions, owed)
    }

    ghost predicate Shows(b: Books)
      reads this, store
    {
      && ShowsLedger(b.ledger, b.owed) && price == b.price
      && reserves == b.reserves && balances == b.balances && protocol == b.protocol
    }

    /** The books are where their history led from an empty pool. */
    ghost predicate Reached()
      reads `books, `history
    {
      spacing > 0 && books == Run(EmptyBooks(spacing), history)
    }

    /** One more event of the history. */
    ghost method Record(e: Event)
      requires Reached()
      modifies `books, `history
      ensures Reached() && history == old(history) + [e] && Shaped(old(books)) && books == Apply(old(books), e)
    {
      hide Run, EmptyBooks, Outcome;
      ShapedStart(spacing);
      RunGoesOn(EmptyBooks(spacing), history, e);
      books, history := Apply(books, e), history + [e];
    }

    /** Storage shows the books of a solvent pool. */
    ghost predicate Valid()
      reads this, store
    {
      && Shows(books) && Solvent(books) && Reached()
      && fee < Steps.FEE_DENOMINATOR && protocolFraction <= Steps.FEE_DENOMINATOR
    }

    /** The call was this event: done or refused, and never for lack of reserves. */
    ghost predicate Was(before: Books, e: Event, ok: bool)
      reads this
    {
      && Shaped(before) && (ok <==> Outcome(before, e).Done?) && !Outcome(before, e).ShortOfReserves?
      && books == Apply(before, e)
    }

    /** What `deposit_position` buys and charges, or a panic. */
    method DepositTerms(i: nat, desired0: U128, desired1: U128, minLiquidity: U128) returns (ok: bool, bought: U128, paid: (nat, nat))
      requires Valid() && i < |books.owed| && Shaped(books)
      ensures !ok ==> Deposited(books, i, desired0, desired1, minLiquidity) == Refused
      ensures ok ==>
        var s := books.ledger;
        Deposited(books, i, desired0, desired1, minLiquidity) ==
          match Deposit(s, i, bought)
          case None => Refused
          case Some(s') => Done(PaidIn(books, paid, s', Credit(books.owed, i, s, s')))
    {
      hide Reached, LedgerOk, Solvent, TicksOk, Mirrors, P, SqrtRatioAtTick, StoredAll, Credit, Deposit,
        Minting.MaxLiquidity, Minting.AmountsForLiquidity;
      ok, bought, paid := false, 0, (0, 0);
      var p := positions[i];
      StoredAt(books.ledger.positions, books.owed, i);
      SolventPosition(books, i);
      PriceIs(p.lower);
      PriceIs(p.upper);
      var lowerPrice, upperPrice := SqrtRatioAtTick(p.lower), SqrtRatioAtTick(p.upper);
      var liquidity := Minting.MaxLiquidity(price, lowerPrice, upperPrice, desired0, desired1);
      if liquidity.None? || liquidity.value == 0 || liquidity.value < minLiquidity
        || balances[0] + desired0 > I128_MAX || balances[1] + desired1 > I128_MAX {
        return;
      }
      var charged := Minting.AmountsForLiquidity(price, lowerPrice, upperPrice, liquidity.value, true);
      if charged.None? {
        return;
      }
      return true, liquidity.value, (LowerOf(charged.value.0, desired0), LowerOf(charged.value.1, desired1));
    }

    /** `deposit_position` for a position the sender has. */
    method DepositPosition(i: nat, desired0: U128, desired1: U128, minLiquidity: U128) returns (ok: bool)
      requires Valid()
      modifies this, store
      ensures Valid() && Was(old(books), AddLiquidity(i, desired0, desired1, minLiquidity), ok)
    {
      ghost var b, e := books, AddLiquidity(i, desired0, desired1, minLiquidity);
      hide Reached, Outcome, LedgerOk, Solvent, IndexOk, LowestIs, HighestIs, Mirrors, StoredAll, Credit, Deposit, Deposited;
      OperationSolvent(b, e);
      OutcomeOfDeposit(b, i, desired0, desired1, minLiquidity);
      ok := false;
      if i >= |positions| {
        return;
      }
      var bought, paid;
      ok, bought, paid := DepositTerms(i, desired0, desired1, minLiquidity);
      if !ok {
        return;
      }
      StoredAt(b.ledger.positions, b.owed, i);
      SolventPosition(b, i);
      var p', liquidity';
      ok, p', liquidity' := StoredDeposit(store, positions[i], bought, liquidity, spacing, tick, growth, b.ledger, b.owed, i);
      if ok {
        positions, liquidity := positions[i := p'], liquidity';
        reserves := [reserves[0] + paid.0, reserves[1] + paid.1];
        balances := [balances[0] + paid.0, balances[1] + paid.1];
        ShownOne(b.ledger, Deposit(b.ledger, i, bought).value, b.owed, i);
        Record(e);
      }
    }

    /** The checks `withdraw_position` makes before it writes: the settled position and the totals
        to pay, or None for a panic. */
    method WithdrawTotals(i: nat, amount: U128, min: (nat, nat)) returns (r: Option<StoredPosition>, total: (nat, nat))
      requires Valid() && i < |books.owed| && Shaped(books)
      ensures r.None? ==> !Withdrawn(books, i, amount, min).Done?
      ensures r.Some? ==>
        var s, settled := books.ledger, Accrue(books.ledger, i);
        && settled.Some? && |settled.value.positions| == |books.owed|
        && r.value == StoredOne(settled.value.positions[i], Credit(books.owed, i, s, settled.value)[i])
        && amount <= I128_MAX && amount <= r.value.liquidity
        && LegalTick(r.value.lower, spacing) && LegalTick(r.value.upper, spacing)
        && (Withdraw(s, i, amount).None? ==> !Withdrawn(books, i, amount, min).Done?)
        && (Withdraw(s, i, amount).Some? ==>
              var s' := Withdraw(s, i, amount).value;
              CanPay(books, total) && Withdrawn(books, i, amount, min) == Done(AfterPayout(books, s', i, total)))
    {
      ghost var b := books;
      hide Reached, LedgerOk, Solvent, IndexOk, LowestIs, HighestIs, Mirrors, P, SqrtRatioAtTick, Minting.AmountsForLiquidity, StoredAll, Credit,
        Withdraw, Accrue, Payout;
      r, total := None, (0, 0);
      var p := positions[i];
      StoredAt(b.ledger.positions, b.owed, i);
      SolventPosition(b, i);
      PayoutIs(b, i, amount);
      if amount == 0 || amount > I128_MAX {
        return;
      }
      var settled := AccrueStored(store, p, spacing, tick, growth, b.ledger, b.owed, i);
      if settled.None? {
        return;
      }
      AccrueHoldings(b.ledger, i);
      if settled.value.liquidity < amount {
        return;
      }
      PriceIs(p.lower);
      PriceIs(p.upper);
      var paid := Minting.AmountsForLiquidity(price, SqrtRatioAtTick(p.lower), SqrtRatioAtTick(p.upper), amount, false);
      if paid.None? {
        return;
      }
      total := (paid.value.0 + settled.value.owed[0], paid.value.1 + settled.value.owed[1]);
      if total.0 >= TWO_128 || total.1 >= TWO_128 || total.0 < min.0 || total.1 < min.1
        || reserves[0] < total.0 || reserves[1] < total.1 || balances[0] < total.0 || balances[1] < total.1 {
        return;
      }
      r := settled;
    }

    /** Position, liquidity in range, reserves and balances after a payout. */
    method WritePayout(i: nat, p: StoredPosition, liquidity': U128, total: (nat, nat), ghost b: Books, ghost s': Ledger)
      requires TicksOk(store, spacing) && Mirrors(store.chunks, s') && s'.spacing == spacing && liquidity' == s'.active
      requires i < |b.owed| == |b.ledger.positions| && ChangesOne(b.ledger, s', i) && CanPay(b, total)
      requires p == StoredOne(s'.positions[i], Credit(b.owed, i, b.ledger, s')[i])
      requires tick == b.ledger.tick && growth == b.ledger.growth && price == b.price && protocol == b.protocol
      requires positions == StoredAll(b.ledger.positions, b.owed) && reserves == b.reserves && balances == b.balances
      modifies `positions, `liquidity, `reserves, `balances
      ensures Shows(AfterPayout(b, s', i, total))
    {
      hide TicksOk, Mirrors, StoredAll, Credit;
      positions, liquidity := positions[i := p.(owed := [0, 0])], liquidity';
      reserves := [reserves[0] - total.0, reserves[1] - total.1];
      balances := [balances[0] - total.0, balances[1] - total.1];
      ShownSettled(b.ledger, s', b.owed, i, [0, 0]);
    }

    /** `withdraw_position`: liquidity and all unpaid fees. */
    method WithdrawPosition(i: nat, amount: U128, min: (nat, nat)) returns (ok: bool)
      requires Valid()
      modifies this, store
      ensures Valid() && Was(old(books), RemoveLiquidity(i, amount, min), ok)
    {
      ghost var b, e := books, RemoveLiquidity(i, amount, min);
      hide Reached, Outcome, LedgerOk, Solvent, IndexOk, LowestIs, HighestIs, Mirrors, StoredAll, Credit, Withdraw, Accrue, Withdrawn, AfterPayout;
      OperationSolvent(b, e);
      OutcomeOfWithdraw(b, i, amount, min);
      ok := false;
      if i >= |positions| {
        return;
      }
      var settled, total := WithdrawTotals(i, amount, min);
      if settled.None? {
        return;
      }
      var p', liquidity';
      ok, p', liquidity' := StoredWithdraw(store, settled.value, amount, liquidity, spacing, tick, growth, b.ledger, b.owed, i);
      if ok {
        WritePayout(i, p', liquidity', total, b, Withdraw(b.ledger, i, amount).value);
        Record(e);
      }
    }

    /** `collect_internal`: as much of the unpaid fees as asked for. */
    method ClaimPositionFees(i: nat, wanted: (nat, nat)) returns (ok: bool)
      requires Valid()
      modifies this
      ensures Valid() && Was(old(books), ClaimFees(i, wanted), ok)
    {
      ghost var b, e := books, ClaimFees(i, wanted);
      hide Reached, Outcome, LedgerOk, Solvent, TicksOk, Mirrors, StoredAll, Credit, Accrue;
      OperationSolvent(b, e);
      OutcomeOfClaim(b, i, wanted);
      ok := false;
      if i >= |positions| {
        return;
      }
      var p := positions[i];
      StoredAt(b.ledger.positions, b.owed, i);
      SolventPosition(b, i);
      var settled := AccrueStored(store, p, spacing, tick, growth, b.ledger, b.owed, i);
      if settled.None? {
        return;
      }
      var owed := settled.value.owed;
      var pay := (LowerOf(owed[0], wanted.0), LowerOf(owed[1], wanted.1));
      if reserves[0] < pay.0 || reserves[1] < pay.1 || balances[0] < pay.0 || balances[1] < pay.1 {
        return;
      }
      var left := [owed[0] - pay.0, owed[1] - pay.1];
      positions := positions[i := settled.value.(owed := left)];
      reserves := [reserves[0] - pay.0, reserves[1] - pay.1];
      balances := [balances[0] - pay.0, balances[1] - pay.1];
      ok := true;
      ClaimShown(store.chunks, b, i, left);
      Record(e);
    }

    /** `claim_protocol_fees`. */
    method ClaimProtocolShare() returns (ok: bool)
      requires Valid()
      modifies this
      ensures Valid() && Was(old(books), ClaimProtocolFees, ok)
    {
      ghost var b := books;
      hide Reached, Outcome, LedgerOk, Solvent, TicksOk, Mirrors, StoredAll;
      ProtocolSolvent(b);
      ShapedBooks(b);
      OutcomeOfProtocolClaim(b);
      if balances[0] < protocol[0] || balances[1] < protocol[1] {
        return false;
      }
      balances := [balances[0] - protocol[0], balances[1] - protocol[1]];
      protocol := [0, 0];
      Record(ClaimProtocolFees);
      return true;
    }

    /** A position the sender does not have yet, still without liquidity. */
    method CreatePosition(lower: int, upper: int) returns (ok: bool)
      requires Valid()
      modifies this
      ensures Valid() && Was(old(books), OpenPosition(lower, upper), ok)
    {
      ghost var b := books;
      hide Reached, Outcome, LedgerOk, Solvent, TicksOk, Mirrors;
      ShapedBooks(b);
      OutcomeOfOpen(b, lower, upper);
      if lower >= upper || !LegalTick(lower, spacing) || !LegalTick(upper, spacing) {
        return false;
      }
      OpenSolvent(b, lower, upper);
      positions := positions + [StoredPosition(lower, upper, 0, [0, 0], [0, 0])];
      Record(OpenPosition(lower, upper));
      MirrorsTicks(store.chunks, b.ledger, books.ledger);
      return true;
    }

    /** The part of an exact input that was not swapped. */
    method SpreadSurplus(last: Last, used: U128, maxIn: U128, o: Order, ghost b: Books, ghost e: Cursor, ghost c: SwapCall)
      requires Shows(b) && b.ledger == e.s && last == e.last && (last.crossed ==> LegalTick(last.tick, spacing))
      requires o == c.o && o.protocolFraction <= Steps.FEE_DENOMINATOR && used <= maxIn
      requires o.exactInput ==> Unswapped(e, c) == maxIn - used
      modifies `growth, `reserves, `balances, `protocol, store`chunks
      ensures Shows(WithSurplus(b, e, c))
    {
      hide IndexOk, LowestIs, HighestIs, Mirrors, StoredAll, LpPart, Unswapped;
      if !o.exactInput {
        NothingKept(e, c);
        return;
      }
      var k, unswapped := InToken(o.zeroForOne), maxIn - used;
      balances := balances[k := balances[k] + unswapped];
      if unswapped > 0 && last.liquidity > 0 {
        var lp := LpFee(unswapped, o);
        growth := SpreadStored(store, lp, last, o.zeroForOne, growth, spacing, b.ledger);
        reserves := reserves[k := reserves[k] + lp];
        protocol := protocol[k := protocol[k] + (unswapped - lp)];
        SpreadKeepsStored(b.ledger, k, lp, last, o.zeroForOne);
        SameStoredShown(b.ledger.positions, Spread(b.ledger, k, lp, last, o.zeroForOne).positions, b.owed);
      }
    }

    /** Price, counters, reserves and the protocol's fees after the loop, before the surplus. */
    method SettleSwap(r: SwapResult, growth': Counters, o: Order, ghost b: Books, ghost e: Cursor, ghost c: SwapCall)
      requires c.o == o && e.w.remaining <= c.amount && e.t.toProviders <= e.t.charged && r == Report(e, c.amount, false)
      requires TicksOk(store, spacing) && Mirrors(store.chunks, e.s) && growth' == e.s.growth && e.s.spacing == spacing
      requires e.w.tick == e.s.tick && e.w.liquidity == e.s.active
      requires |b.ledger.positions| == |b.owed| && SameStored(b.ledger.positions, e.s.positions)
      requires positions == StoredAll(b.ledger.positions, b.owed)
      requires reserves == b.reserves && balances == b.balances && protocol == b.protocol
      requires var (paidIn, paidOut) := Flows(e, c);
        && 0 <= paidOut <= b.reserves[OutToken(o.zeroForOne)] && paidOut <= b.balances[OutToken(o.zeroForOne)]
        && e.t.charged - e.t.toProviders <= paidIn
      modifies `price, `tick, `liquidity, `growth, `reserves, `balances, `protocol
      ensures Shows(SettledBooks(b, e, c))
    {
      hide TicksOk, Mirrors, StoredAll, SameStored;
      var i, out := InToken(o.zeroForOne), OutToken(o.zeroForOne);
      var paidIn := if o.exactInput then r.used else r.calculated;
      var paidOut := if o.exactInput then r.calculated else r.used;
      price, tick, liquidity, growth := r.price, r.tick, r.liquidity, growth';
      reserves := reserves[i := reserves[i] + paidIn - r.protocolCut][out := reserves[out] - paidOut];
      balances := balances[i := balances[i] + paidIn][out := balances[out] - paidOut];
      protocol := protocol[i := protocol[i] + r.protocolCut];
      SameStoredShown(b.ledger.positions, e.s.positions, b.owed);
    }

    ghost function CallWith(amount: U128, maxIn: U128, minOut: U128, o: Order): SwapCall
      reads store
    {
      SwapCall(store.chunks, if o.zeroForOne then store.minInitTick else store.maxInitTick, amount, maxIn, minOut, o)
    }

    /** The loop and the checks after it; a refused swap has written nothing. */
    method SwapChecked(amount: U128, maxIn: U128, minOut: U128, o: Order, ghost c: SwapCall)
      returns (r: Option<SwapResult>, growth': Counters)
      requires Valid() && o.spacing == spacing && c == CallWith(amount, maxIn, minOut, o) && IsSwap(books, c)
      requires o.protocolFraction <= Steps.FEE_DENOMINATOR
      modifies store`chunks
      ensures r.None? ==> store.chunks == old(store.chunks) && Swapped(books, c) == Refused
      ensures r.Some? ==> EndOf(books, c).Some? && !SwapRefused(books, EndOf(books, c).value, c)
      ensures r.Some? ==>
        var e := EndOf(books, c).value;
        && e.w.remaining <= amount && e.t.toProviders <= e.t.charged && r.value == Report(e, amount, false)
        && TicksOk(store, spacing) && Mirrors(store.chunks, e.s) && growth' == e.s.growth
    {
      hide Reached, LedgerOk, Solvent, IndexOk, LowestIs, HighestIs, Mirrors, StoredAll, IsSwap, Swapped, MaySwap, Swap,
        WithSurplus, SettledBooks;
      var saved := store.chunks;
      EndIs(books, c);
      r, growth' := SwapLoop.SwapLoop(store, price, tick, liquidity, amount, growth, o, false, books.ledger);
      if r.None? {
        return;
      }
      SwappedIs(books, c);
      var paidIn := if o.exactInput then r.value.used else r.value.calculated;
      var paidOut := if o.exactInput then r.value.calculated else r.value.used;
      var out := OutToken(o.zeroForOne);
      if (o.exactInput && r.value.used == 0) || paidIn > maxIn || paidOut < minOut
        || balances[InToken(o.zeroForOne)] + maxIn > I128_MAX || paidOut > I128_MAX
        || reserves[out] < paidOut || balances[out] < paidOut {
        store.chunks := saved;
        r := None;
      }
    }

    /** `swap_internal`, from a limit ahead of the price on. */
    method SwapInternal(amount: U128, maxIn: U128, minOut: U128, o: Order) returns (ok: bool, paidIn: U128, paidOut: U128)
      requires Valid() && o.fee == fee && o.spacing == spacing && o.protocolFraction == protocolFraction
      requires LimitAhead(price, o.limit, o.zeroForOne)
      modifies this, store`chunks
      ensures Shows(books) && Reached()
      ensures var c := old(CallWith(amount, maxIn, minOut, o));
        && IsSwap(old(books), c) && Was(old(books), SwapTokens(c), ok) && (SurplusPays(old(books), c) ==> Valid())
        && (ok ==> EndOf(old(books), c).Some? && Flows(EndOf(old(books), c).value, c) == (paidIn as int, paidOut as int))
        && (ok ==> 0 < paidIn <= maxIn && minOut <= paidOut && (!o.exactInput ==> paidOut == amount))
    {
      ghost var b, c := books, CallWith(amount, maxIn, minOut, o);
      hide Reached, Outcome, LedgerOk, Solvent, IndexOk, LowestIs, HighestIs, Mirrors, StoredAll, IsSwap, Swapped, EndOf,
        SurplusPays, WithSurplus, SettledBooks, SameStored, Unswapped;
      MayStart(store, b, amount, maxIn, minOut, o);
      ShapedBooks(b);
      OutcomeOfSwap(b, c);
      SwapKeepsSolvent(b, c);
      var r, growth' := SwapChecked(amount, maxIn, minOut, o, c);
      if r.None? {
        return false, 0, 0;
      }
      ghost var e := EndOf(b, c).value;
      SwappedIs(b, c);
      SwapKeepsTerms(b, c);
      paidIn := if o.exactInput then r.value.used else r.value.calculated;
      paidOut := if o.exactInput then r.value.calculated else r.value.used;
      SwapKeepsStored(b, c);
      CrossedIsLegal(b, c);
      SettledSurplus(b, e, c);
      SettleSwap(r.value, growth', o, b, e, c);
      SpreadSurplus(r.value.last, paidIn, maxIn, o, SettledBooks(b, e, c), e, c);
      Record(SwapTokens(c));
      ok := true;
    }

    /** What a public entry asks of the pool as it is. */
    ghost function CallOf(e: Entry, zeroForOne: bool): Option<SwapCall>
      reads this, store
    {
      PublicCall(e, store.chunks, if zeroForOne then store.minInitTick else store.maxInitTick, fee, spacing, zeroForOne, protocolFraction)
    }

    /** `swap` and `swap_strict_receive`: the event their call stands for, with the pool solvent
        after it whenever its surplus pays, and always when the amount out is representable and
        the spacing does not divide the last tick. */
    method PublicSwap(e: Entry, zeroForOne: bool) returns (ok: bool, paidIn: U128, paidOut: U128)
      requires Valid()
      modifies this, store`chunks
      ensures Shows(books) && Reached()
      ensures match old(CallOf(e, zeroForOne))
        case None => !ok && Valid() && books == old(books)
        case Some(c) =>
          && Was(old(books), SwapTokens(c), ok) && (Pays(old(books), SwapTokens(c)) ==> Valid())
          && (ok ==> IsSwap(old(books), c) && EndOf(old(books), c).Some?
                     && Flows(EndOf(old(books), c).value, c) == (paidIn as int, paidOut as int))
      ensures ok ==> paidIn > 0 && match e
        case SellExact(inAmount, outMin) => paidIn <= inAmount && outMin <= paidOut
        case BuyExact(outAmount, inMax) => paidIn <= inMax && (Representable(e) ==> paidOut == outAmount)
      ensures Representable(e) && MAX_TICK % spacing != 0 ==> Valid()
    {
      hide Reached, Outcome, LedgerOk, Solvent, TicksOk, Mirrors, StoredAll, IsSwap, SurplusPays, EndOf;
      ghost var b := books;
      ShapedBooks(b);
      var specified := Specified(e);
      if specified.None? {
        return false, 0, 0;
      }
      var (amount, maxIn, minOut) := specified.value;
      ghost var c := CallOf(e, zeroForOne).value;
      var limit := ValidatedLimit(price, 0, zeroForOne);
      if limit.None? {
        NoRoomIsRefused(b, c);
        return false, 0, 0;
      }
      ok, paidIn, paidOut := SwapInternal(if amount < 0 then -amount else amount, maxIn, minOut,
                         Order(fee, limit.value, spacing, zeroForOne, amount > 0, protocolFraction));
      if Representable(e) && MAX_TICK % spacing != 0 {
        PublicSwapPays(b, c, e);
      }
    }

    /** Positions settled so far, not yet written, and the books they stand for. */
    ghost predicate Midway(settled: seq<StoredPosition>, b: Books)
      reads this, store
    {
      && |b.owed| == |b.ledger.positions| && settled == StoredAll(b.ledger.positions, b.owed)
      && (forall k | 0 <= k < |settled| :: LegalTick(settled[k].lower, spacing) && LegalTick(settled[k].upper, spacing))
      && Mirrors(store.chunks, b.ledger) && b.ledger.spacing == spacing && b.ledger.tick == tick && b.ledger.growth == growth
      && b.ledger.active == liquidity && b == books.(ledger := b.ledger, owed := b.owed)
    }

    /** Settles one more position and takes all it is owed. */
    method TakeNext(settled: seq<StoredPosition>, i: nat, ghost b: Books) returns (ok: bool, settled': seq<StoredPosition>, owed: Amounts)
      requires Midway(settled, b)
      ensures ok <==> i < |b.owed| && Accrue(b.ledger, i).Some?
      ensures ok ==>
        |b.owed| == |b.ledger.positions| && Midway(settled', TakenOne(b, i)) && owed == Credit(b.owed, i, b.ledger, Accrue(b.ledger, i).value)[i]
    {
      hide Mirrors, StoredAll, Credit, Accrue;
      ok, settled', owed := false, settled, [0, 0];
      if i >= |settled| {
        return;
      }
      StoredAt(b.ledger.positions, b.owed, i);
      var p := AccrueStored(store, settled[i], spacing, tick, growth, b.ledger, b.owed, i);
      if p.Some? {
        ClaimShown(store.chunks, b, i, [0, 0]);
        AccrueHoldings(b.ledger, i);
        ok, settled', owed := true, settled[i := p.value.(owed := [0, 0])], p.value.owed;
      }
    }

    lemma StartsMidway()
      requires Valid()
      ensures Midway(positions, books) && |books.owed| == |books.ledger.positions|
    {
      hide TicksOk, Mirrors, StoredAll;
      StoredLegal(books);
    }

    /** Settles the chosen positions one after another; nothing is written yet. */
    method TakeFees(chosen: seq<nat>) returns (ok: bool, settled: seq<StoredPosition>, total: (U128, U128))
      requires Valid()
      ensures ok <==> TakeAll(books, chosen).Some?
      ensures ok ==>
        var (b', taken) := TakeAll(books, chosen).value;
        Midway(settled, b') && total == Capped(taken)
    {
      hide Valid, Midway, Credit, Accrue, TakeAll, TakenOne, Capped;
      ghost var b, taken: (nat, nat) := books, (0, 0);
      StartsMidway();
      ok, settled, total := true, positions, (0, 0);
      NothingTaken(TakeAll(books, chosen));
      assert chosen[0..] == chosen;
      for j := 0 to |chosen|
        invariant ok && Midway(settled, b) && |b.owed| == |b.ledger.positions|
        invariant TakeAll(books, chosen) == Plus(taken, TakeAll(b, chosen[j..])) && total == Capped(taken)
      {
        TakeOneMore(b, chosen, j);
        var settled', owed;
        ok, settled', owed := TakeNext(settled, chosen[j], b);
        if !ok {
          return;
        }
        MoreTaken(taken, (owed[0], owed[1]), TakeAll(TakenOne(b, chosen[j]), chosen[j + 1..]));
        settled, total := settled', (SatU128(total.0 + owed[0]), SatU128(total.1 + owed[1]));
        b, taken := TakenOne(b, chosen[j]), (taken.0 + owed[0], taken.1 + owed[1]);
      }
      NothingToTake(b);
      assert chosen[|chosen|..] == [];
    }

    /** `claim_all_position_fees`: the totals leave the reserves once. */
    method ClaimAllPositionFees(chosen: seq<nat>) returns (ok: bool)
      requires Valid()
      modifies this
      ensures Valid() && Was(old(books), ClaimAllFees(chosen), ok)
    {
      ghost var b, e := books, ClaimAllFees(chosen);
      hide Reached, Outcome, LedgerOk, Solvent, TicksOk, Mirrors, StoredAll, TakeAll;
      OperationSolvent(b, e);
      OutcomeOfClaimAll(b, chosen);
      var settled, total;
      ok, settled, total := TakeFees(chosen);
      if !ok || reserves[0] < total.0 || reserves[1] < total.1 || balances[0] < total.0 || balances[1] < total.1 {
        return false;
      }
      positions := settled;
      reserves := [reserves[0] - total.0, reserves[1] - total.1];
      balances := [balances[0] - total.0, balances[1] - total.1];
      Record(e);
    }

    /** The first deposit's price: only a pool without liquidity takes a new one. */
    method ChoosePrice(newPrice: U256) returns (ok: bool)
      requires Valid()
      modifies this
      ensures Valid() && (ok <==> NoLiquidity(old(books).ledger) && TickOfPrice(newPrice).Some?)
      ensures ok ==> Was(old(books), Reprice(TickOfPrice(newPrice).value, newPrice), ok)
      ensures !ok ==> books == old(books)
    {
      ghost var b := books;
      hide Reached, Outcome, LedgerOk, Solvent, TicksOk, Mirrors, StoredAll, TickOfPrice, OnLadder, NoLiquidity;
      var found := TickOfPrice(newPrice);
      ShapedBooks(b);
      OutcomeOfReprice(b, if found.Some? then found.value else 0, newPrice);
      NoLiquidityStored(b);
      if found.None? || exists i | 0 <= i < |positions| :: positions[i].liquidity > 0 {
        return false;
      }
      TickIsOnLadder(newPrice);
      RepriceSolvent(b, found.value, newPrice);
      price, tick := newPrice, found.value;
      Record(Reprice(found.value, newPrice));
      MirrorsTicks(store.chunks, b.ledger, books.ledger);
      return true;
    }

    /** `set_protocol_fee_fraction`. */
    method SetProtocolFraction(fraction: nat) returns (ok: bool)
      requires Valid()
      modifies `protocolFraction
      ensures Valid() && (ok <==> fraction <= Steps.FEE_DENOMINATOR) && protocolFraction == if ok then fraction else old(protocolFraction)
    {
      hide Reached, Solvent, TicksOk, Mirrors, StoredAll;
      ok := fraction <= Steps.FEE_DENOMINATOR;
      if ok {
        protocolFraction := fraction;
      }
    }

    /** Tokens sent to the contract from outside, as far as a balance can grow. */
    method ReceiveTokens(k: nat, tokens: nat) returns (ok: bool)
      requires Valid() && k < 2
      modifies this
      ensures Valid() && Was(old(books), Donate(k, tokens), ok)
    {
      ghost var b := books;
      hide Reached, LedgerOk, OnLadder, Needs, TicksOk, Mirrors, StoredAll;
      ShapedBooks(b);
      if balances[k] + tokens > I128_MAX {
        return false;
      }
      DonateSolvent(b, k, tokens);
      balances := balances[k := balances[k] + tokens];
      Record(Donate(k, tokens));
      return true;
    }

    /** In every pool that got where it is by surpluses that pay, the stored balances are the stored
        reserves, the protocol's fees and what the contract was given. */
    lemma TokensAreAccountedFor(k: nat)
      requires Valid() && k < 2
      requires Shaped(EmptyBooks(spacing)) && AllPay(EmptyBooks(spacing), history)
      ensures balances[k] == reserves[k] + protocol[k] + Donated(EmptyBooks(spacing), history, k)
    {
      hide Solvent, ShowsLedger, AllPay, Run, SqrtRatioAtTick;
      EmptyBooksAreEmpty(spacing);
      EmptyBooksAre(spacing);
      RunAccountsForTokens(EmptyBooks(spacing), history, k);
    }
  }
}
