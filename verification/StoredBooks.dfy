/** The books of the concentrated pool as its calls see them: when a call is refused and what it
    leaves (liquidity_pool_concentrated/src/contract/extensions.rs, internal.rs). */
module StoredBooks {
  import opened Words
  import opened TickMath
  import opened TickAccuracy
  import opened Bitmap
  import opened ChunkStore
  import opened TickIndex
  import opened TickMaintenance
  import opened TickUpdate
  import opened LiquidityLedger
  import opened PositionWorth
  import opened SwapRounds
  import opened SwapLoop
  import opened Solvency
  import opened SolvencyRuns
  import Minting
  import Runs = LedgerRuns
  import Steps = SwapStep
  import opened StoredLedger

  function EmptyBooks(spacing: int): Books
  {
    Books(Ledger(spacing, map[], 0, [0, 0], 0, [], [0, 0], [0, 0]), SqrtRatioAtTick(0), [0, 0], [], [0, 0], [0, 0])
  }

  lemma EmptyStore(spacing: int)
    requires spacing > 0
    ensures IndexOk(map[], map[], map[], spacing) && LowestIs(map[], spacing, MAX_TICK) && HighestIs(map[], spacing, MIN_TICK)
    ensures Mirrors(map[], EmptyBooks(spacing).ledger)
  {
    forall c: int
      ensures TickAt(map[], c) == ZERO_TICK
    {
    }
    forall pos: int
      ensures !BitAt(map[], pos)
    {
      assert !BitOf(ZERO_WORD, pos % 256);
    }
    hide SqrtRatioAtTick, BitAt, TickAt;
  }

  lemma EmptyTicks(store: TickStorage, spacing: int)
    requires store.chunks == map[] && store.chunkBitmap == map[] && store.wordBitmap == map[]
    requires store.minInitTick == MAX_TICK && store.maxInitTick == MIN_TICK && spacing > 0
    ensures TicksOk(store, spacing)
  {
    EmptyStore(spacing);
    hide IndexOk, LowestIs, HighestIs;
  }

  lemma EmptyBooksAre(spacing: int)
    ensures var b := EmptyBooks(spacing);
      && b.price == SqrtRatioAtTick(0) && b.owed == [] && b.reserves == [0, 0] && b.balances == [0, 0] && b.protocol == [0, 0]
      && b.ledger.spacing == spacing && b.ledger.tick == 0 && b.ledger.active == 0 && b.ledger.growth == [0, 0] && b.ledger.positions == []
  {
    hide SqrtRatioAtTick;
  }

  lemma EmptyBooksAreEmpty(spacing: int)
    requires spacing > 0
    ensures IsEmptyPool(EmptyBooks(spacing)) && Solvent(EmptyBooks(spacing))
  {
    hide SqrtRatioAtTick, LedgerOk, Solvent;
    PriceIs(0);
    Rises(0, 1);
    EmptyPoolIsSolvent(EmptyBooks(spacing));
  }

  lemma ShapedBooks(b: Books)
    requires Solvent(b)
    ensures Shaped(b)
  {
    LowLedger(b.ledger);
  }

  lemma ShapedStart(spacing: int)
    requires spacing > 0
    ensures Shaped(EmptyBooks(spacing))
  {
    hide SqrtRatioAtTick;
  }

  /** Every operation but a swap leaves the pool solvent, without any condition. */
  lemma OperationSolvent(b: Books, e: Event)
    requires Solvent(b) && !e.SwapTokens?
    ensures Shaped(b) && !Outcome(b, e).ShortOfReserves? && (Outcome(b, e).Done? ==> Solvent(Outcome(b, e).books))
  {
    EventSolvent(b, e);
    hide Outcome, Solvent;
  }

  lemma SolventPosition(b: Books, i: nat)
    requires Solvent(b) && i < |b.owed|
    ensures i < |b.ledger.positions| && b.ledger.spacing > 0
    ensures var p := b.ledger.positions[i];
      LegalTick(p.lower, b.ledger.spacing) && LegalTick(p.upper, b.ledger.spacing) && MIN_TICK <= p.lower < p.upper <= MAX_TICK
  {
    hide OnLadder, Needs;
  }

  lemma StoredLegal(b: Books)
    requires Solvent(b)
    ensures |b.owed| == |b.ledger.positions|
    ensures forall i | 0 <= i < |b.owed| ::
      var p := StoredAll(b.ledger.positions, b.owed)[i]; LegalTick(p.lower, b.ledger.spacing) && LegalTick(p.upper, b.ledger.spacing)
  {
    hide OnLadder, Needs;
  }

  lemma NoLiquidityStored(b: Books)
    requires |b.owed| == |b.ledger.positions|
    ensures NoLiquidity(b.ledger) <==> forall i | 0 <= i < |b.owed| :: StoredAll(b.ledger.positions, b.owed)[i].liquidity == 0
  {
    assert forall i | 0 <= i < |b.owed| :: StoredAll(b.ledger.positions, b.owed)[i].liquidity == b.ledger.positions[i].liquidity;
  }

  lemma TickIsOnLadder(price: U256)
    requires TickOfPrice(price).Some?
    ensures OnLadder(TickOfPrice(price).value, price)
  {
    TickOfLegalPrice(price);
    hide TickOfPrice, P;
  }

  // ------------------------------------------------------ withdrawals and claims

  /** What a withdrawal pays, from the fees settled before the ticks change. */
  lemma PayoutIs(b: Books, i: nat, amount: U128)
    requires Shaped(b) && i < |b.owed|
    ensures var p, w, settled := b.ledger.positions[i], Withdraw(b.ledger, i, amount), Accrue(b.ledger, i);
      var paid := Minting.AmountsForLiquidity(b.price, P(p.lower), P(p.upper), amount, false);
      && (Payout(b, i, amount).Some? <==> paid.Some? && w.Some?)
      && (w.Some? ==> settled.Some? && amount <= I128_MAX && amount <= p.liquidity)
      && (Payout(b, i, amount).Some? ==>
            var credit := Credit(b.owed, i, b.ledger, settled.value);
            && Credit(b.owed, i, b.ledger, w.value) == credit && |credit| == |b.owed|
            && Payout(b, i, amount) == Some((paid.value.0 + credit[i][0], paid.value.1 + credit[i][1])))
  {
    hide P, Minting.AmountsForLiquidity, Withdraw, Accrue;
    if Withdraw(b.ledger, i, amount).Some? {
      Runs.WithdrawNeeds(b.ledger, i, amount);
      WithdrawSettles(b.ledger, i, amount);
    }
  }

  /** Reserves and balances hold the amounts. */
  predicate CanPay(b: Books, total: (nat, nat))
  {
    total.0 <= b.reserves[0] && total.1 <= b.reserves[1] && total.0 <= b.balances[0] && total.1 <= b.balances[1]
  }

  /** A position's ledger has changed and everything it was owed is paid. */
  function AfterPayout(b: Books, s': Ledger, i: nat, total: (nat, nat)): Books
    requires i < |b.owed| && CanPay(b, total)
  {
    b.(ledger := s', owed := Credit(b.owed, i, b.ledger, s')[i := [0, 0]],
       reserves := [b.reserves[0] - total.0, b.reserves[1] - total.1], balances := [b.balances[0] - total.0, b.balances[1] - total.1])
  }

  /** What settling one position and paying it all but what is left writes. */
  lemma ClaimShown(chunks: map<int, Chunk>, b: Books, i: nat, left: Amounts)
    requires i < |b.owed| == |b.ledger.positions| && Accrue(b.ledger, i).Some? && Mirrors(chunks, b.ledger)
    ensures var s' := Accrue(b.ledger, i).value;
      var owed := Credit(b.owed, i, b.ledger, s');
      && Mirrors(chunks, s') && |owed| == |s'.positions| == |b.owed|
      && StoredAll(s'.positions, owed[i := left])
           == StoredAll(b.ledger.positions, b.owed)[i := StoredOne(s'.positions[i], owed[i]).(owed := left)]
      && s'.tick == b.ledger.tick && s'.growth == b.ledger.growth && s'.active == b.ledger.active && s'.spacing == b.ledger.spacing
  {
    var s' := Accrue(b.ledger, i).value;
    AccrueChangesOne(b.ledger, i);
    hide Accrue, Mirrors, StoredAll, Credit;
    ShownSettled(b.ledger, s', b.owed, i, left);
    MirrorsTicks(chunks, b.ledger, s');
  }

  function Plus(taken: (nat, nat), rest: Option<(Books, (nat, nat))>): Option<(Books, (nat, nat))>
  {
    match rest
    case None => None
    case Some((books, more)) => Some((books, (taken.0 + more.0, taken.1 + more.1)))
  }

  /** Totals as saturating additions leave them. */
  function Capped(taken: (nat, nat)): (U128, U128)
  {
    (LowerOf(taken.0, U128_MAX), LowerOf(taken.1, U128_MAX))
  }

  lemma NothingTaken(rest: Option<(Books, (nat, nat))>)
    ensures Plus((0, 0), rest) == rest && Capped((0, 0)) == (0, 0)
  {
  }

  lemma MoreTaken(taken: (nat, nat), more: (nat, nat), rest: Option<(Books, (nat, nat))>)
    ensures Plus(taken, Plus(more, rest)) == Plus((taken.0 + more.0, taken.1 + more.1), rest)
    ensures Capped((taken.0 + more.0, taken.1 + more.1)) == (SatU128(Capped(taken).0 + more.0), SatU128(Capped(taken).1 + more.1))
  {
  }

  /** The books after settling one position and taking all it is owed. */
  function TakenOne(b: Books, i: nat): Books
    requires i < |b.owed| == |b.ledger.positions| && Accrue(b.ledger, i).Some?
  {
    var s' := Accrue(b.ledger, i).value;
    b.(ledger := s', owed := Credit(b.owed, i, b.ledger, s')[i := [0, 0]])
  }

  lemma TakeOneMore(b: Books, chosen: seq<nat>, j: nat)
    requires j < |chosen| && |b.owed| == |b.ledger.positions|
    ensures chosen[j] >= |b.owed| || Accrue(b.ledger, chosen[j]).None? ==> TakeAll(b, chosen[j..]) == None
    ensures chosen[j] < |b.owed| && Accrue(b.ledger, chosen[j]).Some? ==>
      var i := chosen[j];
      var owed, b' := Credit(b.owed, i, b.ledger, Accrue(b.ledger, i).value)[i], TakenOne(b, i);
      |b'.owed| == |b'.ledger.positions| && TakeAll(b, chosen[j..]) == Plus((owed[0], owed[1]), TakeAll(b', chosen[j + 1..]))
  {
    assert chosen[j..][1..] == chosen[j + 1..];
    if chosen[j] < |b.owed| && Accrue(b.ledger, chosen[j]).Some? {
      AccrueChangesOne(b.ledger, chosen[j]);
    }
    hide Accrue;
  }

  lemma NothingToTake(b: Books)
    requires |b.owed| == |b.ledger.positions|
    ensures TakeAll(b, []) == Some((b, (0, 0)))
  {
  }

  // ----------------------------------------------------------------------- swaps

  lemma SwapKeepsStored(b: Books, c: SwapCall)
    requires IsSwap(b, c) && EndOf(b, c).Some?
    ensures SameStored(b.ledger.positions, EndOf(b, c).value.s.positions)
  {
    StartReady(c.chunks, b.ledger, b.price, c.amount, c.o);
    hide MaySwap, Ready, Loop, SameStored;
    LoopKeepsStored(c.chunks, c.bound, Start(b.ledger, b.price, c.amount), c.o);
  }

  /** Storage that mirrors a ledger can be swapped on, up to its bounds. */
  lemma MayStart(store: TickStorage, b: Books, amount: U128, maxIn: U128, minOut: U128, o: Order)
    requires Solvent(b) && TicksOk(store, o.spacing) && Mirrors(store.chunks, b.ledger) && b.ledger.spacing == o.spacing
    requires o.fee < Steps.FEE_DENOMINATOR && o.protocolFraction <= Steps.FEE_DENOMINATOR && LimitAhead(b.price, o.limit, o.zeroForOne)
    ensures IsSwap(b, SwapCall(store.chunks, if o.zeroForOne then store.minInitTick else store.maxInitTick, amount, maxIn, minOut, o))
  {
    hide LedgerOk, OnLadder, Needs, TickAt, TickOf, LowestIs, HighestIs, Level1Ok, Level2Ok;
  }

  lemma EndIs(b: Books, c: SwapCall)
    requires IsSwap(b, c)
    ensures MaySwap(c.chunks, b.ledger, b.price, c.o)
    ensures EndOf(b, c) == Swap(c.chunks, c.bound, b.ledger, b.price, c.amount, c.o)
    ensures EndOf(b, c).None? ==> Swapped(b, c) == Refused
  {
  }

  /** When a swap is refused, from what its loop reports. */
  predicate SwapRefused(b: Books, e: Cursor, c: SwapCall)
  {
    var (paidIn, paidOut) := Flows(e, c);
    (c.o.exactInput && e.w.remaining == c.amount) || paidIn > c.maxIn || paidOut < c.minOut
    || b.balances[InToken(c.o.zeroForOne)] + c.maxIn > I128_MAX || paidOut > I128_MAX
  }

  /** What a settled swap leaves, before its surplus, in the amounts the user sees. */
  function SettledBooks(b: Books, e: Cursor, c: SwapCall): Books
    requires var (paidIn, paidOut) := Flows(e, c);
      var cut := e.t.charged - e.t.toProviders;
      0 <= paidOut <= b.reserves[OutToken(c.o.zeroForOne)] && paidOut <= b.balances[OutToken(c.o.zeroForOne)] && 0 <= cut <= paidIn
  {
    var i, o := InToken(c.o.zeroForOne), OutToken(c.o.zeroForOne);
    var (paidIn, paidOut) := Flows(e, c);
    var cut := e.t.charged - e.t.toProviders;
    Books(e.s, e.w.price, b.reserves[i := b.reserves[i] + paidIn - cut][o := b.reserves[o] - paidOut], b.owed,
          b.balances[i := b.balances[i] + paidIn][o := b.balances[o] - paidOut], b.protocol[i := b.protocol[i] + cut])
  }

  lemma AfterSwapIs(b: Books, e: Cursor, c: SwapCall)
    requires Flows(e, c) == (e.t.paidIn + e.t.charged, e.t.paidOut) && e.t.toProviders <= e.t.charged
    requires e.t.paidOut <= b.reserves[OutToken(c.o.zeroForOne)] && e.t.paidOut <= b.balances[OutToken(c.o.zeroForOne)]
    ensures AfterSwap(b, e.s, e.w.price, c.o.zeroForOne, e.t) == SettledBooks(b, e, c)
  {
  }

  lemma SettledSurplus(b: Books, e: Cursor, c: SwapCall)
    requires e.w.remaining <= c.amount
    requires var (paidIn, paidOut) := Flows(e, c);
      var cut := e.t.charged - e.t.toProviders;
      0 <= paidOut <= b.reserves[OutToken(c.o.zeroForOne)] && paidOut <= b.balances[OutToken(c.o.zeroForOne)] && 0 <= cut <= paidIn <= c.maxIn
    ensures SettledBooks(b, e, c).ledger == e.s
    ensures c.o.exactInput ==> Unswapped(e, c) == c.maxIn - (c.amount - e.w.remaining)
  {
  }

  lemma NothingKept(e: Cursor, c: SwapCall)
    requires !c.o.exactInput
    ensures Unswapped(e, c) == 0
  {
  }

  /** A swap is done exactly when its amounts pass the checks, whatever the reserves. */
  lemma SwappedIs(b: Books, c: SwapCall)
    requires Solvent(b) && IsSwap(b, c) && EndOf(b, c).Some?
    ensures var e := EndOf(b, c).value;
      if SwapRefused(b, e, c) then Swapped(b, c) == Refused
      else
        var (paidIn, paidOut) := Flows(e, c);
        var cut := e.t.charged - e.t.toProviders;
        && 0 <= paidOut <= b.reserves[OutToken(c.o.zeroForOne)] && paidOut <= b.balances[OutToken(c.o.zeroForOne)] && 0 <= cut <= paidIn
        && Swapped(b, c) == Done(WithSurplus(SettledBooks(b, e, c), e, c))
  {
    hide Solvent, IsSwap, EndOf, WithSurplus, AfterSwap, SettledBooks;
    if !SwapRefused(b, EndOf(b, c).value, c) {
      SwapKeepsSolvent(b, c);
      SwapFlows(b, c);
      AfterSwapIs(b, EndOf(b, c).value, c);
    }
  }

  /** The last tick crossed is a legal one. */
  lemma CrossedIsLegal(b: Books, c: SwapCall)
    requires IsSwap(b, c) && EndOf(b, c).Some?
    ensures var e := EndOf(b, c).value;
      && e.s.spacing == c.o.spacing && (e.last.crossed ==> LegalTick(e.last.tick, c.o.spacing))
      && e.w.tick == e.s.tick && e.w.liquidity == e.s.active && |e.s.positions| == |b.ledger.positions|
  {
    SwapEnds(c.chunks, c.bound, b.ledger, b.price, c.amount, c.o);
    SwapKeepsSpacing(c.chunks, c.bound, b.ledger, b.price, c.amount, c.o);
    hide MaySwap, IsBound, Swap, LedgerOk, OnLadder, Steps.FeeCovers, WorthMoves, FeesGrew;
    var e := EndOf(b, c).value;
    if e.last.crossed {
      InitializedIsLegal(e.s, e.last.tick);
    }
  }

  /** A swap that starts at its limit, or beyond it, is refused. */
  lemma NoRoomIsRefused(b: Books, c: SwapCall)
    requires Shaped(b) && !(LimitAhead(b.price, c.o.limit, c.o.zeroForOne) && c.o.limit != b.price)
    ensures Outcome(b, SwapTokens(c)) == Refused
  {
    if IsSwap(b, c) {
      OutcomeOfSwap(b, c);
      EndIs(b, c);
      StartReady(c.chunks, b.ledger, b.price, c.amount, c.o);
      hide Outcome, MaySwap, Ready, IsBound;
      assert Loop(c.chunks, c.bound, Start(b.ledger, b.price, c.amount), c.o) == Some(Start(b.ledger, b.price, c.amount));
    }
  }

  /** A public swap's surplus pays where the spacing keeps positions off the ladder's ends. */
  lemma PublicSwapPays(b: Books, c: SwapCall, e: Entry)
    requires IsSwap(b, c) && IsPublic(c, e) && Representable(e) && MAX_TICK % b.ledger.spacing != 0
    ensures SurplusPays(b, c)
  {
    hide IsSwap, SurplusPays, IsPublic;
    PublicPays(b, c);
  }
}
