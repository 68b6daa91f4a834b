/** Whole runs of the concentrated pool with its reserves: in every run they cover what every
    position can take out (liquidity_pool_concentrated/src/contract/internal.rs, extensions.rs). */
module SolvencyRuns {
  import opened Words
  import opened TickMath
  import opened TickAccuracy
  import opened TickUpdate
  import opened LiquidityLedger
  import opened LedgerInvariants
  import opened PositionWorth
  import opened SwapRounds
  import opened Solvency
  import opened Payouts
  import Runs = LedgerRuns
  import Steps = SwapStep
  import Minting

  /** What can happen to the pool. `Reprice` is the first deposit's choice of a price, `Donate` a
      transfer of tokens to the contract from outside. */
  datatype Event =
    | OpenPosition(lower: int, upper: int)
    | AddLiquidity(i: nat, desired0: U128, desired1: U128, minLiquidity: U128)
    | RemoveLiquidity(i: nat, amount: U128, min: (nat, nat))
    | ClaimFees(i: nat, wanted: (nat, nat))
    | ClaimAllFees(positions: seq<nat>)
    | ClaimProtocolFees
    | Donate(token: nat, tokens: nat)
    | SwapTokens(call: SwapCall)
    | Reprice(tick: int, price: U256)

  ghost predicate NoLiquidity(s: Ledger)
  {
    forall i | 0 <= i < |s.positions| :: s.positions[i].liquidity == 0
  }

  ghost function Outcome(b: Books, e: Event): Ending
    requires b.ledger.spacing > 0 && |b.ledger.positions| == |b.owed|
  {
    match e
    case OpenPosition(lower, upper) =>
      var r := Open(b.ledger, lower, upper);
      if r.Some? then Done(b.(ledger := r.value, owed := b.owed + [[0, 0]])) else Refused
    case AddLiquidity(i, desired0, desired1, minLiquidity) =>
      if i < |b.owed| then Deposited(b, i, desired0, desired1, minLiquidity) else Refused
    case RemoveLiquidity(i, amount, min) => if i < |b.owed| then Withdrawn(b, i, amount, min) else Refused
    case ClaimFees(i, wanted) => if i < |b.owed| then Claimed(b, i, wanted) else Refused
    case ClaimAllFees(positions) => ClaimedAll(b, positions)
    case ClaimProtocolFees => ClaimedProtocol(b)
    case Donate(k, tokens) =>
      if k < 2 && b.balances[k] + tokens <= I128_MAX then Done(b.(balances := b.balances[k := b.balances[k] + tokens])) else Refused
    case SwapTokens(c) => if IsSwap(b, c) then Swapped(b, c) else Refused
    case Reprice(tick, price) =>
      if NoLiquidity(b.ledger) && OnLadder(tick, price) then Done(b.(ledger := Moved(b.ledger, tick), price := price)) else Refused
  }

  lemma OutcomeOfOpen(b: Books, lower: int, upper: int)
    requires Shaped(b)
    ensures var r := Open(b.ledger, lower, upper);
      Outcome(b, OpenPosition(lower, upper)) == if r.Some? then Done(b.(ledger := r.value, owed := b.owed + [[0, 0]])) else Refused
  {
  }

  lemma OutcomeOfDeposit(b: Books, i: nat, desired0: U128, desired1: U128, minLiquidity: U128)
    requires Shaped(b)
    ensures Outcome(b, AddLiquidity(i, desired0, desired1, minLiquidity))
         == if i < |b.owed| then Deposited(b, i, desired0, desired1, minLiquidity) else Refused
  {
  }

  lemma OutcomeOfWithdraw(b: Books, i: nat, amount: U128, min: (nat, nat))
    requires Shaped(b)
    ensures Outcome(b, RemoveLiquidity(i, amount, min)) == if i < |b.owed| then Withdrawn(b, i, amount, min) else Refused
  {
  }

  lemma OutcomeOfClaim(b: Books, i: nat, wanted: (nat, nat))
    requires Shaped(b)
    ensures Outcome(b, ClaimFees(i, wanted)) == if i < |b.owed| then Claimed(b, i, wanted) else Refused
  {
  }

  lemma OutcomeOfClaimAll(b: Books, chosen: seq<nat>)
    requires Shaped(b)
    ensures Outcome(b, ClaimAllFees(chosen)) == ClaimedAll(b, chosen)
  {
  }

  lemma OutcomeOfProtocolClaim(b: Books)
    requires Shaped(b)
    ensures Outcome(b, ClaimProtocolFees) == ClaimedProtocol(b)
  {
  }

  lemma OutcomeOfSwap(b: Books, c: SwapCall)
    requires Shaped(b)
    ensures Outcome(b, SwapTokens(c)) == if IsSwap(b, c) then Swapped(b, c) else Refused
  {
    hide IsSwap, Swapped;
  }

  lemma OutcomeOfDonate(b: Books, k: nat, tokens: nat)
    requires Shaped(b)
    ensures Outcome(b, Donate(k, tokens)) ==
      if k < 2 && b.balances[k] + tokens <= I128_MAX then Done(b.(balances := b.balances[k := b.balances[k] + tokens])) else Refused
  {
  }

  lemma OutcomeOfReprice(b: Books, tick: int, price: U256)
    requires Shaped(b)
    ensures Outcome(b, Reprice(tick, price))
         == if NoLiquidity(b.ledger) && OnLadder(tick, price) then Done(b.(ledger := Moved(b.ledger, tick), price := price)) else Refused
  {
    hide OnLadder, NoLiquidity;
  }

  lemma OpenSolvent(b: Books, lower: int, upper: int)
    requires Solvent(b) && Open(b.ledger, lower, upper).Some?
    ensures Solvent(b.(ledger := Open(b.ledger, lower, upper).value, owed := b.owed + [[0, 0]]))
  {
    OpenKeeps(b.ledger, lower, upper);
    hide LedgerOk, P, OnLadder, PerUnit;
    var p := Position(lower, upper, 0, [0, 0], [0, 0]);
    var ps, owed: seq<Amounts> := b.ledger.positions + [p], b.owed + [[0, 0]];
    assert ps[..|ps| - 1] == b.ledger.positions && owed[..|owed| - 1] == b.owed;
    NothingInIt(p, 0, b.price);
    NothingInIt(p, 1, b.price);
    hide Part;
  }

  lemma NothingInIt(p: Position, k: nat, price: U256)
    requires p.liquidity == 0
    ensures Part(p, k, price) == 0.0
  {
    hide PerUnit;
  }

  lemma {:induction false} NothingAtAll(ps: seq<Position>, k: nat, price: U256)
    requires forall i | 0 <= i < |ps| :: ps[i].liquidity == 0
    ensures Worth(ps, k, price) == 0.0
  {
    if ps != [] {
      NothingAtAll(ps[..|ps| - 1], k, price);
      NothingInIt(ps[|ps| - 1], k, price);
      hide Part;
    }
  }

  lemma RepriceSolvent(b: Books, tick: int, price: U256)
    requires Solvent(b) && NoLiquidity(b.ledger) && OnLadder(tick, price)
    ensures Solvent(b.(ledger := Moved(b.ledger, tick), price := price))
  {
    var s := b.ledger;
    forall u: int
      ensures !IsInitialized(s, u)
    {
      AllZero(s.positions, GrossPart(u));
    }
    MoveKeeps(s, tick);
    NothingAtAll(s.positions, 0, b.price);
    NothingAtAll(s.positions, 1, b.price);
    NothingAtAll(s.positions, 0, price);
    NothingAtAll(s.positions, 1, price);
    hide LedgerOk, P, OnLadder, Worth, SumOwed;
  }

  lemma ProtocolSolvent(b: Books)
    requires Solvent(b)
    ensures ClaimedProtocol(b).Done? && Solvent(ClaimedProtocol(b).books) && SameExcess(b, ClaimedProtocol(b).books)
  {
    hide LedgerOk, P, OnLadder, Worth, SumOwed;
  }

  lemma DonateSolvent(b: Books, k: nat, amount: nat)
    requires Solvent(b) && k < 2 && b.balances[k] + amount <= I128_MAX
    ensures Solvent(b.(balances := b.balances[k := b.balances[k] + amount]))
  {
    hide LedgerOk, P, OnLadder, Worth, SumOwed;
  }

  /** The surplus of an event, if it is a swap with one, pays for what it credits. */
  ghost predicate Pays(b: Books, e: Event)
  {
    e.SwapTokens? && IsSwap(b, e.call) ==> SurplusPays(b, e.call)
  }

  /** No event finds the reserves short, and each leaves the pool solvent whose surplus pays. */
  lemma EventSolvent(b: Books, e: Event)
    requires Solvent(b)
    ensures Shaped(b)
    ensures !Outcome(b, e).ShortOfReserves? && (Outcome(b, e).Done? && Pays(b, e) ==> Solvent(Outcome(b, e).books))
  {
    LowLedger(b.ledger);
    hide Outcome, Solvent, LedgerOk, OnLadder, P, Deposited, Withdrawn, Claimed, ClaimedAll, ClaimedProtocol, Swapped, IsSwap, SurplusPays, Open, Moved,
      NoLiquidity, SameExcess, Payout, MayWithdraw;
    match e {
      case OpenPosition(lower, upper) =>
        OutcomeOfOpen(b, lower, upper);
        if Open(b.ledger, lower, upper).Some? {
          OpenSolvent(b, lower, upper);
        }
      case AddLiquidity(i, desired0, desired1, minLiquidity) =>
        OutcomeOfDeposit(b, i, desired0, desired1, minLiquidity);
        if i < |b.owed| {
          DepositSolvent(b, i, desired0, desired1, minLiquidity);
        }
      case RemoveLiquidity(i, amount, min) =>
        OutcomeOfWithdraw(b, i, amount, min);
        if i < |b.owed| {
          WithdrawIsPaid(b, i, amount, min);
        }
      case ClaimFees(i, wanted) =>
        OutcomeOfClaim(b, i, wanted);
        if i < |b.owed| {
          ClaimIsPaid(b, i, wanted);
        }
      case ClaimAllFees(positions) =>
        OutcomeOfClaimAll(b, positions);
        ClaimAllIsPaid(b, positions);
      case ClaimProtocolFees =>
        OutcomeOfProtocolClaim(b);
        ProtocolSolvent(b);
      case Donate(k, tokens) =>
        OutcomeOfDonate(b, k, tokens);
        if k < 2 && b.balances[k] + tokens <= I128_MAX {
          DonateSolvent(b, k, tokens);
        }
      case SwapTokens(c) =>
        OutcomeOfSwap(b, c);
        if IsSwap(b, c) {
          SwapKeepsSolvent(b, c);
        }
      case Reprice(tick, price) =>
        OutcomeOfReprice(b, tick, price);
        if NoLiquidity(b.ledger) && OnLadder(tick, price) {
          RepriceSolvent(b, tick, price);
        }
    }
  }

  /** What every event keeps, whatever the state: one entry of unpaid fees for each position. */
  ghost predicate Shaped(b: Books)
  {
    b.ledger.spacing > 0 && |b.ledger.positions| == |b.owed|
  }

  ghost predicate Later(b: Books, b': Books)
  {
    Shaped(b') && b'.ledger.spacing == b.ledger.spacing
  }

  /** A ledger operation that keeps the number of positions and the fees. */
  ghost predicate SameShape(s: Ledger, s': Ledger)
  {
    s'.spacing == s.spacing && |s'.positions| == |s.positions| && s'.fees == s.fees
  }

  lemma AccrueShapes(s: Ledger, i: nat)
    requires i < |s.positions| && Accrue(s, i).Some?
    ensures SameShape(s, Accrue(s, i).value)
  {
    hide Earned, Inside;
  }

  lemma DepositShapes(s: Ledger, i: nat, amount: U128)
    requires s.spacing > 0 && i < |s.positions| && Deposit(s, i, amount).Some?
    ensures SameShape(s, Deposit(s, i, amount).value)
  {
    Runs.TicksOnly(s, s.positions[i], amount);
    AccrueShapes(ChangeBounds(s, s.positions[i], amount).value, i);
    hide Accrue, ChangeBounds;
  }

  lemma WithdrawShapes(s: Ledger, i: nat, amount: U128)
    requires s.spacing > 0 && i < |s.positions| && Withdraw(s, i, amount).Some?
    ensures SameShape(s, Withdraw(s, i, amount).value)
  {
    Runs.WithdrawNeeds(s, i, amount);
    WithdrawResizes(s, i, amount);
    hide Withdraw;
  }

  lemma ShapeStays(b: Books, e: Event)
    requires Shaped(b)
    ensures Outcome(b, e).Done? ==> Later(b, Outcome(b, e).books)
  {
    hide Deposit, Withdraw, Accrue, TakeAll, P, Payout, Minting.MaxLiquidity, Minting.AmountsForLiquidity, IsSwap, Swapped, NoLiquidity, OnLadder;
    if Outcome(b, e).Done? {
      match e {
        case AddLiquidity(i, desired0, desired1, minLiquidity) =>
          var p := b.ledger.positions[i];
          DepositShapes(b.ledger, i, Minting.MaxLiquidity(b.price, P(p.lower), P(p.upper), desired0, desired1).value);
        case RemoveLiquidity(i, amount, min) =>
          var s', paid := PayoutNeeds(b, i, amount);
          WithdrawShapes(b.ledger, i, amount);
        case ClaimFees(i, wanted) =>
          AccrueShapes(b.ledger, i);
        case ClaimAllFees(positions) =>
          TakeAllShapes(b, positions);
        case SwapTokens(c) =>
          SwapShapes(b, c);
        case _ =>
      }
    }
  }

  lemma {:induction false} TakeAllShapes(b: Books, positions: seq<nat>)
    requires Shaped(b)
    ensures TakeAll(b, positions).Some? ==>
      var rest := TakeAll(b, positions).value.0;
      Later(b, rest) && rest == b.(ledger := rest.ledger, owed := rest.owed)
    decreases |positions|
  {
    if positions != [] && positions[0] < |b.owed| && Accrue(b.ledger, positions[0]).Some? {
      var i := positions[0];
      AccrueShapes(b.ledger, i);
      hide Accrue;
      var s' := Accrue(b.ledger, i).value;
      TakeAllShapes(b.(ledger := s', owed := Credit(b.owed, i, b.ledger, s')[i := [0, 0]]), positions[1..]);
    }
  }

  lemma SwapShapes(b: Books, c: SwapCall)
    requires Shaped(b) && IsSwap(b, c) && Swapped(b, c).Done?
    ensures Later(b, Swapped(b, c).books)
  {
    var e := EndOf(b, c).value;
    SwapEnds(c.chunks, c.bound, b.ledger, b.price, c.amount, c.o);
    SwapKeepsSpacing(c.chunks, c.bound, b.ledger, b.price, c.amount, c.o);
    SpreadHoldings(e.s, InToken(c.o.zeroForOne), SurplusOf(e, c), e.last, c.o.zeroForOne);
    hide IsBound, LedgerOk, OnLadder, LastOk, Spread, Swap, SurplusOf, WorthMoves, Steps.FeeCovers, Ready, Records;
  }

  ghost function Apply(b: Books, e: Event): Books
    requires Shaped(b)
  {
    var r := Outcome(b, e);
    if r.Done? then r.books else b
  }

  ghost function Run(b: Books, events: seq<Event>): Books
    requires Shaped(b)
    decreases |events|
  {
    if events == [] then b
    else
      ShapeStays(b, events[0]);
      Run(Apply(b, events[0]), events[1..])
  }

  lemma {:induction false} RunGoesOn(b: Books, events: seq<Event>, e: Event)
    requires Shaped(b)
    ensures Shaped(Run(b, events)) && Run(b, events + [e]) == Apply(Run(b, events), e)
    decreases |events|
  {
    hide Outcome;
    if events == [] {
      ShapeStays(b, e);
      assert [e][1..] == [];
    } else {
      ShapeStays(b, events[0]);
      assert (events + [e])[1..] == events[1..] + [e];
      RunGoesOn(Apply(b, events[0]), events[1..], e);
    }
  }

  /** Every surplus of the run pays for what it credits. */
  ghost predicate AllPay(b: Books, events: seq<Event>)
    requires Shaped(b)
    decreases |events|
  {
    events == [] || (ShapeStays(b, events[0]); Pays(b, events[0]) && AllPay(Apply(b, events[0]), events[1..]))
  }

  /** No event of the run finds the reserves short. */
  ghost predicate NeverShort(b: Books, events: seq<Event>)
    requires Shaped(b)
    decreases |events|
  {
    events == [] ||
    (ShapeStays(b, events[0]); !Outcome(b, events[0]).ShortOfReserves? && NeverShort(Apply(b, events[0]), events[1..]))
  }

  /** The pool before its first position: nothing in it and nothing owed. */
  ghost predicate IsEmptyPool(b: Books)
  {
    && Runs.IsEmpty(b.ledger) && OnLadder(b.ledger.tick, b.price) && b.owed == []
    && b.balances[0] >= b.reserves[0] + b.protocol[0] && b.balances[1] >= b.reserves[1] + b.protocol[1] && AreTokens(b.balances)
  }

  /** Every run whose surpluses pay for themselves keeps a solvent pool solvent, and no withdrawal,
      claim or swap in it is ever refused for lack of reserves. */
  lemma {:induction false} RunSolvent(b: Books, events: seq<Event>)
    requires Solvent(b)
    ensures Shaped(b)
    ensures AllPay(b, events) ==> Solvent(Run(b, events)) && NeverShort(b, events)
    decreases |events|
  {
    LowLedger(b.ledger);
    if events != [] && AllPay(b, events) {
      ShapeStays(b, events[0]);
      EventSolvent(b, events[0]);
      hide Solvent, Outcome, Pays;
      RunSolvent(Apply(b, events[0]), events[1..]);
    }
  }

  // ------------------------------------------------------------------ tokens held

  /** Tokens an event gives to the contract from outside. */
  ghost function DonatedBy(b: Books, e: Event, k: nat): nat
    requires Shaped(b)
  {
    if e.Donate? && e.token == k && Outcome(b, e).Done? then e.tokens else 0
  }

  ghost function Donated(b: Books, events: seq<Event>, k: nat): nat
    requires Shaped(b)
    decreases |events|
  {
    if events == [] then 0
    else
      ShapeStays(b, events[0]);
      DonatedBy(b, events[0], k) + Donated(Apply(b, events[0]), events[1..], k)
  }

  lemma WithdrawExcess(b: Books, i: nat, amount: U128, min: (nat, nat))
    requires Shaped(b) && i < |b.owed| && Withdrawn(b, i, amount, min).Done?
    ensures SameExcess(b, Withdrawn(b, i, amount, min).books)
  {
    hide Payout, Withdraw;
  }

  lemma ClaimExcess(b: Books, i: nat, wanted: (nat, nat))
    requires Shaped(b) && i < |b.owed| && Claimed(b, i, wanted).Done?
    ensures SameExcess(b, Claimed(b, i, wanted).books)
  {
    hide Accrue;
  }

  lemma ClaimAllExcess(b: Books, positions: seq<nat>)
    requires Shaped(b) && ClaimedAll(b, positions).Done?
    ensures SameExcess(b, ClaimedAll(b, positions).books)
  {
    TakeAllShapes(b, positions);
    hide TakeAll;
  }

  lemma DepositExcess(b: Books, i: nat, desired0: U128, desired1: U128, minLiquidity: U128)
    requires Shaped(b) && i < |b.owed| && Deposited(b, i, desired0, desired1, minLiquidity).Done?
    ensures SameExcess(b, Deposited(b, i, desired0, desired1, minLiquidity).books)
  {
    hide Minting.MaxLiquidity, Minting.AmountsForLiquidity, Deposit, P;
  }

  lemma LedgerExcess(b: Books, s': Ledger, price: U256, owed: seq<Amounts>)
    ensures SameExcess(b, b.(ledger := s', price := price, owed := owed))
  {
  }

  lemma KeepsExcess(b: Books, e: Event)
    requires Solvent(b) && Shaped(b) && !e.Donate? && Outcome(b, e).Done?
    ensures SameExcess(b, Outcome(b, e).books)
  {
    hide Solvent, Deposited, Withdrawn, Claimed, ClaimedAll, ClaimedProtocol, Swapped, IsSwap, Open, Moved, NoLiquidity, OnLadder, SameExcess;
    match e {
      case AddLiquidity(i, desired0, desired1, minLiquidity) => DepositExcess(b, i, desired0, desired1, minLiquidity);
      case RemoveLiquidity(i, amount, min) => WithdrawExcess(b, i, amount, min);
      case ClaimFees(i, wanted) => ClaimExcess(b, i, wanted);
      case ClaimAllFees(positions) => ClaimAllExcess(b, positions);
      case ClaimProtocolFees => ProtocolSolvent(b);
      case SwapTokens(c) => SwapExcess(b, c);
      case OpenPosition(lower, upper) => LedgerExcess(b, Open(b.ledger, lower, upper).value, b.price, b.owed + [[0, 0]]);
      case Reprice(tick, price) => LedgerExcess(b, Moved(b.ledger, tick), price, b.owed);
    }
  }

  /** Every token an event moves is accounted for: what the contract holds beyond reserves and
      protocol fees changes by donations only. */
  lemma EventExcess(b: Books, e: Event, k: nat)
    requires Solvent(b) && k < 2
    ensures Shaped(b)
    ensures Outcome(b, e).Done? ==>
      Excess(Outcome(b, e).books, k) == Excess(b, k) + DonatedBy(b, e, k)
  {
    LowLedger(b.ledger);
    hide Solvent, Deposited, Withdrawn, Claimed, ClaimedAll, ClaimedProtocol, Swapped, IsSwap, Open, Moved, NoLiquidity, OnLadder, Excess;
    if Outcome(b, e).Done? {
      if e.Donate? {
        DonateExcess(b, e.token, e.tokens, k);
      } else {
        KeepsExcess(b, e);
        hide Outcome;
        assert k == 0 || k == 1;
      }
    }
  }

  lemma SwapExcess(b: Books, c: SwapCall)
    requires Solvent(b) && IsSwap(b, c) && Swapped(b, c).Done?
    ensures SameExcess(b, Swapped(b, c).books)
  {
    hide Solvent, IsSwap, Swapped, SameExcess, SurplusPays;
    SwapKeepsSolvent(b, c);
  }

  lemma DonateExcess(b: Books, token: nat, tokens: nat, k: nat)
    requires token < 2 && k < 2
    ensures Excess(b.(balances := b.balances[token := b.balances[token] + tokens]), k) == Excess(b, k) + if token == k then tokens else 0
  {
  }

  /** Over every run whose surpluses pay, the contract holds exactly the reserves, the protocol's
      fees and what it was given: no transfer out of it can fail for lack of tokens. */
  lemma {:induction false} RunAccountsForTokens(b: Books, events: seq<Event>, k: nat)
    requires Solvent(b) && k < 2
    ensures Shaped(b)
    ensures var b' := Run(b, events);
      AllPay(b, events) ==>
        b'.balances[k] as int == b'.reserves[k] + b'.protocol[k] + Excess(b, k) + Donated(b, events, k) && b'.balances[k] <= I128_MAX
    decreases |events|
  {
    LowLedger(b.ledger);
    if events != [] && AllPay(b, events) {
      ShapeStays(b, events[0]);
      EventSolvent(b, events[0]);
      EventExcess(b, events[0], k);
      hide Solvent, Outcome, Pays;
      RunAccountsForTokens(Apply(b, events[0]), events[1..], k);
    }
  }

  lemma EmptyPoolIsSolvent(b: Books)
    requires IsEmptyPool(b)
    ensures Solvent(b)
  {
    Runs.EmptyIsOk(b.ledger);
    hide LedgerOk, P, OnLadder;
  }

  /** From an empty pool on, as long as surpluses pay for themselves, the reserves cover what all
      positions' liquidity stands for and all fees given to them, and no operation ever fails for
      lack of reserves. */
  lemma ReservesSuffice(b: Books, events: seq<Event>)
    requires IsEmptyPool(b)
    ensures Shaped(b)
    ensures var b' := Run(b, events);
      AllPay(b, events) ==>
        NeverShort(b, events) && Needs(b', 0) <= b'.reserves[0] as real && Needs(b', 1) <= b'.reserves[1] as real
  {
    EmptyPoolIsSolvent(b);
    RunSolvent(b, events);
    hide Run, NeverShort, Needs, LedgerOk, AllPay;
  }

  /** Every swap is made through a public entry point, with an amount out that is a token amount. */
  ghost predicate PublicSwaps(events: seq<Event>)
  {
    forall i | 0 <= i < |events| :: events[i].SwapTokens? ==> exists e: Entry :: IsPublic(events[i].call, e) && Representable(e)
  }

  lemma {:induction false} PublicRunPays(b: Books, events: seq<Event>)
    requires Shaped(b) && PublicSwaps(events) && MAX_TICK % b.ledger.spacing != 0
    ensures AllPay(b, events)
    decreases |events|
  {
    if events != [] {
      var e := events[0];
      ShapeStays(b, e);
      if e.SwapTokens? && IsSwap(b, e.call) {
        PublicPays(b, e.call);
      }
      hide Outcome, IsSwap, SurplusPays, IsPublic;
      assert PublicSwaps(events[1..]);
      PublicRunPays(Apply(b, e), events[1..]);
    }
  }

  lemma PublicPays(b: Books, c: SwapCall)
    requires IsSwap(b, c) && MAX_TICK % b.ledger.spacing != 0 && exists e: Entry :: IsPublic(c, e) && Representable(e)
    ensures SurplusPays(b, c)
  {
    var e: Entry :| IsPublic(c, e) && Representable(e);
    PublicTakesItsAmount(c, e);
    OrderSpacing(b, c);
    hide IsSwap, SurplusPays, IsPublic;
    DefaultSurplusPays(b, c);
  }

  lemma OrderSpacing(b: Books, c: SwapCall)
    requires IsSwap(b, c)
    ensures c.o.spacing == b.ledger.spacing
  {
  }

  /** A pool whose spacing does not divide the last tick, 20, 60 and 200 among them, used through
      its public swaps with amounts out that tokens can have: in every run, without any condition
      on surpluses, no operation ever fails for lack of reserves. */
  lemma ReservesAlwaysSuffice(b: Books, events: seq<Event>)
    requires IsEmptyPool(b) && PublicSwaps(events) && MAX_TICK % b.ledger.spacing != 0
    ensures Shaped(b)
    ensures var b' := Run(b, events);
      NeverShort(b, events) && Needs(b', 0) <= b'.reserves[0] as real && Needs(b', 1) <= b'.reserves[1] as real
  {
    ReservesSuffice(b, events);
    PublicRunPays(b, events);
    hide Run, NeverShort, Needs, AllPay;
  }

  /** In a solvent pool every position can be withdrawn whole: for what its liquidity stands for,
      rounded down, and everything it has earned. */
  lemma EveryPositionCanLeave(b: Books, i: nat)
    requires Solvent(b) && i < |b.owed| && b.ledger.positions[i].liquidity > 0
    ensures b.ledger.spacing > 0
    ensures |b.owed| == |b.ledger.positions|
    ensures var all := b.ledger.positions[i].liquidity;
      var r, due := Withdrawn(b, i, all, (0, 0)), WithdrawalDue(b, i, all);
      && r.Done? && LeftPool(b, r.books, due.0, due.1) && LeavesFees(b, i, [0, 0], r.books)
      && r.books.ledger.positions[i].liquidity == 0
  {
    LowLedger(b.ledger);
    var all := b.ledger.positions[i].liquidity;
    LiquidityIsSigned(b.ledger, i);
    hide LedgerOk, P, OnLadder, Needs, Withdrawn, Withdraw, Payout, Minting.AmountsForLiquidity, Credit, WithdrawalDue, LeftPool, LeavesFees;
    PayoutExists(b, i, all);
    WithdrawnInFull(b, i, all, (0, 0));
    WithdrawIsPaid(b, i, all, (0, 0));
  }

  lemma LiquidityIsSigned(s: Ledger, i: nat)
    requires LedgerOk(s) && i < |s.positions|
    ensures s.positions[i].liquidity <= I128_MAX
  {
    var p := s.positions[i];
    assert LegalTick(p.lower, s.spacing) && LegalTick(p.upper, s.spacing) && p.lower < p.upper;
    CapIsSigned(p, s.spacing);
    WithinTick(s, i);
    assert TickOf(s, p.lower).gross <= MaxLiquidityPerTick(s.spacing);
  }
}
