/** What a solvent pool pays, exactly: liquidity at its worth rounded down, and fees as they were
    earned (liquidity_pool_concentrated/src/contract/internal.rs, extensions.rs). */
module Payouts {
  import opened Words
  import opened PriceMath
  import opened TickMath
  import opened TickAccuracy
  import opened LiquidityLedger
  import opened LedgerInvariants
  import opened PositionWorth
  import opened Solvency
  import Minting

  /** Fees a position has coming: those credited to it and not paid, and its share, rounded down, of
      what was given to providers since it was last settled. */
  function UnpaidFees(b: Books, i: nat, k: nat): nat
    requires k < 2 && i < |b.owed| == |b.ledger.positions|
  {
    var p := b.ledger.positions[i];
    var share: nat := p.grown[k] * p.liquidity;
    FloorGalois(0, share, TWO_128);
    b.owed[i][k] + share / TWO_128
  }

  ghost predicate UnpaidFit(b: Books)
    requires |b.owed| == |b.ledger.positions|
  {
    forall i: nat, k: nat | k < 2 && i < |b.owed| :: UnpaidFees(b, i, k) < TWO_128
  }

  /** They are part of what the pool's reserves cover. */
  lemma UnpaidWithinNeeds(b: Books, i: nat, k: nat)
    requires k < 2 && LedgerOk(b.ledger) && i < |b.owed| == |b.ledger.positions|
    ensures UnpaidFees(b, i, k) as real <= Needs(b, k)
  {
    var p := b.ledger.positions[i];
    assert Covered(b.ledger, k);
    OwedWithinFees(b.ledger, i, k);
    ShareWithin(p.grown[k] * p.liquidity, b.ledger.credited[k], b.ledger.fees[k]);
    LedgerWorth(b.ledger, k, b.price);
    OwedIsPart(b.owed, i, k);
    UnpaidIs(b, i, k, p.grown[k] * p.liquidity);
    hide LedgerOk, Worth, SumOwed, Covered, UnpaidFees;
  }

  lemma UnpaidIs(b: Books, i: nat, k: nat, share: nat)
    requires k < 2 && i < |b.owed| == |b.ledger.positions|
    requires share == b.ledger.positions[i].grown[k] * b.ledger.positions[i].liquidity
    ensures UnpaidFees(b, i, k) == b.owed[i][k] + share / TWO_128
  {
  }

  lemma LedgerWorth(s: Ledger, k: nat, price: U256)
    requires k < 2 && LedgerOk(s)
    ensures Worth(s.positions, k, price) >= 0.0
  {
    forall j | 0 <= j < |s.positions|
      ensures P(s.positions[j].lower) <= P(s.positions[j].upper)
    {
      PositionInRange(s, j);
      Rises(s.positions[j].lower, s.positions[j].upper);
    }
    WorthNonNegative(s.positions, k, price);
  }

  lemma ShareWithin(share: nat, credited: nat, fees: nat)
    requires share + credited * TWO_128 <= fees * TWO_128
    ensures share / TWO_128 <= fees - credited
  {
    FloorGalois(fees - credited + 1, share, TWO_128);
  }

  lemma SolventUnpaidFit(b: Books)
    requires Solvent(b)
    ensures UnpaidFit(b) && FewOutstanding(b.ledger)
  {
    FewInSolvent(b);
    forall i: nat, k: nat | k < 2 && i < |b.owed|
      ensures UnpaidFees(b, i, k) < TWO_128
    {
      UnpaidWithinNeeds(b, i, k);
      hide UnpaidFees, Needs, LedgerOk, OnLadder;
      assert k == 0 || k == 1;
    }
  }

  // -------------------------------------------------------------------------- fees

  /** Position i is left so much of its fees, and all others keep theirs. */
  ghost predicate LeavesFees(b: Books, i: nat, left: Amounts, b': Books)
    requires i < |b.owed| == |b.ledger.positions|
  {
    && |b'.owed| == |b'.ledger.positions| == |b.owed|
    && forall j: nat, k: nat | k < 2 && j < |b.owed| :: UnpaidFees(b', j, k) == if j == i then left[k] else UnpaidFees(b, j, k)
  }

  /** What a position has coming, both tokens. */
  function FeesOf(b: Books, i: nat): Amounts
    requires i < |b.owed| == |b.ledger.positions|
  {
    [UnpaidFees(b, i, 0), UnpaidFees(b, i, 1)]
  }

  /** Settling credits a position with exactly its unpaid fees. */
  lemma CreditIsTrue(b: Books, i: nat, s': Ledger)
    requires i < |b.owed| == |b.ledger.positions| && UnpaidFit(b) && Settles(b.ledger, s', i)
    ensures var owed := Credit(b.owed, i, b.ledger, s');
      |owed| == |b.owed| && owed[i] == FeesOf(b, i) && forall j | 0 <= j < |owed| :: j != i ==> owed[j] == b.owed[j]
  {
    var p := b.ledger.positions[i];
    UnpaidIs(b, i, 0, p.grown[0] * p.liquidity);
    UnpaidIs(b, i, 1, p.grown[1] * p.liquidity);
    assert UnpaidFees(b, i, 0) < TWO_128 && UnpaidFees(b, i, 1) < TWO_128;
    assert s'.credited[0] == b.ledger.credited[0] + p.grown[0] * p.liquidity / TWO_128;
    assert s'.credited[1] == b.ledger.credited[1] + p.grown[1] * p.liquidity / TWO_128;
    hide UnpaidFees, UnpaidFit, Settles;
  }

  /** A settled position that is left so much of its fees has just that coming. */
  lemma SettledLeaves(b: Books, i: nat, s': Ledger, left: Amounts, b': Books)
    requires i < |b.owed| == |b.ledger.positions| && UnpaidFit(b) && Settles(b.ledger, s', i)
    requires b'.ledger == s' && |Credit(b.owed, i, b.ledger, s')| == |b.owed| && b'.owed == Credit(b.owed, i, b.ledger, s')[i := left]
    ensures LeavesFees(b, i, left, b')
  {
    hide UnpaidFees, UnpaidFit, Credit;
    CreditIsTrue(b, i, s');
    NothingShared(s'.positions[i]);
    forall j: nat, k: nat | k < 2 && j < |b.owed|
      ensures UnpaidFees(b', j, k) == if j == i then left[k] else UnpaidFees(b, j, k)
    {
      UnpaidIs(b', j, k, s'.positions[j].grown[k] * s'.positions[j].liquidity);
      UnpaidIs(b, j, k, b.ledger.positions[j].grown[k] * b.ledger.positions[j].liquidity);
    }
  }

  lemma NothingShared(p: Position)
    requires p.grown == [0, 0]
    ensures forall k: nat | k < 2 :: p.grown[k] * p.liquidity / TWO_128 == 0
  {
  }

  lemma SolventParts(b: Books)
    requires Solvent(b)
    ensures LedgerOk(b.ledger) && OnLadder(b.ledger.tick, b.price) && |b.owed| == |b.ledger.positions| && b.ledger.spacing > 0
    ensures UnpaidFit(b) && FewOutstanding(b.ledger)
  {
    SolventUnpaidFit(b);
    LowLedger(b.ledger);
    hide LedgerOk, OnLadder, Needs, UnpaidFit;
  }

  lemma LedgerSettles(s: Ledger, i: nat)
    requires LedgerOk(s) && FewOutstanding(s) && i < |s.positions|
    ensures Accrue(s, i).Some? && Settles(s, Accrue(s, i).value, i)
  {
    hide CountersTrack, Covered, Accrue, Settles;
    AccrueSettles(s, i);
  }

  /** Amounts that left the reserves and the contract together. */
  predicate LeftPool(b: Books, b': Books, out0: int, out1: int)
  {
    && b'.reserves[0] == b.reserves[0] - out0 && b'.reserves[1] == b.reserves[1] - out1
    && b'.balances[0] == b.balances[0] - out0 && b'.balances[1] == b.balances[1] - out1
  }

  /** A claim pays the position's unpaid fees, or as much of them as it asks for; the rest and the
      fees of all others stay. */
  lemma ClaimPaysInFull(b: Books, i: nat, wanted: (nat, nat))
    requires Solvent(b) && i < |b.owed|
    ensures |b.owed| == |b.ledger.positions|
    ensures var r, fees := Claimed(b, i, wanted), FeesOf(b, i);
      var (pay0, pay1) := (LowerOf(fees[0], wanted.0), LowerOf(fees[1], wanted.1));
      r.Done? && LeftPool(b, r.books, pay0, pay1) && LeavesFees(b, i, [fees[0] - pay0, fees[1] - pay1], r.books)
  {
    hide Solvent, Accrue, Credit, UnpaidFit, FewOutstanding, FeesOf, Claimed, LedgerOk, Settles, LeavesFees, LeftPool;
    SolventParts(b);
    ClaimIsPaid(b, i, wanted);
    LedgerSettles(b.ledger, i);
    CreditIsTrue(b, i, Accrue(b.ledger, i).value);
    ClaimedIs(b, i, wanted, FeesOf(b, i));
  }

  lemma ClaimedIs(b: Books, i: nat, wanted: (nat, nat), fees: Amounts)
    requires i < |b.owed| == |b.ledger.positions| && Accrue(b.ledger, i).Some? && Claimed(b, i, wanted).Done? && UnpaidFit(b)
    requires Settles(b.ledger, Accrue(b.ledger, i).value, i) && |Credit(b.owed, i, b.ledger, Accrue(b.ledger, i).value)| == |b.owed|
    requires Credit(b.owed, i, b.ledger, Accrue(b.ledger, i).value)[i] == fees
    ensures var r := Claimed(b, i, wanted);
      var (pay0, pay1) := (LowerOf(fees[0], wanted.0), LowerOf(fees[1], wanted.1));
      LeftPool(b, r.books, pay0, pay1) && LeavesFees(b, i, [fees[0] - pay0, fees[1] - pay1], r.books)
  {
    hide Accrue, UnpaidFit, Settles, LeavesFees, UnpaidFees, Credit;
    var s', r := Accrue(b.ledger, i).value, Claimed(b, i, wanted);
    var left := [fees[0] - LowerOf(fees[0], wanted.0), fees[1] - LowerOf(fees[1], wanted.1)];
    SettledLeaves(b, i, s', left, r.books);
  }

  /** What all the positions named are to be paid, each once. */
  function UnpaidOf(b: Books, n: nat, positions: seq<nat>, k: nat): nat
    requires k < 2 && n <= |b.owed| == |b.ledger.positions|
  {
    if n == 0 then 0 else UnpaidOf(b, n - 1, positions, k) + if n - 1 in positions then UnpaidFees(b, n - 1, k) else 0
  }

  lemma TakeOne(b: Books, i: nat)
    requires LedgerOk(b.ledger) && FewOutstanding(b.ledger) && |b.owed| == |b.ledger.positions| && UnpaidFit(b) && i < |b.owed|
    ensures Accrue(b.ledger, i).Some? && |Credit(b.owed, i, b.ledger, Accrue(b.ledger, i).value)| == |b.owed|
    ensures var s' := Accrue(b.ledger, i).value;
      var owed := Credit(b.owed, i, b.ledger, s');
      var b' := b.(ledger := s', owed := owed[i := [0, 0]]);
      && owed[i] == FeesOf(b, i) && LeavesFees(b, i, [0, 0], b')
      && LedgerOk(s') && FewOutstanding(s') && UnpaidFit(b')
  {
    hide LedgerOk, FewOutstanding, Needs, Accrue, UnpaidFees, UnpaidFit, LeavesFees, Settles, Credit;
    LedgerSettles(b.ledger, i);
    var s' := Accrue(b.ledger, i).value;
    CreditIsTrue(b, i, s');
    TakeOneNeeds(b, i);
    var b' := b.(ledger := s', owed := Credit(b.owed, i, b.ledger, s')[i := [0, 0]]);
    SettledLeaves(b, i, s', [0, 0], b');
    StillFit(b, i, b');
  }

  lemma StillFit(b: Books, i: nat, b': Books)
    requires i < |b.owed| == |b.ledger.positions| && UnpaidFit(b) && LeavesFees(b, i, [0, 0], b')
    ensures UnpaidFit(b')
  {
    hide UnpaidFees;
  }

  lemma {:induction false} TakesFromSum(b: Books, i: nat, b': Books, n: nat, positions: seq<nat>, k: nat)
    requires k < 2 && i < |b.owed| == |b.ledger.positions| && n <= |b.owed| && LeavesFees(b, i, [0, 0], b')
    requires positions != [] && positions[0] == i
    ensures UnpaidOf(b, n, positions, k) == UnpaidOf(b', n, positions[1..], k) + if i < n then UnpaidFees(b, i, k) else 0
  {
    hide UnpaidFees;
    if n > 0 {
      TakesFromSum(b, i, b', n - 1, positions, k);
      assert n - 1 in positions <==> n - 1 == i || n - 1 in positions[1..];
    }
  }

  /** The fees of these positions are gone, and those of the others are as before. */
  ghost predicate FeesTaken(b: Books, positions: seq<nat>, b': Books)
    requires |b.owed| == |b.ledger.positions|
  {
    && |b'.owed| == |b'.ledger.positions| == |b.owed|
    && forall j: nat, k: nat | k < 2 && j < |b.owed| :: UnpaidFees(b', j, k) == if j in positions then 0 else UnpaidFees(b, j, k)
  }

  /** Taking the fees of several positions takes exactly their unpaid fees, of each position once. */
  lemma {:induction false} TakeAllTakes(b: Books, positions: seq<nat>)
    requires LedgerOk(b.ledger) && FewOutstanding(b.ledger) && |b.owed| == |b.ledger.positions| && UnpaidFit(b)
    ensures TakeAll(b, positions).Some? ==>
      var (rest, total) := TakeAll(b, positions).value;
      && total.0 == UnpaidOf(b, |b.owed|, positions, 0) && total.1 == UnpaidOf(b, |b.owed|, positions, 1)
      && FeesTaken(b, positions, rest)
    decreases |positions|
  {
    hide LedgerOk, FewOutstanding, UnpaidFit, Accrue, Credit, UnpaidFees, LeavesFees, FeesTaken;
    if positions == [] {
      NothingNamed(b, |b.owed|, 0);
      NothingNamed(b, |b.owed|, 1);
      assert FeesTaken(b, [], b) by { NoneTaken(b); }
    } else if positions[0] < |b.owed| {
      var i := positions[0];
      TakeOne(b, i);
      var s' := Accrue(b.ledger, i).value;
      var b' := b.(ledger := s', owed := Credit(b.owed, i, b.ledger, s')[i := [0, 0]]);
      assert |b'.owed| == |b'.ledger.positions| by { LeavesCounts(b, i, [0, 0], b'); }
      TakeAllTakes(b', positions[1..]);
      TakesFromSum(b, i, b', |b.owed|, positions, 0);
      TakesFromSum(b, i, b', |b.owed|, positions, 1);
      if TakeAll(b', positions[1..]).Some? {
        TakenOn(b, positions, b', TakeAll(b', positions[1..]).value.0);
      }
    }
  }

  lemma NoneTaken(b: Books)
    requires |b.owed| == |b.ledger.positions|
    ensures FeesTaken(b, [], b)
  {
    hide UnpaidFees;
  }

  lemma LeavesCounts(b: Books, i: nat, left: Amounts, b': Books)
    requires i < |b.owed| == |b.ledger.positions| && LeavesFees(b, i, left, b')
    ensures |b'.owed| == |b'.ledger.positions| == |b.owed|
  {
  }

  lemma TakenOn(b: Books, positions: seq<nat>, b': Books, rest: Books)
    requires positions != [] && positions[0] < |b.owed| == |b.ledger.positions| && LeavesFees(b, positions[0], [0, 0], b')
    requires |b'.owed| == |b'.ledger.positions| && FeesTaken(b', positions[1..], rest)
    ensures FeesTaken(b, positions, rest)
  {
    hide UnpaidFees;
    assert forall j: nat :: j in positions <==> j == positions[0] || j in positions[1..];
  }

  lemma {:induction false} NothingNamed(b: Books, n: nat, k: nat)
    requires k < 2 && n <= |b.owed| == |b.ledger.positions|
    ensures UnpaidOf(b, n, [], k) == 0
  {
    if n > 0 {
      NothingNamed(b, n - 1, k);
    }
  }

  /** Claiming several positions pays exactly the unpaid fees of each, once, and leaves none of
      them and all of the others' unpaid. */
  lemma ClaimAllPaysInFull(b: Books, positions: seq<nat>)
    requires Solvent(b) && ClaimedAll(b, positions).Done?
    ensures |b.owed| == |b.ledger.positions|
    ensures var r := ClaimedAll(b, positions).books;
      LeftPool(b, r, UnpaidOf(b, |b.owed|, positions, 0), UnpaidOf(b, |b.owed|, positions, 1)) && FeesTaken(b, positions, r)
  {
    hide LedgerOk, OnLadder, Needs, UnpaidFees, UnpaidOf, UnpaidFit, FewOutstanding, TakeAll;
    SolventParts(b);
    TakeAllTakes(b, positions);
    TakeAllNeeds(b, positions);
    FewInSolvent(b);
    var (rest, total) := TakeAll(b, positions).value;
    NeedsNonNegative(rest, 0);
    NeedsNonNegative(rest, 1);
    SameUnpaid(rest, ClaimedAll(b, positions).books);
  }

  lemma SameUnpaid(b: Books, b': Books)
    requires b'.ledger == b.ledger && b'.owed == b.owed && |b.owed| == |b.ledger.positions|
    ensures forall j: nat, k: nat | k < 2 && j < |b.owed| :: UnpaidFees(b', j, k) == UnpaidFees(b, j, k)
  {
  }

  // --------------------------------------------------------------------- liquidity

  /** What some of a position's liquidity stands for in token k, rounded up or down. */
  function LiquidityDue(b: Books, i: nat, amount: U128, k: nat, up: bool): int
    requires i < |b.ledger.positions|
  {
    var p := b.ledger.positions[i];
    RoundedAmount(amount, PerUnit(p.lower, p.upper, k, b.price), up)
  }

  /** What a withdrawal pays: exactly what its liquidity stands for, rounded down, and all of the
      position's unpaid fees. */
  function WithdrawalDue(b: Books, i: nat, amount: U128): (int, int)
    requires i < |b.owed| == |b.ledger.positions|
  {
    (LiquidityDue(b, i, amount, 0, false) + UnpaidFees(b, i, 0), LiquidityDue(b, i, amount, 1, false) + UnpaidFees(b, i, 1))
  }

  lemma WithdrawPaysInFull(b: Books, i: nat, amount: U128)
    requires Solvent(b) && i < |b.owed| && amount <= I128_MAX && amount <= b.ledger.positions[i].liquidity
    ensures b.ledger.spacing > 0 && |b.owed| == |b.ledger.positions|
    ensures Payout(b, i, amount).Some? && WithdrawalDue(b, i, amount) == Payout(b, i, amount).value
  {
    hide Solvent, LedgerOk, OnLadder, Withdraw, Payout, Minting.AmountsForLiquidity, Credit, UnpaidFees, UnpaidFit, FewOutstanding, P, LiquidityDue, Settles;
    SolventParts(b);
    PayoutExists(b, i, amount);
    var s', paid := PayoutNeeds(b, i, amount);
    WithdrawBacked(b, i, amount, s', paid);
    WithdrawSettles(b.ledger, i, amount);
    CreditIsTrue(b, i, s');
    FewInSolvent(b);
    DueIsPaid(b, i, amount, false, paid);
  }

  /** A withdrawal that is made pays that and takes the liquidity away; nothing is left unpaid, and
      all others keep their fees. */
  lemma WithdrawnInFull(b: Books, i: nat, amount: U128, min: (nat, nat))
    requires Solvent(b) && i < |b.owed| && amount <= I128_MAX && amount <= b.ledger.positions[i].liquidity
    ensures b.ledger.spacing > 0 && |b.owed| == |b.ledger.positions|
    ensures var r, due := Withdrawn(b, i, amount, min), WithdrawalDue(b, i, amount);
      r.Done? ==>
        && LeftPool(b, r.books, due.0, due.1) && LeavesFees(b, i, [0, 0], r.books)
        && r.books.ledger.positions[i].liquidity == b.ledger.positions[i].liquidity - amount
  {
    hide *;
    WithdrawPaysInFull(b, i, amount);
    if Withdrawn(b, i, amount, min).Done? {
      SolventParts(b);
      WithdrawnIs(b, i, amount, min, Payout(b, i, amount).value);
    }
  }

  lemma WithdrawnIs(b: Books, i: nat, amount: U128, min: (nat, nat), total: (nat, nat))
    requires LedgerOk(b.ledger) && FewOutstanding(b.ledger) && i < |b.ledger.positions| == |b.owed| && UnpaidFit(b) && b.ledger.spacing > 0
    requires Withdrawn(b, i, amount, min).Done? && Payout(b, i, amount) == Some(total)
    ensures var r := Withdrawn(b, i, amount, min).books;
      && LeftPool(b, r, total.0, total.1) && LeavesFees(b, i, [0, 0], r)
      && r.ledger.positions[i].liquidity == b.ledger.positions[i].liquidity - amount
  {
    hide LedgerOk, FewOutstanding, UnpaidFit, Payout, Withdraw, Credit, LeavesFees, Settles, LeftPool;
    PayoutWithdraws(b, i, amount);
    var s' := Withdraw(b.ledger, i, amount).value;
    WithdrawSettles(b.ledger, i, amount);
    CreditIsTrue(b, i, s');
    WithdrawnBooks(b, i, amount, min, total);
    SettledLeaves(b, i, s', [0, 0], Withdrawn(b, i, amount, min).books);
  }

  lemma WithdrawnBooks(b: Books, i: nat, amount: U128, min: (nat, nat), total: (nat, nat))
    requires b.ledger.spacing > 0 && i < |b.ledger.positions| == |b.owed| && Withdraw(b.ledger, i, amount).Some?
    requires Withdrawn(b, i, amount, min).Done? && Payout(b, i, amount) == Some(total)
    ensures var r, s' := Withdrawn(b, i, amount, min).books, Withdraw(b.ledger, i, amount).value;
      && LeftPool(b, r, total.0, total.1) && r.ledger == s'
      && |Credit(b.owed, i, b.ledger, s')| == |b.owed| && r.owed == Credit(b.owed, i, b.ledger, s')[i := [0, 0]]
  {
    hide Payout, Withdraw;
  }

  lemma PayoutWithdraws(b: Books, i: nat, amount: U128)
    requires b.ledger.spacing > 0 && i < |b.ledger.positions| == |b.owed| && Payout(b, i, amount).Some?
    ensures Withdraw(b.ledger, i, amount).Some?
  {
    hide Withdraw, Credit, Minting.AmountsForLiquidity, P;
  }

  /** Amounts for liquidity that are token amounts are not cut off. */
  lemma DueIsPaid(b: Books, i: nat, amount: U128, up: bool, paid: (U128, U128))
    requires Solvent(b) && i < |b.owed|
    requires var p := b.ledger.positions[i]; Minting.AmountsForLiquidity(b.price, P(p.lower), P(p.upper), amount, up) == Some(paid)
    requires paid.0 <= I128_MAX && paid.1 <= I128_MAX
    ensures |b.owed| == |b.ledger.positions| && paid.0 == LiquidityDue(b, i, amount, 0, up) && paid.1 == LiquidityDue(b, i, amount, 1, up)
  {
    hide Solvent, LedgerOk, OnLadder, Minting.AmountsForLiquidity, P, PerUnit, RoundedAmount, AmountOf, UnpaidFit, FewOutstanding;
    SolventParts(b);
    PositionInRange(b.ledger, i);
    PriceInRange(b.ledger.tick, b.price);
    var p := b.ledger.positions[i];
    AmountsAreWorth(b.price, p.lower, p.upper, amount, up);
    Rises(p.lower, p.upper);
    PerUnitNonNegative(p.lower, p.upper, 0, b.price);
    PerUnitNonNegative(p.lower, p.upper, 1, b.price);
    NotCutOff(amount, PerUnit(p.lower, p.upper, 0, b.price), up);
    NotCutOff(amount, PerUnit(p.lower, p.upper, 1, b.price), up);
  }

  lemma NotCutOff(l: U128, unit: real, up: bool)
    requires unit >= 0.0 && AmountOf(l, unit, up) <= I128_MAX
    ensures RoundedAmount(l, unit, up) == AmountOf(l, unit, up)
  {
    RealMono(0.0, unit, l as real);
  }

  /** A deposit that is made takes exactly what the bought liquidity stands for, rounded up, within
      the desired amounts, and adds that liquidity; it is the most those amounts afford, as far as
      what token0 buys fits a word. Nobody's fees change. */
  lemma DepositTakesItsWorth(b: Books, i: nat, desired0: U128, desired1: U128, minLiquidity: U128)
    requires Solvent(b) && i < |b.owed|
    ensures b.ledger.spacing > 0 && |b.owed| == |b.ledger.positions| && P(b.ledger.positions[i].lower) < P(b.ledger.positions[i].upper)
    ensures var r, p := Deposited(b, i, desired0, desired1, minLiquidity), b.ledger.positions[i];
      r.Done? ==>
        && |r.books.ledger.positions| == |b.ledger.positions| && r.books.ledger.positions[i].liquidity >= p.liquidity
        && var l: U128 := r.books.ledger.positions[i].liquidity - p.liquidity;
        && LeftPool(b, r.books, -LiquidityDue(b, i, l, 0, true), -LiquidityDue(b, i, l, 1, true))
        && LiquidityDue(b, i, l, 0, true) <= desired0 && LiquidityDue(b, i, l, 1, true) <= desired1
        && LeavesFees(b, i, FeesOf(b, i), r.books)
        && (Minting.Fits0(b.price, P(p.lower), P(p.upper), desired0) ==>
              forall l': nat :: Minting.Affords(b.price, P(p.lower), P(p.upper), desired0, desired1, l') <==> l' <= l)
  {
    hide Solvent, LedgerOk, OnLadder, P, Deposit, Deposited, Credit, UnpaidFit, FewOutstanding, LiquidityDue, Settles, LeavesFees, FeesOf, LeftPool,
      Minting.MaxLiquidity, Minting.AmountsForLiquidity, Minting.Fits0, Minting.Affords, PerUnit;
    SolventParts(b);
    var p := b.ledger.positions[i];
    PositionInRange(b.ledger, i);
    Rises(p.lower, p.upper);
    Positive(p.lower);
    BelowEnd(p.upper);
    var r := Deposited(b, i, desired0, desired1, minLiquidity);
    if r.Done? {
      var l, charged := DepositedIs(b, i, desired0, desired1, minLiquidity);
      DepositSettles(b.ledger, i, l);
      DepositCharge(b, i, desired0, desired1, l);
      DueIsPaid(b, i, l, true, charged);
      var s' := r.books.ledger;
      CreditIsTrue(b, i, s');
      SettledLeaves(b, i, s', FeesOf(b, i), r.books);
      if Minting.Fits0(b.price, P(p.lower), P(p.upper), desired0) {
        Minting.DepositIsMost(b.price, P(p.lower), P(p.upper), desired0, desired1);
      }
    }
  }

  lemma BelowEnd(tick: int)
    requires MIN_TICK <= tick <= MAX_TICK
    ensures P(tick) <= MAX_SQRT_RATIO
  {
    hide P;
    Ends();
    Rises(tick, MAX_TICK);
  }

  lemma DepositedIs(b: Books, i: nat, desired0: U128, desired1: U128, minLiquidity: U128) returns (l: U128, charged: (U128, U128))
    requires Solvent(b) && i < |b.owed| == |b.ledger.positions| && b.ledger.spacing > 0
    requires Deposited(b, i, desired0, desired1, minLiquidity).Done?
    ensures var p := b.ledger.positions[i];
      && Minting.MaxLiquidity(b.price, P(p.lower), P(p.upper), desired0, desired1) == Some(l)
      && Minting.AmountsForLiquidity(b.price, P(p.lower), P(p.upper), l, true) == Some(charged)
    ensures charged.0 <= I128_MAX && charged.1 <= I128_MAX
    ensures var r := Deposited(b, i, desired0, desired1, minLiquidity).books;
      && Deposit(b.ledger, i, l) == Some(r.ledger) && LeftPool(b, r, -(charged.0 as int), -(charged.1 as int))
      && r.owed == Credit(b.owed, i, b.ledger, r.ledger)
  {
    hide Solvent, LedgerOk, OnLadder, P, Deposit, Credit, Minting.MaxLiquidity, Minting.AmountsForLiquidity;
    var p := b.ledger.positions[i];
    l := Minting.MaxLiquidity(b.price, P(p.lower), P(p.upper), desired0, desired1).value;
    charged := Minting.AmountsForLiquidity(b.price, P(p.lower), P(p.upper), l, true).value;
    DepositCharge(b, i, desired0, desired1, l);
  }
}
