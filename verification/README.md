# Verified model of an automated market maker on Soroban

A Dafny model of the arithmetic, the data structures and the state machines of an AMM:
a concentrated-liquidity pool (512-bit arithmetic, tick/price conversion, tick index, depth
walk, swap loop, positions and fees), a constant-product pool, the stableswap depth estimator
and the delayed transfer of privileged roles. `dafny verify dfyconfig.toml` checks it.

Machine integers are bounded (`U128`, `U256`); every assignment to one is a proof that the
operation does not overflow there, and an operation that may panic yields `None` or an error.
A panic undoes the whole invocation, as the Soroban host does. Objects whose methods
overwrite fields are classes (`ChunkStore.ChunkCache`, `ChunkStore.TickStorage`,
`StoredPool.ConcentratedPool`, `ConstantProductPool.Pool`, `OwnershipTransfer.AccessControl`); loops are loops, each proved
against a function whose own properties are then proved as lemmas.

## How the modules build on each other

| theme | modules, lowest first |
|---|---|
| words and 512-bit arithmetic | `Words`, `U512` |
| prices and amounts | `PriceMath`, `NextPrice`, `Minting`, `SwapStep` |
| ticks and prices | `TickMath`, `TickLadder`, `TickAccuracy` |
| tick index and cache | `Bitmap`, `ChunkStore`, `TickIndex`, `TickSearch`, `TickMaintenance`, `TickUpdate`, `SwapSearch` |
| depth walk and snapshot | `StepWalk`, `StepDepth`, `DepthLiquidity`, `PlaneSnapshot` |
| positions and fees | `FeeGrowth`, `LiquidityLedger`, `LedgerInvariants`, `LedgerRuns` |
| swaps | `PositionWorth`, `SwapRounds`, `SwapDues`, `SwapLoop` |
| reserves of the concentrated pool | `Solvency`, `Payouts`, `SolvencyRuns`, `WrappedCall` |
| the concentrated pool on its storage | `StoredLedger`, `StoredBooks`, `StoredPool` |
| constant-product pool | `PoolQuotes`, `PoolSteps`, `PoolInvariants`, `PoolRuns`, `ConstantProductPool` |
| stableswap estimator | `StableNewton`, `StableDepth` |
| delayed role transfer | `OwnershipTransfer` |

The results a reader should look at first:

- `TickAccuracy.TickOfPriceIsExact`: for every legal price, `tick_at_sqrt_ratio` returns
  exactly the last tick whose price is not above it. The table of multipliers, the 14-bit
  logarithm, the three constants and the final choice are all part of the proof.
- `SwapLoop.SwapLoop` and `SwapRounds.SwapEnds`: a whole swap, over the stored three-level index
  and its write-back cache, is one recursion over rounds, failures included, the same for a
  simulation and for a real swap; when it ends it has stopped only for one of the reasons it
  may, the pool's liquidity is the sum of the positions in range, the fee on what was paid is
  covered and so is what the positions gained. `SwapRounds.SwapSucceeds` gives bounds under
  which it cannot fail. `SwapDues.SwapIsDue` and `Solvency.SwapPaysInFull` bound it from the
  other side: up to units of rounding for each round, the user gets all that positions give up,
  and the price moves as far as the input net of the fee pays for.
- `Payouts`: what deposits take and withdrawals and claims pay, exactly, in terms of what
  liquidity stands for and fees as they were earned; a deposit buys the most it can
  (`Minting.DepositIsMost`).
- `StoredPool.ConcentratedPool`: deposits, withdrawals, claims and the public swaps of the
  concentrated pool, carried out on stored chunks, bitmaps, bounds, counters, positions and
  reserves, are one event of the books each. Each leaves storage in step with them and, except
  for swaps whose surplus does not pay, the pool solvent. No operation of a solvent pool is
  refused for lack of reserves. The books are where the pool's whole history led from an empty
  pool, so what is proved of runs holds of storage (`TokensAreAccountedFor`).
- `SolvencyRuns.ReservesAlwaysSuffice` and `SolvencyRuns.EveryPositionCanLeave`: over every run
  of deposits, withdrawals, claims and whole swaps with their surplus, however long and however
  much it pays in fees, the concentrated pool's reserves cover what all positions stand for and
  all their fees, for every spacing that does not divide the last tick and public swaps whose
  amount out is at most 2^127 - 1.
  `SolvencyRuns.RunAccountsForTokens`: the contract holds exactly the reserves, the protocol's
  fees and what was given to it. `WrappedCall.WrappedCallBreaksSolvency` is a run with one larger
  amount out after which a position cannot be paid its fees; `Solvency.SurplusPaysExactly` says
  exactly when the surplus of any swap is covered.
- `TickSearch.FindInitializedTick`: the search through two bitmap levels and the cache is the
  linear scan over all ticks.
- `LedgerRuns.FeesCoverCredits`: in every run whose surpluses pay for themselves, credited fees
  never exceed the fees paid, even when the 256-bit counters wrap; `LedgerRuns.RunWraps` is a run
  from an empty pool in which the global counter passes 2^256, and `LedgerRuns.RunOvercredits` one
  with a surplus that does not pay.
- `PoolRuns.ReachableIsSolvent` and `PoolRuns.NoRunDrainsReserves`: every run of the
  constant-product pool stays solvent, backs its shares, and never lets both reserves fall.
- `U512.MulDivFloorExact`: when the 512-bit multiply-divide is exact, both ways.
- `StableDepth.TwoCoinsConverge` and `StableDepth.SomePoolsRunOut`: for two coins, where the
  iteration for D always ends within its 255 rounds, and a pool where it never does.

## Where the code differs from its documentation

- `u512.rs:80` says that multiply-divide panics on a zero divisor. It returns 0 when an
  operand is zero, whatever the divisor (`MulDivFloorExact`).
- Nothing checks that the quotient fits 256 bits. For divisors below 2^248 the high bits are
  cut silently (`MulDivCutsSilently`), and `get_next_sqrt_price_from_amount0` can return a
  price on the wrong side at legal values (`OutputPrice0Cut`); `OutputPrice0` says exactly when
  its answer is right. Inside `compute_swap_step` the cut cannot happen, because a target bounds
  the price (`OutputStop`).
- `math.rs:475` calls `liquidity_for_amount0` the maximum liquidity mintable. It is the most that
  token0 pays for if and only if that is below 2^256, or its low 256 bits exceed 128 bits
  (`Bought0IsMost`, with `Bought0IsCut` for the rest: two prices one apart). The comment of
  `liquidity_for_amount1` holds always (`LiquidityBought1`).
- `extensions.rs:158-159` caps deposit amounts at the desired ones against "double-ceil"
  overshoot. The nested rounding equals a single rounding and never overshoots
  (`Amount0IsSingleRounding`, `DepositCovered`).
- `find_initialized_tick_in_word` cannot tell an initialized `MIN_TICK` or `MAX_TICK` outside
  the starting word from an empty word and answers with the word's end. That is the only
  disagreement with a linear scan (`DisagreesOnlyAtSentinel`), and it skips nothing
  (`SkipsNothingDown`, `SkipsNothingUp`).
- `collect_exact_direction_steps` crosses an initialized tick twice when it lies on the
  boundary between two steps, so later steps are off by that tick's net liquidity
  (`CrossesEachTickOnce`: exactly then).
- `swap_internal` spreads an unswapped exact input (internal.rs:1484-1551), by its comment over
  the providers at the last active tick: it adds growth at the rate of the last liquidity that
  was not zero, and the same growth once more at the last tick crossed. That reaches the
  positions on the far side of that tick. When the swap goes on after its last crossing into
  less liquidity than before it, and stops there at the price limit, the credits exceed what
  was paid (`RunOvercredits`: 1001 times). `SurplusPaysExactly` and `SurplusPaysIff` give the
  condition: it pays when nothing was crossed, when the last round ended on the crossing, when
  no liquidity is in range at the end, and when there is at least as much as before the
  crossing; a surplus that is large against both liquidities pays only then. With the default
  limit of both public swaps, a spacing that does not divide 887272 and an input that takes no
  more than the amount asked for, the failing case cannot occur (`DefaultSurplusPays`); the
  router's spacings 20, 60 and 200 are of that kind, 1, 2, 4 and 8 are not.
- `swap_strict_receive` casts the amount out to a signed number without a range check
  (liquidity_pool_interface.rs:242) and negates it. An amount out of 2^127 panics; a larger one
  turns into an exact input of 2^128 less it, with the caller's maximum as the input taken:
  nothing is refunded and all of the maximum that is not swapped is spread as a surplus, although
  the loop used up its amount. The public swaps take no more than their amount if and only if the
  amount out is at most 2^127 - 1, or wraps to just that maximum (`PublicTakesItsAmount`). Above
  it the surplus may stop the pool from paying, at any spacing: at spacing 60,
  `WrappedCallBreaksSolvency` goes from an empty pool through two deposits and one such call to a
  fee claim that the reserves cannot pay. `SurplusPaysExactly` says which of these calls pay.
- The constant-product invariant check multiplies scaled reserves in 256 bits, and overflows
  rather than compares when the product does not fit. A quoted swap that is paid settles if and
  only if that product and the one of fee and protocol fraction fit their words
  (`SettlesExactly`, for both quotes; `SwapSucceeds` and `SwapStrictSucceeds` for whole calls); a pool whose reserves
  multiply to 2^256 / 10^8 or more cannot trade at all (`HugePoolCannotTrade`), and a smaller
  one may refuse its own quote (`MediumPoolRefusesQuote`). The check never reports that the
  invariant does not hold on an amount the pool computed.
- `get_d` is a Newton iteration that should settle within its 255 rounds. It folds the product
  of the balances with a rounded-down division per coin, in the order they are given. With the
  large balance first the rounding is coarse enough for D to jump between two numbers for ever:
  balances 624 and 1 with amplification 1 (`SomePoolsRunOut`). With two coins it always settles
  when the first balance is not the larger one, and also when it is larger by a factor of at most
  four times the amplification less five and the smaller is at least 5 (`TwoCoinsConverge`).
- The three-day delay protects a role only once it has an address: a transfer of a delayed
  role that nobody holds can be applied at once, and the theorems about the delay say so in
  their premise.

## Model

| member | source | states |
|---|---|---|
| U512.WrappingAdd | liquidity_pool_concentrated/src/u512.rs:19-28 | sum modulo 2^256 and carry together are the true sum |
| U512.U256FullMul | liquidity_pool_concentrated/src/u512.rs:38-73 | the two words are the exact 512-bit product for all operands, and no partial sum overflows |
| U512.U512DivBytes | liquidity_pool_concentrated/src/u512.rs:138-167 | the 64-byte loop yields the true remainder and the true quotient modulo 2^256 for every divisor below 2^248 |
| U512.DivBitsRound | liquidity_pool_concentrated/src/u512.rs:187-214 | one round, with its carry branch, is one step of binary long division or the same panic |
| U512.U512DivBits | liquidity_pool_concentrated/src/u512.rs:173-217 | the 256-round loop refines the recursive binary division, including where it panics |
| U512.BitsDivideSound | liquidity_pool_concentrated/src/u512.rs:173-217 | from any starting remainder, quotient times divisor plus remainder is the dividend; a panic needs a starting remainder not below the divisor |
| U512.BitsDivideExact | liquidity_pool_concentrated/src/u512.rs:173-217 | with high word below the divisor, which is exactly when the quotient fits, the bit loop gives true quotient and remainder |
| U512.U512Divide | liquidity_pool_concentrated/src/u512.rs:117-127 | the choice between the two loops, by the size of the divisor, divides the double word |
| U512.MulDivInternal | liquidity_pool_concentrated/src/u512.rs:95-134 | the imperative routine refines one function of operands, divisor and rounding, panics included |
| U512.MulDivFloorExact | liquidity_pool_concentrated/src/u512.rs:75-83 | for nonzero operands the result is the true floor of a*b/d if and only if that fits 256 bits; what zero operands and divisors give |
| U512.MulDivCeilExact | liquidity_pool_concentrated/src/u512.rs:85-93 | the same equivalence for the true ceiling |
| U512.MulDivNeverAbove | liquidity_pool_concentrated/src/u512.rs:95-134 | whatever is returned, cut or not, never exceeds the true quotient |
| U512.MulDivCutsSilently | liquidity_pool_concentrated/src/u512.rs:138-167 | a concrete product whose quotient is nonzero and comes back as zero |
| PriceMath.Amount0IsSingleRounding | liquidity_pool_concentrated/src/math.rs:300-338 | the two nested divisions with their 512-bit fallback equal one exact floor or ceiling of L*(sb-sa)/(sa*sb), for all prices in either order |
| PriceMath.Amount1IsSingleRounding | liquidity_pool_concentrated/src/math.rs:341-365 | the same for token1 over the whole price range |
| PriceMath.Amount1Fits | liquidity_pool_concentrated/src/math.rs:341-365 | token1 amounts between pool prices always fit 256 bits |
| PriceMath.SplitAmount0 | liquidity_pool_concentrated/src/math.rs:300-338 | splitting a price move never lowers the rounded-up total and never raises the rounded-down one |
| PriceMath.SplitAmount1 | liquidity_pool_concentrated/src/math.rs:341-365 | the same for token1 |
| PriceMath.RoundingGap | liquidity_pool_concentrated/src/math.rs:300-365 | rounding up costs at most one unit more than rounding down, for both tokens |
| NextPrice.InputPrice0 | liquidity_pool_concentrated/src/math.rs:533-578 | token0 in: exactly when it panics, the new price costs at most the input, any lower price costs at least all of it, and without the overflow branch more |
| NextPrice.InputFallback0 | liquidity_pool_concentrated/src/math.rs:533-578 | the overflow branch's price lies between the exact price and the old one, so it never favours the trader |
| NextPrice.FallbackReach0 | liquidity_pool_concentrated/src/math.rs:533-578 | below the overflow branch's price every price costs at least the whole input |
| NextPrice.OutputPrice0 | liquidity_pool_concentrated/src/math.rs:533-578 | token0 out: the returned price pays the output if and only if the exact new price fits 256 bits |
| NextPrice.OutputPrice0Cut | liquidity_pool_concentrated/src/math.rs:533-578 | legal values at which the returned price does not pay the output |
| NextPrice.InputPrice1 | liquidity_pool_concentrated/src/math.rs:581-602 | token1 in: exactly when it fails, and otherwise the highest price whose rounded-up cost is within the input |
| NextPrice.OutputPrice1 | liquidity_pool_concentrated/src/math.rs:581-602 | token1 out: exactly when it fails, and otherwise the highest price that pays the output rounded down |
| Minting.MintCovered0 | liquidity_pool_concentrated/src/math.rs:476-502 | liquidity bought with token0 costs, rounded up, at most the amount supplied |
| Minting.MintCovered1 | liquidity_pool_concentrated/src/math.rs:505-530 | liquidity bought with token1 costs, rounded up, at most the amount supplied; `LiquidityBought1` says how much it is |
| Minting.DepositCovered | liquidity_pool_concentrated/src/contract/extensions.rs:137-177 | at every price against the range, the amounts charged are within the desired ones without the cap, and withdrawing at once pays no more |
| Minting.MostIsMost1 | liquidity_pool_concentrated/src/math.rs:505-530 | exactly the liquidity v up to the quotient of the amount in Q96 and the price difference costs no more than the amount; v * (pb - pa) <= amount * Q96 < (v + 1) * (pb - pa) |
| Minting.MostIsMost0 | liquidity_pool_concentrated/src/math.rs:476-502 | liquidity up to the token0 quotient costs no more than the amount, liquidity above it does but for the rounding of the product of prices; both products bracketed |
| Minting.LiquidityBought1 | liquidity_pool_concentrated/src/math.rs:505-530 | token1 buys exactly the most it can pay for, with the prices in either order, and fails only when that is no 128-bit number |
| Minting.LiquidityBought0 | liquidity_pool_concentrated/src/math.rs:476-502 | between ladder prices token0 buys the low 256 bits of the most it can pay for, or fails when they are no 128-bit number |
| Minting.Bought0IsMost | liquidity_pool_concentrated/src/math.rs:476-502 | that is the most it can pay for if and only if the most is below 2^256 or its low 256 bits are no 128-bit number |
| Minting.Bought0IsCut | liquidity_pool_concentrated/src/math.rs:476-502 | prices one apart at which 2^34 of token0 buy 2^97 units in place of 2^256 + 2^97 |
| Minting.DepositIsMost | liquidity_pool_concentrated/src/contract/internal.rs:1095-1126 | at every price against the range, a deposit buys the most liquidity that both desired amounts afford, while what token0 affords fits its word, and fails only when one of them affords more than 128 bits |
| Minting.MoreCostsMore | liquidity_pool_concentrated/src/contract/internal.rs:1095-1126 | in tokens: liquidity up to that is within both desired amounts and more of it exceeds one, but for the rounding of the product of prices |
| SwapStep.FeeShare | liquidity_pool_concentrated/src/contract/internal.rs:827-959 | spending is within the input net of fee exactly when spending plus its rounded-up fee is within the input |
| SwapStep.InputStop | liquidity_pool_concentrated/src/contract/internal.rs:827-959 | where an exact-input step stops: at the target exactly when the whole move is affordable, and else at a price that is paid for and beyond which any move costs at least the whole input, more where the token0 denominator fits |
| SwapStep.OutputStop | liquidity_pool_concentrated/src/contract/internal.rs:827-959 | where an exact-output step stops: at the target when the whole move pays no more than wanted, and else at the nearest price that pays it: exactly the prices from there on do |
| SwapStep.ExactInputStep | liquidity_pool_concentrated/src/contract/internal.rs:827-959 | panics exactly when it stops short of its target and the token0 denominator overflows; else it takes the exact cost of the farthest affordable move, pays exactly its output rounded down (2^128 - 1 when larger), and charges exactly the fee due, or all that is left when it stops early |
| SwapStep.ExactOutputStep | liquidity_pool_concentrated/src/contract/internal.rs:827-959 | panics exactly when the fee exceeds 128 bits; else it moves to the nearest price that pays, pays the exact output but no more than wanted, takes the exact cost and exactly the fee due on it |
| TickMath.SqrtRatioAtTick | liquidity_pool_concentrated/src/math.rs:146-175 | every legal tick has a positive price below 2^192 with no overflow in any of the 20 products |
| TickMath.ComputeSqrtRatioAtTick | liquidity_pool_concentrated/src/math.rs:146-175 | the loop over the multipliers refines the recursive product and fails exactly outside the tick range |
| TickMath.EndsOfLadder | liquidity_pool_concentrated/src/math.rs:138-175 | the prices of the first and last tick are the two constants that bound prices |
| TickLadder.RatioFalls | liquidity_pool_concentrated/src/math.rs:146-175 | the next tick's ratio is smaller by at least one part in 20002, up to the rounding of 20 products |
| TickLadder.PricesRise | liquidity_pool_concentrated/src/math.rs:146-175 | `sqrt_ratio_at_tick` is strictly increasing over the whole tick range, rounding included |
| TickMath.NormalizeIsMantissa | liquidity_pool_concentrated/src/math.rs:183-207 | the shifted ratio lies in [2^127, 2^128) and is the ratio divided or multiplied by the right power of two |
| TickMath.SquareRange | liquidity_pool_concentrated/src/math.rs:209-222 | a squared mantissa renormalises to a mantissa whichever bit comes out |
| TickMath.SquareWords | liquidity_pool_concentrated/src/math.rs:209-222 | the words of the widening product give the loop's bit and next mantissa |
| TickMath.LogBracket | liquidity_pool_concentrated/src/math.rs:209-222 | after k squarings, mantissa and bits bracket the k-th square of every number that starts with the first mantissa, with an error below 6^k units |
| TickMath.FractionNeverOverestimates | liquidity_pool_concentrated/src/math.rs:209-222 | the bits N of k squarings satisfy 2^(127*2^k + N) <= r0^(2^k) |
| TickMath.FractionAlmostReached | liquidity_pool_concentrated/src/math.rs:209-222 | and are short by at most one unit of the last bit and a relative 2^-71 |
| TickMath.Log2NeverOverestimates | liquidity_pool_concentrated/src/math.rs:188-222 | integer and fractional part together never exceed the true logarithm of the ratio |
| TickMath.ComputeLog2 | liquidity_pool_concentrated/src/math.rs:188-222 | the loop that ors bits into the word computes that logarithm in 64.64 fixed point |
| TickMath.TickCandidates | liquidity_pool_concentrated/src/math.rs:224-246 | the split signed product is the true product; the candidates are its floors with both error bounds, differ by at most one and fit 32 bits |
| TickMath.ChooseTick | liquidity_pool_concentrated/src/math.rs:224-254 | the choice between the candidates by the price of the higher one, including its failure |
| TickMath.TickAtSqrtRatio | liquidity_pool_concentrated/src/math.rs:177-255 | the whole conversion refines the function that the exactness theorem is about |
| TickMath.WideningMul | liquidity_pool_concentrated/src/math.rs:259-276 | the two words are the exact 256-bit product and no partial sum overflows |
| TickAccuracy.UpperLog | liquidity_pool_concentrated/src/math.rs:146-175 | each multiplier is at most 2^i ticks' worth of one common logarithm |
| TickAccuracy.LowerLog | liquidity_pool_concentrated/src/math.rs:146-175 | and at least that of a logarithm two parts in 3*10^8 larger, rounding of products included |
| TickAccuracy.RatioLogs | liquidity_pool_concentrated/src/math.rs:146-175 | hence every tick's ratio is a power of one base up to that gap |
| TickAccuracy.LowIsBelow | liquidity_pool_concentrated/src/math.rs:224-254 | every legal tick up to the low candidate has a price not above the given one |
| TickAccuracy.HighIsAbove | liquidity_pool_concentrated/src/math.rs:224-254 | every legal tick above the high candidate has a higher price |
| TickAccuracy.TickOfPriceIsExact | liquidity_pool_concentrated/src/math.rs:177-255 | for every legal price the conversion succeeds and returns the last tick whose price is not above it |
| TickAccuracy.TickRoundTrip | liquidity_pool_concentrated/src/math.rs:146-255 | converting a tick to its price and back returns the tick, for every tick below the last |
| TickAccuracy.TickFollowsPrice | liquidity_pool_concentrated/src/math.rs:177-255 | the tick never falls as the price rises |
| Bitmap.WithBitSetsOne | liquidity_pool_concentrated/src/bitmap.rs:15-28 | writing one bit of a 256-bit word changes that bit and no other |
| Bitmap.SetBit | liquidity_pool_concentrated/src/bitmap.rs:15-28 | the in-place byte operation writes that bit, and ignores positions outside the word |
| Bitmap.FindPrevSetBit | liquidity_pool_concentrated/src/bitmap.rs:30-53 | finds exactly the highest set bit at or below the start, or says there is none |
| Bitmap.FindNextSetBit | liquidity_pool_concentrated/src/bitmap.rs:55-79 | finds exactly the lowest set bit at or above the start, clamped to the word |
| Bitmap.ZeroWordHasNoBit | liquidity_pool_concentrated/src/contract/internal.rs:34-49 | a word is zero exactly when none of its 256 bits is set |
| Bitmap.CompressIsFloor | liquidity_pool_concentrated/src/bitmap.rs:95-101 | truncating division with correction is floor division, for negative ticks too |
| Bitmap.CompressRoundTrip | liquidity_pool_concentrated/src/bitmap.rs:95-109 | decompressing and compressing returns the compressed tick wherever nothing is clamped |
| ChunkStore.ChunkAddress | liquidity_pool_concentrated/src/storage.rs:218-222 | chunk and slot are the Euclidean quotient and remainder by 16 |
| ChunkStore.ChunkCache.GetChunk | liquidity_pool_concentrated/src/storage.rs:332-341 | returns cached over stored chunk, and the whole new cache state |
| ChunkStore.ChunkCache.GetOrCreateChunk | liquidity_pool_concentrated/src/storage.rs:344-351 | a missing chunk reads as the empty one and is cached, not marked dirty |
| ChunkStore.ChunkCache.SetChunk | liquidity_pool_concentrated/src/storage.rs:354-357 | the chunk is cached and dirty, storage is untouched |
| ChunkStore.ChunkCache.GetTick | liquidity_pool_concentrated/src/storage.rs:360-372 | reads the tick's slot through the cache, zero when there is no chunk |
| ChunkStore.ChunkCache.Flush | liquidity_pool_concentrated/src/storage.rs:375-381 | storage becomes storage overwritten by the dirty chunks |
| ChunkStore.StepRefines | liquidity_pool_concentrated/src/storage.rs:318-372 | each cache operation answers as direct storage would and keeps the cache coherent |
| ChunkStore.CacheRefinesStorage | liquidity_pool_concentrated/src/storage.rs:318-381 | over any sequence of operations, every answer and the flushed storage are those of writing directly |
| ChunkStore.FlushIsClean | liquidity_pool_concentrated/src/storage.rs:375-381 | flushing touches no clean chunk, is idempotent and keeps the cache coherent |
| TickIndex.CompressedRange | liquidity_pool_concentrated/src/storage.rs:56-62 | legal ticks of any spacing lie in the two level-2 words around zero |
| TickIndex.AdjacentWord | liquidity_pool_concentrated/src/contract/internal.rs:175-204 | finds exactly the nearest marked level-1 word within its own and the neighbouring level-2 word |
| TickSearch.FindDown | liquidity_pool_concentrated/src/plane.rs:102-172 | the downward three-level search through the cache is the linear scan down, leaving what the cache shows unchanged |
| TickSearch.FindUp | liquidity_pool_concentrated/src/plane.rs:173-245 | the upward search is the linear scan up |
| TickSearch.FindInitializedTick | liquidity_pool_concentrated/src/plane.rs:94-246 | from any cursor of the legal range, exactly the nearest initialized tick within the limit with its net liquidity, or none; a tick found is right from any cursor |
| TickSearch.NearestIsInitialized | liquidity_pool_concentrated/src/plane.rs:94-246 | what the scan finds is initialized and between cursor and limit |
| TickMaintenance.UpdateChunkBitmapBit | liquidity_pool_concentrated/src/contract/internal.rs:34-49 | changes one level-1 bit and keeps level 2 exactly in step with empty words |
| TickMaintenance.ScanChunkHighestInit | liquidity_pool_concentrated/src/contract/internal.rs:62-69 | finds exactly the highest initialized slot of a chunk |
| TickMaintenance.ScanChunkLowestInit | liquidity_pool_concentrated/src/contract/internal.rs:72-79 | finds exactly the lowest initialized slot of a chunk |
| TickMaintenance.ExtremeTickInBitmapWord | liquidity_pool_concentrated/src/contract/internal.rs:141-170 | the highest or lowest initialized tick of a level-1 word, or the end of the tick range |
| TickMaintenance.NextGlobalTickDown | liquidity_pool_concentrated/src/contract/internal.rs:86-137 | from above all initialized ticks, the search returns the highest of all, or the sentinel when there is none |
| TickMaintenance.NextGlobalTickUp | liquidity_pool_concentrated/src/contract/internal.rs:86-137 | from below all initialized ticks, the lowest of all |
| TickMaintenance.FindNextGlobalTick | liquidity_pool_concentrated/src/contract/internal.rs:86-137 | both directions together, on ticks rather than compressed ticks |
| TickUpdate.MaxLiquidityPerTick | liquidity_pool_concentrated/src/constants.rs:16-19 | the largest cap such that usable ticks times cap fit 128 bits |
| TickUpdate.ChunkHasInitialized | liquidity_pool_concentrated/src/contract/internal.rs:52-59 | true exactly when some slot has gross liquidity |
| TickUpdate.WriteTick | liquidity_pool_concentrated/src/contract/internal.rs:354-396 | writing one tick changes no other tick and keeps all three index levels consistent |
| TickUpdate.UpdateBounds | liquidity_pool_concentrated/src/contract/internal.rs:381-404 | the stored lowest and highest initialized tick stay exact when a tick appears or disappears |
| TickUpdate.UpdateTickLiquidity | liquidity_pool_concentrated/src/contract/internal.rs:308-405 | succeeds exactly when the tick's own update does, changes that tick only, keeps index and bounds, and a failure changes nothing |
| SwapSearch.FindInitializedTickInWord | liquidity_pool_concentrated/src/contract/internal.rs:209-306 | the search answers with the nearest initialized tick of a linear scan, or with the end of the starting word when that is none or a sentinel outside the word |
| SwapSearch.DisagreesOnlyAtSentinel | liquidity_pool_concentrated/src/contract/internal.rs:209-306 | it agrees with the linear scan if and only if the nearest tick is not the range's end outside the starting word |
| SwapSearch.SkipsNothingDown | liquidity_pool_concentrated/src/contract/internal.rs:209-306 | even then no initialized tick lies between the answer and the cursor |
| SwapSearch.SkipsNothingUp | liquidity_pool_concentrated/src/contract/internal.rs:209-306 | the same upward, with strict progress |
| StepWalk.StepsFromCount | liquidity_pool_concentrated/src/plane.rs:26-43 | the least number of steps that covers 5700 ticks, capped at 20 |
| StepWalk.ExactTickStepsForSpacing | liquidity_pool_concentrated/src/plane.rs:26-43 | the loop returns that number, and 0 for spacings that are not positive |
| StepWalk.StepsWiden | liquidity_pool_concentrated/src/plane.rs:248-252 | each step is one interval wider than the one before, the first one wide, so step k ends where the count of steps takes k + 1 steps to end |
| StepWalk.StepEnds | liquidity_pool_concentrated/src/plane.rs:386-415 | a step ends on a tick boundary as far from the pool's tick as all steps up to it cover, within one interval, in both directions, or at the end of the ticks |
| StepWalk.StepsReach | liquidity_pool_concentrated/src/plane.rs:26-43 | the last of the steps written for a spacing ends at least 5700 ticks away, unless there are 20 of them or the ticks end |
| StepWalk.NextToCross | liquidity_pool_concentrated/src/plane.rs:430-457 | the tick the search reports is the head of the ticks the cursor has still to meet before the target |
| StepWalk.CrossFound | liquidity_pool_concentrated/src/plane.rs:458-482 | crossing adds the segment's amounts and then the adjusted net liquidity |
| StepWalk.CrossTicks | liquidity_pool_concentrated/src/plane.rs:430-498 | the unbounded inner loop terminates and crosses exactly the initialized ticks up to the target, in order |
| StepWalk.CollectStep | liquidity_pool_concentrated/src/plane.rs:430-514 | one step is its crossings followed by the rest of the way to the target, unless saturated |
| StepWalk.WalkSteps | liquidity_pool_concentrated/src/plane.rs:386-533 | the outer loop with its cursor resets and early exits refines the recursive walk over steps, whose ends are those of `StepEnds` |
| StepWalk.CollectExactDirectionSteps | liquidity_pool_concentrated/src/plane.rs:353-534 | the whole function refines the specification walk, including all its empty results; `StepsReach` says how far it goes |
| StepWalk.PushEmptySteps | liquidity_pool_concentrated/src/plane.rs:81-86 | appends exactly two zeros per missing step |
| StepDepth.TwoNumbersPerStep | liquidity_pool_concentrated/src/plane.rs:353-534 | the result has exactly two numbers for every step, whatever ends the walk |
| StepDepth.ComputedIsExact | liquidity_pool_concentrated/src/plane.rs:256-276 | a segment's amounts are the exact ones, input rounded up and output down, capped at 128 bits |
| StepDepth.StepIsSumOfSegments | liquidity_pool_concentrated/src/plane.rs:430-514 | unless a sum reaches the cap, a step's pair is the sum of segment amounts under the liquidity folded in order |
| StepDepth.WalkReaches | liquidity_pool_concentrated/src/plane.rs:386-533 | step k is reached with the liquidity of all ticks crossed before it |
| StepDepth.PairIsPathSum | liquidity_pool_concentrated/src/plane.rs:353-534 | the k-th pair written is the k-th step's sums, or a cap shows |
| StepDepth.CrossedIsPathPlusHandovers | liquidity_pool_concentrated/src/plane.rs:516-526 | ticks crossed are the ticks on the path plus those handed over at step boundaries |
| StepDepth.CrossesEachTickOnce | liquidity_pool_concentrated/src/plane.rs:516-526 | each tick is crossed once if and only if no initialized tick lies on an inner boundary; otherwise liquidity is off by exactly their nets |
| DepthLiquidity.FullRangeIsLegal | liquidity_pool_concentrated/src/plane.rs:45-65 | the full-range ticks are the outermost multiples of the spacing, legal and ordered |
| DepthLiquidity.AdjustmentLeavesRest | liquidity_pool_concentrated/src/plane.rs:327-351 | the adjusted net liquidity of a tick is exactly what the positions other than full-range ones contribute |
| DepthLiquidity.WalkSeesPoolLiquidity | liquidity_pool_concentrated/src/plane.rs:353-588 | folding adjusted nets from the pool's active less full-range liquidity gives, along the path, the liquidity of the other positions in range, with the price inside the full range or outside it; nothing underflows |
| DepthLiquidity.BaseIsRestActive | liquidity_pool_concentrated/src/plane.rs:536-543 | the saturated base is the liquidity of the other positions in range; outside the full range it is nothing, because no position reaches there |
| PlaneSnapshot.GetPoolData | liquidity_pool_concentrated/src/plane.rs:536-588 | the snapshot is the encoding of fee, spacing, reserves, full-range reserves and both depth walks |
| PlaneSnapshot.FullRangeReservesExist | liquidity_pool_concentrated/src/plane.rs:278-320 | full-range reserves never panic, at any price and spacing, zero price included |
| PlaneSnapshot.FullRangeReservesAreWorth | liquidity_pool_concentrated/src/plane.rs:278-320 | they are exactly what the full-range liquidity stands for at the price, rounded down and cut off at 128 bits |
| PlaneSnapshot.SnapshotRoundTrip | liquidity_pool_liquidity_calculator/src/plane.rs:22-95 | decoding returns fee, spacing, step count, reserves, full-range reserves and the k-th pair of each direction, and zeros past the end |
| PlaneSnapshot.PlaneShowsTheWalks | liquidity_pool_liquidity_calculator/src/plane.rs:37-95 | a reader's k-th pair in each direction is the k-th pair of the pool's own depth walk |
| FeeGrowth.WrapsAreModular | liquidity_pool_concentrated/src/math.rs:73-95 | wrapping difference and sum are the unique words congruent to the true ones modulo 2^256 |
| FeeGrowth.FeeGrowthDelta | liquidity_pool_concentrated/src/math.rs:445-457 | the growth is the largest whose product with the liquidity stays within the fee |
| FeeGrowth.GrowthReachesRange | liquidity_pool_concentrated/src/contract/internal.rs:575-622 | global growth changes the growth inside a range exactly while the tick is inside it, counters wrapped or not |
| FeeGrowth.CrossingKeepsInside | liquidity_pool_concentrated/src/contract/internal.rs:773-804 | flipping exactly the ticks a price move passes leaves the growth inside a range unchanged |
| LedgerInvariants.TickCapBoundsLiquidity | liquidity_pool_concentrated/src/constants.rs:16-19 | the cap per tick bounds the liquidity of all positions, hence active liquidity, by 128 bits |
| LedgerInvariants.AddFeeKeeps | liquidity_pool_concentrated/src/contract/internal.rs:806-825 | a fee keeps the whole ledger invariant |
| LedgerInvariants.FeeCovers | liquidity_pool_concentrated/src/contract/internal.rs:806-825 | the growth a fee gives all positions in range together stays within the fee |
| LedgerInvariants.CrossKeeps | liquidity_pool_concentrated/src/contract/internal.rs:773-804 | crossing the next tick never underflows or saturates, and keeps active liquidity equal to the sum over positions in range |
| LedgerInvariants.MoveKeeps | liquidity_pool_concentrated/src/contract/internal.rs:1315-1322 | moving the price between initialized ticks keeps the invariant |
| FeeGrowth.SpreadReachesFarSide | liquidity_pool_concentrated/src/contract/internal.rs:1515-1542 | growth added globally and again at the last tick crossed reaches exactly the ranges that hold the far side of that tick |
| LedgerInvariants.SpreadTracks | liquidity_pool_concentrated/src/contract/internal.rs:1507-1542 | a spread surplus reaches exactly the positions on the far side of the last crossing, wrapped counters and all |
| LedgerInvariants.SpreadPaysIff | liquidity_pool_concentrated/src/contract/internal.rs:1507-1542 | what it adds to the debts is within what it adds to the fees exactly when rate times liquidity reached is within the surplus |
| LedgerInvariants.SpreadKeeps | liquidity_pool_concentrated/src/contract/internal.rs:1507-1542 | a spread that pays for itself keeps the whole ledger invariant |
| LedgerInvariants.SurplusPaysIff | liquidity_pool_concentrated/src/contract/internal.rs:1484-1551 | given what the swap remembers, any surplus pays under the condition on both liquidities, and a large one only then |
| LedgerInvariants.SurplusIsFeeBeforeCrossing | liquidity_pool_concentrated/src/contract/internal.rs:1515-1542 | it writes what a fee just before the crossing would have, if and only if the rates agree |
| LedgerInvariants.OpenKeeps | liquidity_pool_concentrated/src/contract/internal.rs:646-667 | a new position keeps the invariant |
| LedgerInvariants.EarnedIsTrue | liquidity_pool_concentrated/src/math.rs:459-473 | what a position earns from wrapped counters is exactly its true, unwrapped growth times its liquidity, rounded down, if and only if that product is below 2^256; it is never more |
| LedgerInvariants.AccrueKeeps | liquidity_pool_concentrated/src/contract/internal.rs:624-644 | settling a position keeps the invariant whatever has wrapped, and never fails while less than 2^128 of each token is given and not yet credited |
| LedgerInvariants.DepositKeeps | liquidity_pool_concentrated/src/contract/extensions.rs:203-221 | a deposit adds exactly its liquidity, saturates nowhere and keeps the invariant; with outstanding fees below 2^128 only its ticks can refuse it |
| LedgerInvariants.WithdrawKeeps | liquidity_pool_concentrated/src/contract/extensions.rs:330-400 | any part of a position's liquidity can be withdrawn exactly when its fees can be settled, always with outstanding fees below 2^128, and the invariant stays |
| LedgerRuns.RunKeeps | liquidity_pool_concentrated/src/contract/extensions.rs:85-458 | every run of deposits, withdrawals, fees, crossings, moves, claims and surpluses that pay keeps the invariant, however much is paid in fees |
| LedgerRuns.FeesCoverCredits | liquidity_pool_concentrated/src/contract/internal.rs:624-644 | from an empty pool, in every run whose surpluses pay for themselves, fees credited to positions never exceed the fees paid |
| LedgerRuns.ReachableIsExact | liquidity_pool_concentrated/src/contract/internal.rs:575-644 | in every ledger such a run reaches, surplus writes included, active liquidity is the sum over positions in range, and each position's claim is exact if and only if it is below 2^128, which outstanding fees below 2^128 ensure |
| LedgerRuns.TwoPositionsOk | liquidity_pool_concentrated/src/contract/internal.rs:1484-1551 | a ledger in order, with what a swap through tick 0 remembers, that fails the condition |
| LedgerRuns.RunOvercredits | liquidity_pool_concentrated/src/contract/internal.rs:1484-1551 | a concrete run from an empty pool of spacing 1 whose surplus of 1000000 credits 1001000000 |
| LedgerRuns.DepositRefusedOnlyAtCap | liquidity_pool_concentrated/src/contract/internal.rs:308-405 | with outstanding fees below 2^128 a deposit is refused if and only if it exceeds a signed 128-bit number or takes one of its ticks above the cap |
| LedgerRuns.RunWraps | liquidity_pool_concentrated/src/contract/internal.rs:806-825 | a concrete run from an empty pool with both counters at zero in which the global counter passes 2^256 and the position is credited exactly what was paid |
| SwapRounds.ValidatedLimit | liquidity_pool_concentrated/src/contract/internal.rs:961-990 | accepts exactly the limits strictly between the price and the end of the ladder, and when the default is accepted |
| SwapRounds.DownStep | liquidity_pool_concentrated/src/contract/internal.rs:1285-1322 | where a downward step leads: across exactly the next initialized tick, or where no initialized tick is passed |
| SwapRounds.UpStep | liquidity_pool_concentrated/src/contract/internal.rs:1285-1322 | the same upward |
| SwapRounds.AnswerSkipsNothing | liquidity_pool_concentrated/src/contract/internal.rs:209-306 | the stored index's answer passes over no tick of the ledger |
| SwapRounds.AfterStepKeeps | liquidity_pool_concentrated/src/contract/internal.rs:773-825 | fee and crossing of one iteration keep the ledger invariant and move active liquidity by the tick's net |
| SwapRounds.CrossingSucceeds | liquidity_pool_concentrated/src/contract/internal.rs:1290-1313 | the loop never finds too little liquidity when crossing: its variable is the ledger's |
| SwapRounds.StepIsFair | liquidity_pool_concentrated/src/contract/internal.rs:827-959 | a step takes no more than what remains, moves towards its target, and covers its fee in both swap kinds, zero liquidity included |
| SwapRounds.NothingBeyond | liquidity_pool_concentrated/src/contract/internal.rs:1202-1216 | beyond the outermost initialized tick no liquidity is active, so stopping there loses nothing |
| PositionWorth.RoundedReal | liquidity_pool_concentrated/src/math.rs:103-136 | rounding up never falls below the true fraction, rounding down never exceeds it |
| PositionWorth.RoundedNear | liquidity_pool_concentrated/src/math.rs:103-136 | and neither rounding is a whole unit away from the true fraction |
| PositionWorth.Amount0Real | liquidity_pool_concentrated/src/math.rs:300-338 | token0 amounts bound, from the side of their rounding, liquidity times the difference of inverse prices |
| PositionWorth.Amount1Real | liquidity_pool_concentrated/src/math.rs:341-365 | the same for token1 and the difference of prices |
| PositionWorth.Amount0Near | liquidity_pool_concentrated/src/math.rs:300-338 | token0 amounts are within one unit of liquidity times the difference of inverse prices |
| PositionWorth.Amount1Near | liquidity_pool_concentrated/src/math.rs:341-365 | the same for token1 |
| PositionWorth.MoveAll | liquidity_pool_concentrated/src/contract/internal.rs:1209-1323 | when no bound of a position lies inside a price move, what all positions stand for changes by the liquidity in range times the change in scale |
| PositionWorth.SegmentIsPaidFor | liquidity_pool_concentrated/src/contract/internal.rs:827-959 | a segment's input covers what positions gain, and its output is within what they give up |
| PositionWorth.SegmentIsTight | liquidity_pool_concentrated/src/contract/internal.rs:827-959 | and it exceeds neither by a unit: positions gain all of the input, and give up no more than the output, up to one unit of each token |
| PositionWorth.WorthNonNegative | liquidity_pool_concentrated/src/math.rs:300-365 | no set of positions stands for a negative amount |
| SwapRounds.RoundStays | liquidity_pool_concentrated/src/contract/internal.rs:1221-1240 | up to the tick the search answers with, no position with liquidity has a bound inside the move |
| SwapRounds.RoundIsPaidFor | liquidity_pool_concentrated/src/contract/internal.rs:1242-1264 | the amounts of one round cover the change in what positions stand for, unless the input overflows 128 bits |
| SwapRounds.PartOfTheFee | liquidity_pool_concentrated/src/contract/internal.rs:1266-1275 | the protocol's part of a fee is exactly the configured fraction of it, rounded down |
| SwapRounds.RoundKeeps | liquidity_pool_concentrated/src/contract/internal.rs:1209-1323 | one round keeps ledger, price, tick and index in agreement and what the swap remembers right, is fair and paid for, and makes progress |
| SwapRounds.LastKeeps | liquidity_pool_concentrated/src/contract/internal.rs:1217-1220 | the last liquidity that was not zero is that of the far side right after a crossing, and of the near side later if there is any |
| SwapRounds.SwapEnds | liquidity_pool_concentrated/src/contract/internal.rs:1157-1354 | a swap that ends has a tick that matches its price, the price within the limit, nothing left over unless the limit or the end of liquidity was reached, totals of its rounds with the fee covered, and positions that changed by no more than the input and no less than the output |
| SwapDues.StepIsExact | liquidity_pool_concentrated/src/contract/internal.rs:827-959 | every step of a swap, with or without liquidity, is one of the exact steps above |
| SwapDues.InputReaches | liquidity_pool_concentrated/src/contract/internal.rs:853-881 | an input that does not reach the target would be used up by a move one price unit farther |
| SwapDues.OutputReaches | liquidity_pool_concentrated/src/contract/internal.rs:907-934 | an output that is filled would not be exceeded by a move one price unit shorter |
| SwapDues.RoundIsDue | liquidity_pool_concentrated/src/contract/internal.rs:1242-1330 | within a unit of each token, a round's input is what positions gain, its output what they give up (or would one price unit sooner when it fills an exact output), its fee the configured one or all that is left, and the providers' part of it what positions can claim |
| SwapDues.SwapIsDue | liquidity_pool_concentrated/src/contract/internal.rs:1157-1354 | the same for a whole swap, up to one unit a round: positions gave up no more than was paid out; the fee is the configured share, or the amount net of it is no more than positions would have gained one price unit farther; the protocol has its fraction of the fee and positions can claim the rest; rounds are at most the ticks ahead and one |
| SwapRounds.SwapSucceeds | liquidity_pool_concentrated/src/contract/internal.rs:1332-1334 | within bounds on amount, price and fee that a caller can check an exact input always goes through, and an exact output exactly when it is filled |
| SwapRounds.DefaultSwapPays | liquidity_pool_concentrated/src/contract/internal.rs:1209-1215 | with the default limit and a spacing that does not divide the last tick, a swap that leaves input over ends without liquidity in range |
| SwapLoop.CrossTick | liquidity_pool_concentrated/src/contract/internal.rs:773-804 | flips both counters of one tick in the cache, leaves every other tick as shown, and returns its net liquidity |
| SwapLoop.MovePrice | liquidity_pool_concentrated/src/contract/internal.rs:1285-1322 | crossing or not, cache, cursor, liquidity and counters follow the ledger, in a simulation and in a real swap |
| SwapLoop.TakeStep | liquidity_pool_concentrated/src/contract/internal.rs:1254-1322 | accounts, protocol cut, counters and move after a step are the recursion's next cursor |
| SwapLoop.SwapRound | liquidity_pool_concentrated/src/contract/internal.rs:1217-1322 | one iteration over cache and storage is one round of the recursion, panics included |
| SwapLoop.RunRounds | liquidity_pool_concentrated/src/contract/internal.rs:1209-1323 | the while loop is the recursion over rounds, and ends |
| SwapLoop.SwapLoop | liquidity_pool_concentrated/src/contract/internal.rs:1157-1354 | the whole function returns what the recursion does or fails exactly with it, whether simulated or real; a simulation and a failure write nothing, a real swap leaves all stored ticks, counters, index and bounds as the ledger has them |
| Solvency.ChargedCovers | liquidity_pool_concentrated/src/contract/extensions.rs:137-177 | what a deposit is charged covers what its liquidity stands for, at every price against the range; `DepositTakesItsWorth` says that it is no more than that rounded up |
| Solvency.AmountsAreWorth | liquidity_pool_concentrated/src/contract/internal.rs:1048-1068 | amounts charged and paid for liquidity are exactly what it stands for at the price, rounded up or down and cut off at 128 bits, for both tokens and every price against the range |
| Solvency.PaidWithin | liquidity_pool_concentrated/src/contract/extensions.rs:336-354 | what a withdrawal pays is within what its liquidity stands for and short of it by less than a unit of each token, or 2^128 - 1 when that is no 128-bit number |
| Solvency.NeedsCoverOwed | liquidity_pool_concentrated/src/contract/internal.rs:738-742 | what the pool needs to hold covers any one position's unpaid fees |
| Solvency.DepositSolvent | liquidity_pool_concentrated/src/contract/extensions.rs:85-240 | a deposit leaves the pool solvent |
| Solvency.WithdrawIsPaid | liquidity_pool_concentrated/src/contract/extensions.rs:296-458 | a withdrawal is paid if and only if it takes something the position has and reaches its minimum; neither the reserves nor an overflow ever refuses it, and the pool stays solvent; `WithdrawnInFull` says what is paid |
| Solvency.ClaimIsPaid | liquidity_pool_concentrated/src/contract/internal.rs:694-771 | a fee claim always succeeds and leaves the pool solvent |
| Solvency.TakeAllNeeds | liquidity_pool_concentrated/src/contract/extensions.rs:521-559 | settling any positions one after another and taking all they are owed lowers what the pool needs by at least as much |
| Solvency.TakeAllSucceeds | liquidity_pool_concentrated/src/contract/extensions.rs:521-559 | with outstanding fees below 2^128 it fails only for a position that does not exist |
| Solvency.FewInSolvent | liquidity_pool_concentrated/src/contract/internal.rs:738-742 | in a solvent pool reserves are token amounts and outstanding fees are below 2^128, so that settling never fails |
| Solvency.ClaimAllIsPaid | liquidity_pool_concentrated/src/contract/extensions.rs:521-599 | claiming the fees of any number of positions at once is always paid and leaves the pool solvent |
| Solvency.SwapFlows | liquidity_pool_concentrated/src/contract/internal.rs:1418-1482 | a swap that is not refused moves exactly what the user sees: the totals of its rounds |
| Solvency.SwapKeepsTerms | liquidity_pool_concentrated/src/contract/liquidity_pool_interface.rs:166-267 | a swap that is not refused takes a positive input within the maximum, so the last check on its sign never fires, and pays at least the minimum, an exact output exactly |
| Solvency.SwapPaysInFull | liquidity_pool_concentrated/src/contract/internal.rs:1418-1482 | up to units of rounding for each of its rounds, the user of a swap gets all that positions give up, for an exact output up to one price unit before the end, and positions gain all the user pays net of the fee, or would one price unit farther; the protocol's and the providers' parts are exact in the same sense |
| Solvency.SwapSolvent | liquidity_pool_concentrated/src/contract/internal.rs:1469-1482 | totals the loop has settled, put into reserves, balances and protocol fees, leave the pool solvent with every token accounted for, and the output is always there |
| Solvency.SurplusSolvent | liquidity_pool_concentrated/src/contract/internal.rs:1484-1551 | a surplus that pays for what it credits leaves the pool solvent; paying or not, its tokens are all accounted for once there has been liquidity to swap against |
| Solvency.SwapKeepsSolvent | liquidity_pool_concentrated/src/contract/internal.rs:1384-1592 | a whole swap, whatever maximum comes with its amount, never lacks reserves, accounts for every token, and leaves the pool solvent whenever its surplus pays for itself |
| Solvency.SurplusPaysExactly | liquidity_pool_concentrated/src/contract/internal.rs:1484-1551 | the surplus of every swap, also above an amount that was used up, pays for itself under a condition on the liquidity before and after its last crossing, and a large one only then |
| Solvency.DefaultSurplusPays | liquidity_pool_concentrated/src/contract/internal.rs:1484-1551 | with the default limit, a spacing that does not divide the last tick and no more taken than the amount asked for, every surplus pays |
| Solvency.PublicTakesItsAmount | liquidity_pool_concentrated/src/contract/liquidity_pool_interface.rs:165-255 | a public swap takes no more than its amount if and only if the amount out is within the signed range, or wraps to an exact input of just the maximum |
| SolvencyRuns.RepriceSolvent | liquidity_pool_concentrated/src/contract/extensions.rs:112-133 | choosing a price while nobody has liquidity leaves the pool solvent |
| SolvencyRuns.ProtocolSolvent | liquidity_pool_concentrated/src/contract/admin.rs:136-171 | the protocol's fees can always be paid out, without touching what positions are owed |
| SolvencyRuns.EventSolvent | liquidity_pool_concentrated/src/contract/extensions.rs:85-599 | no operation finds the reserves or the tokens short, and each whose surplus pays leaves the pool solvent |
| SolvencyRuns.EventExcess | liquidity_pool_concentrated/src/contract/internal.rs:1426-1555 | no operation changes what the contract holds beyond reserves and protocol fees, donations apart |
| SolvencyRuns.RunAccountsForTokens | liquidity_pool_concentrated/src/contract/internal.rs:1426-1555 | over every run whose surpluses pay, the contract holds exactly reserves, protocol fees, the first excess and what was given to it |
| SolvencyRuns.RunSolvent | liquidity_pool_concentrated/src/contract/extensions.rs:85-599 | the same over every run |
| SolvencyRuns.ReservesSuffice | liquidity_pool_concentrated/src/contract/extensions.rs:366-379 | from an empty pool, in every run whose surpluses pay, reserves cover everything owed and no reserve check ever fails |
| SolvencyRuns.ReservesAlwaysSuffice | liquidity_pool_concentrated/src/contract/extensions.rs:366-379 | the same without any condition on surpluses for spacings that do not divide the last tick and public swaps whose amount out is within the signed range |
| SolvencyRuns.PublicRunPays | liquidity_pool_concentrated/src/contract/liquidity_pool_interface.rs:165-255 | in such runs every surplus pays for what it credits |
| WrappedCall.WrappedSwapEnds | liquidity_pool_concentrated/src/contract/liquidity_pool_interface.rs:232-252 | a call for 2^128 - 1 out is an exact input of 1, which the loop uses up as a fee after crossing out of most liquidity |
| WrappedCall.WrappedCallBreaksSolvency | liquidity_pool_concentrated/src/contract/liquidity_pool_interface.rs:232-255 | from an empty pool with spacing 60, two deposits and that call leave credited fees that a claim cannot be paid |
| Payouts.CreditIsTrue | liquidity_pool_concentrated/src/contract/internal.rs:624-644 | settling credits a position with exactly its unpaid fees: those credited before and its share of what was given since, rounded down |
| Payouts.ClaimPaysInFull | liquidity_pool_concentrated/src/contract/internal.rs:694-771 | a claim on a solvent pool pays exactly the position's unpaid fees, or as much of them as asked for, and leaves the rest and everybody else's |
| Payouts.ClaimAllPaysInFull | liquidity_pool_concentrated/src/contract/extensions.rs:521-599 | claiming several positions pays exactly the unpaid fees of each, once even if it is named twice, and leaves those of all others |
| Payouts.WithdrawPaysInFull | liquidity_pool_concentrated/src/contract/extensions.rs:336-364 | what a withdrawal is offered is exactly what its liquidity stands for, rounded down, and all unpaid fees of the position; nothing is cut off |
| Payouts.WithdrawnInFull | liquidity_pool_concentrated/src/contract/extensions.rs:296-458 | a withdrawal that is made takes exactly that from reserves and contract and the liquidity from the position, and leaves the fees of all others |
| Payouts.DepositTakesItsWorth | liquidity_pool_concentrated/src/contract/extensions.rs:85-240 | a deposit that is made takes exactly what the bought liquidity stands for, rounded up, within the desired amounts; that liquidity is the most they afford while what token0 affords fits its word; nobody's unpaid fees change |
| SolvencyRuns.EveryPositionCanLeave | liquidity_pool_concentrated/src/contract/extensions.rs:366-379 | in a solvent pool every position can be withdrawn whole, for exactly what its liquidity stands for rounded down and all fees it has earned |
| StoredLedger.TickMirrored | liquidity_pool_concentrated/src/contract/internal.rs:308-405 | changing one stored tick is the ledger's change of that tick, fee counters included |
| StoredLedger.ChangeStoredBounds | liquidity_pool_concentrated/src/contract/extensions.rs:205-206 | both ends of a position change as in the ledger with index and bounds kept, or storage is as before |
| StoredLedger.AccrueStored | liquidity_pool_concentrated/src/contract/internal.rs:575-644 | settling from stored ticks gives the ledger's position and unpaid fees, or fails exactly with it |
| StoredLedger.StoredDeposit | liquidity_pool_concentrated/src/contract/extensions.rs:205-216 | ticks, position and liquidity in range after a deposit are those of the ledger's deposit; a refused one writes nothing |
| StoredLedger.StoredWithdraw | liquidity_pool_concentrated/src/contract/extensions.rs:381-401 | the same for a withdrawal |
| StoredLedger.SpreadStored | liquidity_pool_concentrated/src/contract/internal.rs:1507-1542 | the surplus's growth and its second write at the last tick crossed leave storage as the ledger's spread has it |
| StoredLedger.LoopKeepsStored | liquidity_pool_concentrated/src/contract/internal.rs:1157-1354 | a swap changes nothing that storage keeps of a position |
| StoredBooks.PayoutIs | liquidity_pool_concentrated/src/contract/extensions.rs:330-364 | what a withdrawal pays can be told from the fees settled before any tick changes |
| StoredBooks.SwappedIs | liquidity_pool_concentrated/src/contract/internal.rs:1412-1482 | a swap of a solvent pool is refused exactly when its amounts fail a check, and otherwise moves the amounts the user sees less the protocol's cut |
| StoredBooks.NoRoomIsRefused | liquidity_pool_concentrated/src/contract/internal.rs:961-990 | a swap that starts at its limit or beyond is refused whatever it asks for |
| StoredPool.ConcentratedPool.DepositPosition | liquidity_pool_concentrated/src/contract/extensions.rs:85-240 | on storage, a deposit is the event of the books or is refused exactly with it, and leaves storage in step and the pool solvent; `DepositTakesItsWorth` says how much that event buys and takes |
| StoredPool.ConcentratedPool.WithdrawPosition | liquidity_pool_concentrated/src/contract/extensions.rs:296-458 | the same for a withdrawal; its reserve check never fails, and `WithdrawnInFull` says what the event pays |
| StoredPool.ConcentratedPool.ClaimPositionFees | liquidity_pool_concentrated/src/contract/internal.rs:694-771 | the same for a fee claim |
| StoredPool.ConcentratedPool.ClaimAllPositionFees | liquidity_pool_concentrated/src/contract/extensions.rs:521-599 | the loop over positions and its one payout are the event that claims them all |
| StoredPool.ConcentratedPool.ClaimProtocolShare | liquidity_pool_concentrated/src/contract/admin.rs:136-171 | pays out and clears the protocol's fees, always |
| StoredPool.ConcentratedPool.CreatePosition | liquidity_pool_concentrated/src/contract/internal.rs:646-667 | a new position is accepted exactly for legal ordered ticks |
| StoredPool.ConcentratedPool.ChoosePrice | liquidity_pool_concentrated/src/contract/extensions.rs:112-133 | price and tick change exactly while nobody has liquidity and the price is legal |
| StoredPool.ConcentratedPool.SwapChecked | liquidity_pool_concentrated/src/contract/internal.rs:1384-1447 | loop and checks end as the recursion over rounds does; a refused swap leaves storage as it was |
| StoredPool.ConcentratedPool.SwapInternal | liquidity_pool_concentrated/src/contract/internal.rs:1384-1555 | a whole swap with transfers and surplus is the event of the books; the pool is solvent after it whenever the surplus pays |
| StoredPool.ConcentratedPool.PublicSwap | liquidity_pool_concentrated/src/contract/liquidity_pool_interface.rs:165-260 | both public swaps, casts and bounds included, are the event their call stands for, keep the caller's minimum or maximum and pay an exact output exactly, and keep the pool solvent when amount out and spacing are as above; `SwapPaysInFull` says what the event pays |
| StoredPool.ConcentratedPool.TokensAreAccountedFor | liquidity_pool_concentrated/src/contract/internal.rs:1426-1555 | in every pool reached by surpluses that pay, stored balances are stored reserves, protocol fees and what was given to the contract |
| PoolQuotes.DepositFollowsRatio | liquidity_pool/src/pool.rs:7-33 | the deposit takes one desired amount whole and the other at the reserves' ratio rounded down, within both |
| PoolQuotes.DepositNeverInvalid | liquidity_pool/src/pool.rs:7-33 | the invalid-amount branch is never taken |
| PoolQuotes.AmountOutKeepsProduct | liquidity_pool/src/pool.rs:35-49 | the output stays below the reserve and the product of reserves net of fee does not fall |
| PoolQuotes.AmountInKeepsProduct | liquidity_pool/src/pool.rs:51-78 | the quoted input, net of the fee it leaves, keeps the product |
| PoolQuotes.AmountOutIsMost | liquidity_pool/src/pool.rs:35-49 | the output is the most that leaves the product as large as it was: exactly the amounts up to it do |
| PoolQuotes.AmountInIsLeast | liquidity_pool/src/pool.rs:51-78 | the quoted input is the least that pays for the output: exactly the amounts from it on leave the product as large |
| PoolQuotes.NetBuys | liquidity_pool/src/pool.rs:35-78 | a net input buys the output exactly when it reaches the net amount the quote uses |
| PoolQuotes.GrossUp | liquidity_pool/src/pool.rs:35-78 | a gross input leaves a net amount exactly when it reaches the quote's gross-up |
| PoolQuotes.QuoteIsSufficientAndMinimal | liquidity_pool/src/pool.rs:35-78 | selling an amount yields at least the output if and only if the amount reaches the strict-receive quote |
| ConstantProductPool.Sqrt | utils/src/u256_math.rs:8-23 | the Newton loop returns exactly the integer square root |
| PoolSteps.Isqrt | utils/src/u256_math.rs:8-23 | the largest integer whose square is within the argument |
| ConstantProductPool.Pool.SyncReserves | liquidity_pool/src/contract.rs:74-132 | the loop over coins refines the sync step on the whole state |
| ConstantProductPool.Pool.TotalSharesAfter | liquidity_pool/src/contract.rs:402-418 | total shares after a deposit, overflow included, are those of the deposit step, of which `TotalIsLargest` says how many they are |
| PoolInvariants.TotalIsLargest | liquidity_pool/src/contract.rs:402-418 | exactly the numbers of shares up to the new total are in proportion to both reserves; from an empty pool, the total is the integer square root of the product |
| ConstantProductPool.Pool.CollectDeposit | liquidity_pool/src/contract.rs:364-400 | transferring in, refunding and raising the reserves is one step on the state, every failure included |
| ConstantProductPool.Pool.MintShares | liquidity_pool/src/contract.rs:402-426 | shares minted are the growth of the total, refused below the minimum |
| ConstantProductPool.Pool.TryDeposit | liquidity_pool/src/contract.rs:329-451 | the whole deposit, in the contract's order, refines the deposit step or fails with the same error; `DepositParts` says what that step takes and mints |
| ConstantProductPool.Pool.CheckInvariant | liquidity_pool/src/contract.rs:549-604 | the scaled comparison of both products, with its 256-bit overflow |
| ConstantProductPool.Pool.SettleSwap | liquidity_pool/src/contract.rs:557-618 | reserves, protocol fee, check and payout as one step |
| ConstantProductPool.Pool.TrySwap | liquidity_pool/src/contract.rs:505-634 | the whole swap refines the swap step or fails with the same error |
| ConstantProductPool.Pool.TrySwapStrictReceive | liquidity_pool/src/contract.rs:686-829 | the same for the exact-output swap with its refund |
| ConstantProductPool.Pool.TryWithdraw | liquidity_pool/src/contract.rs:878-949 | the same for a withdrawal |
| ConstantProductPool.Pool.TryClaimProtocolFees | liquidity_pool/src/contract.rs:1185-1219 | pays out the recorded fees and clears them |
| ConstantProductPool.Pool.TrySetProtocolFeeFraction | liquidity_pool/src/contract.rs:1167-1177 | accepts exactly fractions up to one |
| ConstantProductPool.Pool.Invoke | liquidity_pool/src/contract.rs:74-1219 | every invocation is one step or, on any error, no step at all; the invariant and the growth of product per share hold after it |
| PoolInvariants.SyncKeeps | liquidity_pool/src/contract.rs:74-132 | sync never fails, keeps the invariant, and leaves the surplus at zero exactly when it runs on a coin that is not the reward token |
| PoolInvariants.DepositParts | liquidity_pool/src/contract.rs:329-451 | reserves, balances and shares rise by exactly what was taken and minted: all of one coin offered and the most of the other that the ratio allows, for the most shares in proportion to both |
| PoolInvariants.DepositKeeps | liquidity_pool/src/contract.rs:329-451 | a deposit keeps the invariant and does not dilute product per squared share; `DepositParts` bounds the shares from below |
| PoolInvariants.SettleKeeps | liquidity_pool/src/contract.rs:557-618 | settling an input that pays for its output keeps the invariant and the product, with exact surplus |
| PoolInvariants.InvariantExactly | liquidity_pool/src/contract.rs:549-604 | whenever the net input pays for the output, the scaled comparison accepts if the product fits 256 bits and overflows otherwise, for all fees and fractions |
| PoolInvariants.SettlesExactly | liquidity_pool/src/contract.rs:557-618 | a paid swap of a reachable pool, quoted either way, settles if and only if its scaled product fits 256 bits and fee times protocol fraction 128 |
| PoolInvariants.SwapSucceeds | liquidity_pool/src/contract.rs:505-634 | a swap of a reachable pool goes through if and only if it is quoted within its bound, its tokens arrive and those two products fit |
| PoolInvariants.SwapStrictSucceeds | liquidity_pool/src/contract.rs:686-829 | the same for the exact-output swap |
| PoolInvariants.MediumPoolRefusesQuote | liquidity_pool/src/contract.rs:549-604 | reserves below the threshold and a quote of the pool that the check still overflows on |
| PoolInvariants.SwapNeverRejectsItself | liquidity_pool/src/contract.rs:549-604 | the invariant error is never raised on an amount the swap computed, from any state |
| PoolInvariants.SwapStrictNeverRejectsItself | liquidity_pool/src/contract.rs:730-794 | nor by the exact-output swap |
| PoolInvariants.HugePoolCannotTrade | liquidity_pool/src/contract.rs:549-604 | no input and output at all can be settled once the reserves' product reaches 2^256 / 10^8 |
| PoolInvariants.SwapKeeps | liquidity_pool/src/contract.rs:505-634 | a swap keeps the invariant, lets the product grow, leaves the surplus alone and moves balances by exactly input and output |
| PoolInvariants.SwapStrictKeeps | liquidity_pool/src/contract.rs:686-829 | the same for the exact-output swap, with the charge within the maximum |
| PoolInvariants.SwapPaysMost | liquidity_pool/src/contract.rs:505-634 | a swap pays the most its input net of the fee buys from the synced reserves without lowering their product; the protocol gets exactly its fraction of the fee, rounded down, and the reserves the rest |
| PoolInvariants.SwapStrictTakesLeast | liquidity_pool/src/contract.rs:686-829 | the exact-output swap takes the least input that pays for its output, with the same split |
| PoolInvariants.WithdrawParts | liquidity_pool/src/contract.rs:878-949 | payouts are the proportional parts rounded down, and every field of the new state |
| PoolInvariants.WithdrawKeeps | liquidity_pool/src/contract.rs:878-949 | a withdrawal keeps the invariant and product per squared share, and leaves the surplus alone |
| PoolInvariants.DepositThenWithdraw | liquidity_pool/src/contract.rs:329-949 | withdrawing minted shares at once succeeds, restores the share total and returns at most each amount put in, short of it by less than one token, the worth of one share and the worth of one token of the other coin; all of it from an empty pool |
| PoolRuns.ClaimKeeps | liquidity_pool/src/contract.rs:1185-1219 | a claim pays exactly the recorded fees, never fails in a reachable state, and touches neither reserves nor surplus |
| PoolRuns.StepKeeps | liquidity_pool/src/contract.rs:74-1219 | every invocation, failed ones included, keeps the invariant and product per squared share |
| PoolRuns.RunKeeps | liquidity_pool/src/contract.rs:74-1219 | the same over whole runs |
| PoolRuns.ReachableIsSolvent | liquidity_pool/src/contract.rs:74-1219 | in every reachable state balances cover reserves and protocol fees, shares vanish exactly with the reserves, and reserves multiply to at least shares squared |
| PoolRuns.NoRunDrainsReserves | liquidity_pool/src/contract.rs:74-1219 | a run that ends with the same shares does not lower the product, so one reserve falls only if the other rises |
| PoolRuns.SurplusMovesOnlyBySync | liquidity_pool/src/contract.rs:74-132 | no invocation changes the surplus except an effective sync, which sets it to zero |
| StableNewton.GetY | liquidity_pool_liquidity_calculator/src/stableswap_pool.rs:71-134 | the loops with their early exit refine the recursive solver, failures included |
| StableNewton.IterationLands | liquidity_pool_liquidity_calculator/src/stableswap_pool.rs:114-133 | from any start and on every exit path, the result is at least every integer under the curve and leaves it by at most one |
| StableNewton.YIsTheIntegerRoot | liquidity_pool_liquidity_calculator/src/stableswap_pool.rs:71-134 | whenever `get_y` returns, y is the integer root of y^2+(b-d)y = c up to residual 1 |
| StableNewton.CurveIs | liquidity_pool_liquidity_calculator/src/stableswap_pool.rs:71-112 | the curve's constant c is D^(n+1) over n^n, the amplification times n and the product of all balances but the output coin's, within the stated slack of n roundings down; b is the sum of those balances plus D over the amplification times n, rounded down |
| StableNewton.StepHalves | liquidity_pool_liquidity_calculator/src/stableswap_pool.rs:114-133 | a step from at or above the root stays there and more than halves the distance |
| StableNewton.YConverges | liquidity_pool_liquidity_calculator/src/stableswap_pool.rs:114-133 | from any start the iteration ends within 130 steps |
| StableNewton.GetYNeverRunsOut | liquidity_pool_liquidity_calculator/src/stableswap_pool.rs:71-134 | `get_y` never runs out of its 255 iterations, for any arguments |
| StableNewton.PayoutStaysAboveCurve | liquidity_pool_liquidity_calculator/src/stableswap_pool.rs:136-158 | a positive payout leaves a balance strictly above the curve, and at most one unit above where it meets it |
| StableNewton.GetD | liquidity_pool_liquidity_calculator/src/stableswap_pool.rs:35-69 | the loops refine the recursive solver for D, failures included |
| StableNewton.DIsNearTheRoot | liquidity_pool_liquidity_calculator/src/stableswap_pool.rs:35-69 | whenever `get_d` returns D, its last iterate is within one of it and off the invariant by at most one slope upwards and less than two downwards, for every pool |
| StableNewton.BalancedPoolKeepsSum | liquidity_pool_liquidity_calculator/src/stableswap_pool.rs:35-69 | the D of a balanced pool is the sum of its balances for every amplification |
| StableDepth.StepAbove | liquidity_pool_liquidity_calculator/src/stableswap_pool.rs:48-65 | for two coins a step for D never falls below a number under the root of the invariant |
| StableDepth.StepNears | liquidity_pool_liquidity_calculator/src/stableswap_pool.rs:48-65 | from above the root it takes away a third of the distance, but for one unit, when folding loses less than one unit of the step |
| StableDepth.StepFromRoot | liquidity_pool_liquidity_calculator/src/stableswap_pool.rs:48-65 | and from the root it goes up by one at most |
| StableDepth.TwoCoinsConverge | liquidity_pool_liquidity_calculator/src/stableswap_pool.rs:35-69 | with two coins `get_d` never runs out of rounds when the first balance is not the larger one, or is by a factor of at most four times the amplification less five over a balance of at least 5 |
| StableDepth.SomePoolsRunOut | liquidity_pool_liquidity_calculator/src/stableswap_pool.rs:35-69 | a pool of two coins for which `get_d` runs out of its 255 rounds |
| OwnershipTransfer.AccessControl.GetDeadline | access_control/src/transfer.rs:20-24 | the pending deadline of delayed roles, an error for others |
| OwnershipTransfer.AccessControl.CommitTransferOwnership | access_control/src/transfer.rs:43-60 | sets address and deadline exactly when the role is delayed and nothing is pending, and otherwise changes nothing |
| OwnershipTransfer.AccessControl.ApplyTransferOwnership | access_control/src/transfer.rs:62-84 | installs the committed address exactly when the code's guards allow it, clears the deadline, and otherwise changes nothing |
| OwnershipTransfer.AccessControl.RevertTransferOwnership | access_control/src/transfer.rs:86-88 | clears the deadline and nothing else |
| OwnershipTransfer.AccessControl.GetRoleSafe | access_control/src/management.rs:20-28 | the stored address of a single-user role if it has one, an error exactly for roles with many users |
| OwnershipTransfer.AccessControl.SetRoleAddress | access_control/src/management.rs:45-60 | a delayed role can be set directly only while nobody holds it |
| OwnershipTransfer.AccessControl.SetRoleAddresses | access_control/src/management.rs:79-87 | lists are set for roles with many users only |
| OwnershipTransfer.PendingHasCommit | access_control/src/transfer.rs:43-88 | every pending transfer was committed by one earlier call that nothing has undone since |
| OwnershipTransfer.ApplyWaits | access_control/src/transfer.rs:62-84 | an apply that succeeds for a held role completes a commit made at least three days before, with nothing in between |
| OwnershipTransfer.RoleChangesOnlyByDelayedTransfer | access_control/src/transfer.rs:43-88 | in every run a held delayed role keeps its holder unless such an apply installs the committed address |
| OwnershipTransfer.HolderStays | access_control/src/management.rs:45-60 | a role that has an address never loses it |
| OwnershipTransfer.TransfersAreSpaced | access_control/src/transfer.rs:43-88 | with time that does not run backwards, two successful transfers of a held role are at least three days apart |

## Left out

- Soroban plumbing: authorization, storage lifetimes, events, XDR, contract deployment and upgrade, kill switches, emergency mode, provider fee wrappers.
- Rewards, gauges, boost, weighted liquidity, routers, batcher, fee collector and guard contracts.
- The constant-product and concentrated pools' token transfers assume that the sender has the tokens; the balances and shares of single users are not modelled, only the pool's balances and total shares. Negative rebases are not modelled.
- The concentrated pool's users: that a sender has the tokens a transfer takes, and `sqrt_price_from_amounts` with `init_sqrt_price_for_range`: a first deposit may choose any price of the ladder.
- Scoring heuristics of the liquidity calculator: the integration loop of `get_liquidity`, `price_weight`, the amplification ramp.
- The liquidity calculator's decoders of standard and stableswap pools, which only index a vector.
- LedgerRuns.RunKeeps: positions are a list without owners and emptied positions stay in it; removal and user ranges are not modelled.
- SwapLoop.SwapLoop: the early exit for a pool without positions is not modelled; the protocol's fees are counted without the saturation of their 128-bit counters.
- SolvencyRuns.RunSolvent: tokens are taken to behave as their interface says: balances are signed 128-bit numbers, and a transfer that would leave them is refused. Reserves are then bounded by the balances that hold them.
- StoredPool.ConcentratedPool.DepositPosition: full-range, raw and weighted liquidity and the plane are not among the fields; a deposit into a range the sender does not have yet is `CreatePosition` first.
- PlaneSnapshot.GetPoolData: the full-range liquidity is assumed to be at most the largest signed 128-bit number, which deposits ensure.
- StableDepth.TwoCoinsConverge: an exact condition is not stated: with the large balance first and less amplification some pools settle and some do not; pools of more coins are covered when balanced only. What `get_d` returns when it does is stated for all.
- TickAccuracy.TickOfPriceIsExact: compares with the prices of `sqrt_ratio_at_tick`; how close those are to powers of the square root of 1.0001 is not stated.
