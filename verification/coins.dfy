/** The coin vector of the vending engine (2_idioms/src/main.rs): the fixed
    denominations, greedy decomposition of a sum (`money`), change drawn from
    the coins on hand (`coins_for_sum`), `trade` and `total`.

    Everything is modelled as the code is written, including three behaviours
    that differ from what the names suggest: `total` never looks at the coins,
    `coins_for_sum` only ever succeeds for a target of 0, and hence `trade`
    only succeeds for a price of exactly 3030. */
module Coins {
  import opened Base

  /** `COINS`: the denominations, largest first. */
  const COINS: seq<nat> := [50, 20, 10, 5, 2, 1]

  /** `InCoins([u32; 6])`: one count per slot of `COINS`. */
  type InCoins = c: seq<nat> | |c| == 6 witness [0, 0, 0, 0, 0, 0]

  const NoCoins: InCoins := [0, 0, 0, 0, 0, 0]

  /** Face value of slots `i..` of a coin vector: the sum of COINS[j] * c[j] for j >= i. */
  function WorthFrom(c: InCoins, i: nat): nat
    requires i <= 6
    decreases 6 - i
  {
    if i == 6 then 0 else COINS[i] * c[i] + WorthFrom(c, i + 1)
  }

  /** Face value of a coin vector. The source has no such function (its `total`
      computes something else); the model uses it to state what the operations do. */
  function Worth(c: InCoins): nat
  {
    WorthFrom(c, 0)
  }

  /** Slots before `i` do not contribute to the worth of slots `i..`. */
  lemma {:induction false} WorthFromIgnoresEarlierSlots(c: InCoins, j: nat, v: nat, i: nat)
    requires j < i <= 6
    ensures WorthFrom(c[j := v], i) == WorthFrom(c, i)
    decreases 6 - i
  {
    if i < 6 {
      WorthFromIgnoresEarlierSlots(c, j, v, i + 1);
    }
  }

  /** Setting an empty slot `i` to `v` adds `COINS[i] * v` to the worth. */
  lemma {:induction false} WorthOfFilledSlot(c: InCoins, i: nat, v: nat)
    requires i < 6 && c[i] == 0
    ensures Worth(c[i := v]) == Worth(c) + COINS[i] * v
  {
    WorthFromUpdate(c, i, v, 0);
  }

  lemma {:induction false} WorthFromUpdate(c: InCoins, i: nat, v: nat, k: nat)
    requires k <= i < 6 && c[i] == 0
    ensures WorthFrom(c[i := v], k) == WorthFrom(c, k) + COINS[i] * v
    decreases 6 - k
  {
    if k == i {
      WorthFromIgnoresEarlierSlots(c, i, v, i + 1);
    } else {
      WorthFromUpdate(c, i, v, k + 1);
    }
  }

  lemma {:induction false} WorthFromPool(a: InCoins, b: InCoins, i: nat)
    requires i <= 6
    ensures WorthFrom(Pool(a, b), i) == WorthFrom(a, i) + WorthFrom(b, i)
    decreases 6 - i
  {
    if i < 6 {
      WorthFromPool(a, b, i + 1);
    }
  }

  // ---------------------------------------------------------------------------
  // money: greedy largest-first decomposition
  // ---------------------------------------------------------------------------

  /** The greedy shape: whatever slots `i..` are worth is less than one coin of
      slot `i - 1`, so a larger coin could not have been used instead. */
  ghost predicate Canonical(c: InCoins)
  {
    forall i | 1 <= i < 6 :: WorthFrom(c, i) < COINS[i - 1]
  }

  /** The `for (idx, coin) in COINS.iter().enumerate()` loop of `money`, from
      slot `idx` on, with `sum` the leftover so far. */
  function MoneyLoop(sum: nat, idx: nat, coins: InCoins): InCoins
    requires idx <= 6
    decreases 6 - idx
  {
    if idx == 6 then coins
    else MoneyLoop(sum % COINS[idx], idx + 1, coins[idx := sum / COINS[idx]])
  }

  /** `InCoins::money`. */
  function Money(sum: nat): InCoins
  {
    MoneyLoop(sum, 0, NoCoins)
  }

  /** The loop leaves the slots before `idx` as they were. */
  lemma {:induction false} MoneyLoopKeeps(sum: nat, idx: nat, coins: InCoins)
    requires idx <= 6
    ensures forall j | 0 <= j < idx :: MoneyLoop(sum, idx, coins)[j] == coins[j]
    decreases 6 - idx
  {
    if idx < 6 {
      MoneyLoopKeeps(sum % COINS[idx], idx + 1, coins[idx := sum / COINS[idx]]);
    }
  }

  /** The slots the loop fills are worth the leftover it started from. */
  lemma {:induction false} MoneyLoopWorth(sum: nat, idx: nat, coins: InCoins)
    requires idx < 6
    ensures WorthFrom(MoneyLoop(sum, idx, coins), idx) == sum
    decreases 6 - idx
  {
    var q, rest := sum / COINS[idx], sum % COINS[idx];
    var next := coins[idx := q];
    var r := MoneyLoop(sum, idx, coins);
    assert r == MoneyLoop(rest, idx + 1, next);
    MoneyLoopKeeps(rest, idx + 1, next);
    if idx < 5 {
      MoneyLoopWorth(rest, idx + 1, next);
    } else {
      assert r == next;
    }
    assert WorthFrom(r, idx + 1) == rest;
    CoinDivMod(sum, idx);
    assert WorthFrom(r, idx) == COINS[idx] * q + rest;
  }

  /** `q * COINS[i] + r` with the quotient and remainder of `s` is `s`. */
  lemma CoinDivMod(s: nat, i: nat)
    requires i < 6
    ensures COINS[i] * (s / COINS[i]) + s % COINS[i] == s
  {
    if i == 0 {
      assert COINS[i] == 50;
    } else if i == 1 {
      assert COINS[i] == 20;
    } else if i == 2 {
      assert COINS[i] == 10;
    } else if i == 3 {
      assert COINS[i] == 5;
    } else if i == 4 {
      assert COINS[i] == 2;
    } else {
      assert COINS[i] == 1;
    }
  }

  /** Past slot `idx`, every tail is worth less than the coin before it. */
  lemma {:induction false} MoneyLoopGreedy(sum: nat, idx: nat, coins: InCoins)
    requires idx < 6
    ensures forall i | idx < i < 6 :: WorthFrom(MoneyLoop(sum, idx, coins), i) < COINS[i - 1]
    decreases 6 - idx
  {
    if idx < 5 {
      var next := coins[idx := sum / COINS[idx]];
      assert MoneyLoop(sum, idx, coins) == MoneyLoop(sum % COINS[idx], idx + 1, next);
      MoneyLoopWorth(sum % COINS[idx], idx + 1, next);
      MoneyLoopGreedy(sum % COINS[idx], idx + 1, next);
    }
  }

  lemma MoneyLoopFacts(sum: nat, idx: nat, coins: InCoins)
    requires idx < 6
    ensures var r := MoneyLoop(sum, idx, coins);
      && WorthFrom(r, idx) == sum
      && (forall j | 0 <= j < idx :: r[j] == coins[j])
      && (forall i | idx < i < 6 :: WorthFrom(r, i) < COINS[i - 1])
  {
    MoneyLoopKeeps(sum, idx, coins);
    MoneyLoopWorth(sum, idx, coins);
    MoneyLoopGreedy(sum, idx, coins);
  }

  /** `money(sum)` is a decomposition of `sum` (the leftover after the last,
      1-valued coin is always 0) and has the greedy shape. */
  lemma MoneyDecomposes(sum: nat)
    ensures Worth(Money(sum)) == sum
    ensures Canonical(Money(sum))
  {
    MoneyLoopFacts(sum, 0, NoCoins);
  }

  /** Division by a denomination undoes `q * COINS[i] + r` when `r` is below it. */
  lemma DivByCoin(s: nat, i: nat, q: nat, r: nat)
    requires i < 6 && r < COINS[i] && s == q * COINS[i] + r
    ensures s / COINS[i] == q && s % COINS[i] == r
  {
    if i == 0 {
      assert COINS[i] == 50;
    } else if i == 1 {
      assert COINS[i] == 20;
    } else if i == 2 {
      assert COINS[i] == 10;
    } else if i == 3 {
      assert COINS[i] == 5;
    } else if i == 4 {
      assert COINS[i] == 2;
    } else {
      assert COINS[i] == 1;
    }
  }

  lemma {:induction false} MoneyLoopUnique(c: InCoins, idx: nat, coins: InCoins)
    requires idx <= 6
    requires forall i | idx < i < 6 :: WorthFrom(c, i) < COINS[i - 1]
    requires forall j | 0 <= j < idx :: coins[j] == c[j]
    ensures MoneyLoop(WorthFrom(c, idx), idx, coins) == c
    decreases 6 - idx
  {
    if idx == 6 {
      assert coins == c;
    } else {
      var s := WorthFrom(c, idx);
      var rest := WorthFrom(c, idx + 1);
      assert rest < COINS[idx] by {
        if idx == 5 {
          assert rest == 0;
        }
      }
      DivByCoin(s, idx, c[idx], rest);
      MoneyLoopUnique(c, idx + 1, coins[idx := c[idx]]);
    }
  }

  /** The greedy shape pins the decomposition down: any coin vector of worth
      `sum` with that shape is exactly `money(sum)`. */
  lemma CanonicalIsMoney(c: InCoins)
    requires Canonical(c)
    ensures Money(Worth(c)) == c
  {
    MoneyLoopUnique(c, 0, NoCoins);
  }

  // ---------------------------------------------------------------------------
  // total: as written it folds over COINS, not over the coins held
  // ---------------------------------------------------------------------------

  /** The fold `|acc, (i, amm)| acc + COINS[i] * *amm` over
      `COINS.iter().enumerate()`, where `amm` is `&COINS[i]` itself. */
  function TotalFold(acc: nat, i: nat): nat
    requires i <= 6
    decreases 6 - i
  {
    if i == 6 then acc else TotalFold(acc + COINS[i] * COINS[i], i + 1)
  }

  /** `InCoins::total`: the coins held are never read, and the result is
      50^2 + 20^2 + 10^2 + 5^2 + 2^2 + 1^2 whatever they are. */
  function Total(c: InCoins): (r: nat)
    ensures r == 3030
  {
    TotalFold(0, 0)
  }

  /** `total` is not the face value: it agrees with it only on vectors worth 3030. */
  lemma TotalIsNotWorth(c: InCoins)
    ensures Total(c) == Worth(c) <==> Worth(c) == 3030
    ensures Total(NoCoins) != Worth(NoCoins)
  {
    assert Worth(NoCoins) == 0;
  }

  // ---------------------------------------------------------------------------
  // coins_for_sum
  // ---------------------------------------------------------------------------

  /** The arms of the `match (attempt * nominal < target, next * nominal < target)`
      in the inner loop of `coins_for_sum`, in source order. */
  datatype Arm = Continue | TakePeak | Unreachable | TakeCut | BreakCoins

  function SelectArm(attempt: nat, next: nat, nominal: nat, target: nat): Arm
  {
    var now := attempt * nominal < target;
    var more := next * nominal < target;
    if now && more then
      (if next > attempt then Continue else if next == attempt then TakePeak else Unreachable)
    else if now then TakeCut
    else if more then Continue
    else BreakCoins
  }

  /** How the inner loop over one denomination ends: it ran out of attempts
      without recording anything, it recorded `count` coins, or it broke out of
      the outer `'coins` loop. */
  datatype Scan = Exhausted | Take(count: nat) | Abort

  /** The inner `for attempt in 0..*ammount` loop, from `attempt` on. Because
      `attempt < ammount`, `next` is always `attempt + 1`: neither the peak arm
      nor the `unreachable!` arm is ever selected, and a take never reaches the
      target. */
  function AttemptScan(nominal: nat, amount: nat, target: nat, attempt: nat): (r: Scan)
    requires nominal > 0 && attempt <= amount
    ensures r.Take? ==> attempt <= r.count < amount && r.count * nominal < target
    ensures r.Abort? ==> attempt * nominal >= target
    decreases amount - attempt
  {
    if attempt == amount then Exhausted
    else
      var next := if amount < attempt + 1 then amount else attempt + 1;
      match SelectArm(attempt, next, nominal, target)
      case Continue => AttemptScan(nominal, amount, target, attempt + 1)
      case TakePeak => assert false; Abort
      case Unreachable => assert false; Abort
      case TakeCut => Take(attempt)
      case BreakCoins => Abort
  }

  /** The outer `'coins` loop of `coins_for_sum` from slot `i` on, carrying
      `curr_sum` and `curr_coins`; returns their final values. */
  function CoinsScan(have: InCoins, sum: nat, i: nat, currSum: nat, currCoins: InCoins): (r: (nat, InCoins))
    requires i <= 6 && currSum <= sum
    requires Worth(currCoins) == currSum
    requires forall j | i <= j < 6 :: currCoins[j] == 0
    requires forall j | 0 <= j < 6 :: currCoins[j] <= have[j]
    ensures r.0 <= sum && Worth(r.1) == r.0
    ensures forall j | 0 <= j < 6 :: r.1[j] <= have[j]
    ensures currSum < sum ==> r.0 < sum
    ensures currSum == sum ==> r == (currSum, currCoins)
    decreases 6 - i
  {
    if i == 6 then (currSum, currCoins)
    else
      var target := sum - currSum;
      match AttemptScan(COINS[i], have[i], target, 0)
      case Exhausted => CoinsScan(have, sum, i + 1, currSum, currCoins)
      case Take(k) =>
        WorthOfFilledSlot(currCoins, i, k);
        CoinsScan(have, sum, i + 1, currSum + k * COINS[i], currCoins[i := k])
      case Abort => (currSum, currCoins)
  }

  /** `InCoins::coins_for_sum`. What it returns is always exact and drawn from
      the coins on hand; but since no take ever reaches its target, it returns
      `Some` only for a target of 0, and then takes nothing. */
  function CoinsForSum(have: InCoins, sum: nat): (r: Option<InCoins>)
    ensures r.Some? ==> Worth(r.value) == sum
    ensures r.Some? ==> forall j | 0 <= j < 6 :: r.value[j] <= have[j]
    ensures r == (if sum == 0 then Some(NoCoins) else None)
  {
    assert Worth(NoCoins) == 0;
    var (currSum, currCoins) := CoinsScan(have, sum, 0, 0, NoCoins);
    assert currSum <= sum;
    if currSum < sum then None else Some(currCoins)
  }

  // ---------------------------------------------------------------------------
  // trade
  // ---------------------------------------------------------------------------

  /** `coins_got`: the machine's and the customer's coins slot by slot. */
  function Pool(a: InCoins, b: InCoins): (r: InCoins)
    ensures forall j | 0 <= j < 6 :: r[j] == a[j] + b[j]
  {
    seq(6, j requires 0 <= j < 6 => a[j] + b[j])
  }

  /** `coins_rest`: `got` minus `taken`, slot by slot. */
  function Withdraw(got: InCoins, taken: InCoins): (r: InCoins)
    requires forall j | 0 <= j < 6 :: taken[j] <= got[j]
    ensures forall j | 0 <= j < 6 :: r[j] + taken[j] == got[j]
  {
    seq(6, j requires 0 <= j < 6 => got[j] - taken[j])
  }

  /** `InCoins::trade`: the first vector is what the machine keeps, the second
      the change. Coins are only moved between the two, and the change is worth
      exactly what `total` says is owed. */
  function Trade(self: InCoins, other: InCoins, price: nat): (r: Option<(InCoins, InCoins)>)
    ensures Total(other) < price ==> r.None?
    ensures r.Some? ==> forall j | 0 <= j < 6 :: r.value.0[j] + r.value.1[j] == self[j] + other[j]
    ensures r.Some? ==> Worth(r.value.1) + price == Total(other)
  {
    if Total(other) < price then None
    else
      var change := Total(other) - price;
      var got := Pool(self, other);
      match CoinsForSum(got, change)
      case None => None
      case Some(changeCoins) => Some((Withdraw(got, changeCoins), changeCoins))
  }

  /** As written, `trade` succeeds exactly when the price is 3030; the machine
      then keeps every coin and the change is empty. */
  lemma TradeSucceedsOnlyAt3030(self: InCoins, other: InCoins, price: nat)
    ensures Trade(self, other, price).Some? <==> price == 3030
    ensures price == 3030 ==> Trade(self, other, price) == Some((Pool(self, other), NoCoins))
  {
    if price == 3030 {
      assert Withdraw(Pool(self, other), NoCoins) == Pool(self, other);
    }
  }

  /** On success nothing is created or lost: the worth kept plus the change is
      the worth of both inputs together. */
  lemma TradeConservesWorth(self: InCoins, other: InCoins, price: nat)
    requires Trade(self, other, price).Some?
    ensures var r := Trade(self, other, price).value;
      Worth(r.0) + Worth(r.1) == Worth(self) + Worth(other)
  {
    var r := Trade(self, other, price).value;
    assert Pool(r.0, r.1) == Pool(self, other);
    WorthFromPool(r.0, r.1, 0);
    WorthFromPool(self, other, 0);
  }
}
