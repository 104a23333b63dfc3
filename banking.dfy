/**
 * A banking service: accounts with balances, an outgoing total and a balance history,
 * transfers between accounts, payments scheduled for a later time, merges, and a ranking
 * of accounts by outgoing amount. All amounts and times are Java `int`s. Every operation
 * first settles the scheduled payments that are due at its timestamp.
 */
module Banking {
  import opened Wrappers
  import opened JavaLang
  import Ordering

  /** An account; `log` maps each time its balance was recorded to that balance. */
  datatype Account = Account(id: string, balance: int32, createdAt: int32, outgoing: int32, log: map<int32, int32>)

  /** A payment due from `accountId` at `executedAt`. */
  datatype ScheduledPayment = ScheduledPayment(id: string, accountId: string, amount: int32, executedAt: int32)

  /** Each account is stored under its own id and every scheduled payment draws on an existing account. */
  ghost predicate Consistent(accounts: map<string, Account>, payments: seq<ScheduledPayment>) {
    && (forall id :: id in accounts ==> accounts[id].id == id)
    && (forall i :: 0 <= i < |payments| ==> payments[i].accountId in accounts)
  }

  /** The account after a scheduled payment is taken from it at `now`: no balance check, and the new balance is logged. */
  function Debit(a: Account, amount: int32, now: int32): Account {
    var balance := Wrap32(a.balance - amount);
    a.(balance := balance, log := a.log[now := balance])
  }

  /** The accounts after `processPayments(now)` has walked `payments` in order, debiting each due one. */
  function DebitDue(accounts: map<string, Account>, payments: seq<ScheduledPayment>, now: int32): (r: map<string, Account>)
    requires forall i :: 0 <= i < |payments| ==> payments[i].accountId in accounts
    ensures r.Keys == accounts.Keys
    ensures forall id :: id in r ==> r[id].id == accounts[id].id && r[id].outgoing == accounts[id].outgoing
  {
    if payments == [] then accounts
    else
      var before := DebitDue(accounts, payments[..|payments| - 1], now);
      var p := payments[|payments| - 1];
      if p.executedAt <= now then before[p.accountId := Debit(before[p.accountId], p.amount, now)] else before
  }

  /** The payments `processPayments(now)` keeps: those not yet due, in their original order. */
  function Pending(payments: seq<ScheduledPayment>, now: int32): (r: seq<ScheduledPayment>)
    ensures forall i :: 0 <= i < |r| ==> r[i] in payments && r[i].executedAt > now
    ensures forall i :: 0 <= i < |payments| && payments[i].executedAt > now ==> payments[i] in r
  {
    if payments == [] then []
    else
      var before := Pending(payments[..|payments| - 1], now);
      var p := payments[|payments| - 1];
      assert forall q :: q in payments[..|payments| - 1] ==> q in payments;
      if p.executedAt <= now then before else before + [p]
  }

  /** The total amount of the payments from `id` that are due at `now`. */
  function DueTotal(payments: seq<ScheduledPayment>, id: string, now: int32): int {
    if payments == [] then 0
    else
      var p := payments[|payments| - 1];
      DueTotal(payments[..|payments| - 1], id, now) + if p.accountId == id && p.executedAt <= now then p.amount as int else 0
  }

  /** The account `id` after its own due payments in `payments` are taken, in order. */
  function Settled(a: Account, payments: seq<ScheduledPayment>, now: int32): Account {
    if payments == [] then a
    else
      var before := Settled(a, payments[..|payments| - 1], now);
      var p := payments[|payments| - 1];
      if p.executedAt <= now && p.accountId == a.id then Debit(before, p.amount, now) else before
  }

  /** Settling an account depends only on the payments drawn on it. */
  lemma {:induction false} DebitDueSettled(accounts: map<string, Account>, payments: seq<ScheduledPayment>, now: int32, id: string)
    requires forall i :: 0 <= i < |payments| ==> payments[i].accountId in accounts
    requires id in accounts && accounts[id].id == id
    ensures DebitDue(accounts, payments, now)[id] == Settled(accounts[id], payments, now)
  {
    if payments != [] {
      DebitDueSettled(accounts, payments[..|payments| - 1], now, id);
    }
  }

  /** Settling takes from the account exactly the sum of its due payments (in `int` arithmetic). */
  lemma {:induction false} SettledBalance(a: Account, payments: seq<ScheduledPayment>, now: int32)
    ensures Settled(a, payments, now).balance == Wrap32(a.balance - DueTotal(payments, a.id, now))
  {
    if payments != [] {
      var front := payments[..|payments| - 1];
      var p := payments[|payments| - 1];
      SettledBalance(a, front, now);
      if p.executedAt <= now && p.accountId == a.id {
        Wrap32Sub(a.balance - DueTotal(front, a.id, now), p.amount);
      }
    }
  }

  /** Settling again at the same time does nothing more: no due payment is left behind. */
  lemma {:induction false} PendingSettled(payments: seq<ScheduledPayment>, now: int32)
    ensures Pending(Pending(payments, now), now) == Pending(payments, now)
  {
    if payments != [] {
      var front := payments[..|payments| - 1];
      PendingSettled(front, now);
      var p := payments[|payments| - 1];
      if p.executedAt > now {
        var r := Pending(front, now) + [p];
        assert r[..|r| - 1] == Pending(front, now);
      }
    }
  }

  /** Settling keeps a single payment exactly when it is not yet due. */
  lemma PendingSingle(p: ScheduledPayment, now: int32)
    ensures Pending([p], now) == if p.executedAt > now then [p] else []
  {
    assert [p][..0] == [];
  }

  /** Settling filters in order: the payments kept from a concatenation are those kept from each part, in turn. */
  lemma {:induction false} PendingAppend(a: seq<ScheduledPayment>, b: seq<ScheduledPayment>, now: int32)
    ensures Pending(a + b, now) == Pending(a, now) + Pending(b, now)
    decreases |b|
  {
    if b == [] {
      assert a + b == a;
    } else {
      var front := b[..|b| - 1];
      assert (a + b)[..|a + b| - 1] == a + front;
      assert (a + b)[|a + b| - 1] == b[|b| - 1];
      PendingAppend(a, front, now);
    }
  }

  /** `floorKey`: the greatest logged time at or before `t`. */
  ghost predicate IsFloor(log: map<int32, int32>, t: int32, k: int32) {
    k in log && k <= t && forall k' :: k' in log && k' <= t ==> k' <= k
  }

  /** There is at most one floor. */
  lemma FloorUnique(log: map<int32, int32>, t: int32, k1: int32, k2: int32)
    requires IsFloor(log, t, k1) && IsFloor(log, t, k2)
    ensures k1 == k2
  {
  }

  /** The payments after `mergeAccounts` re-points those of `from` to `to`. */
  function Repointed(payments: seq<ScheduledPayment>, from: string, to: string): (r: seq<ScheduledPayment>)
    ensures |r| == |payments|
    ensures forall i :: 0 <= i < |r| ==> r[i].id == payments[i].id && r[i].amount == payments[i].amount && r[i].executedAt == payments[i].executedAt
    ensures forall i :: 0 <= i < |r| ==> r[i].accountId == if payments[i].accountId == from then to else payments[i].accountId
  {
    seq(|payments|, i requires 0 <= i < |payments| =>
      if payments[i].accountId == from then payments[i].(accountId := to) else payments[i])
  }

  /** A line of the spender ranking. */
  datatype Summary = Summary(accountId: string, outgoing: int32)

  /**
   * The ranking order as written: smaller outgoing first, ties by id in `compareTo` order.
   * Under it `topSpenders` lists the accounts that spent the least.
   */
  predicate SpendsLess(a: Summary, b: Summary) {
    a.outgoing < b.outgoing || (a.outgoing == b.outgoing && StrLess(a.accountId, b.accountId))
  }

  /** The ranking order `topSpenders` is named for: larger outgoing first, ties by id in `compareTo` order. */
  predicate SpendsMore(a: Summary, b: Summary) {
    a.outgoing > b.outgoing || (a.outgoing == b.outgoing && StrLess(a.accountId, b.accountId))
  }

  /** One summary per account. */
  function Summaries(accounts: map<string, Account>): set<Summary> {
    set a | a in accounts.Values :: Summary(a.id, a.outgoing)
  }

  /** How the ranking prints a line: `id(outgoing)`. */
  function RenderSummary(s: Summary): string {
    s.accountId + "(" + IntToString(s.outgoing) + ")"
  }

  function RenderAll(ss: seq<Summary>): (r: seq<string>)
    ensures |r| == |ss|
  {
    seq(|ss|, i requires 0 <= i < |ss| => RenderSummary(ss[i]))
  }

  /** With each account under its own id, distinct summaries have distinct ids. */
  lemma SummaryIdsDistinct(accounts: map<string, Account>, x: Summary, y: Summary)
    requires forall id :: id in accounts ==> accounts[id].id == id
    requires x in Summaries(accounts) && y in Summaries(accounts) && x != y
    ensures x.accountId != y.accountId
  {
    var a :| a in accounts.Values && x == Summary(a.id, a.outgoing);
    var b :| b in accounts.Values && y == Summary(b.id, b.outgoing);
  }

  /** The order as written is a strict total order on the summaries. */
  lemma {:induction false} SpendsLessStrictTotal(accounts: map<string, Account>)
    requires forall id :: id in accounts ==> accounts[id].id == id
    ensures Ordering.StrictTotalOn(SpendsLess, Summaries(accounts))
  {
    var s := Summaries(accounts);
    forall x | x in s
      ensures !SpendsLess(x, x)
    {
      StrLessIrreflexive(x.accountId);
    }
    forall x, y, z | x in s && y in s && z in s && SpendsLess(x, y) && SpendsLess(y, z)
      ensures SpendsLess(x, z)
    {
      if x.outgoing == y.outgoing == z.outgoing {
        StrLessTransitive(x.accountId, y.accountId, z.accountId);
      }
    }
    forall x, y | x in s && y in s && x != y
      ensures SpendsLess(x, y) || SpendsLess(y, x)
    {
      SummaryIdsDistinct(accounts, x, y);
      StrLessTotal(x.accountId, y.accountId);
    }
  }

  /** The corrected order is a strict total order on the summaries. */
  lemma {:induction false} SpendsMoreStrictTotal(accounts: map<string, Account>)
    requires forall id :: id in accounts ==> accounts[id].id == id
    ensures Ordering.StrictTotalOn(SpendsMore, Summaries(accounts))
  {
    var s := Summaries(accounts);
    forall x | x in s
      ensures !SpendsMore(x, x)
    {
      StrLessIrreflexive(x.accountId);
    }
    forall x, y, z | x in s && y in s && z in s && SpendsMore(x, y) && SpendsMore(y, z)
      ensures SpendsMore(x, z)
    {
      if x.outgoing == y.outgoing == z.outgoing {
        StrLessTransitive(x.accountId, y.accountId, z.accountId);
      }
    }
    forall x, y | x in s && y in s && x != y
      ensures SpendsMore(x, y) || SpendsMore(y, x)
    {
      SummaryIdsDistinct(accounts, x, y);
      StrLessTotal(x.accountId, y.accountId);
    }
  }

  /**
   * The order as written picks the smallest spender: with A1 at outgoing 50 and A2 at 0,
   * the only first-1 list is A2's, so `topSpenders(_, 1)` answers `[A2(0)]`.
   */
  lemma AscendingRankingOmitsTopSpender(ss: seq<Summary>)
    requires Ordering.IsFirstK(ss, {Summary("A1", 50), Summary("A2", 0)}, 1, SpendsLess)
    ensures ss == [Summary("A2", 0)] && RenderAll(ss) == ["A2(0)"]
  {
    var a1, a2 := Summary("A1", 50), Summary("A2", 0);
    assert |{a1, a2}| == 2;
    assert !SpendsLess(a1, a2);
    assert IntToString(0) == "0";
    assert RenderAll(ss)[0] == RenderSummary(a2) == "A2(0)";
  }

  /** Under the corrected order every listed account spent at least as much as every account left out. */
  lemma TopSpendersSpendMost(ss: seq<Summary>, s: set<Summary>, k: nat)
    requires Ordering.IsFirstK(ss, s, k, SpendsMore)
    ensures forall x, i :: x in s && x !in ss && 0 <= i < |ss| ==> ss[i].outgoing >= x.outgoing
    ensures forall i, j :: 0 <= i < j < |ss| ==> ss[i].outgoing >= ss[j].outgoing
  {
  }

  class BankingService {
    var accounts: map<string, Account>
    var scheduledPayments: seq<ScheduledPayment>
    var paymentCounter: int32

    ghost predicate Valid()
      reads this
    {
      Consistent(accounts, scheduledPayments)
    }

    constructor()
      ensures Valid() && accounts == map[] && scheduledPayments == [] && paymentCounter == 0
    {
      accounts := map[];
      scheduledPayments := [];
      paymentCounter := 0;
    }

    /** `processPayments`: debits every due payment in list order and keeps the others in order. */
    method ProcessPayments(now: int32)
      requires Valid()
      modifies this
      ensures Valid()
      ensures accounts == DebitDue(old(accounts), old(scheduledPayments), now)
      ensures scheduledPayments == Pending(old(scheduledPayments), now)
      ensures paymentCounter == old(paymentCounter)
    {
      var payments, settled := scheduledPayments, accounts;
      var newQueue := [];
      var i := 0;
      while i < |payments|
        invariant 0 <= i <= |payments|
        invariant settled == DebitDue(accounts, payments[..i], now)
        invariant newQueue == Pending(payments[..i], now)
      {
        var p := payments[i];
        assert payments[..i + 1][..i] == payments[..i];
        if p.executedAt <= now {
          settled := settled[p.accountId := Debit(settled[p.accountId], p.amount, now)];
        } else {
          newQueue := newQueue + [p];
        }
        i := i + 1;
      }
      assert payments[..i] == payments;
      SettledConsistent(accounts, payments, now);
      accounts, scheduledPayments := settled, newQueue;
    }

    /** `createAccount`: false if the id is taken; otherwise a new account with zero balance and an empty log. */
    method CreateAccount(timestamp: int32, accountId: string) returns (created: bool)
      requires Valid()
      modifies this
      ensures Valid()
      ensures var settled := DebitDue(old(accounts), old(scheduledPayments), timestamp);
        && scheduledPayments == Pending(old(scheduledPayments), timestamp)
        && created == (accountId !in settled)
        && accounts == if created then settled[accountId := Account(accountId, 0, timestamp, 0, map[])] else settled
    {
      ProcessPayments(timestamp);
      if accountId in accounts {
        return false;
      }
      accounts := accounts[accountId := Account(accountId, 0, timestamp, 0, map[])];
      created := true;
    }

    /** `deposit`: adds to the balance and logs it; `null` for an unknown account. */
    method Deposit(timestamp: int32, accountId: string, amount: int32) returns (r: Option<int32>)
      requires Valid()
      modifies this
      ensures Valid()
      ensures var settled := DebitDue(old(accounts), old(scheduledPayments), timestamp);
        && scheduledPayments == Pending(old(scheduledPayments), timestamp)
        && (accountId !in settled ==> r == None && accounts == settled)
        && (accountId in settled ==>
              var a := settled[accountId];
              var balance := Wrap32(a.balance + amount);
              r == Some(balance) && accounts == settled[accountId := a.(balance := balance, log := a.log[timestamp := balance])])
    {
      ProcessPayments(timestamp);
      if accountId !in accounts {
        return None;
      }
      var a := accounts[accountId];
      var balance := Wrap32(a.balance + amount);
      accounts := accounts[accountId := a.(balance := balance, log := a.log[timestamp := balance])];
      r := Some(balance);
    }

    /**
     * `transfer`: `null` and no balance change when either account is missing, the two ids
     * are equal, or the source balance is below the amount. Otherwise the amount moves from
     * source to destination, the source's outgoing grows by it, both balances are logged,
     * and the new source balance is returned.
     */
    method Transfer(timestamp: int32, sourceId: string, destinationId: string, amount: int32) returns (r: Option<int32>)
      requires Valid()
      modifies this
      ensures Valid()
      ensures var settled := DebitDue(old(accounts), old(scheduledPayments), timestamp);
        && scheduledPayments == Pending(old(scheduledPayments), timestamp)
        && (sourceId !in settled || destinationId !in settled || sourceId == destinationId || settled[sourceId].balance < amount ==>
              r == None && accounts == settled)
        && (sourceId in settled && destinationId in settled && sourceId != destinationId && settled[sourceId].balance >= amount ==>
              && r == Some(Wrap32(settled[sourceId].balance - amount))
              && accounts == Transferred(settled, sourceId, destinationId, amount, timestamp))
    {
      ProcessPayments(timestamp);
      if sourceId !in accounts || destinationId !in accounts || sourceId == destinationId || accounts[sourceId].balance < amount {
        return None;
      }
      var s := accounts[sourceId];
      var sb := Wrap32(s.balance - amount);
      accounts := accounts[sourceId := s.(balance := sb, outgoing := Wrap32(s.outgoing + amount), log := s.log[timestamp := sb])];
      var d := accounts[destinationId];
      var db := Wrap32(d.balance + amount);
      accounts := accounts[destinationId := d.(balance := db, log := d.log[timestamp := db])];
      r := Some(sb);
    }

    /**
     * `topSpenders`: the first `min(n, #accounts)` summaries in the ranking order, printed as
     * `id(outgoing)`. The order is the corrected one, largest outgoing first.
     */
    method TopSpenders(timestamp: int32, n: int32) returns (r: seq<string>)
      requires Valid()
      modifies this
      ensures Valid()
      ensures accounts == DebitDue(old(accounts), old(scheduledPayments), timestamp)
      ensures scheduledPayments == Pending(old(scheduledPayments), timestamp)
      ensures exists ss :: Ordering.IsFirstK(ss, Summaries(accounts), if n < 0 then 0 else n as nat, SpendsMore) && r == RenderAll(ss)
    {
      ProcessPayments(timestamp);
      SpendsMoreStrictTotal(accounts);
      var ss := Ordering.FirstK(Summaries(accounts), if n < 0 then 0 else n as nat, SpendsMore);
      r := RenderAll(ss);
    }

    /**
     * `schedulePayment`: `null` for an unknown account; otherwise the counter goes up by one,
     * a payment named `Payment <counter>` due at `timestamp + delay` is queued, and its id returned.
     */
    method SchedulePayment(timestamp: int32, accountId: string, amount: int32, delay: int32) returns (r: Option<string>)
      requires Valid()
      modifies this
      ensures Valid()
      ensures accounts == DebitDue(old(accounts), old(scheduledPayments), timestamp)
      ensures accountId !in accounts ==> r == None && paymentCounter == old(paymentCounter) && scheduledPayments == Pending(old(scheduledPayments), timestamp)
      ensures accountId in accounts ==>
        && paymentCounter == Wrap32(old(paymentCounter) + 1)
        && r == Some("Payment " + IntToString(paymentCounter))
        && scheduledPayments == Pending(old(scheduledPayments), timestamp) + [ScheduledPayment(r.value, accountId, amount, Wrap32(timestamp + delay))]
    {
      ProcessPayments(timestamp);
      if accountId !in accounts {
        return None;
      }
      paymentCounter := Wrap32(paymentCounter + 1);
      var paymentId := "Payment " + IntToString(paymentCounter);
      scheduledPayments := scheduledPayments + [ScheduledPayment(paymentId, accountId, amount, Wrap32(timestamp + delay))];
      r := Some(paymentId);
    }

    /**
     * `getBalance`: the balance logged at the greatest time at or before `timeAt`. An unknown
     * account, or no entry that early, throws a `NullPointerException`, here `Err`.
     */
    method GetBalance(timestamp: int32, accountId: string, timeAt: int32) returns (r: Result<int32, string>)
      requires Valid()
      modifies this
      ensures Valid()
      ensures accounts == DebitDue(old(accounts), old(scheduledPayments), timestamp)
      ensures scheduledPayments == Pending(old(scheduledPayments), timestamp)
      ensures r.Ok? <==> accountId in accounts && !(forall k :: k in accounts[accountId].log ==> k > timeAt)
      ensures r.Ok? ==> exists k :: IsFloor(accounts[accountId].log, timeAt, k) && r.value == accounts[accountId].log[k]
    {
      ProcessPayments(timestamp);
      if accountId !in accounts {
        return Err("NullPointerException");
      }
      var floor := FloorKey(accounts[accountId].log, timeAt);
      if floor.None? {
        return Err("NullPointerException");
      }
      r := Ok(accounts[accountId].log[floor.value]);
    }

    /** `TreeMap.floorKey`: the greatest key at or before `t`, or `null` if every key is later. */
    static method FloorKey(log: map<int32, int32>, t: int32) returns (floor: Option<int32>)
      ensures floor.None? <==> forall k :: k in log ==> k > t
      ensures floor.Some? ==> IsFloor(log, t, floor.value)
    {
      floor := None;
      var todo := log.Keys;
      while todo != {}
        invariant todo <= log.Keys
        invariant floor.None? ==> forall k :: k in log && k !in todo ==> k > t
        invariant floor.Some? ==> floor.value in log && floor.value <= t
        invariant floor.Some? ==> forall k :: k in log && k !in todo && k <= t ==> k <= floor.value
        decreases todo
      {
        var k :| k in todo;
        if k <= t && (floor.None? || floor.value < k) {
          floor := Some(k);
        }
        todo := todo - {k};
      }
    }

    /**
     * `cancelPayment`: finds the first pending payment with the id; true and that payment
     * removed if it belongs to the account, false if it belongs to another one or there is none.
     */
    method CancelPayment(timestamp: int32, accountId: string, paymentId: string) returns (cancelled: bool)
      requires Valid()
      modifies this
      ensures Valid()
      ensures accounts == DebitDue(old(accounts), old(scheduledPayments), timestamp)
      ensures var pending := Pending(old(scheduledPayments), timestamp);
        var first := FirstWithId(pending, paymentId);
        && cancelled == (first.Some? && pending[first.value].accountId == accountId)
        && scheduledPayments == if cancelled then pending[..first.value] + pending[first.value + 1..] else pending
    {
      ProcessPayments(timestamp);
      var found := FindById(scheduledPayments, paymentId);
      if found.None? || scheduledPayments[found.value].accountId != accountId {
        return false;
      }
      ConsistentRemoveAt(accounts, scheduledPayments, found.value);
      scheduledPayments := scheduledPayments[..found.value] + scheduledPayments[found.value + 1..];
      cancelled := true;
    }

    /** The iterator walk of `cancelPayment`: the position of the first payment with the id. */
    static method FindById(payments: seq<ScheduledPayment>, paymentId: string) returns (found: Option<nat>)
      ensures found == FirstWithId(payments, paymentId)
    {
      var i := 0;
      while i < |payments|
        invariant 0 <= i <= |payments|
        invariant FirstWithId(payments, paymentId) == FirstWithIdFrom(payments, paymentId, i)
      {
        if payments[i].id == paymentId {
          return Some(i);
        }
        i := i + 1;
      }
      return None;
    }

    /**
     * `mergeAccounts`: false for equal ids or a missing account. Otherwise the first account
     * takes the sum of both balances and both outgoing totals and logs its balance, the
     * second account's payments are re-pointed to the first, and the second account goes.
     */
    method MergeAccounts(timestamp: int32, accountId1: string, accountId2: string) returns (merged: bool)
      requires Valid()
      modifies this
      ensures Valid()
      ensures var settled := DebitDue(old(accounts), old(scheduledPayments), timestamp);
        var pending := Pending(old(scheduledPayments), timestamp);
        && merged == (accountId1 != accountId2 && accountId1 in settled && accountId2 in settled)
        && (!merged ==> accounts == settled && scheduledPayments == pending)
        && (merged ==>
              var a1, a2 := settled[accountId1], settled[accountId2];
              var balance := Wrap32(a1.balance + a2.balance);
              && accounts == (settled - {accountId2})[accountId1 := a1.(balance := balance, outgoing := Wrap32(a1.outgoing + a2.outgoing), log := a1.log[timestamp := balance])]
              && scheduledPayments == Repointed(pending, accountId2, accountId1))
      ensures paymentCounter == old(paymentCounter)
    {
      ProcessPayments(timestamp);
      if accountId1 == accountId2 || accountId1 !in accounts || accountId2 !in accounts {
        return false;
      }
      var a1, a2 := accounts[accountId1], accounts[accountId2];
      var balance := Wrap32(a1.balance + a2.balance);
      accounts := accounts[accountId1 := a1.(balance := balance, outgoing := Wrap32(a1.outgoing + a2.outgoing), log := a1.log[timestamp := balance])];
      var payments := RepointAll(scheduledPayments, accountId2, accountId1);
      scheduledPayments := payments;
      accounts := accounts - {accountId2};
      merged := true;
    }
  }

  /** The loop of `mergeAccounts` that re-points each payment of `from` to `to`, in place. */
  method RepointAll(payments: seq<ScheduledPayment>, from: string, to: string) returns (r: seq<ScheduledPayment>)
    ensures r == Repointed(payments, from, to)
  {
    r := payments;
    var i := 0;
    while i < |r|
      invariant 0 <= i <= |r| == |payments|
      invariant forall j :: 0 <= j < i ==> r[j] == Repointed(payments, from, to)[j]
      invariant forall j :: i <= j < |r| ==> r[j] == payments[j]
    {
      if r[i].accountId == from {
        r := r[i := r[i].(accountId := to)];
      }
      i := i + 1;
    }
  }

  /** Settling keeps every account under its own id and leaves only payments on existing accounts. */
  lemma SettledConsistent(accounts: map<string, Account>, payments: seq<ScheduledPayment>, now: int32)
    requires Consistent(accounts, payments)
    ensures Consistent(DebitDue(accounts, payments, now), Pending(payments, now))
  {
  }

  /** Dropping one payment keeps the service consistent. */
  lemma ConsistentRemoveAt(accounts: map<string, Account>, payments: seq<ScheduledPayment>, i: nat)
    requires Consistent(accounts, payments) && i < |payments|
    ensures Consistent(accounts, payments[..i] + payments[i + 1..])
  {
    var r := payments[..i] + payments[i + 1..];
    assert forall j :: 0 <= j < |r| ==> r[j] == payments[if j < i then j else j + 1];
  }

  /** The position of the first payment at or after `from` with the id, if any. */
  function FirstWithIdFrom(payments: seq<ScheduledPayment>, paymentId: string, from: nat): (r: Option<nat>)
    requires from <= |payments|
    ensures r.Some? ==> from <= r.value < |payments| && payments[r.value].id == paymentId
    ensures r.Some? ==> forall j :: from <= j < r.value ==> payments[j].id != paymentId
    ensures r.None? ==> forall j :: from <= j < |payments| ==> payments[j].id != paymentId
    decreases |payments| - from
  {
    if from == |payments| then None
    else if payments[from].id == paymentId then Some(from)
    else FirstWithIdFrom(payments, paymentId, from + 1)
  }

  /** The position of the first payment with the id, if any. */
  function FirstWithId(payments: seq<ScheduledPayment>, paymentId: string): Option<nat> {
    FirstWithIdFrom(payments, paymentId, 0)
  }

  /**
   * The accounts after a transfer that passes the checks: the source is debited and its
   * outgoing grows, the destination is credited, and both log their new balance.
   */
  function Transferred(accounts: map<string, Account>, sourceId: string, destinationId: string, amount: int32, now: int32): (r: map<string, Account>)
    requires sourceId in accounts && destinationId in accounts
    ensures r.Keys == accounts.Keys
  {
    var s, d := accounts[sourceId], accounts[destinationId];
    var sb, db := Wrap32(s.balance - amount), Wrap32(d.balance + amount);
    accounts[sourceId := s.(balance := sb, outgoing := Wrap32(s.outgoing + amount), log := s.log[now := sb])]
            [destinationId := d.(balance := db, log := d.log[now := db])]
  }

  /**
   * A transfer between two accounts that does not overflow keeps the sum of their balances,
   * moves exactly `amount` out of the source, and leaves every other account as it was.
   */
  lemma TransferConserves(accounts: map<string, Account>, sourceId: string, destinationId: string, amount: int32, now: int32)
    requires sourceId in accounts && destinationId in accounts && sourceId != destinationId
    requires IsInt(accounts[sourceId].balance - amount) && IsInt(accounts[destinationId].balance + amount)
    ensures var r := Transferred(accounts, sourceId, destinationId, amount, now);
      && r[sourceId].balance + r[destinationId].balance == accounts[sourceId].balance + accounts[destinationId].balance
      && r[sourceId].balance == accounts[sourceId].balance - amount
      && forall id :: id in accounts && id != sourceId && id != destinationId ==> r[id] == accounts[id]
  {
    assert Wrap32(accounts[sourceId].balance - amount) == accounts[sourceId].balance - amount;
    assert Wrap32(accounts[destinationId].balance + amount) == accounts[destinationId].balance + amount;
  }

  /** In every case the two balances together change by a multiple of 2^32 only. */
  lemma TransferConservesModulo(source: int32, destination: int32, amount: int32)
    ensures (Wrap32(source - amount) + Wrap32(destination + amount) - (source + destination)) % 0x1_0000_0000 == 0
  {
    var k1 := Wrap32Quotient(source - amount);
    var k2 := Wrap32Quotient(destination + amount);
    assert Wrap32(source - amount) + Wrap32(destination + amount) - (source + destination) == -0x1_0000_0000 * (k1 + k2);
  }

  /** After a merge no payment still draws on the removed account. */
  lemma RepointedLeavesNone(payments: seq<ScheduledPayment>, from: string, to: string)
    requires from != to
    ensures forall i :: 0 <= i < |payments| ==> Repointed(payments, from, to)[i].accountId != from
  {
  }
}
