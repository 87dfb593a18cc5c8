/** The superuser KPIs of analytics/views.py — GMV, accumulated commissions,
    funds held in escrow, job counts, the critical-delay alert list — and the
    per-row commission logic of the two CSV reports. Job rows carry the delay
    state the deadline check left in them; amounts are integer cents. */
module Analytics {
  import opened Decimals
  import opened Optional
  import opened Market
  import opened Escrow
  import opened Folds

  /** A JobOffer row as the reports read it. */
  datatype JobRow = JobRow(id: JobId, job: Job, delayed: bool, daysDelayed: int)

  predicate IsRunning(r: JobRow) { r.job.status == InProgress }
  predicate IsClosed(r: JobRow) { r.job.status == Closed }
  predicate IsStarted(r: JobRow) { r.job.status == InProgress || r.job.status == Closed }
  predicate IsOpen(r: JobRow) { r.job.status == Open }
  predicate IsRunningDelayed(r: JobRow) { r.job.status == InProgress && r.delayed }
  function Budget(r: JobRow): int { r.job.budgetArs }

  // ------------------------------------------------------------ GMV

  /** KPI 1: the budgets of IN_PROGRESS and CLOSED jobs, in ARS cents. */
  function GmvArs(rows: seq<JobRow>): (total: int)
    ensures total == SumOf(rows, IsRunning, Budget) + SumOf(rows, IsClosed, Budget)
  {
    SumSplit(rows, IsStarted, IsRunning, IsClosed, Budget);
    SumOf(rows, IsStarted, Budget)
  }

  /** With every job still OPEN the GMV is 0.00. */
  lemma GmvAllOpen(rows: seq<JobRow>)
    requires forall i :: 0 <= i < |rows| ==> IsOpen(rows[i])
    ensures GmvArs(rows) == 0
  {
    SumOfNone(rows, IsStarted, Budget);
  }

  /** A job leaving OPEN adds its budget to the GMV; closing it leaves the
      GMV as it was. */
  lemma GmvOnStatusChange(rows: seq<JobRow>, i: nat, st: JobStatus)
    requires i < |rows|
    ensures var moved := rows[i := rows[i].(job := rows[i].job.(status := st))];
      && (rows[i].job.status == Open && st == InProgress ==> GmvArs(moved) == GmvArs(rows) + Budget(rows[i]))
      && (rows[i].job.status == InProgress && st == Closed ==> GmvArs(moved) == GmvArs(rows))
  {
    var x := rows[i].(job := rows[i].job.(status := st));
    SumUpdate(rows, i, x, IsStarted, Budget);
  }

  /** A winning bid whose job has left OPEN. */
  function WinnerOfStarted(rows: seq<JobRow>): Bid -> bool {
    (b: Bid) => b.winner && exists i :: 0 <= i < |rows| && rows[i].id == b.job && IsStarted(rows[i])
  }

  function BidAmount(b: Bid): int { b.amountArs }

  /** KPI 1 in USDC: the winning bids' ARS amounts of started jobs divided by
      the approximate quote of 1000, as a decimal whose value is that sum in
      ARS (cents / 100) over 1000. */
  function GmvUsdc(rows: seq<JobRow>, bids: seq<Bid>): (r: Dec)
    ensures r.coef * 100 * 1000 == SumOf(bids, WinnerOfStarted(rows), BidAmount) * Pow10(r.scale)
  {
    assert Pow10(5) == 100000;
    Dec(SumOf(bids, WinnerOfStarted(rows), BidAmount), 5)
  }

  /** Job rows come from one table, so no two share an id. */
  predicate DistinctIds(rows: seq<JobRow>) {
    forall a, b :: 0 <= a < |rows| && 0 <= b < |rows| && a != b ==> rows[a].id != rows[b].id
  }

  /** A winning bid of job j. */
  function WinnerOfJob(j: JobId): Bid -> bool {
    (b: Bid) => b.winner && b.job == j
  }

  /** With every job still OPEN the USDC GMV is 0. */
  lemma GmvUsdcAllOpen(rows: seq<JobRow>, bids: seq<Bid>)
    requires forall i :: 0 <= i < |rows| ==> IsOpen(rows[i])
    ensures GmvUsdc(rows, bids).coef == 0
  {
    forall k | 0 <= k < |bids| ensures !WinnerOfStarted(rows)(bids[k]) {
    }
    SumOfNone(bids, WinnerOfStarted(rows), BidAmount);
  }

  /** A job leaving OPEN adds the ARS amounts of its winning bids, over
      1000, to the USDC GMV (the coefficient counts ARS cents at scale 5);
      closing it leaves the USDC GMV as it was. */
  lemma GmvUsdcOnStatusChange(rows: seq<JobRow>, bids: seq<Bid>, i: nat, st: JobStatus)
    requires i < |rows| && DistinctIds(rows)
    ensures var moved := rows[i := rows[i].(job := rows[i].job.(status := st))];
      && GmvUsdc(moved, bids).scale == GmvUsdc(rows, bids).scale
      && (rows[i].job.status == Open && st == InProgress ==>
            GmvUsdc(moved, bids).coef == GmvUsdc(rows, bids).coef + SumOf(bids, WinnerOfJob(rows[i].id), BidAmount))
      && (rows[i].job.status == InProgress && st == Closed ==> GmvUsdc(moved, bids) == GmvUsdc(rows, bids))
  {
    var moved := rows[i := rows[i].(job := rows[i].job.(status := st))];
    var before := WinnerOfStarted(rows);
    var after := WinnerOfStarted(moved);
    if rows[i].job.status == Open && st == InProgress {
      var joining := WinnerOfJob(rows[i].id);
      forall x: Bid ensures after(x) == (before(x) || joining(x)) {
        if x.job != rows[i].id {
          StartedElsewhere(rows, moved, i, x);
        } else if x.winner {
          assert moved[i].id == x.job && IsStarted(moved[i]);
        }
      }
      forall x: Bid | before(x) ensures !joining(x) {
        var k :| 0 <= k < |rows| && rows[k].id == x.job && IsStarted(rows[k]);
        assert k != i;
      }
      SumSplit(bids, after, before, joining, BidAmount);
    } else if rows[i].job.status == InProgress && st == Closed {
      var none := (b: Bid) => false;
      forall x: Bid ensures after(x) == (before(x) || none(x)) {
        if x.job != rows[i].id {
          StartedElsewhere(rows, moved, i, x);
        } else if x.winner {
          assert moved[i].id == x.job && IsStarted(moved[i]);
          assert rows[i].id == x.job && IsStarted(rows[i]);
        }
      }
      SumSplit(bids, after, before, none, BidAmount);
      SumOfNone(bids, none, BidAmount);
    }
  }

  /** Off the moved row, a winning bid is counted before exactly when it is
      counted after. */
  lemma StartedElsewhere(rows: seq<JobRow>, moved: seq<JobRow>, i: nat, x: Bid)
    requires i < |rows| && |moved| == |rows| && DistinctIds(rows)
    requires forall k :: 0 <= k < |rows| && k != i ==> moved[k] == rows[k]
    requires moved[i].id == rows[i].id
    requires x.job != rows[i].id
    ensures WinnerOfStarted(moved)(x) == WinnerOfStarted(rows)(x)
  {
    if k :| 0 <= k < |moved| && moved[k].id == x.job && IsStarted(moved[k]) {
      assert k != i && rows[k] == moved[k];
    }
    if k :| 0 <= k < |rows| && rows[k].id == x.job && IsStarted(rows[k]) {
      assert k != i && moved[k] == rows[k];
    }
  }

  // ------------------------------------------------------------ commissions

  /** The budgets of CLOSED jobs, in ARS cents. */
  function ClosedTotal(rows: seq<JobRow>): int {
    SumOf(rows, IsClosed, Budget)
  }

  /** KPI 2: 5% of the CLOSED budgets, quantized to cents with ROUND_HALF_UP.
      The product of a 2-decimal sum and 0.05 has 4 decimals. */
  function ClosedCommissionArs(rows: seq<JobRow>): (c: int)
    ensures IsRounding(HalfUp, 5 * ClosedTotal(rows), 100, c)
  {
    var c := QuantizeCents(HalfUp, Dec(ClosedTotal(rows) * 5, 4));
    assert Pow10(4) == 100 * 100;
    UnscaleRounding(HalfUp, 5 * ClosedTotal(rows), 100, c);
    c
  }

  /** With non-negative budgets the commission is (5·S + 50) div 100 for a
      closed total of S cents, and lies between zero and S. */
  lemma CommissionBounds(rows: seq<JobRow>)
    requires forall i :: 0 <= i < |rows| ==> Budget(rows[i]) >= 0
    ensures var s := ClosedTotal(rows);
      && ClosedCommissionArs(rows) == (5 * s + 50) / 100
      && 0 <= ClosedCommissionArs(rows) <= s
  {
    var s := ClosedTotal(rows);
    SumOfNonNegative(rows, IsClosed, Budget);
    HalfUpByOffset(5 * s, 100);
    RoundingUnique(HalfUp, 5 * s, 100, ClosedCommissionArs(rows), (5 * s + 50) / 100);
  }

  function TxAmount(t: EscrowTx): int { t.amountUsdc }
  predicate IsFee(t: EscrowTx) { t.kind == PlatformFee }
  predicate IsReleasedFee(t: EscrowTx) { t.kind == PlatformFee && t.status == Released }
  predicate IsLocked(t: EscrowTx) { t.status == Locked }

  /** KPI 2 in USDC, and "ingresos totales": released platform fees. */
  function PlatformIncome(ledger: seq<EscrowTx>): (total: int)
    ensures total == Total(Filter(ledger, IsReleasedFee), TxAmount)
  {
    SumIsTotalOfFilter(ledger, IsReleasedFee, TxAmount);
    SumOf(ledger, IsReleasedFee, TxAmount)
  }

  /** Without released fees the income is 0.00; with non-negative amounts it
      is at least zero and at most the fees of every status. */
  lemma PlatformIncomeBounds(ledger: seq<EscrowTx>)
    ensures (forall i :: 0 <= i < |ledger| ==> !IsReleasedFee(ledger[i])) ==> PlatformIncome(ledger) == 0
    ensures (forall i :: 0 <= i < |ledger| ==> TxAmount(ledger[i]) >= 0) ==>
      0 <= PlatformIncome(ledger) <= SumOf(ledger, IsFee, TxAmount)
  {
    if forall i :: 0 <= i < |ledger| ==> !IsReleasedFee(ledger[i]) {
      SumOfNone(ledger, IsReleasedFee, TxAmount);
    }
    if forall i :: 0 <= i < |ledger| ==> TxAmount(ledger[i]) >= 0 {
      SumOfNonNegative(ledger, IsReleasedFee, TxAmount);
      SumMonotone(ledger, IsReleasedFee, IsFee, TxAmount);
    }
  }

  /** KPI 3: every LOCKED transaction, whatever its type. */
  function EscrowFunds(ledger: seq<EscrowTx>): (total: int)
    ensures total == Total(Filter(ledger, IsLocked), TxAmount)
  {
    SumIsTotalOfFilter(ledger, IsLocked, TxAmount);
    SumOf(ledger, IsLocked, TxAmount)
  }

  /** Nothing LOCKED means 0.00 in escrow; non-negative amounts give a
      non-negative balance. */
  lemma EscrowFundsBounds(ledger: seq<EscrowTx>)
    ensures (forall i :: 0 <= i < |ledger| ==> !IsLocked(ledger[i])) ==> EscrowFunds(ledger) == 0
    ensures (forall i :: 0 <= i < |ledger| ==> TxAmount(ledger[i]) >= 0) ==> EscrowFunds(ledger) >= 0
  {
    if forall i :: 0 <= i < |ledger| ==> !IsLocked(ledger[i]) {
      SumOfNone(ledger, IsLocked, TxAmount);
    }
    if forall i :: 0 <= i < |ledger| ==> TxAmount(ledger[i]) >= 0 {
      SumOfNonNegative(ledger, IsLocked, TxAmount);
    }
  }

  /** Appending a transaction adds its amount to the escrow KPI exactly when
      it is LOCKED. */
  lemma EscrowFundsAppend(ledger: seq<EscrowTx>, t: EscrowTx)
    ensures EscrowFunds(ledger + [t]) == EscrowFunds(ledger) + (if IsLocked(t) then t.amountUsdc else 0)
  {
    SumAppend(ledger, [t], IsLocked, TxAmount);
    assert [t][1..] == [];
  }

  // ------------------------------------------------------------ counts

  /** KPI 4's inputs and "trabajos activos": IN_PROGRESS jobs, and those of
      them flagged as delayed. */
  function ActiveJobs(rows: seq<JobRow>): nat { CountOf(rows, IsRunning) }
  function DelayedJobs(rows: seq<JobRow>): nat { CountOf(rows, IsRunningDelayed) }

  /** The delayed count never exceeds the active count, so the delay rate is
      at most 100%. */
  lemma {:induction false} DelayedAtMostActive(rows: seq<JobRow>)
    ensures DelayedJobs(rows) <= ActiveJobs(rows)
  {
    if |rows| > 0 {
      DelayedAtMostActive(rows[1..]);
    }
  }

  /** "trabajos por estado": the three counts partition the jobs. */
  function JobsByStatus(rows: seq<JobRow>): (r: (nat, nat, nat))
    ensures r.0 + r.1 + r.2 == |rows|
    ensures r.0 == |Filter(rows, IsOpen)|
    ensures r.1 == |Filter(rows, IsRunning)| == ActiveJobs(rows)
    ensures r.2 == |Filter(rows, IsClosed)|
  {
    StatusCountsPartition(rows);
    (CountOf(rows, IsOpen), CountOf(rows, IsRunning), CountOf(rows, IsClosed))
  }

  lemma {:induction false} StatusCountsPartition(rows: seq<JobRow>)
    ensures CountOf(rows, IsOpen) + CountOf(rows, IsRunning) + CountOf(rows, IsClosed) == |rows|
  {
    if |rows| > 0 {
      StatusCountsPartition(rows[1..]);
    }
  }

  predicate OfKind(kind: TxKind, t: EscrowTx) { t.kind == kind }

  /** "escrow stats": the number and total amount of transactions of one type. */
  function TxStats(ledger: seq<EscrowTx>, kind: TxKind): (r: (nat, int))
    ensures r.0 == |Filter(ledger, (t: EscrowTx) => OfKind(kind, t))|
    ensures r.1 == Total(Filter(ledger, (t: EscrowTx) => OfKind(kind, t)), TxAmount)
  {
    var keep := (t: EscrowTx) => OfKind(kind, t);
    SumIsTotalOfFilter(ledger, keep, TxAmount);
    (CountOf(ledger, keep), SumOf(ledger, keep, TxAmount))
  }

  // ------------------------------------------------------------ critical list

  /** An entry of the alert list: the job, its days of delay and the
      professional of its winning bid, if any. */
  datatype Critical = Critical(job: JobId, days: int, professional: Option<UserId>)

  /** An IN_PROGRESS delayed job more than three days late. */
  predicate IsCritical(r: JobRow) { r.job.status == InProgress && r.delayed && r.daysDelayed > 3 }

  /** The alert entry of a job row: `job.bids.filter(is_winner=True).first()`
      under the newest-first ordering is the job's winning bid. */
  function EntryOf(bids: seq<Bid>, r: JobRow): Critical {
    var w := WinningBid(bids, r.id);
    Critical(r.id, r.daysDelayed, if w.Some? then Some(bids[w.value].professional) else None)
  }

  /** The entries of the critical jobs, in query order. */
  function Collect(rows: seq<JobRow>, bids: seq<Bid>): (r: seq<Critical>)
    ensures |r| == CountOf(rows, IsCritical)
    ensures forall k :: 0 <= k < |r| ==> r[k] == EntryOf(bids, Filter(rows, IsCritical)[k])
    ensures forall k :: 0 <= k < |r| ==> r[k].days > 3
  {
    var f := Filter(rows, IsCritical);
    seq(|f|, k requires 0 <= k < |f| => EntryOf(bids, f[k]))
  }

  predicate SortedByDays(s: seq<Critical>) {
    forall a, b :: 0 <= a < b < |s| ==> s[a].days >= s[b].days
  }

  /** Inserts x before the first entry with fewer days, so it lands after
      every entry it does not exceed and before those it ties with that come
      later in the input. */
  function InsertByDays(x: Critical, t: seq<Critical>): (r: seq<Critical>)
    ensures multiset(r) == multiset(t) + multiset{x}
    ensures |r| == |t| + 1
    ensures r[0] == x || (|t| > 0 && r[0] == t[0])
  {
    if |t| == 0 || x.days >= t[0].days then [x] + t
    else
      var rest := InsertByDays(x, t[1..]);
      assert t == [t[0]] + t[1..];
      [t[0]] + rest
  }

  /** Inserting into a sorted sequence keeps it sorted. */
  lemma {:induction false} InsertSorted(x: Critical, t: seq<Critical>)
    requires SortedByDays(t)
    ensures SortedByDays(InsertByDays(x, t))
  {
    if |t| > 0 && x.days < t[0].days {
      var rest := InsertByDays(x, t[1..]);
      InsertSorted(x, t[1..]);
      var r := InsertByDays(x, t);
      assert r == [t[0]] + rest;
      assert rest[0].days <= t[0].days;
      forall a, b | 0 <= a < b < |r| ensures r[a].days >= r[b].days {
        if a == 0 {
          assert r[b] == rest[b - 1];
          assert rest[0].days >= rest[b - 1].days;
        } else {
          assert r[a] == rest[a - 1] && r[b] == rest[b - 1];
        }
      }
    }
  }

  /** `list.sort(key=days, reverse=True)`: a stable sort, largest first. */
  function SortByDays(s: seq<Critical>): (r: seq<Critical>)
    ensures multiset(r) == multiset(s)
    ensures |r| == |s|
    ensures SortedByDays(r)
  {
    if |s| == 0 then []
    else
      assert s == [s[0]] + s[1..];
      InsertSorted(s[0], SortByDays(s[1..]));
      InsertByDays(s[0], SortByDays(s[1..]))
  }

  function DaysIs(k: int): Critical -> bool {
    (c: Critical) => c.days == k
  }

  /** Inserting x keeps, among the entries with any one number of days,
      the order of [x] + t. */
  lemma {:induction false} InsertStable(x: Critical, t: seq<Critical>, k: int)
    ensures Filter(InsertByDays(x, t), DaysIs(k)) == Filter([x] + t, DaysIs(k))
  {
    if |t| > 0 && x.days < t[0].days {
      var keep := DaysIs(k);
      var rest := InsertByDays(x, t[1..]);
      InsertStable(x, t[1..], k);
      assert InsertByDays(x, t) == [t[0]] + rest;
      FilterConsAgree(t[0], rest, [x] + t[1..], keep);
      // t[0] has more days than x, so at most one of the two is kept
      FilterSwap(t[0], x, t[1..], keep);
      assert [t[0]] + t[1..] == t;
    }
  }

  /** Two leading entries that are not both kept can trade places without
      changing the filtered sequence. */
  lemma FilterSwap(p: Critical, q: Critical, f: seq<Critical>, keep: Critical -> bool)
    requires !(keep(p) && keep(q))
    ensures Filter([p] + ([q] + f), keep) == Filter([q] + ([p] + f), keep)
  {
    FilterCons(p, [q] + f, keep);
    FilterCons(q, f, keep);
    FilterCons(q, [p] + f, keep);
    FilterCons(p, f, keep);
    var a := if keep(p) then [p] else [];
    var b := if keep(q) then [q] else [];
    assert a == [] || b == [];
    assert a + (b + Filter(f, keep)) == b + (a + Filter(f, keep));
  }

  /** Filtering a sequence with a given first element. */
  lemma FilterCons(x: Critical, s: seq<Critical>, keep: Critical -> bool)
    ensures Filter([x] + s, keep) == (if keep(x) then [x] else []) + Filter(s, keep)
  {
    assert ([x] + s)[0] == x && ([x] + s)[1..] == s;
  }

  /** The sort is stable: for every number of days, the entries with that
      number keep their relative order. */
  lemma {:induction false} SortStable(s: seq<Critical>, k: int)
    ensures Filter(SortByDays(s), DaysIs(k)) == Filter(s, DaysIs(k))
  {
    if |s| > 0 {
      SortStable(s[1..], k);
      InsertStable(s[0], SortByDays(s[1..]), k);
      assert s == [s[0]] + s[1..];
      FilterConsAgree(s[0], SortByDays(s[1..]), s[1..], DaysIs(k));
    }
  }

  /** Filtering [x] + a and [x] + b agree when filtering a and b do. */
  lemma FilterConsAgree(x: Critical, a: seq<Critical>, b: seq<Critical>, keep: Critical -> bool)
    requires Filter(a, keep) == Filter(b, keep)
    ensures Filter([x] + a, keep) == Filter([x] + b, keep)
  {
    assert ([x] + a)[1..] == a;
    assert ([x] + b)[1..] == b;
  }

  /** The first n entries, or all of them when there are fewer:
      Python's `s[:n]`. */
  function Top(s: seq<Critical>, n: nat): (r: seq<Critical>)
    ensures r <= s
    ensures |r| == if |s| < n then |s| else n
    ensures multiset(r) <= multiset(s)
    ensures |s| <= n ==> r == s
  {
    var m := if |s| < n then |s| else n;
    assert s == s[..m] + s[m..];
    assert multiset(s) == multiset(s[..m]) + multiset(s[m..]);
    s[..m]
  }

  /** Entries drawn from a list all more than three days late are too. */
  lemma DaysAboveCarries(s: seq<Critical>, t: seq<Critical>)
    requires multiset(t) <= multiset(s)
    requires forall k :: 0 <= k < |s| ==> s[k].days > 3
    ensures forall k :: 0 <= k < |t| ==> t[k].days > 3
  {
    forall k | 0 <= k < |t| ensures t[k].days > 3 {
      assert t[k] in multiset(s);
      var i :| 0 <= i < |s| && s[i] == t[k];
    }
  }

  /** A prefix of a list sorted by days is sorted by days. */
  lemma PrefixSorted(s: seq<Critical>, t: seq<Critical>)
    requires SortedByDays(s) && t <= s
    ensures SortedByDays(t)
  {
    assert forall k :: 0 <= k < |t| ==> t[k] == s[k];
  }

  /** The alert list: the critical jobs, most days of delay first, at most 20. */
  function CriticalList(rows: seq<JobRow>, bids: seq<Bid>): (r: seq<Critical>)
    ensures |r| == if CountOf(rows, IsCritical) < 20 then CountOf(rows, IsCritical) else 20
    ensures SortedByDays(r)
    ensures forall k :: 0 <= k < |r| ==> r[k].days > 3
    ensures multiset(r) <= multiset(Collect(rows, bids))
    ensures CountOf(rows, IsCritical) <= 20 ==> multiset(r) == multiset(Collect(rows, bids))
    ensures r <= SortByDays(Collect(rows, bids))
  {
    var all := Collect(rows, bids);
    var sorted := SortByDays(all);
    var r := Top(sorted, 20);
    DaysAboveCarries(all, r);
    PrefixSorted(sorted, r);
    r
  }

  // ------------------------------------------------------------ CSV reports

  /** The commission columns of the transaction report: the amount and "5%"
      for a PLATFORM_FEE row, 0.00 and "0%" for any other. */
  function CommissionColumn(t: EscrowTx): (c: (string, int))
    ensures c.0 == "5%" <==> t.kind == PlatformFee
    ensures t.kind == PlatformFee ==> c.1 == t.amountUsdc
    ensures t.kind != PlatformFee ==> c == ("0%", 0)
  {
    if t.kind == PlatformFee then ("5%", t.amountUsdc) else ("0%", 0)
  }

  function ColumnAmount(t: EscrowTx): int { CommissionColumn(t).1 }

  /** The commission column totals to the platform fees of every status,
      which bound the released ones from above. */
  lemma {:induction false} CommissionColumnTotal(ledger: seq<EscrowTx>)
    ensures Total(ledger, ColumnAmount) == SumOf(ledger, IsFee, TxAmount)
    ensures (forall i :: 0 <= i < |ledger| ==> TxAmount(ledger[i]) >= 0) ==>
      PlatformIncome(ledger) <= Total(ledger, ColumnAmount)
  {
    if |ledger| > 0 {
      CommissionColumnTotal(ledger[1..]);
    }
  }

  /** One row of the commission report. */
  datatype FeeRow = FeeRow(baseUsdc: int, feeUsdc: int, paid: bool)

  /** The commission report's row for a fee: base = 14 × fee, PAGADO when
      RELEASED and PENDIENTE otherwise. */
  function FeeRowOf(t: EscrowTx): FeeRow {
    FeeRow(t.amountUsdc * 14, t.amountUsdc, t.status == Released)
  }

  /** The commission report: one row per PLATFORM_FEE transaction, newest
      first (`order_by('-created_at')`); the ledger lists transactions in the
      order they were created. */
  function CommissionReport(ledger: seq<EscrowTx>): (r: seq<FeeRow>)
    ensures |r| == CountOf(ledger, IsFee)
    ensures forall k :: 0 <= k < |r| ==> r[k] == FeeRowOf(Filter(ledger, IsFee)[|r| - 1 - k])
    ensures forall k :: 0 <= k < |r| ==> r[k].baseUsdc == 14 * r[k].feeUsdc
  {
    if |ledger| == 0 then []
    else
      var n := |ledger| - 1;
      var rest := CommissionReport(ledger[..n]);
      FilterSnoc(ledger, IsFee);
      if IsFee(ledger[n]) then
        ReversedRowsSnoc(rest, Filter(ledger[..n], IsFee), ledger[n]);
        [FeeRowOf(ledger[n])] + rest
      else rest
  }

  /** Rows listing fees newest first stay so when a newer fee arrives. */
  lemma ReversedRowsSnoc(rows: seq<FeeRow>, fees: seq<EscrowTx>, t: EscrowTx)
    requires |rows| == |fees|
    requires forall k :: 0 <= k < |rows| ==> rows[k] == FeeRowOf(fees[|rows| - 1 - k])
    ensures var r := [FeeRowOf(t)] + rows;
      forall k :: 0 <= k < |r| ==> r[k] == FeeRowOf((fees + [t])[|r| - 1 - k])
  {
    var r := [FeeRowOf(t)] + rows;
    forall k | 0 <= k < |r|
      ensures r[k] == FeeRowOf((fees + [t])[|r| - 1 - k])
    {
      if k > 0 {
        assert r[k] == rows[k - 1];
      }
    }
  }

  predicate Paid(f: FeeRow) { f.paid }
  function Fee(f: FeeRow): int { f.feeUsdc }

  /** The report's paid fees add up to the platform-income KPI, and all its
      fees to the commission column of the transaction report. */
  lemma {:induction false} ReportMatchesIncome(ledger: seq<EscrowTx>)
    ensures SumOf(CommissionReport(ledger), Paid, Fee) == PlatformIncome(ledger)
    ensures Total(CommissionReport(ledger), Fee) == SumOf(ledger, IsFee, TxAmount)
  {
    if |ledger| > 0 {
      var n := |ledger| - 1;
      ReportMatchesIncome(ledger[..n]);
      ReportSnoc(ledger);
      SumSnoc(ledger, IsFee, TxAmount);
      SumSnoc(ledger, IsReleasedFee, TxAmount);
    }
  }

  /** One more transaction adds its row's fee to the report's sums when it
      is a fee. */
  lemma ReportSnoc(ledger: seq<EscrowTx>)
    requires |ledger| > 0
    ensures var last := ledger[|ledger| - 1];
      && SumOf(CommissionReport(ledger), Paid, Fee)
         == SumOf(CommissionReport(ledger[..|ledger| - 1]), Paid, Fee) + (if IsReleasedFee(last) then last.amountUsdc else 0)
      && Total(CommissionReport(ledger), Fee)
         == Total(CommissionReport(ledger[..|ledger| - 1]), Fee) + (if IsFee(last) then last.amountUsdc else 0)
  {
    var n := |ledger| - 1;
    var last := ledger[n];
    var rest := CommissionReport(ledger[..n]);
    var head := if IsFee(last) then [FeeRowOf(last)] else [];
    ReportLast(ledger);
    SumAppend(head, rest, Paid, Fee);
    TotalAppend(head, rest, Fee);
  }

  /** The newest transaction's row, if it is a fee, heads the report. */
  lemma ReportLast(ledger: seq<EscrowTx>)
    requires |ledger| > 0
    ensures var last := ledger[|ledger| - 1];
      CommissionReport(ledger)
      == (if IsFee(last) then [FeeRowOf(last)] else []) + CommissionReport(ledger[..|ledger| - 1])
  {
  }
}
