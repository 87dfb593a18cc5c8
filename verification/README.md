# kunfido marketplace core in Dafny

A model of the core of kunfido, a Django marketplace. On kunfido, clients
(PERSONA or CONSORCIO users) publish job offers. Tradespeople (OFICIO users)
bid on them. Payment runs through an escrow of USDC.

The model covers these parts of the repository:

- **Job, bid and vote tables** (`market.dfy`, module `Market`):
  - job status OPEN / IN_PROGRESS / CLOSED;
  - active and winner flags of bids;
  - `mark_as_winner`;
  - the vote set and `toggle_vote`;
  - the mocked 1200 ARS-per-USDC conversion with half-up rounding.
- **The job views as transitions over a store** (`escrow.dfy` and `workflow.dfy`, modules `Escrow` and `Workflow`):
  - the store holds the tables, the users owning a wallet, the escrow ledger and the delay registry;
  - each view checks its guards in the source's order before changing anything;
  - the escrow and delay-registry operations are opaque steps that either fail or return the table they leave.
- **Job lifecycle** (`lifecycle.dfy`, module `Lifecycle`):
  - every view as an event, and the store after any sequence of requests;
  - the integrity invariant the views keep;
  - how a job's status may move.
- **Report aggregates** (`folds.dfy` and `analytics.dfy`, modules `Folds` and `Analytics`):
  - GMV, commissions, platform income and escrow funds;
  - counts by status;
  - the critical-delay list, which is a stable sort truncated to 20;
  - the commission columns of the CSV exports.
- **Currency service** (`decimals.dfy` and `currency.dfy`, modules `Decimals` and `Currency`):
  - both conversions, with the rate as a parameter;
  - decimals as coefficient and scale;
  - rounding given by a reference predicate;
  - the fallback chain of rate sources;
  - the rate cache.
- **Template filters** (`text.dfy` and `currency_tags.dfy`, modules `Text` and `CurrencyTags`):
  - Python's `str()` of a Decimal;
  - `format_ars` with its thousands grouping;
  - `to_ars`.
- **User profile** (`profiles.dfy`, module `Profiles`): role codes, the score validators and the display name.
- **Onboarding routing** (`onboarding.dfy`, module `Onboarding`):
  - the request middleware;
  - the dashboard's role check;
  - the role form.

Amounts are integers of cents. Strings are `seq<char>`. The clock, the network and the cache backend are parameters: the deadline comes in as seconds or days, the APIs' answers and the escrow outcomes are inputs, and the cache is a map.

## Model

| member | source | states |
|---|---|---|
| Market.ArsToUsdcCents | jobs/models.py:83-92 | ARS cents over 1200 rounded half-up to USDC cents; for a non-negative amount this is (ars + 600) div 1200 and non-negative |
| Market.ActiveBids | jobs/models.py:94-96 | exactly the job's active bids, each once, strictly newest first |
| Market.NewestBelow | jobs/models.py:98-100 | `.first()` under newest-first order: the newest matching bid, and none exactly when no bid matches |
| Market.WinningBid | jobs/models.py:98-100 | a winner of the job when one exists, none exactly when the job has no winner |
| Market.MarkAsWinner | jobs/models.py:205-219 | b becomes the only winner of its job; other bids of that job lose the flag; bids of other jobs, all other fields, the votes and the other jobs are unchanged; the job becomes IN_PROGRESS whatever its status and whether or not b is active |
| Market.WinnerClosesVoting | jobs/models.py:221-223 | after marking a winner, the job takes no bids, none of its bids can be voted on, and the winner lookup returns b |
| Market.ToggleVote | jobs/models.py:269-287 | the returned flag is true exactly when the vote was absent; afterwards the vote is present exactly when the flag is true; all other votes are untouched |
| Market.ToggleTwice | jobs/models.py:269-282 | toggling twice restores the vote set, and the two calls report opposite flags |
| Market.VotesForJob | jobs/models.py:289-294 | exactly the user's votes on bids of the job |
| Market.ToggleVoteForJob | jobs/models.py:269-294 | toggling a vote on a bid of the job removes it from, or adds it to, the user's votes for that job; toggles by other users or on other jobs' bids leave them unchanged |
| Market.VotesForJobsDisjoint | jobs/models.py:289-294 | a user's votes for two different jobs never overlap |
| Market.BudgetUsdc | jobs/models.py:83-92 | the ARS budget over 1200, rounded half-up to USDC cents; non-negative for a non-negative budget |
| Market.AmountUsdc | jobs/models.py:188-198 | the ARS bid amount over 1200, rounded half-up to USDC cents; non-negative for a non-negative amount |
| Market.VotableIffActiveOnOpen | jobs/models.py:221-223 | a bid can be voted on exactly when it is among its job's active bids and the job takes bids (is OPEN) |
| Market.MarkAsWinnerKeepsConstraints | jobs/models.py:176-183 | marking a winner keeps at most one winner per job and at most one active bid per (job, professional) |
| Workflow.PlaceBid | jobs/views.py:141-163 | the professional's active bid on the job is updated in place, or exactly one bid is appended; no other bid changes; the placed bid carries the submitted amount, days and unstripped pitch |
| Workflow.SubmitBid | jobs/views.py:103-166 | succeeds exactly for a POST by an OFICIO user on an existing OPEN job with amount > 0, days > 0 and a stripped pitch of at least 20 characters; a malformed amount is an uncaught error; nothing changes otherwise |
| Workflow.AcceptBid | jobs/views.py:170-220 | succeeds exactly for a POST by the owner of an OPEN job whose initial lock succeeds; guard failures change nothing; a failed lock only adds the client's wallet; success adds the wallet, records the lock and marks the winner |
| Workflow.ConfirmWorkStart | jobs/views.py:508-579 | acts only for the owner of an IN_PROGRESS job that has a winner and no released initial release; if the wallet lookup or the remaining lock then fails, the release stays recorded |
| Workflow.CompleteWork | jobs/views.py:583-639 | the job becomes CLOSED exactly when the guards hold, no released final release exists and the final release succeeds; otherwise nothing changes |
| Workflow.SubmitDelayJustification | jobs/views.py:238-286 | a report is created exactly for a POST by the OFICIO winning professional of a delayed IN_PROGRESS job with a stripped reason of at least 50 characters; otherwise nothing changes |
| Workflow.ReviewDelayJustification | jobs/views.py:306-343 | only the job's creator acts, only on a PENDING entry; "accept" and "reject" apply the review; any other action changes nothing |
| Workflow.JobTracking | jobs/views.py:407-475 | a status is shown exactly to a signed-in viewer with a profile on a job with a winner; it is 'delayed' exactly when the job is delayed, otherwise 'warning' exactly when 0 < hours until the deadline ≤ 24 and 'on-time' in every other case |
| Workflow.TrackingWarning | jobs/views.py:446-475 | on the tracking page, 'warning' shows exactly when the job is not delayed and, with an expected date, 1 to 25 hours remain, or, without one, exactly one estimated day is left |
| Workflow.WarningWindow | jobs/views.py:449-475 | with an expected date, 'warning' shows exactly when the job is not delayed and between 1 and 25 hours remain, because the hours are truncated toward zero |
| Lifecycle.ToggleVoteView | jobs/models.py:269-282 | a vote on an existing bid flips its membership and touches nothing else; a missing bid changes nothing |
| Lifecycle.StatusMatchesWinner | jobs/views.py:183-211 | in a valid store, a job is OPEN exactly when it has no winning bid |
| Lifecycle.PlaceBidKeepsValid | jobs/views.py:141-163 | placing a bid on an OPEN job keeps the store invariant |
| Lifecycle.AcceptBidKeepsValid | jobs/views.py:183-211 | accepting a bid keeps the store invariant |
| Lifecycle.CompleteWorkKeepsValid | jobs/views.py:629-631 | completing work keeps the store invariant |
| Lifecycle.ApplyKeepsValid | jobs/models.py:176-183 | every view keeps the uniqueness constraints, the single winner per job, and status agreeing with the winner |
| Lifecycle.RunKeepsValid | jobs/models.py:176-183 | any sequence of requests keeps the store invariant |
| Lifecycle.ApplyStatus | jobs/views.py:183-211 | one request moves a job only OPEN to IN_PROGRESS or IN_PROGRESS to CLOSED; the first only through a successful accept of one of its bids, the second only through a successful completion of that job |
| Lifecycle.RunNeverRegresses | jobs/views.py:598-631 | over any sequence of requests, a job's status never moves back |
| Lifecycle.ClosedOnlyByFinalRelease | jobs/views.py:619-631 | a job that ends CLOSED went through a `complete_work` request on it that was answered Done, in the store left by the requests before it, with a successful final release |
| Lifecycle.AcceptTwice | jobs/views.py:183-186 | once a bid is accepted, accepting any bid of the same job changes nothing |
| Lifecycle.CompleteTwice | jobs/views.py:598-617 | once work is completed, completing it again changes nothing |
| Lifecycle.ConfirmRepeatNoop | jobs/views.py:533-542 | once a confirmation released the initial payment and that release is on record, a second confirmation changes nothing and never succeeds; after a missing wallet or a failed remaining lock the remainder is never locked by retrying |
| Lifecycle.ReceivesBidsIffNoWinner | jobs/models.py:102-104 | after any sequence of requests from a valid store, a job takes bids exactly when it has no winning bid, and a job with a winner has no votable bid |
| Lifecycle.ReleaseNotRolledBack | jobs/views.py:544-571 | a successful release followed by a failed remaining lock leaves the release recorded |
| Folds.FilterMembers | analytics/views.py:162-165 | a `.filter()` selects exactly the rows that are present and satisfy the condition |
| Folds.SumOfNone | analytics/views.py:28-34 | an empty selection sums to zero, the `or Decimal('0.00')` fallback |
| Analytics.GmvArs | analytics/views.py:28-34 | GMV in ARS is the budget sum over IN_PROGRESS jobs plus the budget sum over CLOSED jobs |
| Analytics.GmvAllOpen | analytics/views.py:28-34 | with every job OPEN, the GMV is 0.00 |
| Analytics.GmvOnStatusChange | analytics/views.py:28-34 | a job leaving OPEN adds its budget to the GMV; a job closing leaves the GMV unchanged |
| Analytics.GmvUsdc | analytics/views.py:37-45 | the value is the winning bids' ARS sum over started jobs, divided by 1000 |
| Analytics.GmvUsdcAllOpen | analytics/views.py:37-45 | with every job OPEN, the USDC GMV is 0 |
| Analytics.GmvUsdcOnStatusChange | analytics/views.py:37-45 | a job leaving OPEN adds its winning bids' ARS amounts over 1000 to the USDC GMV; a job closing leaves it unchanged |
| Analytics.ClosedCommissionArs | analytics/views.py:48-61 | 5% of the CLOSED budgets, rounded half-up to cents |
| Analytics.CommissionBounds | analytics/views.py:48-61 | with non-negative budgets the commission is (5S + 50) div 100 and lies between 0 and S |
| Analytics.PlatformIncome | analytics/views.py:162-165 | the sum of RELEASED PLATFORM_FEE amounts |
| Analytics.PlatformIncomeBounds | analytics/views.py:63-71 | 0.00 without released fees; between 0 and the fees of every status |
| Analytics.EscrowFunds | analytics/views.py:74-82 | the sum of LOCKED amounts of every type |
| Analytics.EscrowFundsBounds | analytics/views.py:74-82 | 0.00 with nothing LOCKED; non-negative for non-negative amounts |
| Analytics.EscrowFundsAppend | analytics/views.py:74-82 | a new transaction adds its amount exactly when it is LOCKED |
| Analytics.DelayedAtMostActive | analytics/views.py:85-91 | delayed IN_PROGRESS jobs never outnumber IN_PROGRESS jobs |
| Analytics.JobsByStatus | analytics/views.py:252-256 | the OPEN, IN_PROGRESS and CLOSED counts are the sizes of the jobs filtered by each status, the IN_PROGRESS one is the active-jobs KPI, and the three add up to the number of jobs |
| Analytics.StatusCountsPartition | analytics/views.py:252-256 | OPEN, IN_PROGRESS and CLOSED counts partition the jobs |
| Analytics.TxStats | analytics/views.py:110-114 | per type: the number of its transactions and the sum of their amounts |
| Analytics.Collect | analytics/views.py:209-225 | one entry per IN_PROGRESS delayed job more than 3 days late, in query order, with the job's winner |
| Analytics.InsertByDays | analytics/views.py:228 | insertion keeps the entries and adds exactly one, at the front or behind the first entry |
| Analytics.InsertSorted | analytics/views.py:228 | inserting into a sequence ordered by days keeps it ordered |
| Analytics.InsertStable | analytics/views.py:228 | among entries with equal days, the inserted one comes first, as in the input |
| Analytics.SortByDays | analytics/views.py:228 | a permutation ordered by days, most first |
| Analytics.SortStable | analytics/views.py:228 | entries with equal days keep their relative order, as Python's stable sort does with reverse=True |
| Analytics.Top | analytics/views.py:272 | the `[:20]` slice: a prefix of the input, as long as the input or the limit |
| Analytics.CriticalList | analytics/views.py:206-272 | exactly min(20, number of critical jobs) entries, ordered by days, all more than 3 days late; the prefix of the sorted critical entries; all of them when there are at most 20 |
| Analytics.CommissionColumn | analytics/views.py:459-464 | a PLATFORM_FEE transaction shows "5%" and its own amount; every other kind shows "0%" and zero |
| Analytics.CommissionColumnTotal | analytics/views.py:457-464 | the commission column adds up to the PLATFORM_FEE amounts of every status |
| Analytics.CommissionReport | analytics/views.py:555-579 | one row per PLATFORM_FEE transaction, newest first: row k is the fee row (base = 14 × amount, fee = amount, paid iff RELEASED) of the k-th most recent fee |
| Folds.FilterAppend | analytics/views.py:555-565 | filtering a ledger extended by new transactions keeps the old selection and appends the new one |
| Analytics.ReportMatchesIncome | analytics/views.py:555-579 | the report's PAGADO fees add up to the platform income, and all its fees to the commission column |
| Currency.ConvertUsdcToArs | usuarios/currency_service.py:118-135 | 0.00 for a falsy amount; otherwise amount × rate rounded half-even to cents |
| Currency.ConvertArsToUsdc | usuarios/currency_service.py:138-158 | 0.00 for a falsy amount or a zero rate; otherwise amount ÷ rate rounded half-even to cents, whatever the rate's sign |
| Currency.FalsyIgnoresRate | usuarios/currency_service.py:129-130 | a falsy amount converts to 0.00 in both directions whatever the rate |
| Currency.UsdcToArsWholeRate | usuarios/currency_service.py:132-135 | c USDC cents at a whole rate R give exactly c·R ARS cents |
| Currency.ArsToUsdcWholeRate | usuarios/currency_service.py:152-158 | c·R ARS cents at a whole rate R give back c USDC cents |
| Currency.RoundTripWholeRate | usuarios/currency_service.py:118-158 | converting to ARS and back at the same whole rate returns the original cents |
| Currency.PrimaryUrl | usuarios/currency_service.py:72-73 | "blue" selects the blue URL; any other type selects the oficial one |
| Currency.FromBackup | usuarios/currency_service.py:97-115 | the backup's number as is, with no positivity check, or DEFAULT_RATE on any error |
| Currency.QuoteField | usuarios/currency_service.py:82 | "venta" if present, else "compra", else DEFAULT_RATE |
| Currency.FetchRate | usuarios/currency_service.py:66-94 | a positive primary quote is taken; a non-positive quote or a request failure falls back to the backup; an unreadable number or a non-object body raises |
| Currency.NonPositiveQuoteRejected | usuarios/currency_service.py:84-94 | a primary quote of zero or less always yields the backup's answer |
| Currency.CacheKey | usuarios/currency_service.py:44 | the key is the prefix, an underscore and the type |
| Currency.CacheKeyInjective | usuarios/currency_service.py:44 | different types use different keys |
| Currency.GetRate | usuarios/currency_service.py:33-63 | a cached non-zero rate is returned; otherwise the fetched rate is stored and returned; a raised fetch returns DEFAULT_RATE and stores nothing; other keys are untouched |
| Currency.SecondLookupHitsCache | usuarios/currency_service.py:43-59 | after a hit or a successful fetch, the next lookup returns the same rate without consulting the APIs |
| Currency.RateOrigin | usuarios/currency_service.py:33-115 | the rate is the cached one, a positive primary quote, the backup's, or DEFAULT_RATE |
| Currency.ClearCache | usuarios/currency_service.py:181-188 | removes the blue and oficial keys and nothing else |
| Currency.ClearForcesFetch | usuarios/currency_service.py:181-188 | after clearing, a blue or oficial lookup goes to the APIs again |
| CurrencyTags.DecText | usuarios/templatetags/currency_tags.py:39-41 | `str()` of a Decimal: plain notation while the adjusted exponent is at least -6, scientific below |
| CurrencyTags.CentsText | usuarios/templatetags/currency_tags.py:39-41 | a two-decimal value prints as its integer digits, a dot and two cent digits |
| CurrencyTags.SplitDot | usuarios/templatetags/currency_tags.py:41-43 | the parts before and after the first '.', neither containing '.', the second only when a '.' exists |
| CurrencyTags.Grouped | usuarios/templatetags/currency_tags.py:45-50 | reference grouping: one separator per full block of three beyond the first character |
| CurrencyTags.GroupThousands | usuarios/templatetags/currency_tags.py:45-50 | the right-to-left loop builds exactly the reference grouping |
| CurrencyTags.GroupedRemoveDots | usuarios/templatetags/currency_tags.py:45-50 | deleting the separators gives back the integer text |
| CurrencyTags.GroupedDotPositions | usuarios/templatetags/currency_tags.py:47-49 | a separator sits at every fourth position from the right and nowhere else |
| CurrencyTags.FractionPart | usuarios/templatetags/currency_tags.py:41-52 | at most two characters, "00" when there is no '.' |
| CurrencyTags.FormatArs | usuarios/templatetags/currency_tags.py:28-54 | "$ 0,00" for a falsy value; the value itself for one Decimal cannot read; otherwise "$ " + grouped integer part + "," + fraction |
| CurrencyTags.NegativeGroupedAsDigit | usuarios/templatetags/currency_tags.py:45-52 | Decimal("-123") is formatted "$ -.123,00", the sign grouped as a digit |
| CurrencyTags.NegativeTextStartsWithSign | usuarios/templatetags/currency_tags.py:39-42 | the integer part of a negative value's text is '-' followed by a digit |
| CurrencyTags.FormatArsSigned | usuarios/templatetags/currency_tags.py:28-54 | as FormatArs for non-negative values; for negative ones the sign stays in front and only the digits are grouped |
| CurrencyTags.SignedNeverSeparatesSign | usuarios/templatetags/currency_tags.py:45-52 | in the corrected format no separator follows the sign |
| CurrencyTags.ToArs | usuarios/templatetags/currency_tags.py:12-25 | "0.00" exactly for a falsy value, the value back exactly when it cannot be read, the conversion otherwise |
| Profiles.ParseRole | usuarios/models.py:11-15 | only the three role codes parse, each to its role |
| Profiles.ParseRoleIff | usuarios/models.py:11-15 | a text parses to a role exactly when it is that role's code |
| Profiles.RoleCodeNotBlank | usuarios/models.py:11-29 | no role code is whitespace |
| Profiles.NewProfile | usuarios/models.py:24-44 | a new profile has the given role, no zone and the score 0.0, which the validators accept |
| Profiles.ScoreErrors | usuarios/models.py:39-44 | no error exactly when 0.0 ≤ score ≤ 5.0, and never both errors |
| Profiles.NombreCompleto | usuarios/models.py:69-72 | the stripped "first last" when it is not blank, the username otherwise |
| Profiles.NombreCompletoEmptyIff | usuarios/models.py:69-72 | the display name is empty exactly when both names are blank and the username is empty |
| Profiles.RoleDisplay | usuarios/models.py:61-62 | an unknown role text is shown as is |
| Profiles.RoleDisplayOfCode | usuarios/models.py:61-62 | a known role is shown by its label, which differs from its code |
| Onboarding.Middleware | usuarios/middleware.py:16-47 | redirects exactly a signed-in request on a checked path whose profile is missing or has a blank role; a missing profile is created with an empty role; nothing else changes |
| Onboarding.UncheckedRequestsPass | usuarios/middleware.py:18-35 | signed-out requests and skipped or exempt paths pass unchanged |
| Onboarding.MissingProfileRedirects | usuarios/middleware.py:37-44 | without a profile, a checked request is redirected and gets a profile with an empty role |
| Onboarding.MiddlewareIdempotent | usuarios/middleware.py:37-44 | running the middleware again on the profile it left gives the same result |
| Onboarding.Dashboard | usuarios/views.py:14-28 | redirects exactly when the profile's role text is empty; a missing profile is created with PERSONA |
| Onboarding.DashboardRedirectImpliesMiddleware | usuarios/views.py:24-26 | whenever the dashboard would redirect, the middleware has already redirected |
| Onboarding.WhitespaceRoleDisagrees | usuarios/views.py:24-26 | a whitespace-only role is redirected by the middleware but not by the dashboard |
| Onboarding.MissingProfileCreatedDifferently | usuarios/views.py:20-21 | the middleware creates a missing profile with an empty role, the dashboard with PERSONA |
| Onboarding.OnboardingRol | usuarios/views.py:31-56 | only a POST with one of the three codes saves it; the zone is overwritten only by a non-empty value; a profile created here keeps score 0.0 and, without a sent zone, no zone; anything else leaves the profile as it was |
| Onboarding.SavedRoleStopsRedirects | usuarios/views.py:44-52 | after a saved role, neither the middleware nor the dashboard redirects |

## Left out

- Escrow, wallet and delay-registry operations are defined outside the core files. They are opaque steps that fail or return the table they leave, with no amounts or split arithmetic.
- `is_delayed`, `get_days_delayed`, `check_deadline_status`, `start_confirmed_date` and `expected_completion_date` are also defined outside the core files. The delay flag, the days of delay and the deadline are inputs.
- The clock is an input: `timezone.now`, elapsed days and the seconds left.
- Floats are not modelled:
  - the progress percentage of `job_tracking`;
  - the delay and conflict rates of the dashboards;
  - the `round(…, 1)` of the conflict rate.
- HTTP is reduced to the `Reply` a view ends with: redirects, flash messages, rendering, pagination, and the user search of the admin dashboard.
- CSV writing is reduced to the columns that carry amounts: headers, BOM, dates and names are left out.
- The per-role user counts and the weekly job counts of the admin dashboard are database counts with no logic of their own.
- The network, the cache backend and logging of the currency service are left out. The APIs' answers are inputs, and the cache is a map with no 300-second timeout.
- `get_rate_info` only bundles the rate with a timestamp.
- Concurrency is left out: the views take no locks.
- `email` of the profile is the account's own field (`Account.email`). It needs no member of its own.
- Market.ArsToUsdcCents: the exact quotient is rounded. The source divides at Decimal's 28-digit context precision first, which differs only for amounts beyond 28 significant digits.
- Currency.ConvertUsdcToArs: rounds the exact product. Precision-28 double rounding, and the InvalidOperation that `quantize` raises for results beyond the precision, are not modelled.
- Currency.ConvertArsToUsdc: rounds the exact quotient, for the same reason.
- Currency.GetRate: a cached rate is the Decimal that was stored. The source stores `float(rate)` and reads back `Decimal(str(float))`.
- Currency.FetchRate: a primary quote of Infinity (which Python's JSON parser accepts) is not modelled. The source's `Decimal('Infinity')` passes the `tasa <= 0` check and is returned and cached (usuarios/currency_service.py:82-87, 55), but `Dec` is finite. A NaN quote is modelled as `NotNumber`, because comparing it raises `InvalidOperation`.
- Currency.FromBackup: a backup rate of NaN or Infinity is returned unchecked by the source (usuarios/currency_service.py:108-111). `BackupRate` carries a finite `Dec`, so the model cannot express it.
- Analytics.GmvUsdc: states the value of the result, not the exponent Decimal division would give it.
- CurrencyTags.DecText: covers finite Decimals with non-positive exponents. Positive exponents, infinities and NaN are not modelled.
- Workflow.SubmitBid: the amount is a whole number of cents. An amount with more than two decimals, and the value Infinity, are not represented.
- Profiles.ScoreErrors: the score is a real rather than a float. As in the source, the validators are a separate check, not something every save enforces.

## Findings

| source | as written | input that shows it | evidently intended | confidence | as-written member | corrected member |
|---|---|---|---|---|---|---|
| usuarios/templatetags/currency_tags.py:45-52 | the grouping loop counts every character of the integer part, so a leading '-' counts as a digit | Decimal("-123") formats as "$ -.123,00" | "$ -123,00": the sign stays in front and only digits are grouped | not executed | CurrencyTags.NegativeGroupedAsDigit | CurrencyTags.SignedNeverSeparatesSign |
