/** The job views of jobs/views.py as transitions over a small store: the
    marketplace tables, the set of users owning a wallet, the escrow ledger
    and the delay registry. Every view checks its guards in the order the
    source does, before any change; the escrow and delay operations it then
    calls are opaque `Step`s. HTTP plumbing (method checks, redirects,
    messages, rendering) is reduced to the `Reply` a view ends with. */
module Workflow {
  import opened Decimals
  import opened Optional
  import opened Text
  import opened Market
  import opened Escrow

  datatype Store = Store(board: Board, wallets: set<UserId>, ledger: seq<EscrowTx>, delays: seq<DelayEntry>)

  /** The requesting user, with their profile's `tipo_rol` when they have a profile. */
  datatype Actor = Actor(user: UserId, profile: Option<string>)

  /** `hasattr(request.user, 'profile') and job.creator == request.user.profile` */
  predicate IsOwner(a: Actor, job: Job) {
    a.profile.Some? && job.creator == a.user
  }

  /** `hasattr(request.user, 'profile') and request.user.profile.tipo_rol == 'OFICIO'` */
  predicate IsOficio(a: Actor) {
    a.profile == Some("OFICIO")
  }

  /** How a view ends. */
  datatype Reply =
    | Done            // the success message
    | ShowForm        // a GET that renders a form
    | NotFound        // get_object_or_404
    | Forbidden       // not the owner / not OFICIO / not the winning professional
    | WrongStatus     // the job is not in the status the view needs
    | InvalidInput    // form data rejected
    | ServerError     // an exception the view does not catch
    | NoWinningBid
    | AlreadyDone     // the idempotency guard found the release already recorded
    | NotDelayed
    | EscrowFailed    // the escrow operation reported failure
    | NoWallet
    | RemainderNotLocked  // the initial release went through, the 70% lock did not
    | InvalidAction
    | NotPost         // a view that only acts on POST was reached otherwise
    | DelayAccepted
    | DelayRejected

  datatype Outcome = Outcome(reply: Reply, store: Store)

  // ---------------------------------------------------------------- submit_bid

  /** The `amount_ars` form field: missing (`Decimal(None)` raises TypeError,
      which the view catches), a number of ARS cents, or a string Decimal
      cannot turn into a finite number (decimal.InvalidOperation, which the
      view does not catch). */
  datatype AmountField = AmountMissing | AmountValue(cents: int) | AmountMalformed

  /** The bid form; `days` is None when `int()` fails or the field is missing. */
  datatype BidForm = BidForm(amount: AmountField, days: Option<int>, pitch: Option<string>)

  /** The validation block of `submit_bid`. */
  predicate ValidBidForm(f: BidForm) {
    && f.amount.AmountValue? && f.amount.cents > 0
    && f.days.Some? && f.days.value > 0
    && f.pitch.Some? && |Strip(f.pitch.value)| >= 20
  }

  /** The professional's active bid on job j, newest first. */
  function ExistingBid(bids: seq<Bid>, j: JobId, u: UserId): Option<BidId> {
    NewestBelow(bids, (b: Bid) => b.job == j && b.professional == u && b.active, |bids|)
  }

  /** Updates the professional's active bid in place, or creates one. The
      pitch is stored as submitted, not stripped. */
  function PlaceBid(board: Board, j: JobId, u: UserId, cents: int, days: int, pitch: string): (r: Board)
    ensures r.jobs == board.jobs && r.votes == board.votes
    ensures ExistingBid(board.bids, j, u).None? <==> |r.bids| == |board.bids| + 1
    ensures ExistingBid(board.bids, j, u).Some? <==> |r.bids| == |board.bids|
    ensures forall k :: 0 <= k < |board.bids| && Some(k) != ExistingBid(board.bids, j, u) ==> r.bids[k] == board.bids[k]
    ensures var k := if ExistingBid(board.bids, j, u).Some? then ExistingBid(board.bids, j, u).value else |board.bids|;
      && k < |r.bids| && r.bids[k].job == j && r.bids[k].professional == u && r.bids[k].active
      && r.bids[k].amountArs == cents && r.bids[k].estimatedDays == days && r.bids[k].pitch == pitch
      && r.bids[k].winner == (k < |board.bids| && board.bids[k].winner)
  {
    match ExistingBid(board.bids, j, u)
    case Some(i) =>
      board.(bids := board.bids[i := board.bids[i].(amountArs := cents, estimatedDays := days, pitch := pitch)])
    case None =>
      board.(bids := board.bids + [Bid(j, u, cents, days, pitch, true, false)])
  }

  /** `submit_bid`: only an OFICIO user, on an OPEN job, with a valid form,
      changes anything. */
  function SubmitBid(s: Store, a: Actor, post: bool, j: JobId, f: BidForm): (o: Outcome)
    ensures o.reply == Done <==> post && j in s.board.jobs && IsOficio(a) && CanReceiveBids(s.board.jobs[j]) && ValidBidForm(f)
    ensures o.reply == ServerError <==>
      post && j in s.board.jobs && IsOficio(a) && CanReceiveBids(s.board.jobs[j]) && f.amount.AmountMalformed?
    ensures o.reply != Done ==> o.store == s
    ensures o.reply == Done ==>
      o.store == s.(board := PlaceBid(s.board, j, a.user, f.amount.cents, f.days.value, f.pitch.value))
  {
    if !post then Outcome(NotPost, s)
    else if j !in s.board.jobs then Outcome(NotFound, s)
    else if !IsOficio(a) then Outcome(Forbidden, s)
    else if s.board.jobs[j].status != Open then Outcome(WrongStatus, s)
    else match f.amount
      case AmountMissing => Outcome(InvalidInput, s)
      case AmountMalformed => Outcome(ServerError, s)
      case AmountValue(cents) =>
        if f.days.None? || cents <= 0 || f.days.value <= 0 then Outcome(InvalidInput, s)
        else if f.pitch.None? || |Strip(f.pitch.value)| < 20 then Outcome(InvalidInput, s)
        else Outcome(Done, s.(board := PlaceBid(s.board, j, a.user, cents, f.days.value, f.pitch.value)))
  }

  // ---------------------------------------------------------------- accept_bid

  /** `accept_bid`: the owner of an OPEN job accepts bid b. After the guards
      the client's wallet is created if missing; a failed initial lock stops
      there, a successful one runs `mark_as_winner`. The bid's own
      `is_active` flag is not consulted. */
  function AcceptBid(s: Store, a: Actor, post: bool, b: BidId, lock: Step<seq<EscrowTx>>): (o: Outcome)
    ensures o.reply == Done <==>
      && post && b < |s.board.bids| && s.board.bids[b].job in s.board.jobs
      && IsOwner(a, s.board.jobs[s.board.bids[b].job])
      && s.board.jobs[s.board.bids[b].job].status == Open
      && lock.Succeeds?
    ensures o.reply in {NotPost, NotFound, Forbidden, WrongStatus} ==> o.store == s
    ensures o.reply == EscrowFailed ==> o.store == s.(wallets := s.wallets + {a.user})
    ensures o.reply == Done ==>
      o.store == Store(MarkAsWinner(s.board, b), s.wallets + {a.user}, lock.next, s.delays)
    ensures o.reply in {Done, EscrowFailed, NotPost, NotFound, Forbidden, WrongStatus}
  {
    if !post then Outcome(NotPost, s)
    else if b >= |s.board.bids| || s.board.bids[b].job !in s.board.jobs then Outcome(NotFound, s)
    else
      var j := s.board.bids[b].job;
      if !IsOwner(a, s.board.jobs[j]) then Outcome(Forbidden, s)
      else if s.board.jobs[j].status != Open then Outcome(WrongStatus, s)
      else
        var s1 := s.(wallets := s.wallets + {a.user});
        match lock
        case Fails => Outcome(EscrowFailed, s1)
        case Succeeds(ledger) => Outcome(Done, s1.(board := MarkAsWinner(s.board, b), ledger := ledger))
  }

  // ---------------------------------------------------------- confirm_work_start

  /** The guards shared by `confirm_work_start` and `complete_work`: the job
      exists, the requester owns it, it is IN_PROGRESS and has a winner. */
  predicate OwnerOfRunningJob(s: Store, a: Actor, post: bool, j: JobId) {
    && post
    && j in s.board.jobs
    && IsOwner(a, s.board.jobs[j])
    && s.board.jobs[j].status == InProgress
    && WinningBid(s.board.bids, j).Some?
  }

  /** `confirm_work_start`: releases the initial 30% and then locks the
      remaining 70%. The two escrow calls are separate: when the lock (or the
      wallet lookup before it) fails, the release stays applied. */
  function ConfirmWorkStart(s: Store, a: Actor, post: bool, j: JobId,
                            release: Step<seq<EscrowTx>>, lock: Step<seq<EscrowTx>>): (o: Outcome)
    ensures o.store.board == s.board && o.store.wallets == s.wallets && o.store.delays == s.delays
    ensures o.store != s ==> OwnerOfRunningJob(s, a, post, j) && !HasTx(s.ledger, j, InitialRelease, Released)
    ensures HasTx(s.ledger, j, InitialRelease, Released) ==> o.store == s
    ensures o.reply == Done <==>
      OwnerOfRunningJob(s, a, post, j) && !HasTx(s.ledger, j, InitialRelease, Released)
      && release.Succeeds? && a.user in s.wallets && lock.Succeeds?
    ensures o.reply == Done ==> o.store.ledger == lock.next
    ensures o.reply in {NoWallet, RemainderNotLocked} ==> release.Succeeds? && o.store.ledger == release.next
    ensures o.reply == EscrowFailed ==> o.store == s
  {
    if !post then Outcome(NotPost, s)
    else if j !in s.board.jobs then Outcome(NotFound, s)
    else if !IsOwner(a, s.board.jobs[j]) then Outcome(Forbidden, s)
    else if s.board.jobs[j].status != InProgress then Outcome(WrongStatus, s)
    else if WinningBid(s.board.bids, j).None? then Outcome(NoWinningBid, s)
    else if HasTx(s.ledger, j, InitialRelease, Released) then Outcome(AlreadyDone, s)
    else match release
      case Fails => Outcome(EscrowFailed, s)
      case Succeeds(released) =>
        var s1 := s.(ledger := released);
        if a.user !in s.wallets then Outcome(NoWallet, s1)
        else match lock
          case Fails => Outcome(RemainderNotLocked, s1)
          case Succeeds(locked) => Outcome(Done, s.(ledger := locked))
  }

  // ------------------------------------------------------------- complete_work

  /** `complete_work`: the job is CLOSED exactly when the final release
      succeeds; once a released FINAL_RELEASE is recorded nothing changes. */
  function CompleteWork(s: Store, a: Actor, post: bool, j: JobId, release: Step<seq<EscrowTx>>): (o: Outcome)
    ensures o.store.board.bids == s.board.bids && o.store.board.votes == s.board.votes
    ensures o.store.wallets == s.wallets && o.store.delays == s.delays
    ensures o.store.board.jobs.Keys == s.board.jobs.Keys
    ensures forall k :: k in s.board.jobs && k != j ==> o.store.board.jobs[k] == s.board.jobs[k]
    ensures o.reply == Done <==>
      OwnerOfRunningJob(s, a, post, j) && !HasTx(s.ledger, j, FinalRelease, Released) && release.Succeeds?
    ensures o.reply == Done ==>
      o.store.ledger == release.next && o.store.board.jobs[j] == s.board.jobs[j].(status := Closed)
    ensures o.reply != Done ==> o.store == s
    ensures HasTx(s.ledger, j, FinalRelease, Released) ==> o.store == s
  {
    if !post then Outcome(NotPost, s)
    else if j !in s.board.jobs then Outcome(NotFound, s)
    else if !IsOwner(a, s.board.jobs[j]) then Outcome(Forbidden, s)
    else if s.board.jobs[j].status != InProgress then Outcome(WrongStatus, s)
    else if WinningBid(s.board.bids, j).None? then Outcome(NoWinningBid, s)
    else if HasTx(s.ledger, j, FinalRelease, Released) then Outcome(AlreadyDone, s)
    else match release
      case Fails => Outcome(EscrowFailed, s)
      case Succeeds(released) =>
        var jobs := s.board.jobs[j := s.board.jobs[j].(status := Closed)];
        Outcome(Done, s.(board := s.board.(jobs := jobs), ledger := released))
  }

  // ------------------------------------------------ submit_delay_justification

  /** The guards of `submit_delay_justification`, in the view's order: an
      OFICIO user who holds the winning bid of an IN_PROGRESS job that is
      currently delayed (`delayed` is `is_delayed` after the deadline check). */
  predicate MayJustify(s: Store, a: Actor, j: JobId, delayed: bool) {
    && j in s.board.jobs
    && IsOficio(a)
    && WinningBid(s.board.bids, j).Some?
    && s.board.bids[WinningBid(s.board.bids, j).value].professional == a.user
    && s.board.jobs[j].status == InProgress
    && delayed
  }

  /** `submit_delay_justification`: on POST, a reason of at least 50
      characters after stripping is handed to `create_delay_report`. */
  function SubmitDelayJustification(s: Store, a: Actor, j: JobId, delayed: bool, post: bool,
                                    reason: string, report: Step<seq<DelayEntry>>): (o: Outcome)
    ensures o.store.board == s.board && o.store.wallets == s.wallets && o.store.ledger == s.ledger
    ensures o.reply == Done <==>
      MayJustify(s, a, j, delayed) && post && |Strip(reason)| >= 50 && report.Succeeds?
    ensures o.reply == Done ==> o.store.delays == report.next
    ensures o.reply != Done ==> o.store == s
  {
    if j !in s.board.jobs then Outcome(NotFound, s)
    else if !IsOficio(a) then Outcome(Forbidden, s)
    else
      var w := WinningBid(s.board.bids, j);
      if w.None? || s.board.bids[w.value].professional != a.user then Outcome(Forbidden, s)
      else if s.board.jobs[j].status != InProgress then Outcome(WrongStatus, s)
      else if !delayed then Outcome(NotDelayed, s)
      else if !post then Outcome(ShowForm, s)
      else if |Strip(reason)| < 50 then Outcome(InvalidInput, s)
      else match report
        case Fails => Outcome(ServerError, s)
        case Succeeds(delays) => Outcome(Done, s.(delays := delays))
  }

  // ------------------------------------------------ review_delay_justification

  /** The job a delay entry belongs to, through its bid. */
  function DelayJob(s: Store, d: nat): Option<JobId> {
    if d < |s.delays| && s.delays[d].bid < |s.board.bids| && s.board.bids[s.delays[d].bid].job in s.board.jobs
    then Some(s.board.bids[s.delays[d].bid].job)
    else None
  }

  /** The guards of `review_delay_justification`: the entry exists, the
      requester created its job, and it is still PENDING. */
  predicate MayReview(s: Store, a: Actor, d: nat) {
    DelayJob(s, d).Some? && IsOwner(a, s.board.jobs[DelayJob(s, d).value]) && s.delays[d].status == Pending
  }

  /** `review_delay_justification`: the job's creator reviews a PENDING entry;
      "accept" and "reject" call the corresponding opaque operation, any other
      action changes nothing. */
  function ReviewDelayJustification(s: Store, a: Actor, d: nat, post: bool, action: string,
                                    review: Step<seq<DelayEntry>>): (o: Outcome)
    ensures o.store.board == s.board && o.store.wallets == s.wallets && o.store.ledger == s.ledger
    ensures o.store != s ==> MayReview(s, a, d) && post && action in {"accept", "reject"}
    ensures o.reply == DelayAccepted <==> MayReview(s, a, d) && post && action == "accept" && review.Succeeds?
    ensures o.reply == DelayRejected <==> MayReview(s, a, d) && post && action == "reject" && review.Succeeds?
    ensures o.reply in {DelayAccepted, DelayRejected} ==> o.store.delays == review.next
    ensures o.reply == InvalidAction <==> MayReview(s, a, d) && post && action !in {"accept", "reject"}
  {
    match DelayJob(s, d)
    case None => Outcome(NotFound, s)
    case Some(j) =>
      if !IsOwner(a, s.board.jobs[j]) then Outcome(Forbidden, s)
      else if s.delays[d].status != Pending then Outcome(AlreadyDone, s)
      else if !post then Outcome(ShowForm, s)
      else if action == "accept" then
        match review
        case Fails => Outcome(ServerError, s)
        case Succeeds(delays) => Outcome(DelayAccepted, s.(delays := delays))
      else if action == "reject" then
        match review
        case Fails => Outcome(ServerError, s)
        case Succeeds(delays) => Outcome(DelayRejected, s.(delays := delays))
      else Outcome(InvalidAction, s)
  }

  // -------------------------------------------------------------- job_tracking

  datatype TimeStatus = Delayed | Warning | OnTime

  /** What `job_tracking` knows about the deadline: the time left to the
      expected completion date in whole seconds, or, without such a date, the
      whole days elapsed since the start. */
  datatype Deadline = SecondsLeft(seconds: int) | NoExpectedDate(elapsedDays: int)

  /** `hours_until_deadline`: `int(total_seconds / 3600)` truncates toward
      zero; without an expected date it is `(estimated - elapsed) * 24`. */
  function HoursUntilDeadline(deadline: Deadline, estimatedDays: int): int {
    match deadline
    case SecondsLeft(secs) => TruncDiv(secs, 3600)
    case NoExpectedDate(elapsed) => (estimatedDays - elapsed) * 24
  }

  /** The `time_status` classification. */
  function Classify(delayed: bool, hours: int): TimeStatus {
    if delayed then Delayed
    else if hours <= 24 && hours > 0 then Warning
    else OnTime
  }

  datatype Tracking = TrackingNotFound | Unassigned | Tracked(status: TimeStatus)

  /** `job_tracking`: the winning bid is looked up only for a signed-in viewer
      with a profile, so everyone else is sent back as if no professional
      were assigned. */
  function JobTracking(s: Store, viewer: Option<Actor>, j: JobId, delayed: bool, deadline: Deadline): (t: Tracking)
    ensures t.Tracked? <==>
      viewer.Some? && viewer.value.profile.Some? && j in s.board.jobs && WinningBid(s.board.bids, j).Some?
    ensures t == TrackingNotFound <==> j !in s.board.jobs
    ensures t.Tracked? ==> (t.status == Delayed <==> delayed)
    ensures t.Tracked? ==>
      var hours := HoursUntilDeadline(deadline, s.board.bids[WinningBid(s.board.bids, j).value].estimatedDays);
      && (t.status == Warning <==> !delayed && 0 < hours <= 24)
      && (t.status == OnTime <==> !delayed && !(0 < hours <= 24))
    ensures viewer.None? ==> !t.Tracked?
  {
    if j !in s.board.jobs then TrackingNotFound
    else if viewer.None? || viewer.value.profile.None? then Unassigned
    else match WinningBid(s.board.bids, j)
      case None => Unassigned
      case Some(w) =>
        Tracked(Classify(delayed, HoursUntilDeadline(deadline, s.board.bids[w].estimatedDays)))
  }

  /** With an expected date, 'warning' shows exactly while between one and
      twenty-five hours remain: truncation makes anything under an hour
      'on-time', and 24 h 59 min still 'warning'. */
  lemma WarningWindow(delayed: bool, secs: int, days: int)
    ensures Classify(delayed, HoursUntilDeadline(SecondsLeft(secs), days)) == Warning
      <==> !delayed && 3600 <= secs < 25 * 3600
  {
    var h := TruncDiv(secs, 3600);
    if secs < 0 {
      assert h <= 0;
    } else {
      assert h == secs / 3600;
    }
  }

  /** The tracking page shows 'warning' for a job whose winner is assigned
      exactly while one to twenty-five hours remain to the expected date,
      or, without an expected date, when exactly one estimated day is left. */
  lemma TrackingWarning(s: Store, viewer: Option<Actor>, j: JobId, delayed: bool, deadline: Deadline)
    requires JobTracking(s, viewer, j, delayed, deadline).Tracked?
    ensures var t := JobTracking(s, viewer, j, delayed, deadline);
      var days := s.board.bids[WinningBid(s.board.bids, j).value].estimatedDays;
      && (deadline.SecondsLeft? ==>
            (t.status == Warning <==> !delayed && 3600 <= deadline.seconds < 25 * 3600))
      && (deadline.NoExpectedDate? ==>
            (t.status == Warning <==> !delayed && days - deadline.elapsedDays == 1))
  {
  }
}
