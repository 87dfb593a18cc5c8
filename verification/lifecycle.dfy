/** The job views of jobs/views.py composed into one event-driven store: the
    integrity the tables keep across any sequence of requests, and the way a
    job's status can move — OPEN to IN_PROGRESS through `accept_bid`,
    IN_PROGRESS to CLOSED through `complete_work`, and never back. */
module Lifecycle {
  import opened Optional
  import opened Market
  import opened Escrow
  import opened Workflow

  /** One request to a view that writes, with the outcomes of the opaque
      operations it would call. `ToggleVoteEv` is `Vote.toggle_vote`. */
  datatype Event =
    | SubmitBidEv(a: Actor, post: bool, j: JobId, form: BidForm)
    | AcceptBidEv(a: Actor, post: bool, b: BidId, lock: Step<seq<EscrowTx>>)
    | ConfirmStartEv(a: Actor, post: bool, j: JobId, release: Step<seq<EscrowTx>>, lock: Step<seq<EscrowTx>>)
    | CompleteWorkEv(a: Actor, post: bool, j: JobId, release: Step<seq<EscrowTx>>)
    | JustifyDelayEv(a: Actor, j: JobId, delayed: bool, post: bool, reason: string, report: Step<seq<DelayEntry>>)
    | ReviewDelayEv(a: Actor, d: nat, post: bool, action: string, review: Step<seq<DelayEntry>>)
    | ToggleVoteEv(u: UserId, b: BidId)

  /** `toggle_vote` on an existing bid; a vote's foreign key must name a bid. */
  function ToggleVoteView(s: Store, u: UserId, b: BidId): (o: Outcome)
    ensures o.store.board.jobs == s.board.jobs && o.store.board.bids == s.board.bids
    ensures o.store.wallets == s.wallets && o.store.ledger == s.ledger && o.store.delays == s.delays
    ensures b < |s.board.bids| ==> (HasVoted(o.store.board.votes, Vote(u, b)) <==> !HasVoted(s.board.votes, Vote(u, b)))
    ensures b >= |s.board.bids| ==> o == Outcome(NotFound, s)
  {
    if b >= |s.board.bids| then Outcome(NotFound, s)
    else Outcome(Done, s.(board := s.board.(votes := ToggleVote(s.board.votes, Vote(u, b)).1)))
  }

  function Apply(s: Store, e: Event): Outcome {
    match e
    case SubmitBidEv(a, post, j, f) => SubmitBid(s, a, post, j, f)
    case AcceptBidEv(a, post, b, lock) => AcceptBid(s, a, post, b, lock)
    case ConfirmStartEv(a, post, j, release, lock) => ConfirmWorkStart(s, a, post, j, release, lock)
    case CompleteWorkEv(a, post, j, release) => CompleteWork(s, a, post, j, release)
    case JustifyDelayEv(a, j, delayed, post, reason, report) =>
      SubmitDelayJustification(s, a, j, delayed, post, reason, report)
    case ReviewDelayEv(a, d, post, action, review) => ReviewDelayJustification(s, a, d, post, action, review)
    case ToggleVoteEv(u, b) => ToggleVoteView(s, u, b)
  }

  /** The store after a sequence of requests. */
  function Run(s: Store, es: seq<Event>): Store
    decreases |es|
  {
    if |es| == 0 then s else Run(Apply(s, es[0]).store, es[1..])
  }

  // ------------------------------------------------------------ integrity

  predicate BidsOnJobs(b: Board) {
    forall k :: 0 <= k < |b.bids| ==> b.bids[k].job in b.jobs
  }

  /** A winner exists only on a job that has left OPEN ... */
  predicate WinnersStarted(b: Board)
    requires BidsOnJobs(b)
  {
    forall k :: 0 <= k < |b.bids| && b.bids[k].winner ==> b.jobs[b.bids[k].job].status != Open
  }

  /** ... and every job that has left OPEN has a winner. */
  predicate StartedHaveWinner(b: Board) {
    forall j :: j in b.jobs && b.jobs[j].status != Open ==> WinningBid(b.bids, j).Some?
  }

  predicate VotesOnBids(b: Board) {
    forall v :: v in b.votes ==> v.bid < |b.bids|
  }

  /** What the tables promise together: foreign keys resolve, the partial
      unique constraints on bids hold, at most one winner per job, and a
      job has a winner exactly when it is no longer OPEN. */
  predicate Valid(s: Store) {
    && BidsOnJobs(s.board)
    && UniqueActiveBids(s.board.bids)
    && SingleWinner(s.board.bids)
    && WinnersStarted(s.board)
    && StartedHaveWinner(s.board)
    && VotesOnBids(s.board)
  }

  /** A job with a winner is not OPEN, one without is: the view guards on
      status and on `get_winning_bid` agree in a valid store. */
  lemma StatusMatchesWinner(s: Store, j: JobId)
    requires Valid(s) && j in s.board.jobs
    ensures s.board.jobs[j].status == Open <==> WinningBid(s.board.bids, j).None?
  {
    var w := WinningBid(s.board.bids, j);
    if w.Some? {
      assert s.board.bids[w.value].winner;
    }
  }

  /** Placing a bid on an OPEN job keeps the integrity of the store. */
  lemma PlaceBidKeepsValid(s: Store, j: JobId, u: UserId, cents: int, days: int, pitch: string)
    requires Valid(s) && j in s.board.jobs && s.board.jobs[j].status == Open
    ensures Valid(s.(board := PlaceBid(s.board, j, u, cents, days, pitch)))
  {
    var old_ := s.board.bids;
    var r := PlaceBid(s.board, j, u, cents, days, pitch);
    var ex := ExistingBid(old_, j, u);
    var k := if ex.Some? then ex.value else |old_|;
    // the placed bid is no winner: job j is still OPEN
    assert !r.bids[k].winner;
    // every other slot is unchanged
    assert forall x :: 0 <= x < |r.bids| && x != k ==> r.bids[x] == old_[x];
    forall x, y | 0 <= x < y < |r.bids| && r.bids[x].active && r.bids[y].active
      ensures !(r.bids[x].job == r.bids[y].job && r.bids[x].professional == r.bids[y].professional)
    {
      if x == k || y == k {
        var other := if x == k then y else x;
        if r.bids[other].job == j && r.bids[other].professional == u {
          assert false;
        }
      } else {
        assert r.bids[x] == old_[x] && r.bids[y] == old_[y];
      }
    }
    forall jj | jj in r.jobs && r.jobs[jj].status != Open
      ensures WinningBid(r.bids, jj).Some?
    {
      var w := WinningBid(old_, jj).value;
      assert w != k;
      assert r.bids[w] == old_[w];
    }
  }

  /** Accepting a bid, whatever the escrow outcome, keeps the integrity. */
  lemma AcceptBidKeepsValid(s: Store, a: Actor, post: bool, b: BidId, lock: Step<seq<EscrowTx>>)
    requires Valid(s)
    ensures Valid(AcceptBid(s, a, post, b, lock).store)
  {
    var o := AcceptBid(s, a, post, b, lock);
    if o.reply == Done {
      var r := MarkAsWinner(s.board, b);
      var j := s.board.bids[b].job;
      MarkAsWinnerKeepsConstraints(s.board, b);
      WinnerClosesVoting(s.board, b);
      forall jj | jj in r.jobs && r.jobs[jj].status != Open
        ensures WinningBid(r.bids, jj).Some?
      {
        if jj != j {
          var w := WinningBid(s.board.bids, jj).value;
          assert r.bids[w] == s.board.bids[w];
        }
      }
    }
  }

  /** Closing a job keeps the integrity: its winner is still there. */
  lemma CompleteWorkKeepsValid(s: Store, a: Actor, post: bool, j: JobId, release: Step<seq<EscrowTx>>)
    requires Valid(s)
    ensures Valid(CompleteWork(s, a, post, j, release).store)
  {
    var o := CompleteWork(s, a, post, j, release);
    assert forall jj :: jj in o.store.board.jobs && o.store.board.jobs[jj].status != Open ==>
      s.board.jobs[jj].status != Open;
  }

  /** Every request keeps the integrity of the store. */
  lemma ApplyKeepsValid(s: Store, e: Event)
    requires Valid(s)
    ensures Valid(Apply(s, e).store)
  {
    match e
    case SubmitBidEv(a, post, j, f) =>
      var o := SubmitBid(s, a, post, j, f);
      if o.reply == Done {
        PlaceBidKeepsValid(s, j, a.user, f.amount.cents, f.days.value, f.pitch.value);
      }
    case AcceptBidEv(a, post, b, lock) => AcceptBidKeepsValid(s, a, post, b, lock);
    case ConfirmStartEv(a, post, j, release, lock) =>
    case CompleteWorkEv(a, post, j, release) => CompleteWorkKeepsValid(s, a, post, j, release);
    case JustifyDelayEv(a, j, delayed, post, reason, report) =>
    case ReviewDelayEv(a, d, post, action, review) =>
    case ToggleVoteEv(u, b) =>
  }

  lemma {:induction false} RunKeepsValid(s: Store, es: seq<Event>)
    requires Valid(s)
    ensures Valid(Run(s, es))
    decreases |es|
  {
    if |es| > 0 {
      ApplyKeepsValid(s, es[0]);
      RunKeepsValid(Apply(s, es[0]).store, es[1..]);
    }
  }

  // ------------------------------------------------------------ status

  /** After any sequence of requests from a valid store, a job takes bids
      exactly when it has no winning bid and none of its bids can be voted
      on once it has one. */
  lemma ReceivesBidsIffNoWinner(s: Store, es: seq<Event>, j: JobId)
    requires Valid(s)
    requires j in Run(s, es).board.jobs
    ensures CanReceiveBids(Run(s, es).board.jobs[j]) <==> WinningBid(Run(s, es).board.bids, j).None?
    ensures WinningBid(Run(s, es).board.bids, j).Some? ==>
      forall k :: 0 <= k < |Run(s, es).board.bids| && Run(s, es).board.bids[k].job == j ==> !CanBeVoted(Run(s, es).board, k)
  {
    RunKeepsValid(s, es);
    StatusMatchesWinner(Run(s, es), j);
  }

  /** The status moves allowed for a job: stay, OPEN to IN_PROGRESS, or
      IN_PROGRESS to CLOSED. */
  predicate StatusStep(before: JobStatus, after: JobStatus) {
    before == after || (before == Open && after == InProgress) || (before == InProgress && after == Closed)
  }

  function Rank(st: JobStatus): nat {
    match st
    case Open => 0
    case InProgress => 1
    case Closed => 2
  }

  /** One request: no job appears or disappears, every status takes an
      allowed step, a job starts only through a successful `accept_bid` of
      one of its bids, and closes only through a successful `complete_work`
      on it whose final release succeeded. */
  lemma ApplyStatus(s: Store, e: Event, j: JobId)
    requires j in s.board.jobs
    ensures var r := Apply(s, e).store.board.jobs;
      && r.Keys == s.board.jobs.Keys
      && StatusStep(s.board.jobs[j].status, r[j].status)
    ensures var r := Apply(s, e);
      r.store.board.jobs[j].status == InProgress && s.board.jobs[j].status != InProgress ==>
        && e.AcceptBidEv? && r.reply == Done && e.lock.Succeeds?
        && e.b < |s.board.bids| && s.board.bids[e.b].job == j
    ensures var r := Apply(s, e);
      r.store.board.jobs[j].status == Closed && s.board.jobs[j].status != Closed ==>
        e.CompleteWorkEv? && e.j == j && r.reply == Done && e.release.Succeeds?
  {
    match e
    case AcceptBidEv(a, post, b, lock) =>
      var o := AcceptBid(s, a, post, b, lock);
      if o.reply == Done && s.board.bids[b].job != j {
        assert o.store.board.jobs[j] == s.board.jobs[j];
      }
    case CompleteWorkEv(a, post, jj, release) =>
    case _ =>
  }

  /** Over any sequence of requests a job's status never goes back. */
  lemma {:induction false} RunNeverRegresses(s: Store, es: seq<Event>, j: JobId)
    requires j in s.board.jobs
    ensures j in Run(s, es).board.jobs
    ensures Rank(Run(s, es).board.jobs[j].status) >= Rank(s.board.jobs[j].status)
    decreases |es|
  {
    if |es| > 0 {
      var s1 := Apply(s, es[0]).store;
      ApplyStatus(s, es[0], j);
      RunNeverRegresses(s1, es[1..], j);
    }
  }

  /** Request i of es is a `complete_work` on j, with a successful final
      release, answered Done in the store the requests before it left. */
  predicate ClosesAt(s: Store, es: seq<Event>, j: JobId, i: nat) {
    && i < |es| && es[i].CompleteWorkEv? && es[i].j == j && es[i].release.Succeeds?
    && Apply(Run(s, es[..i]), es[i]).reply == Done
  }

  /** A job that ends CLOSED without having been CLOSED went through a
      `complete_work` on it that succeeded, with a successful final release,
      in the store the earlier requests had left. */
  lemma {:induction false} ClosedOnlyByFinalRelease(s: Store, es: seq<Event>, j: JobId)
    requires j in s.board.jobs && s.board.jobs[j].status != Closed
    requires j in Run(s, es).board.jobs && Run(s, es).board.jobs[j].status == Closed
    ensures exists i :: ClosesAt(s, es, j, i)
    decreases |es|
  {
    RunNeverRegresses(s, es, j);
    if |es| == 0 {
      assert false;
    }
    var s1 := Apply(s, es[0]).store;
    ApplyStatus(s, es[0], j);
    if s1.board.jobs[j].status == Closed {
      assert es[..0] == [];
      assert ClosesAt(s, es, j, 0);
    } else {
      ClosedOnlyByFinalRelease(s1, es[1..], j);
      var i :| ClosesAt(s1, es[1..], j, i);
      ClosesAtShift(s, es, j, i);
    }
  }

  /** A closing request of the tail is one of the whole sequence, one
      position later. */
  lemma ClosesAtShift(s: Store, es: seq<Event>, j: JobId, i: nat)
    requires |es| > 0 && ClosesAt(Apply(s, es[0]).store, es[1..], j, i)
    ensures ClosesAt(s, es, j, i + 1)
  {
    assert es[i + 1] == es[1..][i];
    assert es[..i + 1][0] == es[0];
    assert es[..i + 1][1..] == es[1..][..i];
  }

  // ------------------------------------------------------------ repeats

  /** A second `accept_bid` on a job, once one succeeded, finds it no longer
      OPEN and changes nothing. */
  lemma AcceptTwice(s: Store, a: Actor, a2: Actor, b: BidId, b2: BidId,
                    lock: Step<seq<EscrowTx>>, lock2: Step<seq<EscrowTx>>, post2: bool)
    requires AcceptBid(s, a, true, b, lock).reply == Done
    requires b2 < |s.board.bids| && s.board.bids[b2].job == s.board.bids[b].job
    ensures var s1 := AcceptBid(s, a, true, b, lock).store;
      AcceptBid(s1, a2, post2, b2, lock2).store == s1
  {
    var s1 := AcceptBid(s, a, true, b, lock).store;
    assert s1.board.bids[b2].job == s.board.bids[b].job;
  }

  /** Once `complete_work` succeeded, repeating it changes nothing. */
  lemma CompleteTwice(s: Store, a: Actor, a2: Actor, j: JobId, release: Step<seq<EscrowTx>>,
                      release2: Step<seq<EscrowTx>>, post2: bool)
    requires CompleteWork(s, a, true, j, release).reply == Done
    ensures var s1 := CompleteWork(s, a, true, j, release).store;
      var o := CompleteWork(s1, a2, post2, j, release2);
      o.store == s1 && o.reply in {NotPost, Forbidden, WrongStatus}
  {
    var s1 := CompleteWork(s, a, true, j, release).store;
    assert j in s1.board.jobs && s1.board.jobs[j].status == Closed;
  }

  /** Once a confirmation has got as far as releasing the initial payment
      and that release is on record, a second `confirm_work_start` changes
      nothing and does not succeed, whatever the escrow would answer. In
      particular, after a missing wallet or a failed remaining lock, retrying
      never locks the remainder. */
  lemma ConfirmRepeatNoop(s: Store, a: Actor, j: JobId, release: Step<seq<EscrowTx>>, lock: Step<seq<EscrowTx>>,
                          a2: Actor, post2: bool, release2: Step<seq<EscrowTx>>, lock2: Step<seq<EscrowTx>>)
    requires ConfirmWorkStart(s, a, true, j, release, lock).reply in {Done, NoWallet, RemainderNotLocked}
    requires HasTx(ConfirmWorkStart(s, a, true, j, release, lock).store.ledger, j, InitialRelease, Released)
    ensures var s1 := ConfirmWorkStart(s, a, true, j, release, lock).store;
      var o := ConfirmWorkStart(s1, a2, post2, j, release2, lock2);
      o.store == s1 && o.reply != Done
    ensures ConfirmWorkStart(s, a, true, j, release, lock).reply != Done ==>
      ConfirmWorkStart(ConfirmWorkStart(s, a, true, j, release, lock).store, a2, post2, j, release2, lock2).store.ledger
        == release.next
  {
  }

  /** A failed remaining lock after a successful initial release leaves the
      release in the ledger: the view does not roll it back. */
  lemma ReleaseNotRolledBack(s: Store, a: Actor, j: JobId, released: seq<EscrowTx>)
    requires OwnerOfRunningJob(s, a, true, j) && !HasTx(s.ledger, j, InitialRelease, Released)
    requires a.user in s.wallets
    ensures ConfirmWorkStart(s, a, true, j, Succeeds(released), Fails) == Outcome(RemainderNotLocked, s.(ledger := released))
  {
  }
}
