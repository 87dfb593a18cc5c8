/** The marketplace tables of jobs/models.py: job offers, bids and votes, the
    mocked 1200 ARS-per-USDC conversion, and the winner / voting rules.

    Bids live in one sequence in creation order, so a bid's id is its index and
    "newest first" (the `-created_at` ordering) means "highest index first". A
    user and their one-to-one profile share one identifier. */
module Market {
  import opened Decimals
  import opened Optional

  type JobId = nat
  type BidId = nat
  type UserId = nat

  datatype JobStatus = Open | InProgress | Closed

  /** A job offer; `budgetArs` is in ARS cents. */
  datatype Job = Job(creator: UserId, title: string, budgetArs: int, status: JobStatus)

  /** A bid; `amountArs` is in ARS cents. */
  datatype Bid = Bid(job: JobId, professional: UserId, amountArs: int, estimatedDays: int,
                     pitch: string, active: bool, winner: bool)

  /** A vote of a user on a bid. Votes are kept in a set, so the unique
      (user, bid) constraint holds by construction. */
  datatype Vote = Vote(user: UserId, bid: BidId)

  /** The three tables together. */
  datatype Board = Board(jobs: map<JobId, Job>, bids: seq<Bid>, votes: set<Vote>)

  /** The mocked quote of jobs/models.py: 1 USDC = 1200 ARS. */
  const ArsPerUsdc: int := 1200

  /** ARS cents to USDC cents at the mocked quote, quantized to 0.01 with
      ROUND_HALF_UP — the shared body of `budget_base_usdc` and `amount_usdc`. */
  function ArsToUsdcCents(ars: int): (usdc: int)
    ensures IsRounding(HalfUp, ars, ArsPerUsdc, usdc)
    ensures ars >= 0 ==> usdc == (ars + 600) / 1200
    ensures ars >= 0 ==> usdc >= 0
  {
    var r := Round(HalfUp, ars, ArsPerUsdc);
    if ars >= 0 then
      HalfUpByOffset(ars, ArsPerUsdc);
      RoundingUnique(HalfUp, ars, ArsPerUsdc, r, (ars + 600) / 1200);
      r
    else r
  }

  /** `budget_base_usdc`, in USDC cents. */
  function BudgetUsdc(job: Job): (usdc: int)
    ensures IsRounding(HalfUp, job.budgetArs, ArsPerUsdc, usdc)
    ensures job.budgetArs >= 0 ==> 0 <= usdc && usdc * 1200 - 600 <= job.budgetArs
  {
    ArsToUsdcCents(job.budgetArs)
  }

  /** `amount_usdc`, in USDC cents. */
  function AmountUsdc(bid: Bid): (usdc: int)
    ensures IsRounding(HalfUp, bid.amountArs, ArsPerUsdc, usdc)
    ensures bid.amountArs >= 0 ==> 0 <= usdc && usdc * 1200 - 600 <= bid.amountArs
  {
    ArsToUsdcCents(bid.amountArs)
  }

  /** `get_active_bids`: the ids of the job's active bids, newest first. */
  function ActiveBids(bids: seq<Bid>, j: JobId): (r: seq<BidId>)
    ensures forall k :: k in r <==> 0 <= k < |bids| && bids[k].job == j && bids[k].active
    ensures forall a, b :: 0 <= a < b < |r| ==> r[a] > r[b]
  {
    ActiveBelow(bids, j, |bids|)
  }

  /** The active bids of job j among the first n bids, newest first. */
  function ActiveBelow(bids: seq<Bid>, j: JobId, n: nat): (r: seq<BidId>)
    requires n <= |bids|
    ensures forall k :: k in r <==> 0 <= k < n && bids[k].job == j && bids[k].active
    ensures forall a, b :: 0 <= a < b < |r| ==> r[a] > r[b]
    ensures forall a :: 0 <= a < |r| ==> r[a] < n
  {
    if n == 0 then []
    else
      var rest := ActiveBelow(bids, j, n - 1);
      if bids[n - 1].job == j && bids[n - 1].active then [n - 1] + rest else rest
  }

  /** The newest of the first n bids that satisfies p: `.filter(...).first()`
      under the `-created_at` ordering. */
  function NewestBelow(bids: seq<Bid>, p: Bid -> bool, n: nat): (r: Option<BidId>)
    requires n <= |bids|
    ensures r.Some? ==> r.value < n && p(bids[r.value])
    ensures r.Some? ==> forall k :: r.value < k < n ==> !p(bids[k])
    ensures r.None? <==> forall k :: 0 <= k < n ==> !p(bids[k])
  {
    if n == 0 then None
    else if p(bids[n - 1]) then Some(n - 1)
    else NewestBelow(bids, p, n - 1)
  }

  /** `get_winning_bid`: the newest winner of job j, if any. */
  function WinningBid(bids: seq<Bid>, j: JobId): (r: Option<BidId>)
    ensures r.Some? ==> r.value < |bids| && bids[r.value].job == j && bids[r.value].winner
    ensures r.None? <==> forall k :: 0 <= k < |bids| ==> !(bids[k].job == j && bids[k].winner)
  {
    NewestBelow(bids, (b: Bid) => b.job == j && b.winner, |bids|)
  }

  /** `can_receive_bids`. */
  predicate CanReceiveBids(job: Job) {
    job.status == Open
  }

  /** `can_be_voted`: an active bid on an open job. */
  predicate CanBeVoted(board: Board, b: BidId)
    requires b < |board.bids| && board.bids[b].job in board.jobs
  {
    board.bids[b].active && board.jobs[board.bids[b].job].status == Open
  }

  /** A bid can be voted on exactly when it is one of its job's active bids
      and the job still takes bids. */
  lemma VotableIffActiveOnOpen(board: Board, b: BidId)
    requires b < |board.bids| && board.bids[b].job in board.jobs
    ensures CanBeVoted(board, b) <==>
      b in ActiveBids(board.bids, board.bids[b].job) && CanReceiveBids(board.jobs[board.bids[b].job])
  {
  }

  /** `mark_as_winner`: clears the winner flag of every other bid of the same
      job, sets it on bid b, and moves the job to IN_PROGRESS — whatever its
      status was and whether or not b is active. */
  function MarkAsWinner(board: Board, b: BidId): (r: Board)
    requires b < |board.bids| && board.bids[b].job in board.jobs
    ensures |r.bids| == |board.bids| && r.votes == board.votes
    ensures r.bids[b].winner
    ensures forall k :: 0 <= k < |r.bids| && k != b && r.bids[k].job == board.bids[b].job ==> !r.bids[k].winner
    ensures forall k :: 0 <= k < |r.bids| ==> r.bids[k] == board.bids[k].(winner := r.bids[k].winner)
    ensures forall k :: 0 <= k < |r.bids| && board.bids[k].job != board.bids[b].job ==> r.bids[k] == board.bids[k]
    ensures r.jobs.Keys == board.jobs.Keys
    ensures r.jobs[board.bids[b].job] == board.jobs[board.bids[b].job].(status := InProgress)
    ensures forall j :: j in board.jobs && j != board.bids[b].job ==> r.jobs[j] == board.jobs[j]
  {
    var j := board.bids[b].job;
    var bids := seq(|board.bids|, k requires 0 <= k < |board.bids| =>
      if k == b then board.bids[k].(winner := true)
      else if board.bids[k].job == j then board.bids[k].(winner := false)
      else board.bids[k]);
    Board(board.jobs[j := board.jobs[j].(status := InProgress)], bids, board.votes)
  }

  /** After a winner is marked, its job takes no more bids and none of its
      bids can be voted on. */
  lemma WinnerClosesVoting(board: Board, b: BidId)
    requires b < |board.bids| && board.bids[b].job in board.jobs
    ensures var r := MarkAsWinner(board, b);
      && !CanReceiveBids(r.jobs[board.bids[b].job])
      && (forall k :: 0 <= k < |r.bids| && r.bids[k].job == board.bids[b].job ==> !CanBeVoted(r, k))
      && WinningBid(r.bids, board.bids[b].job) == Some(b)
  {
    var r := MarkAsWinner(board, b);
    var j := board.bids[b].job;
    var w := WinningBid(r.bids, j);
    assert w.Some?;
    if w.value != b {
      assert false;
    }
  }

  predicate HasVoted(votes: set<Vote>, v: Vote) {
    v in votes
  }

  /** `toggle_vote`: removes the vote if present, adds it otherwise, and
      reports whether the vote now exists. */
  function ToggleVote(votes: set<Vote>, v: Vote): (r: (bool, set<Vote>))
    ensures r.0 <==> !HasVoted(votes, v)
    ensures HasVoted(r.1, v) == r.0
    ensures r.1 - {v} == votes - {v}
  {
    if v in votes then (false, votes - {v}) else (true, votes + {v})
  }

  /** Toggling the same vote twice restores the vote set, the two calls
      reporting opposite outcomes. */
  lemma ToggleTwice(votes: set<Vote>, v: Vote)
    ensures var first := ToggleVote(votes, v);
      var second := ToggleVote(first.1, v);
      second.1 == votes && second.0 == !first.0
  {
  }

  /** `get_user_votes_for_job`: the user's votes on bids of job j. */
  function VotesForJob(board: Board, u: UserId, j: JobId): (r: set<Vote>)
    ensures forall v :: v in r <==> v in board.votes && v.user == u && v.bid < |board.bids| && board.bids[v.bid].job == j
  {
    set v | v in board.votes && v.user == u && v.bid < |board.bids| && board.bids[v.bid].job == j
  }

  /** Toggling a vote on a bid of job j flips exactly that vote among the
      user's votes for j; a toggle by another user, or on a bid of another
      job, leaves them as they were. */
  lemma ToggleVoteForJob(board: Board, u: UserId, j: JobId, v: Vote)
    ensures var after := board.(votes := ToggleVote(board.votes, v).1);
      && (v.user == u && v.bid < |board.bids| && board.bids[v.bid].job == j ==>
            VotesForJob(after, u, j) ==
              if HasVoted(board.votes, v) then VotesForJob(board, u, j) - {v}
              else VotesForJob(board, u, j) + {v})
      && (!(v.user == u && v.bid < |board.bids| && board.bids[v.bid].job == j) ==>
            VotesForJob(after, u, j) == VotesForJob(board, u, j))
  {
  }

  /** A user's votes for two different jobs never overlap. */
  lemma VotesForJobsDisjoint(board: Board, u: UserId, j1: JobId, j2: JobId)
    requires j1 != j2
    ensures VotesForJob(board, u, j1) * VotesForJob(board, u, j2) == {}
  {
  }

  /** The partial unique constraint of Bid: at most one active bid per
      (job, professional). */
  predicate UniqueActiveBids(bids: seq<Bid>) {
    forall a, b :: 0 <= a < b < |bids| && bids[a].active && bids[b].active ==>
      !(bids[a].job == bids[b].job && bids[a].professional == bids[b].professional)
  }

  /** At most one bid of each job carries the winner flag. */
  predicate SingleWinner(bids: seq<Bid>) {
    forall a, b :: 0 <= a < b < |bids| && bids[a].winner && bids[b].winner ==> bids[a].job != bids[b].job
  }

  /** Marking a winner keeps every job to at most one winner and leaves the
      active flags, hence the unique-active constraint, alone. */
  lemma MarkAsWinnerKeepsConstraints(board: Board, b: BidId)
    requires b < |board.bids| && board.bids[b].job in board.jobs
    requires SingleWinner(board.bids) && UniqueActiveBids(board.bids)
    ensures SingleWinner(MarkAsWinner(board, b).bids)
    ensures UniqueActiveBids(MarkAsWinner(board, b).bids)
  {
    var r := MarkAsWinner(board, b);
    forall x, y | 0 <= x < y < |r.bids| && r.bids[x].winner && r.bids[y].winner
      ensures r.bids[x].job != r.bids[y].job
    {
      if r.bids[x].job == board.bids[b].job {
        assert x == b;
        assert y != b;
      } else if r.bids[y].job == board.bids[b].job {
        assert y == b;
      } else {
        assert r.bids[x] == board.bids[x] && r.bids[y] == board.bids[y];
      }
    }
  }
}
