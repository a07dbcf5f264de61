/**
 * Runs of the approval workflow: any sequence of the actions of a record, of its reviews and of
 * their tiers, all of which are public, and of plain writes of `approval_state`,
 * `approval_version` and reviews, which nothing guards. What survives them of the promise that an
 * approved record went through its tiers, and when exactly.
 */
module ApprovalRuns {
  import opened Workflow = Approval
  import opened Wrappers

  datatype Event =
    | Submission(definition: Definition, user: User, approvers: set<User>, frozen: bool)
    | Approval(user: User, approvers: set<User>, seen: nat)
    | Direct(seen: nat)
    | Rejection(user: User, approvers: set<User>)
    | RevisionRequest(user: User, approvers: set<User>)
    | ResetToDraft
    | TierApproval(i: nat, k: nat, user: User, approvers: set<User>)
    | TierRejection(i: nat, k: nat, user: User, approvers: set<User>)
    | TierActivation(i: nat, k: nat)
    | CurrentTierApproval(i: nat, user: User, approvers: set<User>)
    | CurrentTierRejection(i: nat, user: User, approvers: set<User>)
    | ReviewClosing(i: nat, accepted: bool)
    | WriteState(state: State)
    | WriteVersion(version: nat)
    | WriteReview(i: nat, review: Review)

  function Next(r: Record, e: Event): Result<Record, Error> {
    match e
    case Submission(definition, user, approvers, frozen) => Submit(r, definition, user, approvers, frozen)
    case Approval(user, approvers, seen) => Approve(r, user, approvers, seen)
    case Direct(seen) => ApproveDirectly(r, seen)
    case Rejection(user, approvers) => Reject(r, user, approvers)
    case RevisionRequest(user, approvers) => RequestRevision(r, user, approvers)
    case ResetToDraft => Reset(r)
    case TierApproval(i, k, user, approvers) => TierApprove(r, i, k, user, approvers)
    case TierRejection(i, k, user, approvers) => TierReject(r, i, k, user, approvers)
    case TierActivation(i, k) => TierActivate(r, i, k)
    case CurrentTierApproval(i, user, approvers) => ReviewApproveTier(r, i, user, approvers)
    case CurrentTierRejection(i, user, approvers) => ReviewRejectTier(r, i, user, approvers)
    case ReviewClosing(i, accepted) => ReviewClose(r, i, if accepted then Accepted else Denied)
    case WriteState(state) => Ok(r.(state := state))
    case WriteVersion(version) => Ok(r.(version := version))
    case WriteReview(i, review) => if i < |r.reviews| then WithReview(r, i, Ok(review)) else Err(NoPendingTier)
  }

  /** Refused events leave the record as it is. */
  function Step(r: Record, e: Event): Record {
    match Next(r, e)
    case Ok(after) => after
    case Err(_) => r
  }

  function Run(r: Record, events: seq<Event>): Record {
    if events == [] then r else Step(Run(r, events[..|events| - 1]), events[|events| - 1])
  }

  const START := Record(Draft, 1, [])

  /** The record's own actions, direct approval excepted. */
  predicate OfRecord(e: Event) {
    e.Submission? || e.Approval? || e.Rejection? || e.RevisionRequest? || e.ResetToDraft?
  }

  /** The events that need no approver: direct approval, and writes of the state or of a review. */
  predicate Forges(e: Event) {
    e.Direct? || e.WriteState? || e.WriteReview?
  }

  // ----- runs of the record's own actions -----

  /** What holds of every record that only tier approvals approve. */
  ghost predicate Ordered(r: Record) {
    && (forall i :: 0 <= i < |r.reviews| && r.reviews[i].status == Open && r.reviews[i].definition.multitier ==>
          InProgress(r.reviews[i]))
    && (r.state == Pending ==> r.reviews != [] && (r.reviews[0].status == Open || StartedComplete(r.reviews[0])))
    && (r.state == Approved ==> ApprovedInOrder(r))
  }

  /** A review that had no blocking tier, and so was approved when it was created. */
  ghost predicate StartedComplete(review: Review) {
    review.definition.multitier && Required(review.definition.tiers) == 0 && Completed(review)
  }

  /** The review of the current submission is approved, and its tiers were approved in order. */
  ghost predicate ApprovedInOrder(r: Record) {
    r.reviews != [] && r.reviews[0].status == Accepted && (r.reviews[0].definition.multitier ==> Completed(r.reviews[0]))
  }

  /** Approving a record whose newest review is single-tier, or completed in order. */
  lemma CloseOrdered(r: Record, seen: nat)
    requires DoApprove(r, seen).Ok? && r.reviews != []
    requires if r.reviews[0].status == Open then !r.reviews[0].definition.multitier else Completed(r.reviews[0])
    ensures Ordered(DoApprove(r, seen).value)
  {
  }

  lemma ApproveOrdered(r: Record, user: User, approvers: set<User>, seen: nat)
    requires Ordered(r) && Approve(r, user, approvers, seen).Ok?
    ensures Ordered(Approve(r, user, approvers, seen).value)
  {
    var i := ActiveReview(r.reviews).value;
    var review := r.reviews[i];
    if !review.definition.multitier {
      CloseOrdered(r, seen);
    } else {
      ApproveTierInOrder(review, user, approvers);
      var after := ApproveTier(review, user, approvers).value;
      var approved := r.(reviews := r.reviews[i := after]);
      if after.status == Accepted {
        CloseOrdered(approved, seen);
      } else {
        TierKeepsOrdered(r, i, after);
      }
    }
  }

  lemma TierKeepsOrdered(r: Record, i: nat, after: Review)
    requires Ordered(r) && r.state == Pending && i < |r.reviews| && r.reviews[i].status == Open
    requires after.status == Open && InProgress(after)
    ensures Ordered(r.(reviews := r.reviews[i := after]))
  {
  }

  lemma SubmitOrdered(r: Record, definition: Definition, user: User, approvers: set<User>, frozen: bool)
    requires Ordered(r) && ValidDefinition(definition) && Submit(r, definition, user, approvers, frozen).Ok?
    ensures Ordered(Submit(r, definition, user, approvers, frozen).value)
  {
    if definition.multitier {
      NewReviewStarts(definition);
    }
  }

  lemma StepOrdered(r: Record, e: Event)
    requires Ordered(r) && OfRecord(e) && (e.Submission? ==> ValidDefinition(e.definition))
    ensures Ordered(Step(r, e))
  {
    if Next(r, e).Ok? {
      match e {
        case Submission(definition, user, approvers, frozen) => SubmitOrdered(r, definition, user, approvers, frozen);
        case Approval(user, approvers, seen) => ApproveOrdered(r, user, approvers, seen);
        case _ =>
      }
    }
  }

  /**
   * In every run of submissions, approvals, rejections, revision requests and resets, and of nothing
   * done to reviews and tiers themselves, an approved record was approved through the review of its
   * last submission, tier after tier: exactly the tiers up to the last blocking one have approved.
   */
  lemma {:induction false} RunOrdered(events: seq<Event>)
    requires forall e :: e in events ==> OfRecord(e) && (e.Submission? ==> ValidDefinition(e.definition))
    ensures Ordered(Run(START, events))
    ensures Run(START, events).state == Approved ==> ApprovedInOrder(Run(START, events))
  {
    if events != [] {
      RunOrdered(events[..|events| - 1]);
      StepOrdered(Run(START, events[..|events| - 1]), events[|events| - 1]);
    }
  }

  /**
   * There a tier is done only after every earlier one, blocking or not: as the record's own actions
   * work on the first pending tier, a non-blocking one holds up the tiers after it.
   */
  lemma NonBlockingHoldsUp(events: seq<Event>, i: nat, j: nat, k: nat)
    requires forall e :: e in events ==> OfRecord(e) && (e.Submission? ==> ValidDefinition(e.definition))
    requires var r := Run(START, events);
      && i < |r.reviews| && r.reviews[i].definition.multitier && j < k < |r.reviews[i].tierReviews|
      && (r.reviews[i].status == Open || (i == 0 && r.state == Approved))
      && r.reviews[i].tierReviews[k].status == Done
    ensures Run(START, events).reviews[i].tierReviews[j].status == Done
  {
    RunOrdered(events);
  }

  // ----- tiers of an open review -----

  ghost predicate PlainTier(t: TierReview, tier: Tier) {
    t.tier == tier && (t.status == Waiting || t.status == Active || (t.status == Done && HasApproval(t)))
  }

  /** No tier was rejected or skipped, and those done were approved. */
  ghost predicate PlainReview(review: Review) {
    && |review.tierReviews| == |review.definition.tiers|
    && (forall t :: t in review.definition.tiers ==> t.minApprovers >= 1)
    && forall k :: 0 <= k < |review.tierReviews| ==> PlainTier(review.tierReviews[k], review.definition.tiers[k])
  }

  /** Every blocking tier was approved. */
  ghost predicate BlockingDone(review: Review) {
    && |review.tierReviews| == |review.definition.tiers|
    && forall k :: 0 <= k < |review.tierReviews| && review.definition.tiers[k].blocking ==>
         review.tierReviews[k].status == Done && HasApproval(review.tierReviews[k])
  }

  /** The tiers up to the last blocking one that is not done. */
  function Needed(tierReviews: seq<TierReview>): (n: nat)
    ensures n <= |tierReviews| && (n > 0 ==> tierReviews[n - 1].tier.blocking && tierReviews[n - 1].status != Done)
    ensures forall k :: n <= k < |tierReviews| ==> !tierReviews[k].tier.blocking || tierReviews[k].status == Done
  {
    if tierReviews == [] then 0
    else
      var last := tierReviews[|tierReviews| - 1];
      if last.tier.blocking && last.status != Done then |tierReviews| else Needed(tierReviews[..|tierReviews| - 1])
  }

  /** The first tier not done. */
  function Undone(tierReviews: seq<TierReview>): (k: nat)
    ensures k <= |tierReviews| && (k < |tierReviews| ==> tierReviews[k].status != Done)
    ensures forall j :: 0 <= j < k ==> tierReviews[j].status == Done
  {
    if tierReviews == [] then 0
    else
      var k := Undone(tierReviews[..|tierReviews| - 1]);
      if k < |tierReviews| - 1 || tierReviews[k].status != Done then k else |tierReviews|
  }

  /** A pending multi-tier review, whatever was done to its tiers: some are needed, and the first not done is at hand. */
  ghost predicate Underway(review: Review) {
    && PlainReview(review) && Needed(review.tierReviews) > 0
    && review.tierReviews[Undone(review.tierReviews)].status == Active
  }

  lemma UndoneNeeded(tierReviews: seq<TierReview>)
    requires Needed(tierReviews) > 0
    ensures Undone(tierReviews) < Needed(tierReviews)
  {
  }

  /** Two lists of tier reviews that are done in the same places. */
  ghost predicate SameDone(a: seq<TierReview>, b: seq<TierReview>) {
    |a| == |b| && forall k :: 0 <= k < |a| ==> a[k].tier == b[k].tier && (a[k].status == Done <==> b[k].status == Done)
  }

  lemma NeededSame(a: seq<TierReview>, b: seq<TierReview>)
    requires SameDone(a, b)
    ensures Needed(a) == Needed(b) && Undone(a) == Undone(b)
  {
  }

  lemma IncompleteNeeded(review: Review)
    requires PlainReview(review)
    ensures BlockingIncomplete(review) <==> Needed(review.tierReviews) > 0
  {
    var needed := Needed(review.tierReviews);
    if needed > 0 {
      assert review.tierReviews[needed - 1] in review.tierReviews;
    }
  }

  lemma {:induction false} ActivateCompletes(review: Review)
    requires PlainReview(review)
    ensures ActivateNext(review).status == if Needed(review.tierReviews) == 0 then Accepted else review.status
    decreases WaitingTiers(review.tierReviews)
  {
    var next := FirstWith(review.tierReviews, Waiting);
    if next.None? {
      IncompleteNeeded(review);
    } else if !review.tierReviews[next.value].tier.blocking {
      var activated := SetStatus(review, next.value, Active);
      assert WaitingTiers(activated.tierReviews) == WaitingTiers(review.tierReviews) - {next.value};
      NeededSame(review.tierReviews, activated.tierReviews);
      ActivateCompletes(activated);
    }
  }

  /** Activation completes a plain review exactly when no blocking tier is left, and else leaves it under way. */
  lemma ActivatePlain(review: Review)
    requires PlainReview(review)
    ensures var after := ActivateNext(review);
      && PlainReview(after) && SameDone(review.tierReviews, after.tierReviews)
      && (after.status == if Needed(review.tierReviews) == 0 then Accepted else review.status)
      && (Needed(review.tierReviews) > 0 ==> Underway(after))
  {
    var after := ActivateNext(review);
    ActivateProgress(review);
    ActivateCompletes(review);
    forall k | 0 <= k < |review.tierReviews|
      ensures PlainTier(after.tierReviews[k], review.definition.tiers[k])
      ensures after.tierReviews[k].tier == review.tierReviews[k].tier
      ensures after.tierReviews[k].status == Done <==> review.tierReviews[k].status == Done
    {
      assert PlainTier(review.tierReviews[k], review.definition.tiers[k]);
      assert Progress(review.tierReviews[k], after.tierReviews[k]);
    }
    NeededSame(review.tierReviews, after.tierReviews);
    if Needed(review.tierReviews) > 0 {
      var u := Undone(review.tierReviews);
      assert PlainTier(review.tierReviews[u], review.definition.tiers[u]);
      assert review.tierReviews[u].status == Waiting ==> WaitsFirst(review.tierReviews, u);
      assert Progress(review.tierReviews[u], after.tierReviews[u]);
    }
  }

  /** Of the tiers' approvals one has one more user. */
  ghost predicate VotesKept(before: Review, after: Review, k: nat, user: User) {
    && |after.tierReviews| == |before.tierReviews| && after.definition == before.definition
    && forall j :: 0 <= j < |before.tierReviews| ==>
         && after.tierReviews[j].tier == before.tierReviews[j].tier
         && after.tierReviews[j].approvedBy == VotedBy(before.tierReviews[j], j == k, user)
  }

  function VotedBy(t: TierReview, now: bool, user: User): set<User> {
    if now then t.approvedBy + {user} else t.approvedBy
  }

  /** Done after an approval of tier `k` is what was done before, and `k` if that closed it. */
  ghost predicate DoneWith(before: seq<TierReview>, after: seq<TierReview>, k: nat, closed: bool) {
    |before| == |after|
    && forall j :: 0 <= j < |before| ==> (after[j].status == Done <==> before[j].status == Done || (closed && j == k))
  }

  /** The review once tier `k` is closed with some approvals. */
  function Closed(review: Review, k: nat, user: User): Review
    requires k < |review.tierReviews|
  {
    SetStatus(review.(tierReviews := review.tierReviews[k := WithVote(review.tierReviews[k], user)]), k, Done)
  }

  lemma ClosedPlain(review: Review, k: nat, user: User, approvers: set<User>)
    requires PlainReview(review) && k < |review.tierReviews| && review.tierReviews[k].status == Active
    requires Quorum(review.tierReviews[k].tier, approvers, review.tierReviews[k].approvedBy + {user})
    ensures PlainReview(Closed(review, k, user))
  {
    var closed := Closed(review, k, user);
    assert review.definition.tiers[k] in review.definition.tiers;
    forall j | 0 <= j < |closed.tierReviews|
      ensures PlainTier(closed.tierReviews[j], closed.definition.tiers[j])
    {
      assert PlainTier(review.tierReviews[j], review.definition.tiers[j]);
    }
  }

  /** What the approval of any tier at hand does to a plain review. */
  lemma TierApproved(review: Review, k: nat, user: User, approvers: set<User>)
    requires PlainReview(review) && ApproveTierAt(review, k, user, approvers).Ok?
    ensures k < |review.tierReviews|
    ensures var after := ApproveTierAt(review, k, user, approvers).value;
      var t := review.tierReviews[k];
      var closes := Quorum(t.tier, approvers, t.approvedBy + {user});
      && VotesKept(review, after, k, user) && PlainReview(after)
      && DoneWith(review.tierReviews, after.tierReviews, k, closes)
      && (closes ==> after.status == if Needed(after.tierReviews) == 0 then Accepted else review.status)
      && (closes && Needed(after.tierReviews) > 0 ==> Underway(after))
      && (!closes ==> after == review.(tierReviews := review.tierReviews[k := WithVote(t, user)]))
  {
    var t := review.tierReviews[k];
    if Quorum(t.tier, approvers, t.approvedBy + {user}) {
      var closed := Closed(review, k, user);
      ClosedPlain(review, k, user, approvers);
      ActivateProgress(closed);
      ActivatePlain(closed);
      NeededSame(closed.tierReviews, ActivateNext(closed).tierReviews);
    } else {
      VotePlain(review, k, user);
    }
  }

  lemma VotePlain(review: Review, k: nat, user: User)
    requires PlainReview(review) && k < |review.tierReviews| && review.tierReviews[k].status == Active
    ensures var after := review.(tierReviews := review.tierReviews[k := WithVote(review.tierReviews[k], user)]);
      PlainReview(after) && SameDone(review.tierReviews, after.tierReviews) && (Underway(review) ==> Underway(after))
  {
    var after := review.(tierReviews := review.tierReviews[k := WithVote(review.tierReviews[k], user)]);
    forall j | 0 <= j < |after.tierReviews|
      ensures PlainTier(after.tierReviews[j], after.definition.tiers[j])
    {
      assert PlainTier(review.tierReviews[j], review.definition.tiers[j]);
    }
    NeededSame(review.tierReviews, after.tierReviews);
  }

  lemma NoneNeeded(review: Review)
    requires PlainReview(review) && Needed(review.tierReviews) == 0
    ensures BlockingDone(review)
  {
    forall k | 0 <= k < |review.tierReviews| && review.definition.tiers[k].blocking
      ensures review.tierReviews[k].status == Done && HasApproval(review.tierReviews[k])
    {
      assert PlainTier(review.tierReviews[k], review.definition.tiers[k]);
    }
  }

  /** An approval of any tier at hand completes a review under way with all its blocking tiers, or leaves it under way. */
  lemma UnderwayVote(review: Review, k: nat, user: User, approvers: set<User>)
    requires Underway(review) && review.status == Open && ApproveTierAt(review, k, user, approvers).Ok?
    ensures var after := ApproveTierAt(review, k, user, approvers).value;
      if Needed(after.tierReviews) > 0 then after.status == Open && Underway(after)
      else after.status == Accepted && BlockingDone(after)
  {
    TierApproved(review, k, user, approvers);
    var t := review.tierReviews[k];
    var after := ApproveTierAt(review, k, user, approvers).value;
    if !Quorum(t.tier, approvers, t.approvedBy + {user}) {
      VotePlain(review, k, user);
    } else if Needed(after.tierReviews) == 0 {
      NoneNeeded(after);
    }
  }

  lemma UnderwayActivated(review: Review, k: nat)
    requires Underway(review) && k < |review.tierReviews| && review.tierReviews[k].status == Waiting
    ensures Underway(SetStatus(review, k, Active))
  {
    var after := SetStatus(review, k, Active);
    forall j | 0 <= j < |after.tierReviews|
      ensures PlainTier(after.tierReviews[j], after.definition.tiers[j])
    {
      assert PlainTier(review.tierReviews[j], review.definition.tiers[j]);
    }
    NeededSame(review.tierReviews, after.tierReviews);
  }

  lemma FirstPlain(definition: Definition)
    requires definition.multitier && ValidDefinition(definition) && Required(definition.tiers) > 0
    ensures var first := FirstActivated(definition);
      PlainReview(first) && Needed(first.tierReviews) == Required(definition.tiers) && Undone(first.tierReviews) == 0
  {
    var ts := FirstActivated(definition).tierReviews;
    var needed, required := Needed(ts), Required(definition.tiers);
    assert ts[required - 1].tier.blocking && ts[required - 1].status != Done;
    assert needed >= required && needed > 0 && definition.tiers[needed - 1].blocking;
    assert ts[0].status != Done;
  }

  lemma NewApprovals(definition: Definition)
    requires definition.multitier && ValidDefinition(definition)
    ensures |NewReview(definition).tierReviews| == |definition.tiers|
    ensures forall k :: 0 <= k < |definition.tiers| ==> NewReview(definition).tierReviews[k].approvedBy == {}
  {
    ActivateProgress(FirstActivated(definition));
  }

  /** A new review of a definition with a blocking tier is under way, and needs the tiers up to its last one. */
  lemma NewUnderway(definition: Definition)
    requires definition.multitier && ValidDefinition(definition) && Required(definition.tiers) > 0
    ensures var review := NewReview(definition);
      && review.status == Open && Underway(review) && Needed(review.tierReviews) == Required(definition.tiers)
      && Undone(review.tierReviews) == 0
  {
    var first := FirstActivated(definition);
    FirstPlain(definition);
    ActivatePlain(first);
    NeededSame(first.tierReviews, ActivateNext(first).tierReviews);
  }

  // ----- runs of all actions -----

  /** What an event that forges nothing leaves of a review: the tiers done, its being closed or under way. */
  ghost predicate Evolves(before: Review, after: Review) {
    && after.definition == before.definition && |after.tierReviews| == |before.tierReviews|
    && (forall k :: 0 <= k < |before.tierReviews| && before.tierReviews[k].status == Done ==>
          after.tierReviews[k] == before.tierReviews[k])
    && (before.status != Open ==> after.status != Open)
    && (Underway(before) && before.status == Open && after.status == Open ==> Underway(after))
  }

  lemma ApproveKeepsDone(review: Review, k: nat, user: User, approvers: set<User>)
    requires ApproveTierAt(review, k, user, approvers).Ok?
    ensures var after := ApproveTierAt(review, k, user, approvers).value;
      && after.definition == review.definition && |after.tierReviews| == |review.tierReviews|
      && (forall j :: 0 <= j < |review.tierReviews| && review.tierReviews[j].status == Done ==>
            after.tierReviews[j] == review.tierReviews[j])
      && (review.status != Open ==> after.status != Open)
  {
    ActivateProgress(Closed(review, k, user));
  }

  lemma ApproveEvolves(review: Review, k: nat, user: User, approvers: set<User>)
    requires ApproveTierAt(review, k, user, approvers).Ok?
    ensures Evolves(review, ApproveTierAt(review, k, user, approvers).value)
  {
    ApproveKeepsDone(review, k, user, approvers);
    if Underway(review) && review.status == Open {
      UnderwayVote(review, k, user, approvers);
    }
  }

  lemma ActivateEvolves(review: Review, k: nat)
    requires ActivateTierAt(review, k).Ok?
    ensures Evolves(review, ActivateTierAt(review, k).value)
  {
    if Underway(review) {
      UnderwayActivated(review, k);
    }
  }

  lemma CloseEvolves(review: Review, status: ReviewStatus)
    requires status != Open
    ensures Evolves(review, review.(status := status))
  {
  }

  /** The actions of reviews and of their tiers. */
  predicate OfReview(e: Event) {
    e.TierApproval? || e.TierRejection? || e.TierActivation? || e.CurrentTierApproval? || e.CurrentTierRejection? || e.ReviewClosing?
  }

  lemma ReviewEvolves(r: Record, e: Event, m: nat)
    requires OfReview(e) && m < |r.reviews|
    ensures |Step(r, e).reviews| == |r.reviews| && Evolves(r.reviews[m], Step(r, e).reviews[m])
  {
    if Next(r, e).Ok? {
      match e {
        case TierApproval(i, k, user, approvers) => ApproveEvolves(r.reviews[i], k, user, approvers);
        case CurrentTierApproval(i, user, approvers) =>
          if r.reviews[i].definition.multitier {
            ApproveEvolves(r.reviews[i], FirstWith(r.reviews[i].tierReviews, Active).value, user, approvers);
          }
        case TierActivation(i, k) => ActivateEvolves(r.reviews[i], k);
        case _ =>
      }
    }
  }

  lemma StepEvolves(r: Record, e: Event, m: nat)
    requires !Forges(e) && !e.Submission? && m < |r.reviews|
    ensures |Step(r, e).reviews| == |r.reviews| && Evolves(r.reviews[m], Step(r, e).reviews[m])
  {
    if OfReview(e) {
      ReviewEvolves(r, e, m);
    } else if e.Approval? && Next(r, e).Ok? {
      ApprovalEvolves(r, e.user, e.approvers, e.seen, m);
    }
  }

  lemma ApprovalEvolves(r: Record, user: User, approvers: set<User>, seen: nat, m: nat)
    requires Approve(r, user, approvers, seen).Ok? && m < |r.reviews|
    ensures var after := Approve(r, user, approvers, seen).value;
      |after.reviews| == |r.reviews| && Evolves(r.reviews[m], after.reviews[m])
  {
    var i := ActiveReview(r.reviews).value;
    var review := r.reviews[i];
    if review.definition.multitier {
      ApproveEvolves(review, FirstWith(review.tierReviews, Active).value, user, approvers);
    }
  }

  /** Every pending multi-tier review is under way. */
  ghost predicate Healthy(r: Record) {
    forall i :: 0 <= i < |r.reviews| && r.reviews[i].status == Open && r.reviews[i].definition.multitier ==>
      Underway(r.reviews[i])
  }

  lemma SubmissionHealthy(r: Record, e: Event)
    requires Healthy(r) && e.Submission? && ValidDefinition(e.definition) && Next(r, e).Ok?
    ensures Healthy(Step(r, e))
  {
    if e.definition.multitier {
      NewReviewStarts(e.definition);
      if Required(e.definition.tiers) > 0 {
        NewUnderway(e.definition);
      }
    }
  }

  lemma StepHealthy(r: Record, e: Event)
    requires Healthy(r) && !e.WriteReview? && (e.Submission? ==> ValidDefinition(e.definition))
    ensures Healthy(Step(r, e))
  {
    if e.Submission? && Next(r, e).Ok? {
      SubmissionHealthy(r, e);
    } else if !Forges(e) && !e.Submission? {
      forall m | 0 <= m < |r.reviews|
        ensures Evolves(r.reviews[m], Step(r, e).reviews[m]) && |Step(r, e).reviews| == |r.reviews|
      {
        StepEvolves(r, e, m);
      }
    }
  }

  /** Whatever is done to a record, its reviews and their tiers, a pending review stays one that can go on. */
  lemma {:induction false} RunHealthy(events: seq<Event>)
    requires forall e :: e in events ==> !e.WriteReview? && (e.Submission? ==> ValidDefinition(e.definition))
    ensures Healthy(Run(START, events))
  {
    if events != [] {
      RunHealthy(events[..|events| - 1]);
      StepHealthy(Run(START, events[..|events| - 1]), events[|events| - 1]);
    }
  }

  /** The newest review has had all its blocking tiers approved. */
  ghost predicate ApprovedThrough(r: Record) {
    r.reviews != [] && (r.reviews[0].definition.multitier ==> BlockingDone(r.reviews[0]))
  }

  /** Only the newest review is pending; and an approved record was approved through the newest one. */
  ghost predicate Sound(r: Record) {
    && Healthy(r)
    && (forall i :: 0 < i < |r.reviews| ==> r.reviews[i].status != Open)
    && (r.state == Approved ==> ApprovedThrough(r))
  }

  /** An approval that approves the record closed the active review, with all its blocking tiers. */
  lemma ApprovalCloses(r: Record, user: User, approvers: set<User>, seen: nat)
    requires Healthy(r) && Approve(r, user, approvers, seen).Ok? && Approve(r, user, approvers, seen).value.state == Approved
    ensures var i := ActiveReview(r.reviews).value;
      r.reviews[i].definition.multitier ==> BlockingDone(Approve(r, user, approvers, seen).value.reviews[i])
  {
    var i := ActiveReview(r.reviews).value;
    var review := r.reviews[i];
    if review.definition.multitier {
      var k := FirstWith(review.tierReviews, Active).value;
      UnderwayVote(review, k, user, approvers);
    }
  }

  lemma BlockingKept(before: Review, after: Review)
    requires Evolves(before, after) && BlockingDone(before)
    ensures BlockingDone(after)
  {
  }

  lemma StepSound(r: Record, e: Event)
    requires Sound(r) && !Forges(e)
    requires e.Submission? ==> ValidDefinition(e.definition) && ActiveReview(r.reviews).None?
    ensures Sound(Step(r, e))
  {
    StepHealthy(r, e);
    var after := Step(r, e);
    if !e.Submission? {
      forall m | 0 <= m < |r.reviews|
        ensures |after.reviews| == |r.reviews| && Evolves(r.reviews[m], after.reviews[m])
      {
        StepEvolves(r, e, m);
      }
      if after.state == Approved {
        if r.state == Approved {
          if r.reviews[0].definition.multitier {
            BlockingKept(r.reviews[0], after.reviews[0]);
          }
        } else {
          ApprovalCloses(r, e.user, e.approvers, e.seen);
        }
      }
    }
  }

  /** Nothing is forged, and no submission finds a review still pending. */
  ghost predicate Orderly(r: Record, events: seq<Event>) {
    events != [] ==>
      var init, e := events[..|events| - 1], events[|events| - 1];
      && Orderly(r, init) && !Forges(e)
      && (e.Submission? ==> ValidDefinition(e.definition) && ActiveReview(Run(r, init).reviews).None?)
  }

  /**
   * Approval through the tiers, for runs of all actions, those of reviews and tiers included: if
   * nothing is forged and no submission finds a review still pending, then an approved record has
   * had every blocking tier of its newest review approved.
   */
  lemma {:induction false} RunSound(r: Record, events: seq<Event>)
    requires Sound(r) && Orderly(r, events)
    ensures Sound(Run(r, events))
  {
    if events != [] {
      var init := events[..|events| - 1];
      RunSound(r, init);
      StepSound(Run(r, init), events[|events| - 1]);
    }
  }

  /** An approval was accepted after the last accepted submission. */
  predicate ApprovedSince(r: Record, events: seq<Event>) {
    events != []
    && var init, e := events[..|events| - 1], events[|events| - 1];
       if e.Submission? && Next(Run(r, init), e).Ok? then false
       else (e.Approval? && Next(Run(r, init), e).Ok?) || ApprovedSince(r, init)
  }

  /** Without direct approval and writes of the state, approved means approved since the last submission. */
  lemma {:induction false} ApprovedByApproval(r: Record, events: seq<Event>)
    requires r.state != Approved && forall e :: e in events ==> !e.Direct? && !e.WriteState?
    ensures Run(r, events).state == Approved ==> ApprovedSince(r, events)
  {
    if events != [] {
      ApprovedByApproval(r, events[..|events| - 1]);
    }
  }

  /** The two that are excepted approve at once: a write of the state in any state, direct approval when pending. */
  lemma ForgedApproval(r: Record)
    ensures Step(r, WriteState(Approved)) == r.(state := Approved)
    ensures Step(r, Direct(r.version)).state == Approved <==> r.state == Pending || r.state == Approved
  {
  }

  // ----- the order of tiers, whoever acts on them -----

  /** Every tier that must approve is blocking. */
  ghost predicate AllBlocking(tiers: seq<Tier>) {
    forall k :: 0 <= k < Required(tiers) ==> tiers[k].blocking
  }

  /** The required tiers done come before those not done. */
  ghost predicate InSequence(review: Review) {
    forall j, k | 0 <= j < k < Required(review.definition.tiers) && k < |review.tierReviews| ::
      review.tierReviews[k].status == Done ==> review.tierReviews[j].status == Done
  }

  predicate Ahead(status: TierStatus, refused: bool) {
    status == if refused then Skipped else Waiting
  }

  /** Of tiers that are all blocking: `done` are done, the next is at hand or was rejected, the others wait or are skipped. */
  ghost predicate Lined(review: Review, done: nat) {
    var ts, required := review.tierReviews, Required(review.definition.tiers);
    && |ts| == |review.definition.tiers| && done <= required
    && (forall k :: 0 <= k < |ts| ==> ts[k].tier == review.definition.tiers[k])
    && (forall k :: 0 <= k < done ==> ts[k].status == Done)
    && (done < required ==>
          && (ts[done].status == Active || ts[done].status == Refused)
          && forall k :: done < k < |ts| ==> Ahead(ts[k].status, ts[done].status == Refused))
  }

  lemma LinedApproved(review: Review, done: nat, k: nat, user: User, approvers: set<User>)
    requires AllBlocking(review.definition.tiers) && Lined(review, done) && ApproveTierAt(review, k, user, approvers).Ok?
    ensures exists d :: Lined(ApproveTierAt(review, k, user, approvers).value, d)
  {
    var t := review.tierReviews[k];
    var after := ApproveTierAt(review, k, user, approvers).value;
    if Quorum(t.tier, approvers, t.approvedBy + {user}) {
      var closed := Closed(review, k, user);
      LinedClosed(review, done, k, closed);
    } else {
      assert Lined(after, done);
    }
  }

  lemma LinedClosed(review: Review, done: nat, k: nat, closed: Review)
    requires AllBlocking(review.definition.tiers) && Lined(review, done)
    requires k < |review.tierReviews| && review.tierReviews[k].status == Active
    requires closed.definition == review.definition && |closed.tierReviews| == |review.tierReviews|
    requires closed.tierReviews[k].status == Done && closed.tierReviews[k].tier == review.tierReviews[k].tier
    requires forall j :: 0 <= j < |review.tierReviews| && j != k ==> closed.tierReviews[j] == review.tierReviews[j]
    ensures exists d :: Lined(ActivateNext(closed), d)
  {
    var required := Required(review.definition.tiers);
    var after := ActivateNext(closed);
    ActivateProgress(closed);
    if done + 1 < required {
      assert k == done;
      FirstIs(closed.tierReviews, Waiting, done + 1);
      assert review.definition.tiers[done + 1].blocking;
      assert after == SetStatus(closed, done + 1, Active);
      assert Lined(after, done + 1);
    } else {
      forall j | 0 <= j < |closed.tierReviews|
        ensures after.tierReviews[j].tier == review.definition.tiers[j]
        ensures j < required ==> after.tierReviews[j].status == Done
      {
        assert Progress(closed.tierReviews[j], after.tierReviews[j]);
      }
      assert Lined(after, required);
    }
  }

  lemma LinedRefused(review: Review, done: nat, k: nat)
    requires Lined(review, done) && k < |review.tierReviews| && review.tierReviews[k].status == Active
    ensures Lined(Refuse(review, k), done)
  {
    assert done < Required(review.definition.tiers) ==> k == done;
  }

  ghost predicate LinedUp(review: Review) {
    review.definition.multitier && AllBlocking(review.definition.tiers) ==> exists done :: Lined(review, done)
  }

  lemma ApproveLinedUp(review: Review, k: nat, user: User, approvers: set<User>)
    requires LinedUp(review) && ApproveTierAt(review, k, user, approvers).Ok?
    ensures LinedUp(ApproveTierAt(review, k, user, approvers).value)
  {
    ApproveKeepsDone(review, k, user, approvers);
    if review.definition.multitier && AllBlocking(review.definition.tiers) {
      var done :| Lined(review, done);
      LinedApproved(review, done, k, user, approvers);
    }
  }

  lemma RefuseLinedUp(review: Review, k: nat)
    requires LinedUp(review) && k < |review.tierReviews| && review.tierReviews[k].status == Active
    ensures LinedUp(Refuse(review, k))
  {
    if review.definition.multitier && AllBlocking(review.definition.tiers) {
      var done :| Lined(review, done);
      LinedRefused(review, done, k);
    }
  }

  lemma CloseLinedUp(review: Review, status: ReviewStatus)
    requires LinedUp(review)
    ensures LinedUp(review.(status := status))
  {
    if review.definition.multitier && AllBlocking(review.definition.tiers) {
      var done :| Lined(review, done);
      assert Lined(review.(status := status), done);
    }
  }

  lemma NewLinedUp(definition: Definition)
    requires ValidDefinition(definition)
    ensures LinedUp(NewReview(definition))
  {
    if definition.multitier && AllBlocking(definition.tiers) {
      NewReviewStarts(definition);
      if Required(definition.tiers) > 0 {
        FirstLined(definition);
      } else {
        assert Lined(NewReview(definition), 0);
      }
    }
  }

  lemma FirstLined(definition: Definition)
    requires definition.multitier && AllBlocking(definition.tiers) && Required(definition.tiers) > 0
    ensures NewReview(definition) == FirstActivated(definition) && Lined(FirstActivated(definition), 0)
  {
    assert definition.tiers[0].blocking;
  }

  /** No tier is started out of turn, and no review rewritten. */
  predicate Tame(e: Event) {
    !e.WriteReview? && !e.TierActivation?
  }

  lemma StepLinedUp(r: Record, e: Event, m: nat)
    requires Tame(e) && !e.Submission? && m < |r.reviews| && LinedUp(r.reviews[m])
    ensures |Step(r, e).reviews| == |r.reviews| && LinedUp(Step(r, e).reviews[m])
  {
    var review := r.reviews[m];
    CloseLinedUp(review, Accepted);
    CloseLinedUp(review, Denied);
    if Next(r, e).Ok? {
      var first := FirstWith(review.tierReviews, Active);
      match e {
        case Approval(user, approvers, _) => ApprovalLinedUp(r, user, approvers, e.seen, m);
        case TierApproval(i, k, user, approvers) => if i == m { ApproveLinedUp(review, k, user, approvers); }
        case CurrentTierApproval(i, user, approvers) =>
          if i == m && review.definition.multitier { ApproveLinedUp(review, first.value, user, approvers); }
        case TierRejection(i, k, _, _) => if i == m { RefuseLinedUp(review, k); }
        case CurrentTierRejection(i, _, _) => if i == m && review.definition.multitier { RefuseLinedUp(review, first.value); }
        case Rejection(_, _) =>
          if ActiveReview(r.reviews) == Some(m) && review.definition.multitier { RefuseLinedUp(review, first.value); }
        case _ =>
      }
    }
  }

  lemma ApprovalLinedUp(r: Record, user: User, approvers: set<User>, seen: nat, m: nat)
    requires Approve(r, user, approvers, seen).Ok? && m < |r.reviews| && LinedUp(r.reviews[m])
    ensures var after := Approve(r, user, approvers, seen).value;
      |after.reviews| == |r.reviews| && LinedUp(after.reviews[m])
  {
    var i := ActiveReview(r.reviews).value;
    var review := r.reviews[m];
    CloseLinedUp(review, Accepted);
    if i == m && review.definition.multitier {
      var k := FirstWith(review.tierReviews, Active).value;
      ApproveLinedUp(review, k, user, approvers);
      CloseLinedUp(ApproveTierAt(review, k, user, approvers).value, Accepted);
    }
  }

  /** A run of tame events, in which only valid definitions are submitted. */
  ghost predicate AllTame(events: seq<Event>) {
    forall e :: e in events ==> Tame(e) && (e.Submission? ==> ValidDefinition(e.definition))
  }

  lemma {:induction false} RunLinedUp(events: seq<Event>)
    requires AllTame(events)
    ensures forall i :: 0 <= i < |Run(START, events).reviews| ==> LinedUp(Run(START, events).reviews[i])
  {
    if events != [] {
      var init, e := events[..|events| - 1], events[|events| - 1];
      var r := Run(START, init);
      RunLinedUp(init);
      if e.Submission? {
        NewLinedUp(e.definition);
      } else {
        forall m | 0 <= m < |r.reviews|
          ensures |Step(r, e).reviews| == |r.reviews| && LinedUp(Step(r, e).reviews[m])
        {
          StepLinedUp(r, e, m);
        }
      }
    }
  }

  // ----- runs put together -----

  lemma {:induction false} RunAppend(r: Record, a: seq<Event>, b: seq<Event>)
    ensures Run(r, a + b) == Run(Run(r, a), b)
    decreases |b|
  {
    if b == [] {
      assert a + b == a;
    } else {
      RunAppend(r, a, b[..|b| - 1]);
      assert (a + b)[..|a + b| - 1] == a + b[..|b| - 1];
    }
  }

  lemma RunFirst(r: Record, e: Event, rest: seq<Event>)
    ensures Run(r, [e]) == Step(r, e) && Run(r, [e] + rest) == Run(Step(r, e), rest)
  {
    assert [e][..0] == [];
    assert Run(r, [e]) == Step(r, e);
    RunAppend(r, [e], rest);
  }

  function Upto(n: nat): (users: set<User>)
    ensures |users| == n && forall u: User :: u in users <==> u < n
  {
    if n == 0 then {} else Upto(n - 1) + {n - 1}
  }

  lemma Larger(a: set<User>, b: set<User>)
    requires a <= b
    ensures |a| <= |b|
  {
    assert b == a + (b - a);
  }

  lemma NewUser(users: set<User>) returns (user: User)
    ensures user !in users
  {
    var more := Upto(|users| + 1);
    if more <= users {
      Larger(more, users);
    }
    user :| user in more && user !in users;
  }

  /** Enough approvals of one tier at hand, made on the tier itself, close it. */
  lemma {:induction false} ClosesTier(r: Record, k: nat) returns (events: seq<Event>, last: Review, user: User)
    requires r.reviews != [] && k < |r.reviews[0].tierReviews| && r.reviews[0].tierReviews[k].status == Active
    ensures forall e :: e in events ==> e.TierApproval?
    ensures |last.tierReviews| == |r.reviews[0].tierReviews|
    ensures var review := r.reviews[0];
      && last == review.(tierReviews := review.tierReviews[k := review.tierReviews[k].(approvedBy := last.tierReviews[k].approvedBy)])
      && HasApproval(Closed(last, k, user).tierReviews[k])
    ensures Run(r, events) == r.(reviews := r.reviews[0 := ActivateNext(Closed(last, k, user))])
    decreases r.reviews[0].tierReviews[k].tier.minApprovers - |r.reviews[0].tierReviews[k].approvedBy|
  {
    var review := r.reviews[0];
    var t := review.tierReviews[k];
    user := NewUser(t.approvedBy);
    var e := TierApproval(0, k, user, {user});
    RunFirst(r, e, []);
    if Quorum(t.tier, {user}, t.approvedBy + {user}) {
      events, last := [e], review;
    } else {
      var rest: seq<Event>;
      rest, last, user := ClosesTier(Step(r, e), k);
      RunFirst(r, e, rest);
      events := [e] + rest;
    }
  }

  /** A record with one review, of a definition: `p` tiers are done. */
  ghost predicate Reached(r: Record, definition: Definition, p: nat, open: nat) {
    && r.state == Pending && |r.reviews| == 1 && r.reviews[0].definition == definition && r.reviews[0].status == Open
    && InOrder(r.reviews[0], p, open) && p < open && (open == |definition.tiers| || definition.tiers[open - 1].blocking)
  }

  lemma ReachedFirst(definition: Definition) returns (events: seq<Event>, open: nat)
    requires definition.multitier && ValidDefinition(definition) && Required(definition.tiers) > 0
    ensures AllTame(events) && Reached(Run(START, events), definition, 0, open)
  {
    var submission := Submission(definition, 0, {}, false);
    events := [submission];
    RunFirst(START, submission, []);
    var first := FirstActivated(definition);
    assert InOrder(first, 0, 1);
    if definition.tiers[0].blocking {
      open := 1;
    } else {
      ActivateInOrder(first, 0, 1);
      open := Stop(definition.tiers, 1);
    }
  }

  lemma LastInOrder(review: Review, last: Review, p: nat, open: nat, user: User)
    requires InOrder(review, p, open) && p < open && |last.tierReviews| == |review.tierReviews|
    requires last == review.(tierReviews := review.tierReviews[p := review.tierReviews[p].(approvedBy := last.tierReviews[p].approvedBy)])
    requires HasApproval(Closed(last, p, user).tierReviews[p])
    ensures InOrder(Closed(last, p, user), p + 1, open)
  {
    var closed := Closed(last, p, user);
    forall k | 0 <= k < |closed.tierReviews|
      ensures TierInOrder(closed.tierReviews[k], closed.definition.tiers[k], k, p + 1, open)
    {
      assert TierInOrder(review.tierReviews[k], review.definition.tiers[k], k, p, open);
    }
  }

  lemma ReachedNext(r: Record, definition: Definition, p: nat, open: nat) returns (events: seq<Event>, o: nat)
    requires Reached(r, definition, p, open) && p + 1 < Required(definition.tiers)
    ensures AllTame(events) && Reached(Run(r, events), definition, p + 1, o)
  {
    var last, user;
    events, last, user := ClosesTier(r, p);
    LastInOrder(r.reviews[0], last, p, open, user);
    var closed := Closed(last, p, user);
    ActivateInOrder(closed, p + 1, open);
    o := Stop(definition.tiers, open);
    assert Run(r, events).reviews == [ActivateNext(closed)];
  }

  lemma {:induction false} Reaches(definition: Definition, p: nat) returns (events: seq<Event>, open: nat)
    requires definition.multitier && ValidDefinition(definition) && p < Required(definition.tiers)
    ensures AllTame(events) && Reached(Run(START, events), definition, p, open)
  {
    if p == 0 {
      events, open := ReachedFirst(definition);
    } else {
      events, open := Reaches(definition, p - 1);
      var more, o := ReachedNext(Run(START, events), definition, p - 1, open);
      RunAppend(START, events, more);
      events, open := events + more, o;
    }
  }

  /** With two tiers at hand the second can be approved first. */
  lemma Overtakes(r: Record, j: nat, k: nat) returns (events: seq<Event>)
    requires r.reviews != [] && j < k < Required(r.reviews[0].definition.tiers) && k < |r.reviews[0].tierReviews|
    requires r.reviews[0].tierReviews[j].status == Active && r.reviews[0].tierReviews[k].status == Active
    ensures forall e :: e in events ==> e.TierApproval?
    ensures |Run(r, events).reviews| == |r.reviews| && Run(r, events).reviews[0].definition == r.reviews[0].definition
    ensures !InSequence(Run(r, events).reviews[0])
  {
    var last, user;
    events, last, user := ClosesTier(r, k);
    var closed := Closed(last, k, user);
    ActivateProgress(closed);
    var after := ActivateNext(closed);
    assert Progress(closed.tierReviews[j], after.tierReviews[j]) && Progress(closed.tierReviews[k], after.tierReviews[k]);
    assert after.tierReviews[k].status == Done && after.tierReviews[j].status == Active;
  }

  /**
   * The sequence of tiers, for runs of all actions of records, reviews and tiers except starting a
   * tier by hand: the required tiers of a definition are always done one after the other if and only
   * if they are all blocking. Otherwise a tier is at hand together with the non-blocking one before
   * it, and its approvers can approve it first.
   */
  lemma SequenceIff(definition: Definition)
    requires definition.multitier && ValidDefinition(definition)
    ensures AllBlocking(definition.tiers) <==>
        forall events, i | AllTame(events) && 0 <= i < |Run(START, events).reviews| ::
          Run(START, events).reviews[i].definition == definition ==> InSequence(Run(START, events).reviews[i])
  {
    if AllBlocking(definition.tiers) {
      forall events, i | AllTame(events) && 0 <= i < |Run(START, events).reviews| && Run(START, events).reviews[i].definition == definition
        ensures InSequence(Run(START, events).reviews[i])
      {
        RunLinedUp(events);
        var done :| Lined(Run(START, events).reviews[i], done);
      }
    } else {
      var p :| 0 <= p < Required(definition.tiers) && !definition.tiers[p].blocking;
      var events := OutOfSequence(definition, p);
    }
  }

  lemma OutOfSequence(definition: Definition, p: nat) returns (events: seq<Event>)
    requires definition.multitier && ValidDefinition(definition)
    requires p < Required(definition.tiers) && !definition.tiers[p].blocking
    ensures AllTame(events) && |Run(START, events).reviews| == 1 && Run(START, events).reviews[0].definition == definition
    ensures !InSequence(Run(START, events).reviews[0])
  {
    var open;
    events, open := Reaches(definition, p);
    var r := Run(START, events);
    assert r.reviews[0].tierReviews[p + 1].status == Active;
    var more := Overtakes(r, p, p + 1);
    RunAppend(START, events, more);
    events := events + more;
  }

  /** A tier started by hand, which asks for no approver, can be approved before the one ahead of it, blocking or not. */
  lemma StartedByHand(definition: Definition) returns (events: seq<Event>)
    requires definition.multitier && ValidDefinition(definition) && Required(definition.tiers) > 1 && AllBlocking(definition.tiers)
    ensures forall e :: e in events ==> e == Submission(definition, 0, {}, false) || e.TierActivation? || e.TierApproval?
    ensures |Run(START, events).reviews| == 1 && !InSequence(Run(START, events).reviews[0])
  {
    var submission, start := Submission(definition, 0, {}, false), TierActivation(0, 1);
    RunFirst(START, submission, [start]);
    var submitted := Step(START, submission);
    assert definition.tiers[0].blocking && submitted.reviews == [FirstActivated(definition)];
    RunFirst(submitted, start, []);
    var r := Step(submitted, start);
    var more := Overtakes(r, 0, 1);
    events := [submission] + [start] + more;
    RunAppend(START, [submission] + [start], more);
  }
}
