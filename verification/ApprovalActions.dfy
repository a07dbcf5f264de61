/**
 * What the actions of the approval workflow do, read off the record: when each is accepted, and what
 * becomes of every review and tier.
 */
module ApprovalActions {
  import opened Workflow = Approval
  import opened Wrappers

  // ----- tiers -----

  /** Activation starts the tier: it waits, and no blocking tier waits before it. */
  ghost predicate Starts(tierReviews: seq<TierReview>, k: nat)
    requires k < |tierReviews|
  {
    tierReviews[k].status == Waiting && forall j :: 0 <= j < k && tierReviews[j].status == Waiting ==> !tierReviews[j].tier.blocking
  }

  /** The blocking tiers are all approved or skipped. */
  ghost predicate Unblocked(tierReviews: seq<TierReview>) {
    forall k :: 0 <= k < |tierReviews| && tierReviews[k].tier.blocking ==>
      tierReviews[k].status == Done || tierReviews[k].status == Skipped
  }

  /** The review after activation: the tiers that start are pending, and it is approved if nothing blocks it. */
  ghost predicate Activated(review: Review, after: Review) {
    && after.definition == review.definition && |after.tierReviews| == |review.tierReviews|
    && (forall k :: 0 <= k < |review.tierReviews| ==>
          after.tierReviews[k]
          == if Starts(review.tierReviews, k) then review.tierReviews[k].(status := Active) else review.tierReviews[k])
    && after.status == if Unblocked(review.tierReviews) then Accepted else review.status
  }

  /** Activation starts exactly the waiting tiers up to the first blocking one, and completes exactly the reviews that nothing blocks. */
  lemma {:induction false} ActivationExact(review: Review)
    ensures Activated(review, ActivateNext(review))
    decreases WaitingTiers(review.tierReviews)
  {
    var next := FirstWith(review.tierReviews, Waiting);
    if next == None {
      assert BlockingIncomplete(review) <==> !Unblocked(review.tierReviews) by {
        if !Unblocked(review.tierReviews) {
          var k :| 0 <= k < |review.tierReviews| && review.tierReviews[k].tier.blocking
                   && review.tierReviews[k].status != Done && review.tierReviews[k].status != Skipped;
          assert review.tierReviews[k] in review.tierReviews;
        }
      }
    } else {
      var i := next.value;
      var activated := SetStatus(review, i, Active);
      assert WaitingTiers(activated.tierReviews) == WaitingTiers(review.tierReviews) - {i};
      if review.tierReviews[i].tier.blocking {
        assert !Unblocked(review.tierReviews);
      } else {
        ActivationExact(activated);
        OneStarted(review, i);
      }
    }
  }

  lemma OneStarted(review: Review, i: nat)
    requires FirstWith(review.tierReviews, Waiting) == Some(i) && !review.tierReviews[i].tier.blocking
    ensures var tiers := SetStatus(review, i, Active).tierReviews;
      && (forall k :: 0 <= k < |tiers| ==> (Starts(review.tierReviews, k) <==> k == i || Starts(tiers, k)))
      && (Unblocked(tiers) <==> Unblocked(review.tierReviews))
  {
    var tiers := SetStatus(review, i, Active).tierReviews;
    forall k | 0 <= k < |tiers|
      ensures Starts(review.tierReviews, k) <==> k == i || Starts(tiers, k)
    {
      if Starts(tiers, k) {
        forall j | 0 <= j < k && review.tierReviews[j].status == Waiting
          ensures !review.tierReviews[j].tier.blocking
        {
          if j != i {
            assert tiers[j] == review.tierReviews[j];
          }
        }
      }
    }
    if Unblocked(tiers) {
      forall k | 0 <= k < |tiers| && review.tierReviews[k].tier.blocking
        ensures review.tierReviews[k].status == Done || review.tierReviews[k].status == Skipped
      {
        assert tiers[k] == review.tierReviews[k];
      }
    }
  }

  /** The vote fills the tier: all who may approve it have, or as many as it asks for. */
  ghost predicate Fills(t: TierReview, user: User, approvers: set<User>) {
    if t.tier.requireAll then forall a :: a in approvers ==> a == user || a in t.approvedBy
    else |t.approvedBy + {user}| >= t.tier.minApprovers
  }

  /** The tiers with one more vote on the k-th, which is approved when that fills it. */
  ghost predicate Voted(review: Review, k: nat, user: User, approvers: set<User>, after: Review)
    requires k < |review.tierReviews|
  {
    var t := review.tierReviews[k];
    var vote := TierReview(t.tier, if Fills(t, user, approvers) then Done else t.status, t.approvedBy + {user});
    var voted := Review(review.definition, review.status, review.tierReviews[k := vote]);
    if Fills(t, user, approvers) then Activated(voted, after) else after == voted
  }

  /** Approval of a tier: accepted from one of its approvers who has not voted, while it is pending. */
  lemma TierApprovalMeaning(review: Review, k: nat, user: User, approvers: set<User>)
    ensures var result := ApproveTierAt(review, k, user, approvers);
      && (result.Ok? <==> k < |review.tierReviews| && review.tierReviews[k].status == Active && user in approvers
                          && user !in review.tierReviews[k].approvedBy)
      && (result.Ok? ==> Voted(review, k, user, approvers, result.value))
      && (result.Err? ==>
            result.error == if k >= |review.tierReviews| || review.tierReviews[k].status != Active then NoPendingTier
                            else if user !in approvers then NotAuthorized
                            else AlreadyApproved)
  {
    if ApproveTierAt(review, k, user, approvers).Ok? {
      var t := review.tierReviews[k];
      assert Fills(t, user, approvers) <==> Quorum(t.tier, approvers, t.approvedBy + {user});
      var approved := review.(tierReviews := review.tierReviews[k := WithVote(t, user)]);
      ActivationExact(SetStatus(approved, k, Done));
      assert SetStatus(approved, k, Done).tierReviews == review.tierReviews[k := TierReview(t.tier, Done, t.approvedBy + {user})];
    }
  }

  /** The review is rejected at the k-th tier: those that wait are skipped, the others stay. */
  ghost predicate RefusedAt(review: Review, k: nat, after: Review)
    requires k < |review.tierReviews|
  {
    && after.definition == review.definition && after.status == Denied && |after.tierReviews| == |review.tierReviews|
    && forall j :: 0 <= j < |review.tierReviews| ==>
         var t := review.tierReviews[j];
         after.tierReviews[j] == TierReview(t.tier, if j == k then Refused else if t.status == Waiting then Skipped else t.status, t.approvedBy)
  }

  /** Rejection of a tier, and its activation, which asks for no approver. */
  lemma TierRejectionMeaning(review: Review, k: nat, user: User, approvers: set<User>)
    ensures var result := RejectTierAt(review, k, user, approvers);
      && (result.Ok? <==> k < |review.tierReviews| && review.tierReviews[k].status == Active && user in approvers)
      && (result.Ok? ==> RefusedAt(review, k, result.value))
      && (result.Err? ==>
            result.error == if k >= |review.tierReviews| || review.tierReviews[k].status != Active then NoPendingTier
                            else NotAuthorized)
    ensures var result := ActivateTierAt(review, k);
      && (result.Ok? <==> k < |review.tierReviews| && review.tierReviews[k].status == Waiting)
      && (result.Ok? ==> result.value == review.(tierReviews := review.tierReviews[k := review.tierReviews[k].(status := Active)]))
      && (result.Err? ==> result.error == NoPendingTier)
  {
  }

  // ----- submission -----

  /**
   * The review a submission creates. Single-tier ones have no tiers; of the others a tier is pending
   * exactly if no blocking tier comes before it, and the review is approved at once if none is blocking.
   */
  ghost predicate Started(definition: Definition, review: Review) {
    && review.definition == definition
    && if !definition.multitier then review.status == Open && review.tierReviews == []
       else
         && |review.tierReviews| == |definition.tiers|
         && (forall k :: 0 <= k < |definition.tiers| ==>
               var first := forall j :: 0 <= j < k ==> !definition.tiers[j].blocking;
               review.tierReviews[k] == TierReview(definition.tiers[k], if first then Active else Waiting, {}))
         && (definition.tiers != [] ==>
               review.status == if exists t :: t in definition.tiers && t.blocking then Open else Accepted)
  }

  lemma NewReviewMeaning(definition: Definition)
    ensures Started(definition, NewReview(definition))
  {
    if definition.multitier && definition.tiers != [] {
      var tiers, first := definition.tiers, FirstActivated(definition);
      if tiers[0].blocking {
        assert tiers[0] in tiers;
      } else {
        ActivationExact(first);
        assert Unblocked(first.tierReviews) <==> forall t :: t in tiers ==> !t.blocking by {
          forall t | t in tiers && Unblocked(first.tierReviews)
            ensures !t.blocking
          {
            var k :| 0 <= k < |tiers| && tiers[k] == t;
            assert first.tierReviews[k].tier == t;
          }
        }
        forall k | 0 < k < |tiers|
          ensures Starts(first.tierReviews, k) <==> forall j :: 0 <= j < k ==> !tiers[j].blocking
        {
          if Starts(first.tierReviews, k) {
            forall j | 0 <= j < k
              ensures !tiers[j].blocking
            {
              assert first.tierReviews[j].tier == tiers[j];
            }
          }
        }
      }
    }
  }

  /**
   * A submission is accepted exactly from draft or revision, outside a freeze the definition respects,
   * when the submitter is not to approve it automatically, and when no review under the same definition
   * is pending. It puts the new review in front of the others and nothing else.
   */
  lemma SubmissionMeaning(r: Record, definition: Definition, user: User, approvers: set<User>, frozen: bool)
    ensures var result := Submit(r, definition, user, approvers, frozen);
      && (result.Ok? <==>
            && (r.state == Draft || r.state == Revision)
            && !(definition.respectsFreeze && frozen)
            && !(definition.autoApprove && user in approvers)
            && forall i :: 0 <= i < |r.reviews| && r.reviews[i].status == Open ==> r.reviews[i].definition.id != definition.id)
      && (result.Ok? ==>
            var after := result.value;
            && after.state == Pending && after.version == r.version
            && |after.reviews| == |r.reviews| + 1 && after.reviews[1..] == r.reviews
            && Started(definition, after.reviews[0]))
  {
    NewReviewMeaning(definition);
  }

  // ----- decisions -----

  /** The newest review still pending. */
  ghost predicate Newest(reviews: seq<Review>, i: int) {
    0 <= i < |reviews| && reviews[i].status == Open && forall j :: 0 <= j < i ==> reviews[j].status != Open
  }

  lemma NewestIs(reviews: seq<Review>, i: nat)
    requires Newest(reviews, i)
    ensures ActiveReview(reviews) == Some(i)
  {
  }

  /** The first pending tier. */
  ghost predicate Current(review: Review, k: int) {
    0 <= k < |review.tierReviews| && review.tierReviews[k].status == Active
    && forall j :: 0 <= j < k ==> review.tierReviews[j].status != Active
  }

  /** Every pending review gets the status, its tiers as they were; the others stay as they were. */
  ghost predicate AllClosed(before: seq<Review>, after: seq<Review>, status: ReviewStatus) {
    && |after| == |before|
    && forall i :: 0 <= i < |before| ==>
         after[i] == if before[i].status == Open then Review(before[i].definition, status, before[i].tierReviews) else before[i]
  }

  /** Approval without tiers: of a pending record at the version seen. Every pending review is accepted with it. */
  lemma DirectApprovalMeaning(r: Record, seen: nat)
    ensures var result := ApproveDirectly(r, seen);
      && (result.Ok? <==> r.state == Pending && r.version == seen)
      && (result.Ok? ==>
            && result.value.state == Approved && result.value.version == r.version + 1
            && AllClosed(r.reviews, result.value.reviews, Accepted))
  {
  }

  /** Approval of the record under a single-tier review: by an approver, at the version seen. */
  lemma SingleTierApproval(r: Record, i: nat, user: User, approvers: set<User>, seen: nat)
    requires Newest(r.reviews, i) && !r.reviews[i].definition.multitier
    ensures var result := Approve(r, user, approvers, seen);
      && (result.Ok? <==> r.state == Pending && user in approvers && seen == r.version)
      && (result.Ok? ==>
            && result.value.state == Approved && result.value.version == r.version + 1
            && AllClosed(r.reviews, result.value.reviews, Accepted))
  {
    NewestIs(r.reviews, i);
  }

  /**
   * Approval of the record under a multi-tier review: a vote on its first pending tier, by an approver
   * who has not voted there. A vote that completes the review approves the record, at the version seen;
   * any other leaves it pending and touches no other review.
   */
  lemma MultiTierApproval(r: Record, i: nat, k: nat, user: User, approvers: set<User>, seen: nat) returns (voted: Review)
    requires Newest(r.reviews, i) && r.reviews[i].definition.multitier && Current(r.reviews[i], k)
    ensures user in approvers - r.reviews[i].tierReviews[k].approvedBy ==> Voted(r.reviews[i], k, user, approvers, voted)
    ensures var result := Approve(r, user, approvers, seen);
      && (result.Ok? <==>
            && r.state == Pending && user in approvers && user !in r.reviews[i].tierReviews[k].approvedBy
            && (voted.status == Accepted ==> seen == r.version))
      && (result.Ok? && voted.status == Accepted ==>
            && result.value.state == Approved && result.value.version == r.version + 1
            && AllClosed(r.reviews[i := voted], result.value.reviews, Accepted))
      && (result.Ok? && voted.status != Accepted ==> result.value == Record(Pending, r.version, r.reviews[i := voted]))
  {
    NewestIs(r.reviews, i);
    FirstIs(r.reviews[i].tierReviews, Active, k);
    TierApprovalMeaning(r.reviews[i], k, user, approvers);
    voted := if ApproveTierAt(r.reviews[i], k, user, approvers).Ok? then ApproveTierAt(r.reviews[i], k, user, approvers).value
             else r.reviews[i];
  }

  /** No approval without a pending review, nor of a multi-tier one without a pending tier. */
  lemma NothingToApprove(r: Record, user: User, approvers: set<User>, seen: nat)
    requires r.state == Pending
    ensures (forall i :: !Newest(r.reviews, i)) ==> Approve(r, user, approvers, seen) == Err(Inconsistent)
    ensures forall i :: Newest(r.reviews, i) && r.reviews[i].definition.multitier && (forall k :: !Current(r.reviews[i], k)) ==>
        Approve(r, user, approvers, seen) == Err(NotAuthorized)
  {
    var active := ActiveReview(r.reviews);
    if active.Some? {
      assert Newest(r.reviews, active.value);
    }
    forall i | Newest(r.reviews, i) && r.reviews[i].definition.multitier && (forall k :: !Current(r.reviews[i], k))
      ensures Approve(r, user, approvers, seen) == Err(NotAuthorized)
    {
      NewestIs(r.reviews, i);
      var first := FirstWith(r.reviews[i].tierReviews, Active);
      if first.Some? {
        assert Current(r.reviews[i], first.value);
      }
    }
  }

  /**
   * A rejection looks at no state. Under a multi-tier review it rejects the first pending tier, by one
   * of its approvers; without one, or under a single-tier review, it changes the state only.
   */
  lemma RejectionMeaning(r: Record, i: nat, k: nat, user: User, approvers: set<User>)
    ensures (forall j :: !Newest(r.reviews, j)) ==> Reject(r, user, approvers) == Ok(r.(state := Rejected))
    ensures Newest(r.reviews, i) && !r.reviews[i].definition.multitier ==> Reject(r, user, approvers) == Ok(r.(state := Rejected))
    ensures Newest(r.reviews, i) && r.reviews[i].definition.multitier && Current(r.reviews[i], k) ==>
        var result := Reject(r, user, approvers);
        && (result.Ok? <==> user in approvers)
        && (result.Ok? ==>
              && result.value.state == Rejected && result.value.version == r.version
              && |result.value.reviews| == |r.reviews| && RefusedAt(r.reviews[i], k, result.value.reviews[i])
              && forall j :: 0 <= j < |r.reviews| && j != i ==> result.value.reviews[j] == r.reviews[j])
    ensures Newest(r.reviews, i) && r.reviews[i].definition.multitier && (forall j :: !Current(r.reviews[i], j)) ==>
        Reject(r, user, approvers) == Err(NoPendingTier)
  {
    var active := ActiveReview(r.reviews);
    if active.Some? {
      assert Newest(r.reviews, active.value);
    }
    if Newest(r.reviews, i) {
      NewestIs(r.reviews, i);
      if Current(r.reviews[i], k) {
        FirstIs(r.reviews[i].tierReviews, Active, k);
        TierRejectionMeaning(r.reviews[i], k, user, approvers);
      }
      var first := FirstWith(r.reviews[i].tierReviews, Active);
      if first.Some? {
        assert Current(r.reviews[i], first.value);
      }
    }
  }

  /**
   * A revision is requested of a pending record by someone who may act on its newest pending review.
   * Every pending review is then denied with its tiers as they were, the others and the version stay,
   * and none is pending any more.
   */
  lemma RevisionMeaning(r: Record, user: User, approvers: set<User>)
    ensures var result := RequestRevision(r, user, approvers);
      && (result.Ok? <==>
            && r.state == Pending && user in approvers
            && exists i :: Newest(r.reviews, i) && (r.reviews[i].definition.multitier ==> exists k :: Current(r.reviews[i], k)))
      && (result.Ok? ==>
            && result.value.state == Revision && result.value.version == r.version
            && AllClosed(r.reviews, result.value.reviews, Denied)
            && forall i :: 0 <= i < |r.reviews| ==> result.value.reviews[i].status != Open)
  {
    var active := ActiveReview(r.reviews);
    if active.Some? {
      var i := active.value;
      assert Newest(r.reviews, i);
      var first := FirstWith(r.reviews[i].tierReviews, Active);
      if first.Some? {
        assert Current(r.reviews[i], first.value);
      }
      assert first.Some? <==> exists k :: Current(r.reviews[i], k);
      forall j | Newest(r.reviews, j)
        ensures j == i
      {
        NewestIs(r.reviews, j);
      }
    }
  }

  /** After a revision request the record can be submitted again, under any definition that neither freezes nor auto-approves it. */
  lemma ResubmitAfterRevision(r: Record, asker: User, askers: set<User>, definition: Definition, user: User, approvers: set<User>,
                              frozen: bool)
    requires RequestRevision(r, asker, askers).Ok?
    ensures Submit(RequestRevision(r, asker, askers).value, definition, user, approvers, frozen).Ok? <==>
        !(definition.respectsFreeze && frozen) && !(definition.autoApprove && user in approvers)
  {
    RevisionMeaning(r, asker, askers);
    SubmissionMeaning(RequestRevision(r, asker, askers).value, definition, user, approvers, frozen);
  }

  /** Only rejected records, and those whose revision was requested, can be reset; it changes the state only. */
  lemma ResetMeaning(r: Record)
    ensures Reset(r).Ok? <==> r.state == Rejected || r.state == Revision
    ensures Reset(r).Ok? ==> Reset(r).value == r.(state := Draft)
  {
  }

  /** Why a submission is refused, in this order: the state, a freeze, the automatic approval, a pending review. */
  lemma SubmissionRefused(r: Record, definition: Definition, user: User, approvers: set<User>, frozen: bool)
    requires Submit(r, definition, user, approvers, frozen).Err?
    ensures Submit(r, definition, user, approvers, frozen).error ==
        if !(r.state == Draft || r.state == Revision) then NotAllowed
        else if definition.respectsFreeze && frozen then Frozen
        else if definition.autoApprove && user in approvers then ModifiedMeanwhile
        else DuplicatePending
  {
  }

  /** Why an approval, a revision request or a reset is refused: for its state first, then for the user, then for the version. */
  lemma DecisionRefused(r: Record, user: User, approvers: set<User>, seen: nat)
    ensures r.state != Pending ==>
        Approve(r, user, approvers, seen) == Err(NotAllowed) && RequestRevision(r, user, approvers) == Err(NotAllowed)
    ensures r.state == Pending && user !in approvers ==>
        && Approve(r, user, approvers, seen) in {Err(NotAuthorized), Err(Inconsistent)}
        && RequestRevision(r, user, approvers) == Err(NotAuthorized)
    ensures r.state == Pending && RequestRevision(r, user, approvers).Err? ==> RequestRevision(r, user, approvers) == Err(NotAuthorized)
    ensures ApproveDirectly(r, seen).Err? ==> ApproveDirectly(r, seen) == Err(ModifiedMeanwhile)
    ensures Reset(r).Err? ==> Reset(r) == Err(NotAllowed)
  {
  }

  // ----- reviews and tiers, acted on directly -----

  /** The record after an action on one review: that review changes, and nothing else, not even the record's state. */
  ghost predicate OnlyReview(r: Record, i: nat, result: Result<Record, Error>, review: Review) {
    && i < |r.reviews| && result.Ok? && |result.value.reviews| == |r.reviews|
    && result.value.state == r.state && result.value.version == r.version && result.value.reviews[i] == review
    && forall j :: 0 <= j < |r.reviews| && j != i ==> result.value.reviews[j] == r.reviews[j]
  }

  /** What the public actions of a review, and of its tiers, do to the record. */
  lemma ReviewActionsMeaning(r: Record, i: nat, k: nat, user: User, approvers: set<User>, status: ReviewStatus)
    ensures if i < |r.reviews| then OnlyReview(r, i, ReviewClose(r, i, status), r.reviews[i].(status := status)) else ReviewClose(r, i, status).Err?
    ensures i >= |r.reviews| ==>
        && TierApprove(r, i, k, user, approvers).Err? && TierReject(r, i, k, user, approvers).Err? && TierActivate(r, i, k).Err?
        && ReviewApproveTier(r, i, user, approvers).Err? && ReviewRejectTier(r, i, user, approvers).Err?
    ensures i < |r.reviews| ==>
        var review := r.reviews[i];
        && (match ApproveTierAt(review, k, user, approvers)
            case Ok(after) => OnlyReview(r, i, TierApprove(r, i, k, user, approvers), after)
            case Err(e) => TierApprove(r, i, k, user, approvers) == Err(e))
        && (match RejectTierAt(review, k, user, approvers)
            case Ok(after) => OnlyReview(r, i, TierReject(r, i, k, user, approvers), after)
            case Err(e) => TierReject(r, i, k, user, approvers) == Err(e))
        && (match ActivateTierAt(review, k)
            case Ok(after) => OnlyReview(r, i, TierActivate(r, i, k), after)
            case Err(e) => TierActivate(r, i, k) == Err(e))
        && (!review.definition.multitier ==>
              && OnlyReview(r, i, ReviewApproveTier(r, i, user, approvers), review.(status := Accepted))
              && OnlyReview(r, i, ReviewRejectTier(r, i, user, approvers), review.(status := Denied)))
        && (review.definition.multitier && Current(review, k) ==>
              && ReviewApproveTier(r, i, user, approvers) == TierApprove(r, i, k, user, approvers)
              && ReviewRejectTier(r, i, user, approvers) == TierReject(r, i, k, user, approvers))
  {
    if i < |r.reviews| && Current(r.reviews[i], k) {
      FirstIs(r.reviews[i].tierReviews, Active, k);
    }
  }

  // ----- freeze periods -----

  /** A freeze leaves a record alone when it is cancelled, over or still to come, of another company, or for other models. */
  lemma FreezeMeaning(freeze: Freeze, now: int, model: string, company: Option<nat>)
    ensures !Covers(freeze, now, model, company) <==>
      || freeze.cancelled
      || now < freeze.start || freeze.end < now
      || (exists mine, theirs :: company == Some(mine) && freeze.company == Some(theirs) && mine != theirs)
      || (freeze.models != {} && model !in freeze.models)
  {
  }
}
