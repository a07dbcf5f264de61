/**
 * When a record can be approved: by votes of the staff of its tiers, after actions on the tiers
 * themselves, through an older review, and inside freeze periods; and how often one version is.
 */
module ApprovalVotes {
  import opened Workflow = Approval
  import opened ApprovalRuns
  import opened Wrappers

  // ----- when a record can be approved -----

  /** The tier can still be closed by its staff: someone has not approved yet, and they are enough together. */
  predicate Enough(t: TierReview, staff: set<User>) {
    staff - t.approvedBy != {} && (!t.tier.requireAll ==> |t.approvedBy + staff| >= t.tier.minApprovers)
  }

  /** An approval by one user of the version at hand; those who may act are the staff of the tier at hand. */
  function Vote(r: Record, staff: seq<set<User>>, user: User): Event {
    Approval(user, StaffNow(r, staff), r.version)
  }

  function StaffNow(r: Record, staff: seq<set<User>>): set<User> {
    match ActiveReview(r.reviews)
    case None => {}
    case Some(i) =>
      var k := if !r.reviews[i].definition.multitier then Some(0) else FirstWith(r.reviews[i].tierReviews, Active);
      if k.Some? && k.value < |staff| then staff[k.value] else {}
  }

  /** The record after the users have acted, one after the other. */
  function Voted(r: Record, staff: seq<set<User>>, users: seq<User>): Record
    decreases |users|
  {
    if users == [] then r else Voted(Step(r, Vote(r, staff, users[0])), staff, users[1..])
  }

  /** A pending record in the middle of its tiers: `i` is its review, `k` its first tier not done. */
  ghost predicate Midway(r: Record, i: nat, k: nat) {
    && r.state == Pending && ActiveReview(r.reviews) == Some(i) && r.reviews[i].definition.multitier
    && Underway(r.reviews[i]) && k == Undone(r.reviews[i].tierReviews)
  }

  /** The record's own approval acts on the first tier not done. */
  lemma AtHand(review: Review)
    requires Underway(review)
    ensures Undone(review.tierReviews) < Needed(review.tierReviews)
    ensures FirstWith(review.tierReviews, Active) == Some(Undone(review.tierReviews))
  {
    FirstIs(review.tierReviews, Active, Undone(review.tierReviews));
  }

  lemma UndoneMoves(before: seq<TierReview>, after: seq<TierReview>, k: nat)
    requires k == Undone(before) < |before| && DoneWith(before, after, k, true)
    ensures Undone(after) > k
  {
  }

  /** What a vote does to a record midway: nothing, one more approval, a later tier, or the end. */
  lemma VoteStep(r: Record, i: nat, k: nat, staff: seq<set<User>>, user: User)
    requires Midway(r, i, k) && |staff| == |r.reviews[i].tierReviews|
    ensures k < Needed(r.reviews[i].tierReviews)
    ensures var review, after := r.reviews[i], Step(r, Vote(r, staff, user));
      var t := review.tierReviews[k];
      var closes := Quorum(t.tier, staff[k], t.approvedBy + {user});
      if user !in staff[k] - t.approvedBy then after == r
      else
        && |after.reviews| == |r.reviews|
        && VotesKept(review, after.reviews[i], k, user)
        && DoneWith(review.tierReviews, after.reviews[i].tierReviews, k, closes)
        && if Needed(after.reviews[i].tierReviews) == 0 then after.state == Approved
           else Midway(after, i, Undone(after.reviews[i].tierReviews)) && (closes ==> Undone(after.reviews[i].tierReviews) > k)
  {
    var review := r.reviews[i];
    AtHand(review);
    if user in staff[k] - review.tierReviews[k].approvedBy {
      assert StaffNow(r, staff) == staff[k];
      var t := review.tierReviews[k];
      TierApproved(review, k, user, staff[k]);
      UnderwayVote(review, k, user, staff[k]);
      var voted := ApproveTierAt(review, k, user, staff[k]).value;
      VoteRecord(r, i, k, user, staff[k]);
      if Quorum(t.tier, staff[k], t.approvedBy + {user}) {
        UndoneMoves(review.tierReviews, voted.tierReviews, k);
      }
      if voted.status == Open {
        StillActive(r.reviews, i, voted);
      }
    }
  }

  /** What an approval of the tier at hand makes of the record. */
  lemma VoteRecord(r: Record, i: nat, k: nat, user: User, approvers: set<User>)
    requires r.state == Pending && ActiveReview(r.reviews) == Some(i) && r.reviews[i].definition.multitier
    requires FirstWith(r.reviews[i].tierReviews, Active) == Some(k) && ApproveTierAt(r.reviews[i], k, user, approvers).Ok?
    ensures var voted, after := ApproveTierAt(r.reviews[i], k, user, approvers).value, Step(r, Approval(user, approvers, r.version));
      if voted.status != Accepted then after == r.(reviews := r.reviews[i := voted])
      else
        && after.state == Approved && |after.reviews| == |r.reviews|
        && after.reviews[i].tierReviews == voted.tierReviews && after.reviews[i].definition == voted.definition
  {
  }

  lemma {:induction false} StillActive(reviews: seq<Review>, i: nat, after: Review)
    requires ActiveReview(reviews) == Some(i) && after.status == Open
    ensures ActiveReview(reviews[i := after]) == Some(i)
  {
    var active := ActiveReview(reviews[i := after]);
    assert reviews[i := after][i].status == Open;
  }

  /** Every tier not done, up to the last blocking one, has staff enough. */
  ghost predicate Completable(review: Review, staff: seq<set<User>>) {
    && |staff| == |review.tierReviews|
    && forall k :: 0 <= k < Needed(review.tierReviews) && review.tierReviews[k].status != Done ==> Enough(review.tierReviews[k], staff[k])
  }

  lemma NeededFewer(before: seq<TierReview>, after: seq<TierReview>, k: nat, closed: bool)
    requires DoneWith(before, after, k, closed) && k < |before|
    requires forall j :: 0 <= j < |before| ==> after[j].tier == before[j].tier
    ensures Needed(after) <= Needed(before) && (k + 1 < Needed(before) || !closed ==> Needed(after) == Needed(before))
  {
    if Needed(after) > 0 {
      assert after[Needed(after) - 1].status != Done;
      assert before[Needed(after) - 1].status != Done;
    }
    if Needed(before) > 0 && (k + 1 < Needed(before) || !closed) {
      assert after[Needed(before) - 1].status == Done <==> before[Needed(before) - 1].status == Done || (closed && Needed(before) - 1 == k);
    }
  }

  lemma AllVoted(approvedBy: set<User>, staff: set<User>, user: User)
    ensures user in staff && staff <= approvedBy + {user} ==> approvedBy + staff == approvedBy + {user}
  {
  }

  lemma StillEnough(t: TierReview, staff: set<User>, user: User)
    requires Enough(t, staff) && user in staff - t.approvedBy && !Quorum(t.tier, staff, t.approvedBy + {user})
    ensures Enough(WithVote(t, user), staff)
  {
    AllVoted(t.approvedBy, staff, user);
    assert t.approvedBy + {user} + staff == t.approvedBy + staff;
    assert staff - (t.approvedBy + {user}) == {} <==> staff <= t.approvedBy + {user};
  }

  lemma NeverEnough(t: TierReview, staff: set<User>, user: User)
    requires !Enough(t, staff) && user in staff - t.approvedBy
    ensures !Quorum(t.tier, staff, t.approvedBy + {user}) && !Enough(WithVote(t, user), staff)
  {
    assert t.approvedBy + staff == t.approvedBy + {user} + staff;
    Larger(t.approvedBy + {user}, t.approvedBy + staff);
  }

  lemma EnoughByVotes(t: TierReview, after: TierReview, staff: set<User>)
    requires after.tier == t.tier && after.approvedBy == t.approvedBy
    ensures Enough(after, staff) == Enough(t, staff)
  {
  }

  lemma VotedFirst(r: Record, staff: seq<set<User>>, user: User, rest: seq<User>)
    ensures Voted(r, staff, [user] + rest) == Voted(Step(r, Vote(r, staff, user)), staff, rest)
  {
    assert ([user] + rest)[1..] == rest;
  }

  lemma FewerLeft(staff: set<User>, approvedBy: set<User>, user: User)
    requires user in staff - approvedBy
    ensures |staff - (approvedBy + {user})| < |staff - approvedBy|
  {
    assert staff - approvedBy == staff - (approvedBy + {user}) + {user};
  }

  lemma CompletableAfter(before: Review, after: Review, staff: seq<set<User>>, k: nat, user: User, closed: bool)
    requires Completable(before, staff) && VotesKept(before, after, k, user) && k < |staff|
    requires DoneWith(before.tierReviews, after.tierReviews, k, closed)
    requires !closed ==> Enough(WithVote(before.tierReviews[k], user), staff[k])
    ensures Completable(after, staff)
  {
    NeededFewer(before.tierReviews, after.tierReviews, k, closed);
    forall j | 0 <= j < Needed(after.tierReviews) && after.tierReviews[j].status != Done
      ensures Enough(after.tierReviews[j], staff[j])
    {
      assert before.tierReviews[j].status != Done;
      EnoughByVotes(if j == k then WithVote(before.tierReviews[k], user) else before.tierReviews[j], after.tierReviews[j], staff[j]);
    }
  }

  /** A vote of a user still to vote leaves staff enough, and one vote or one tier less to go. */
  lemma CompletesStep(r: Record, i: nat, k: nat, staff: seq<set<User>>, user: User) returns (next: nat)
    requires Midway(r, i, k) && Completable(r.reviews[i], staff) && k < |staff|
    requires user in staff[k] - r.reviews[i].tierReviews[k].approvedBy
    ensures var after := Step(r, Vote(r, staff, user));
      || after.state == Approved
      || (&& Midway(after, i, next) && Completable(after.reviews[i], staff)
          && (next > k || (next == k && |staff[k] - after.reviews[i].tierReviews[k].approvedBy|
                                        < |staff[k] - r.reviews[i].tierReviews[k].approvedBy|)))
  {
    var review := r.reviews[i];
    var t := review.tierReviews[k];
    var after := Step(r, Vote(r, staff, user));
    VoteStep(r, i, k, staff, user);
    AtHand(review);
    var closes := Quorum(t.tier, staff[k], t.approvedBy + {user});
    next := Undone(after.reviews[i].tierReviews);
    if after.state != Approved {
      if !closes {
        StillEnough(t, staff[k], user);
        FewerLeft(staff[k], t.approvedBy, user);
        SameUndone(review.tierReviews, after.reviews[i].tierReviews, k);
      }
      CompletableAfter(review, after.reviews[i], staff, k, user, closes);
    }
  }

  lemma SameUndone(before: seq<TierReview>, after: seq<TierReview>, k: nat)
    requires DoneWith(before, after, k, false)
    ensures Undone(before) == Undone(after)
  {
  }

  /** With staff enough some sequence of votes approves the record. */
  lemma {:induction false} Completes(r: Record, i: nat, k: nat, staff: seq<set<User>>) returns (users: seq<User>)
    requires Midway(r, i, k) && Completable(r.reviews[i], staff)
    ensures Voted(r, staff, users).state == Approved
    decreases |staff| - k, if k < |staff| then |staff[k] - r.reviews[i].tierReviews[k].approvedBy| else 0
  {
    AtHand(r.reviews[i]);
    var user :| user in staff[k] - r.reviews[i].tierReviews[k].approvedBy;
    var after := Step(r, Vote(r, staff, user));
    var next := CompletesStep(r, i, k, staff, user);
    var rest := [];
    if after.state != Approved {
      AtHand(after.reviews[i]);
      rest := Completes(after, i, next, staff);
    }
    users := [user] + rest;
    VotedFirst(r, staff, user, rest);
  }

  /** A needed tier without staff enough. */
  ghost predicate Unstaffed(review: Review, staff: seq<set<User>>, j: nat) {
    && |staff| == |review.tierReviews| && j < Needed(review.tierReviews)
    && review.tierReviews[j].status != Done && !Enough(review.tierReviews[j], staff[j])
  }

  lemma UnstaffedStays(r: Record, i: nat, k: nat, staff: seq<set<User>>, user: User, j: nat)
    requires Midway(r, i, k) && Unstaffed(r.reviews[i], staff, j)
    ensures var after := Step(r, Vote(r, staff, user));
      after == r || (i < |after.reviews| && Midway(after, i, Undone(after.reviews[i].tierReviews)) && Unstaffed(after.reviews[i], staff, j))
  {
    var review := r.reviews[i];
    var after := Step(r, Vote(r, staff, user));
    VoteStep(r, i, k, staff, user);
    AtHand(review);
    if user in staff[k] - review.tierReviews[k].approvedBy {
      var t := review.tierReviews[k];
      if j == k {
        NeverEnough(t, staff[k], user);
      }
      var closes := Quorum(t.tier, staff[k], t.approvedBy + {user});
      NeededFewer(review.tierReviews, after.reviews[i].tierReviews, k, closes);
      EnoughByVotes(if j == k then WithVote(t, user) else review.tierReviews[j], after.reviews[i].tierReviews[j], staff[j]);
    }
  }

  /** It is never passed by votes. */
  lemma {:induction false} NeverCompletes(r: Record, i: nat, k: nat, staff: seq<set<User>>, users: seq<User>, j: nat)
    requires Midway(r, i, k) && Unstaffed(r.reviews[i], staff, j)
    ensures Voted(r, staff, users).state == Pending
    decreases |users|
  {
    if users != [] {
      var after := Step(r, Vote(r, staff, users[0]));
      UnstaffedStays(r, i, k, staff, users[0], j);
      NeverCompletes(after, i, Undone(after.reviews[i].tierReviews), staff, users[1..], j);
    }
  }

  /** Approvers enough for a tier no one has approved yet. */
  predicate StaffEnough(tier: Tier, staff: set<User>) {
    staff != {} && (!tier.requireAll ==> |staff| >= tier.minApprovers)
  }

  /** The staff suffices for a definition: it has a blocking tier, and every tier up to the last one has approvers enough. */
  ghost predicate Staffed(definition: Definition, staff: seq<set<User>>)
    requires |staff| == if definition.multitier then |definition.tiers| else 1
  {
    if !definition.multitier then staff[0] != {}
    else
      Required(definition.tiers) > 0
      && forall k :: 0 <= k < Required(definition.tiers) ==> StaffEnough(definition.tiers[k], staff[k])
  }

  lemma {:induction false} NothingToVote(r: Record, staff: seq<set<User>>, users: seq<User>)
    requires r.state == Pending && (ActiveReview(r.reviews).None? || StaffNow(r, staff) == {})
    ensures Voted(r, staff, users) == r
    decreases |users|
  {
    if users != [] {
      NothingToVote(r, staff, users[1..]);
    }
  }

  /**
   * When a submitted record can be approved: after a submission from a record with no pending
   * review, some sequence of approvals by the staff reaches Approved if and only if the definition
   * is single-tier with an approver, or has a blocking tier and enough approvers for every tier up
   * to the last blocking one.
   */
  lemma ApprovableIff(r: Record, definition: Definition, submitter: User, designated: set<User>, staff: seq<set<User>>)
    requires (r.state == Draft || r.state == Revision) && ValidDefinition(definition) && ActiveReview(r.reviews).None?
    requires !(definition.autoApprove && submitter in designated)
    requires |staff| == if definition.multitier then |definition.tiers| else 1
    ensures var submitted := Submit(r, definition, submitter, designated, false);
      submitted.Ok? && ((exists users :: Voted(submitted.value, staff, users).state == Approved) <==> Staffed(definition, staff))
  {
    var after := Submit(r, definition, submitter, designated, false).value;
    if !definition.multitier {
      SingleVote(after, staff);
    } else if Required(definition.tiers) > 0 {
      NewUnderway(definition);
      MidwayApprovable(after, 0, 0, staff);
      NewApprovals(definition);
      NothingDone(after.reviews[0]);
      FreshCompletable(after.reviews[0], staff);
    } else {
      NewReviewStarts(definition);
      NothingOpen(r.reviews, NewReview(definition));
      forall users ensures Voted(after, staff, users).state != Approved {
        NothingToVote(after, staff, users);
      }
    }
  }

  lemma FreshEnough(t: TierReview, staff: set<User>)
    requires t.approvedBy == {}
    ensures Enough(t, staff) <==> StaffEnough(t.tier, staff)
  {
    assert staff - {} == staff && {} + staff == staff;
  }

  predicate Untouched(t: TierReview, tier: Tier) {
    t.tier == tier && t.approvedBy == {} && t.status != Done
  }

  lemma NothingDone(review: Review)
    requires PlainReview(review) && forall k :: 0 <= k < |review.tierReviews| ==> review.tierReviews[k].approvedBy == {}
    ensures forall k :: 0 <= k < |review.tierReviews| ==> Untouched(review.tierReviews[k], review.definition.tiers[k])
  {
    forall k | 0 <= k < |review.tierReviews| ensures Untouched(review.tierReviews[k], review.definition.tiers[k]) {
      assert PlainTier(review.tierReviews[k], review.definition.tiers[k]);
    }
  }

  lemma FreshCompletable(review: Review, staff: seq<set<User>>)
    requires |staff| == |review.tierReviews| == |review.definition.tiers| && review.definition.multitier
    requires Needed(review.tierReviews) == Required(review.definition.tiers) > 0
    requires forall k :: 0 <= k < |staff| ==> Untouched(review.tierReviews[k], review.definition.tiers[k])
    ensures Completable(review, staff) <==> Staffed(review.definition, staff)
  {
    forall k | 0 <= k < |staff|
      ensures Enough(review.tierReviews[k], staff[k]) <==> StaffEnough(review.definition.tiers[k], staff[k])
    {
      assert Untouched(review.tierReviews[k], review.definition.tiers[k]);
      FreshEnough(review.tierReviews[k], staff[k]);
    }
  }

  lemma NothingOpen(reviews: seq<Review>, first: Review)
    requires ActiveReview(reviews).None? && first.status != Open
    ensures ActiveReview([first] + reviews).None?
  {
    assert forall k :: 0 < k <= |reviews| ==> ([first] + reviews)[k] == reviews[k - 1];
  }

  lemma SingleVote(r: Record, staff: seq<set<User>>)
    requires r.state == Pending && |staff| == 1
    requires ActiveReview(r.reviews) == Some(0) && !r.reviews[0].definition.multitier
    ensures (exists users :: Voted(r, staff, users).state == Approved) <==> staff[0] != {}
  {
    if staff[0] != {} {
      var user :| user in staff[0];
      VotedFirst(r, staff, user, []);
      assert Voted(r, staff, [user] + []).state == Approved;
    } else {
      forall users ensures Voted(r, staff, users).state != Approved {
        NothingToVote(r, staff, users);
      }
    }
  }

  /**
   * The same for any record in the middle of its tiers, however its tiers were acted on: each tier
   * not done, up to the last blocking one, needs staff enough.
   */
  lemma MidwayApprovable(r: Record, i: nat, k: nat, staff: seq<set<User>>)
    requires Midway(r, i, k) && |staff| == |r.reviews[i].tierReviews|
    ensures (exists users :: Voted(r, staff, users).state == Approved) <==> Completable(r.reviews[i], staff)
  {
    if Completable(r.reviews[i], staff) {
      var users := Completes(r, i, k, staff);
    } else {
      var j :| 0 <= j < Needed(r.reviews[i].tierReviews) && r.reviews[i].tierReviews[j].status != Done
        && !Enough(r.reviews[i].tierReviews[j], staff[j]);
      forall users ensures Voted(r, staff, users).state != Approved {
        NeverCompletes(r, i, k, staff, users, j);
      }
    }
  }

  // ----- when it cannot, whatever is done -----

  /** The record is not approved and has no review that could approve it. */
  ghost predicate Stranded(r: Record) {
    r.state != Approved && ActiveReview(r.reviews).None?
  }

  /**
   * Without a blocking tier approval is out of reach for ever: no run that forges nothing, in which
   * only definitions without a blocking tier are submitted, reaches Approved from a record that has
   * no pending review.
   */
  lemma {:induction false} StuckWithoutBlockingTier(r: Record, events: seq<Event>)
    requires Stranded(r)
    requires forall e :: e in events ==> !Forges(e) && (e.Submission? ==>
        e.definition.multitier && ValidDefinition(e.definition) && Required(e.definition.tiers) == 0)
    ensures Stranded(Run(r, events))
  {
    if events != [] {
      var init, e := events[..|events| - 1], events[|events| - 1];
      assert e in events;
      StuckWithoutBlockingTier(r, init);
      if e.Submission? {
        NewReviewStarts(e.definition);
        NothingOpen(Run(r, init).reviews, NewReview(e.definition));
      } else {
        StepStranded(Run(r, init), e);
      }
    }
  }

  lemma StepStranded(r: Record, e: Event)
    requires Stranded(r) && !Forges(e) && !e.Submission?
    ensures Stranded(Step(r, e))
  {
    forall m | 0 <= m < |r.reviews|
      ensures |Step(r, e).reviews| == |r.reviews| && Step(r, e).reviews[m].status != Open
    {
      StepEvolves(r, e, m);
    }
  }

  /** No event forges anything or submits. */
  ghost predicate Within(events: seq<Event>) {
    forall e :: e in events ==> !Forges(e) && !e.Submission?
  }

  /** Some events other than forgeries and submissions approve the record. */
  ghost predicate CanBeApproved(r: Record) {
    exists events :: Within(events) && Run(r, events).state == Approved
  }

  /** An event and its time. */
  datatype Moment = Moment(event: Event, now: int)

  function Events(moments: seq<Moment>): seq<Event> {
    seq(|moments|, k requires 0 <= k < |moments| => moments[k].event)
  }

  /** The votes of some users, all cast at one time. */
  function Casting(r: Record, staff: seq<set<User>>, users: seq<User>, now: int): seq<Moment>
    decreases |users|
  {
    if users == [] then []
    else [Moment(Vote(r, staff, users[0]), now)] + Casting(Step(r, Vote(r, staff, users[0])), staff, users[1..], now)
  }

  lemma {:induction false} CastingRuns(r: Record, staff: seq<set<User>>, users: seq<User>, now: int)
    ensures Run(r, Events(Casting(r, staff, users, now))) == Voted(r, staff, users)
    ensures forall m :: m in Casting(r, staff, users, now) ==> m.now == now && m.event.Approval?
    decreases |users|
  {
    if users != [] {
      var e := Vote(r, staff, users[0]);
      var rest := Casting(Step(r, e), staff, users[1..], now);
      CastingRuns(Step(r, e), staff, users[1..], now);
      assert Events(Casting(r, staff, users, now)) == [e] + Events(rest);
      RunFirst(r, e, Events(rest));
    }
  }

  /** Users enough to close the tier. */
  lemma Recruit(t: TierReview) returns (staff: set<User>)
    ensures Enough(t, staff)
  {
    staff := Upto(|t.approvedBy| + t.tier.minApprovers + 1);
    if staff <= t.approvedBy {
      Larger(staff, t.approvedBy);
    }
    Larger(staff, t.approvedBy + staff);
  }

  lemma {:induction false} RecruitAll(tierReviews: seq<TierReview>) returns (staff: seq<set<User>>)
    ensures |staff| == |tierReviews| && forall k :: 0 <= k < |staff| ==> Enough(tierReviews[k], staff[k])
  {
    if tierReviews == [] {
      staff := [];
    } else {
      var init := RecruitAll(tierReviews[..|tierReviews| - 1]);
      var last := Recruit(tierReviews[|tierReviews| - 1]);
      staff := init + [last];
    }
  }

  /** Some users can approve the record. */
  lemma ApprovableNow(r: Record, now: int) returns (moments: seq<Moment>)
    requires Healthy(r) && r.state == Pending && ActiveReview(r.reviews).Some?
    ensures Run(r, Events(moments)).state == Approved
    ensures forall m :: m in moments ==> m.now == now && m.event.Approval?
  {
    var i := ActiveReview(r.reviews).value;
    if r.reviews[i].definition.multitier {
      var staff := RecruitAll(r.reviews[i].tierReviews);
      var users := Completes(r, i, Undone(r.reviews[i].tierReviews), staff);
      CastingRuns(r, staff, users, now);
      moments := Casting(r, staff, users, now);
    } else {
      CastingRuns(r, [{0}], [0], now);
      assert [0][1..] == [];
      moments := Casting(r, [{0}], [0], now);
    }
  }

  lemma ApprovalsOnly(moments: seq<Moment>)
    requires forall m :: m in moments ==> m.event.Approval?
    ensures forall e :: e in Events(moments) ==> e.Approval?
  {
    forall e | e in Events(moments) ensures e.Approval? {
      var k :| 0 <= k < |moments| && Events(moments)[k] == e;
      assert moments[k] in moments;
    }
  }

  /** A pending record can be approved within its submission if and only if it has a pending review. */
  lemma ApprovableWithin(r: Record)
    requires Healthy(r) && r.state == Pending
    ensures CanBeApproved(r) <==> ActiveReview(r.reviews).Some?
  {
    if ActiveReview(r.reviews).Some? {
      var moments := ApprovableNow(r, 0);
      ApprovalsOnly(moments);
      assert Within(Events(moments));
    } else {
      forall events | Within(events) ensures Run(r, events).state != Approved {
        StuckWithoutBlockingTier(r, events);
      }
    }
  }

  /** The review is the only one pending. */
  ghost predicate OnlyPending(r: Record, i: nat) {
    && r.state == Pending && ActiveReview(r.reviews) == Some(i) && r.reviews[i].definition.multitier
    && forall m :: 0 <= m < |r.reviews| && m != i ==> r.reviews[m].status != Open
  }

  /**
   * An approval made on a tier itself does not approve the record. When it leaves a blocking tier,
   * the record can still be approved; when it was the last one, the review is complete, the record
   * stays pending, and nothing within its submission ever approves it.
   */
  lemma TierActionStrands(r: Record, i: nat, k: nat, user: User, approvers: set<User>)
    requires OnlyPending(r, i) && Underway(r.reviews[i])
    requires ApproveTierAt(r.reviews[i], k, user, approvers).Ok?
    ensures var after := Step(r, TierApproval(i, k, user, approvers));
      && after.state == Pending && i < |after.reviews|
      && (CanBeApproved(after) <==> Needed(after.reviews[i].tierReviews) > 0)
  {
    var voted := ApproveTierAt(r.reviews[i], k, user, approvers).value;
    UnderwayVote(r.reviews[i], k, user, approvers);
    TierStep(r, i, k, user, approvers);
    ApprovableAfter(r, i, voted, Step(r, TierApproval(i, k, user, approvers)));
  }

  lemma TierStep(r: Record, i: nat, k: nat, user: User, approvers: set<User>)
    requires i < |r.reviews| && ApproveTierAt(r.reviews[i], k, user, approvers).Ok?
    ensures Step(r, TierApproval(i, k, user, approvers))
         == r.(reviews := r.reviews[i := ApproveTierAt(r.reviews[i], k, user, approvers).value])
  {
  }

  /** A record whose only pending review was acted on. */
  lemma ApprovableAfter(r: Record, i: nat, voted: Review, after: Record)
    requires OnlyPending(r, i) && after == r.(reviews := r.reviews[i := voted])
    requires voted.status == Open ==> Underway(voted)
    ensures CanBeApproved(after) <==> voted.status == Open
  {
    ApprovableWithin(after);
    if voted.status == Open {
      StillActive(r.reviews, i, voted);
    } else {
      NoneOpen(r.reviews, i, voted);
    }
  }

  lemma NoneOpen(reviews: seq<Review>, i: nat, closed: Review)
    requires i < |reviews| && closed.status != Open
    requires forall m :: 0 <= m < |reviews| && m != i ==> reviews[m].status != Open
    ensures ActiveReview(reviews[i := closed]).None?
  {
  }

  /**
   * A non-blocking tier does not hold up the last blocking one when that is approved on the tier
   * itself: the review completes with the non-blocking tier still at hand, and the record, still
   * pending, refuses every approval.
   */
  lemma NonBlockingPassed(r: Record, i: nat, f: nat, k: nat, user: User, approvers: set<User>)
    requires OnlyPending(r, i) && Midway(r, i, f) && f < k && k + 1 == Needed(r.reviews[i].tierReviews)
    requires forall j :: 0 <= j < k ==> !r.reviews[i].tierReviews[j].tier.blocking || r.reviews[i].tierReviews[j].status == Done
    requires r.reviews[i].tierReviews[k].status == Active && user in approvers - r.reviews[i].tierReviews[k].approvedBy
    requires Quorum(r.reviews[i].tierReviews[k].tier, approvers, r.reviews[i].tierReviews[k].approvedBy + {user})
    ensures var after := Step(r, TierApproval(i, k, user, approvers));
      && |after.reviews| == |r.reviews| && |after.reviews[i].tierReviews| == |r.reviews[i].tierReviews|
      && after.reviews[i].status == Accepted && after.reviews[i].tierReviews[k].status == Done
      && after.reviews[i].tierReviews[f].status == Active && after.state == Pending
      && forall u, a, seen :: Approve(after, u, a, seen) == Err(Inconsistent)
  {
    LastBlocking(r.reviews[i], f, k, user, approvers);
    TierStep(r, i, k, user, approvers);
    RefusedAfter(r, i, ApproveTierAt(r.reviews[i], k, user, approvers).value, Step(r, TierApproval(i, k, user, approvers)));
  }

  lemma RefusedAfter(r: Record, i: nat, closed: Review, after: Record)
    requires OnlyPending(r, i) && closed.status != Open
    requires after == r.(reviews := r.reviews[i := closed])
    ensures forall u, a, seen :: Approve(after, u, a, seen) == Err(Inconsistent)
  {
    NoneOpen(r.reviews, i, closed);
  }

  lemma LastBlocking(review: Review, f: nat, k: nat, user: User, approvers: set<User>)
    requires Underway(review) && review.status == Open && f == Undone(review.tierReviews) < k
    requires k + 1 == Needed(review.tierReviews) && review.tierReviews[k].status == Active
    requires forall j :: 0 <= j < k ==> !review.tierReviews[j].tier.blocking || review.tierReviews[j].status == Done
    requires user in approvers - review.tierReviews[k].approvedBy
    requires Quorum(review.tierReviews[k].tier, approvers, review.tierReviews[k].approvedBy + {user})
    ensures var result := ApproveTierAt(review, k, user, approvers);
      && result.Ok? && result.value.status == Accepted && |result.value.tierReviews| == |review.tierReviews|
      && result.value.tierReviews[k].status == Done && result.value.tierReviews[f].status == Active
  {
    TierApproved(review, k, user, approvers);
    var voted := ApproveTierAt(review, k, user, approvers).value;
    NoneLeft(review, voted, k, user);
    ActivateProgress(Closed(review, k, user));
    assert Progress(Closed(review, k, user).tierReviews[f], voted.tierReviews[f]);
  }

  lemma NoneLeft(review: Review, voted: Review, k: nat, user: User)
    requires VotesKept(review, voted, k, user) && DoneWith(review.tierReviews, voted.tierReviews, k, true)
    requires k + 1 == Needed(review.tierReviews)
    requires forall j :: 0 <= j < k ==> !review.tierReviews[j].tier.blocking || review.tierReviews[j].status == Done
    ensures Needed(voted.tierReviews) == 0
  {
  }

  // ----- older reviews -----

  lemma ApprovalKeepsClosed(r: Record, user: User, approvers: set<User>, seen: nat, m: nat)
    requires m < |r.reviews| && r.reviews[m].status != Open && Approve(r, user, approvers, seen).Ok?
    ensures var after := Approve(r, user, approvers, seen).value;
      |after.reviews| == |r.reviews| && after.reviews[m] == r.reviews[m]
  {
  }

  /** Approvals leave a closed review as it is. */
  lemma {:induction false} ClosedStays(r: Record, events: seq<Event>, m: nat)
    requires m < |r.reviews| && r.reviews[m].status != Open && forall e :: e in events ==> e.Approval?
    ensures |Run(r, events).reviews| == |r.reviews| && Run(r, events).reviews[m] == r.reviews[m]
  {
    if events != [] {
      var init, e := events[..|events| - 1], events[|events| - 1];
      assert e in events;
      ClosedStays(r, init, m);
      if Next(Run(r, init), e).Ok? {
        ApprovalKeepsClosed(Run(r, init), e.user, e.approvers, e.seen, m);
      }
    }
  }

  /**
   * An older review left pending is a way round the tiers of the newest one, and the only way: some
   * events other than forgeries and submissions approve a pending record without the blocking tiers
   * of its newest review if and only if an older review is pending. Closing the newest review, which
   * asks for no approver, makes the older one the active one.
   */
  lemma StaleReviewIff(r: Record)
    requires Healthy(r) && r.state == Pending && r.reviews != []
    requires r.reviews[0].definition.multitier && r.reviews[0].status == Open
    ensures (exists events :: Within(events) && Run(r, events).state == Approved && !ApprovedThrough(Run(r, events)))
        <==> exists j :: 0 < j < |r.reviews| && r.reviews[j].status == Open
  {
    if exists j :: 0 < j < |r.reviews| && r.reviews[j].status == Open {
      var events := RoundTheTiers(r);
    } else {
      forall events | Within(events) && Run(r, events).state == Approved
        ensures ApprovedThrough(Run(r, events))
      {
        WithinOrderly(r, events);
        RunSound(r, events);
      }
    }
  }

  lemma {:induction false} WithinOrderly(r: Record, events: seq<Event>)
    requires Within(events)
    ensures Orderly(r, events)
  {
    if events != [] {
      assert events[|events| - 1] in events;
      WithinOrderly(r, events[..|events| - 1]);
    }
  }

  lemma NotThrough(review: Review, closed: Review)
    requires Underway(review) && closed.definition == review.definition && closed.tierReviews == review.tierReviews
    ensures !BlockingDone(closed)
  {
    var last := Needed(review.tierReviews) - 1;
    assert PlainTier(review.tierReviews[last], review.definition.tiers[last]);
  }

  lemma RoundTheTiers(r: Record) returns (events: seq<Event>)
    requires Healthy(r) && r.state == Pending && r.reviews != []
    requires r.reviews[0].definition.multitier && r.reviews[0].status == Open
    requires exists j :: 0 < j < |r.reviews| && r.reviews[j].status == Open
    ensures Within(events) && Run(r, events).state == Approved && !ApprovedThrough(Run(r, events))
  {
    var close := ReviewClosing(0, false);
    var closed := Step(r, close);
    StepHealthy(r, close);
    var j :| 0 < j < |r.reviews| && r.reviews[j].status == Open;
    assert closed.reviews[j].status == Open;
    var moments := ApprovableNow(closed, 0);
    var rest := Events(moments);
    ApprovalsOnly(moments);
    RunFirst(r, close, rest);
    ClosedStays(closed, rest, 0);
    events := [close] + rest;
    NotThrough(r.reviews[0], closed.reviews[0]);
  }

  // ----- freeze periods -----

  /** Where and for what records the freeze periods are asked for. */
  datatype Setting = Setting(freezes: seq<Freeze>, model: string, company: Option<nat>)

  ghost predicate FrozenAt(setting: Setting, now: int) {
    exists f :: f in setting.freezes && Covers(f, now, setting.model, setting.company)
  }

  /**
   * All happens inside freeze periods, and nothing is forged; submissions are of definitions that
   * respect freeze periods, and are told by the periods whether they are frozen.
   */
  ghost predicate InFreeze(setting: Setting, moments: seq<Moment>) {
    forall k :: 0 <= k < |moments| ==>
      && FrozenAt(setting, moments[k].now) && !Forges(moments[k].event)
      && (moments[k].event.Submission? ==>
            moments[k].event.definition.respectsFreeze && moments[k].event.frozen == FrozenAt(setting, moments[k].now))
  }

  /** No approval can land. */
  ghost predicate Barred(r: Record) {
    r.state != Approved && (r.state == Pending ==> ActiveReview(r.reviews).None?)
  }

  lemma StepBarred(r: Record, e: Event)
    requires Barred(r) && !Forges(e) && (e.Submission? ==> Next(r, e).Err?)
    ensures Barred(Step(r, e))
  {
    if !e.Submission? {
      forall m | 0 <= m < |r.reviews|
        ensures |Step(r, e).reviews| == |r.reviews| && (r.reviews[m].status != Open ==> Step(r, e).reviews[m].status != Open)
      {
        StepEvolves(r, e, m);
      }
    }
  }

  lemma {:induction false} BarredInFreeze(r: Record, setting: Setting, moments: seq<Moment>)
    requires Barred(r) && InFreeze(setting, moments)
    ensures Barred(Run(r, Events(moments)))
  {
    if moments != [] {
      var init, last := moments[..|moments| - 1], moments[|moments| - 1];
      BarredInFreeze(r, setting, init);
      assert Events(moments)[..|moments| - 1] == Events(init);
      assert Events(moments)[|moments| - 1] == last.event;
      StepBarred(Run(r, Events(init)), last.event);
    }
  }

  /**
   * Freeze periods stop submissions, not approvals. Inside a freeze a record that is not approved
   * yet can become approved, single- or multi-tier, if and only if it is pending with a pending
   * review when the freeze begins: such a record can be approved through all its tiers inside it,
   * and any other cannot, as it would first have to be submitted.
   */
  lemma FreezeStopsSubmissionOnly(r: Record, setting: Setting, now: int, definition: Definition, user: User, approvers: set<User>)
    requires Healthy(r) && r.state != Approved && FrozenAt(setting, now)
    ensures (r.state == Draft || r.state == Revision) && !definition.autoApprove && !HasOpen(r.reviews, definition) ==>
        (Submit(r, definition, user, approvers, FrozenAt(setting, now)).Ok? <==> !definition.respectsFreeze)
    ensures (exists moments :: InFreeze(setting, moments) && Run(r, Events(moments)).state == Approved)
        <==> r.state == Pending && ActiveReview(r.reviews).Some?
  {
    if r.state == Pending && ActiveReview(r.reviews).Some? {
      var moments := ApprovableNow(r, now);
      assert InFreeze(setting, moments);
    } else {
      forall moments | InFreeze(setting, moments)
        ensures Run(r, Events(moments)).state != Approved
      {
        BarredInFreeze(r, setting, moments);
      }
    }
  }

  // ----- direct approval, locking and rejection -----

  /** Direct approval needs no tier: it approves any pending record at once, whatever its tiers. */
  lemma DirectSkipsTiers(r: Record)
    requires Ordered(r) && r.state == Pending && r.reviews[0].definition.multitier && r.reviews[0].status == Open
    ensures ApproveDirectly(r, r.version).Ok?
    ensures !ApprovedInOrder(ApproveDirectly(r, r.version).value)
  {
    var review := r.reviews[0];
    var done: nat, open: nat :| InOrder(review, done, open) && done < open && done < Required(review.definition.tiers);
    assert review.tierReviews[done].status == Active;
  }

  /** How many approvals made from version `v` completed the approval of the record. */
  function Successes(r: Record, events: seq<Event>, v: nat): nat
    decreases |events|
  {
    if events == [] then 0
    else
      var e := events[0];
      (if (e.Approval? || e.Direct?) && e.seen == v && Next(r, e).Ok? && Next(r, e).value.state == Approved then 1 else 0)
        + Successes(Step(r, e), events[1..], v)
  }

  /** No write lowers the version. */
  predicate NeverLowered(r: Record, events: seq<Event>)
    decreases |events|
  {
    events == [] || (Step(r, events[0]).version >= r.version && NeverLowered(Step(r, events[0]), events[1..]))
  }

  /**
   * Of all approvals made from one version at most one completes, in any run and from any state, as
   * long as no write lowers the version; nothing but such a write does.
   */
  lemma {:induction false} OneApprovalPerVersion(r: Record, events: seq<Event>, v: nat)
    requires NeverLowered(r, events)
    ensures Successes(r, events, v) <= if r.version <= v then 1 else 0
    decreases |events|
  {
    if events != [] {
      VersionSteps(r, events[0]);
      OneApprovalPerVersion(Step(r, events[0]), events[1..], v);
    }
  }

  lemma VersionSteps(r: Record, e: Event)
    ensures Step(r, e).version < r.version ==> e.WriteVersion?
    ensures (e.Approval? || e.Direct?) && Next(r, e).Ok? && Next(r, e).value.state == Approved ==>
        e.seen == r.version && Step(r, e).version == r.version + 1
  {
  }

  /** A version written back is approved again. */
  lemma VersionReused(r: Record)
    requires r.state == Pending
    ensures Successes(r, [Direct(r.version), WriteState(Pending), WriteVersion(r.version), Direct(r.version)], r.version) == 2
  {
    var v, approve, reopen, lower := r.version, Direct(r.version), WriteState(Pending), WriteVersion(r.version);
    var once := Step(r, approve);
    var reopened := Step(once, reopen);
    var lowered := Step(reopened, lower);
    assert [approve][1..] == [] && Successes(Step(lowered, approve), [], v) == 0;
    assert Successes(lowered, [approve], v) == 1;
    assert [lower, approve][1..] == [approve];
    assert Successes(reopened, [lower, approve], v) == 1;
    assert [reopen, lower, approve][1..] == [lower, approve];
    assert Successes(once, [reopen, lower, approve], v) == 1;
    assert [approve, reopen, lower, approve][1..] == [reopen, lower, approve];
  }

  /** Automatic approval of a submitter who is an approver is refused: only pending records can be approved. */
  lemma AutoApproveRefused(r: Record, definition: Definition, user: User, approvers: set<User>, frozen: bool)
    requires definition.autoApprove && user in approvers
    ensures Submit(r, definition, user, approvers, frozen).Err?
  {
  }

  /**
   * A rejected record can be submitted again under the same definition if and only if that is
   * multi-tier: a single-tier review stays pending after the rejection, and blocks the next one.
   */
  lemma ResubmitAfterRejection(r: Record, rejecter: User, rejecters: set<User>, user: User, approvers: set<User>)
    requires Ordered(r) && r.state == Pending && r.reviews[0].status == Open
    requires forall i :: 0 < i < |r.reviews| ==> r.reviews[i].status != Open
    requires rejecter in rejecters && !r.reviews[0].definition.autoApprove
    ensures Reject(r, rejecter, rejecters).Ok? && Reset(Reject(r, rejecter, rejecters).value).Ok?
    ensures var definition := r.reviews[0].definition;
      var draft := Reset(Reject(r, rejecter, rejecters).value).value;
      Submit(draft, definition, user, approvers, false).Ok? <==> definition.multitier
  {
    var definition := r.reviews[0].definition;
    assert ActiveReview(r.reviews) == Some(0);
    if definition.multitier {
      var done: nat, open: nat :| InOrder(r.reviews[0], done, open) && done < open && done < Required(definition.tiers);
      assert r.reviews[0].tierReviews[done].status == Active;
      var draft := Reset(Reject(r, rejecter, rejecters).value).value;
      assert draft.reviews[0].status == Denied;
    } else {
      assert HasOpen(r.reviews, definition);
    }
  }
}
