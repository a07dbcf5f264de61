/**
 * The approval workflow: `spp.approval.mixin` with its multi-tier extension, its reviews and tier
 * reviews, and freeze periods. Follows spp_approval/models/approval_mixin.py,
 * approval_mixin_multitier.py, approval_review_multitier.py, approval_tier_review.py and
 * approval_freeze.py; submission follows the change request's override, which also accepts a
 * record whose revision was requested.
 *
 * Who may approve a tier is computed when it is asked, so the approvers are an argument of every
 * action. A raised error rolls its transaction back.
 */
module Approval {
  import opened Wrappers

  type User = nat

  datatype State = Draft | Pending | Revision | Approved | Rejected

  datatype Tier = Tier(blocking: bool, requireAll: bool, minApprovers: nat)

  datatype TierStatus = Waiting | Active | Done | Refused | Skipped

  datatype TierReview = TierReview(tier: Tier, status: TierStatus, approvedBy: set<User>)

  /** The tiers of a definition are listed in sequence order. */
  datatype Definition = Definition(id: nat, multitier: bool, tiers: seq<Tier>, respectsFreeze: bool, autoApprove: bool)

  datatype ReviewStatus = Open | Accepted | Denied

  datatype Review = Review(definition: Definition, status: ReviewStatus, tierReviews: seq<TierReview>)

  /** A record under approval; its reviews are listed newest first. */
  datatype Record = Record(state: State, version: nat, reviews: seq<Review>)

  datatype Error = NotAllowed | Frozen | Inconsistent | NotAuthorized | NoPendingTier | AlreadyApproved
                 | ModifiedMeanwhile | DuplicatePending

  // ----- tiers -----

  /** The first tier in sequence order with a status. */
  function FirstWith(tierReviews: seq<TierReview>, status: TierStatus): (first: Option<nat>)
    ensures first.Some? ==> first.value < |tierReviews| && tierReviews[first.value].status == status
    ensures first.Some? ==> forall i :: 0 <= i < first.value ==> tierReviews[i].status != status
    ensures first.None? ==> forall i :: 0 <= i < |tierReviews| ==> tierReviews[i].status != status
  {
    FirstFrom(tierReviews, status, 0)
  }

  function FirstFrom(tierReviews: seq<TierReview>, status: TierStatus, from: nat): (first: Option<nat>)
    requires from <= |tierReviews|
    ensures first.Some? ==> from <= first.value < |tierReviews| && tierReviews[first.value].status == status
    ensures forall i :: from <= i < (if first.Some? then first.value else |tierReviews|) ==> tierReviews[i].status != status
    decreases |tierReviews| - from
  {
    if from == |tierReviews| then None
    else if tierReviews[from].status == status then Some(from)
    else FirstFrom(tierReviews, status, from + 1)
  }

  lemma FirstIs(tierReviews: seq<TierReview>, status: TierStatus, i: nat)
    requires i < |tierReviews| && tierReviews[i].status == status
    requires forall k :: 0 <= k < i ==> tierReviews[k].status != status
    ensures FirstWith(tierReviews, status) == Some(i)
  {
    var first := FirstWith(tierReviews, status);
    assert first.Some? && first.value >= i;
  }

  /** A blocking tier has not been completed yet. */
  predicate BlockingIncomplete(review: Review) {
    exists t | t in review.tierReviews :: t.tier.blocking && t.status !in {Done, Skipped}
  }

  function SetStatus(review: Review, i: nat, status: TierStatus): Review
    requires i < |review.tierReviews|
  {
    review.(tierReviews := review.tierReviews[i := review.tierReviews[i].(status := status)])
  }

  ghost function WaitingTiers(tierReviews: seq<TierReview>): set<nat> {
    set i: nat | i < |tierReviews| && tierReviews[i].status == Waiting
  }

  /** `_activate_next_tier_or_complete`, as a function. */
  function ActivateNext(review: Review): (result: Review)
    ensures |result.tierReviews| == |review.tierReviews| && result.definition == review.definition
    decreases WaitingTiers(review.tierReviews)
  {
    match FirstWith(review.tierReviews, Waiting)
    case None => if BlockingIncomplete(review) then review else review.(status := Accepted)
    case Some(i) =>
      var activated := SetStatus(review, i, Active);
      assert WaitingTiers(activated.tierReviews) == WaitingTiers(review.tierReviews) - {i};
      if review.tierReviews[i].tier.blocking then activated else ActivateNext(activated)
  }

  /** The tier reviews of a new review, the first of them activated. */
  function FirstActivated(definition: Definition): Review {
    Review(definition, Open, seq(|definition.tiers|, i requires 0 <= i < |definition.tiers| =>
      TierReview(definition.tiers[i], if i == 0 then Active else Waiting, {})))
  }

  /** `create` of a review, with `_create_tier_reviews` for a multi-tier definition. */
  function NewReview(definition: Definition): (review: Review)
    ensures review.definition == definition
    ensures definition.multitier ==> |review.tierReviews| == |definition.tiers|
  {
    if !definition.multitier then Review(definition, Open, [])
    else if definition.tiers != [] && !definition.tiers[0].blocking then ActivateNext(FirstActivated(definition))
    else FirstActivated(definition)
  }

  /** `_check_tier_completion`: all designated approvers, or enough of them. */
  predicate Quorum(tier: Tier, approvers: set<User>, approvedBy: set<User>) {
    if tier.requireAll then approvers != {} && approvers <= approvedBy
    else |approvedBy| >= tier.minApprovers
  }

  /** `action_approve` of a tier review: a pending tier is approved by one of its approvers. */
  function ApproveTierAt(review: Review, k: nat, user: User, approvers: set<User>): Result<Review, Error> {
    if k >= |review.tierReviews| || review.tierReviews[k].status != Active then Err(NoPendingTier)
    else
      var t := review.tierReviews[k];
      if user !in approvers then Err(NotAuthorized)
      else if user in t.approvedBy then Err(AlreadyApproved)
      else
        var approved := review.(tierReviews := review.tierReviews[k := WithVote(t, user)]);
        if Quorum(t.tier, approvers, t.approvedBy + {user}) then Ok(ActivateNext(SetStatus(approved, k, Done)))
        else Ok(approved)
  }

  /** The tier with one more approval. */
  function WithVote(t: TierReview, user: User): TierReview {
    t.(approvedBy := t.approvedBy + {user})
  }

  /** `action_approve_tier` of a multi-tier review: acts on its first pending tier. */
  function ApproveTier(review: Review, user: User, approvers: set<User>): Result<Review, Error> {
    match FirstWith(review.tierReviews, Active)
    case None => Err(NoPendingTier)
    case Some(i) => ApproveTierAt(review, i, user, approvers)
  }

  /** The review with one tier rejected and those still waiting skipped. */
  function Refuse(review: Review, k: nat): (refused: Review)
    requires k < |review.tierReviews|
    ensures refused.definition == review.definition && |refused.tierReviews| == |review.tierReviews|
  {
    var rejected := SetStatus(review, k, Refused);
    rejected.(status := Denied,
              tierReviews := seq(|rejected.tierReviews|, j requires 0 <= j < |rejected.tierReviews| =>
                if rejected.tierReviews[j].status == Waiting then rejected.tierReviews[j].(status := Skipped)
                else rejected.tierReviews[j]))
  }

  /** `action_reject` of a tier review: rejects the tier, skips those still waiting and rejects the review. */
  function RejectTierAt(review: Review, k: nat, user: User, approvers: set<User>): Result<Review, Error> {
    if k >= |review.tierReviews| || review.tierReviews[k].status != Active then Err(NoPendingTier)
    else if user !in approvers then Err(NotAuthorized)
    else Ok(Refuse(review, k))
  }

  /** `action_reject_tier` of a multi-tier review: acts on its first pending tier. */
  function RejectTier(review: Review, user: User, approvers: set<User>): Result<Review, Error> {
    match FirstWith(review.tierReviews, Active)
    case None => Err(NoPendingTier)
    case Some(i) => RejectTierAt(review, i, user, approvers)
  }

  /** `action_activate` of a tier review asks for no approver. */
  function ActivateTierAt(review: Review, k: nat): Result<Review, Error> {
    if k < |review.tierReviews| && review.tierReviews[k].status == Waiting then Ok(SetStatus(review, k, Active))
    else Err(NoPendingTier)
  }

  // ----- the record -----

  /** The active review: the newest one still pending. */
  function ActiveReview(reviews: seq<Review>): (active: Option<nat>)
    ensures active.Some? ==> active.value < |reviews| && reviews[active.value].status == Open
    ensures active.Some? ==> forall i :: 0 <= i < active.value ==> reviews[i].status != Open
    ensures active.None? ==> forall i :: 0 <= i < |reviews| ==> reviews[i].status != Open
  {
    if reviews == [] then None
    else if reviews[0].status == Open then Some(0)
    else
      match ActiveReview(reviews[1..])
      case None => None
      case Some(i) => Some(i + 1)
  }

  /** Marks every pending review. */
  function CloseReviews(reviews: seq<Review>, status: ReviewStatus): seq<Review> {
    seq(|reviews|, i requires 0 <= i < |reviews| =>
      if reviews[i].status == Open then reviews[i].(status := status) else reviews[i])
  }

  /** `_do_approve`: succeeds only on a pending record of the version the caller has seen. */
  function DoApprove(r: Record, seen: nat): Result<Record, Error> {
    if r.state == Pending && r.version == seen then
      Ok(Record(Approved, r.version + 1, CloseReviews(r.reviews, Accepted)))
    else
      Err(ModifiedMeanwhile)
  }

  /** The current user is among those who may act on the active review. */
  predicate CanAct(review: Review, user: User, approvers: set<User>) {
    user in approvers && (review.definition.multitier ==> FirstWith(review.tierReviews, Active).Some?)
  }

  predicate HasOpen(reviews: seq<Review>, definition: Definition) {
    exists i | 0 <= i < |reviews| :: reviews[i].status == Open && reviews[i].definition.id == definition.id
  }

  /** `action_submit_for_approval`; the database allows one pending review per definition. */
  function Submit(r: Record, definition: Definition, user: User, approvers: set<User>, frozen: bool): Result<Record, Error> {
    if r.state != Draft && r.state != Revision then Err(NotAllowed)
    else if definition.respectsFreeze && frozen then Err(Frozen)
    else if definition.autoApprove && user in approvers then DoApprove(r, r.version)
    else if HasOpen(r.reviews, definition) then Err(DuplicatePending)
    else Ok(Record(Pending, r.version, [NewReview(definition)] + r.reviews))
  }

  /** `action_approve`: approves the current tier, and the record once its review is approved. */
  function Approve(r: Record, user: User, approvers: set<User>, seen: nat): Result<Record, Error> {
    if r.state != Pending then Err(NotAllowed)
    else match ActiveReview(r.reviews)
         case None => Err(Inconsistent)
         case Some(i) =>
           if !CanAct(r.reviews[i], user, approvers) then Err(NotAuthorized)
           else if !r.reviews[i].definition.multitier then DoApprove(r, seen)
           else match ApproveTier(r.reviews[i], user, approvers)
                case Err(e) => Err(e)
                case Ok(review) =>
                  var approved := r.(reviews := r.reviews[i := review]);
                  if review.status == Accepted then DoApprove(approved, seen) else Ok(approved)
  }

  /** `_action_approve_system`, and `action_approve_batch` for a user who may act: no tiers. */
  function ApproveDirectly(r: Record, seen: nat): Result<Record, Error> {
    DoApprove(r, seen)
  }

  /** `_do_reject`, multi-tier override: a single-tier review is left pending. */
  function Reject(r: Record, user: User, approvers: set<User>): Result<Record, Error> {
    match ActiveReview(r.reviews)
    case None => Ok(r.(state := Rejected))
    case Some(i) =>
      if !r.reviews[i].definition.multitier then Ok(r.(state := Rejected))
      else match RejectTier(r.reviews[i], user, approvers)
           case Err(e) => Err(e)
           case Ok(review) => Ok(r.(state := Rejected, reviews := r.reviews[i := review]))
  }

  /** `_do_request_revision`: closes every pending review. */
  function RequestRevision(r: Record, user: User, approvers: set<User>): Result<Record, Error> {
    if r.state != Pending then Err(NotAllowed)
    else match ActiveReview(r.reviews)
         case None => Err(NotAuthorized)
         case Some(i) =>
           if !CanAct(r.reviews[i], user, approvers) then Err(NotAuthorized)
           else Ok(Record(Revision, r.version, CloseReviews(r.reviews, Denied)))
  }

  function Reset(r: Record): Result<Record, Error> {
    if r.state == Rejected || r.state == Revision then Ok(r.(state := Draft)) else Err(NotAllowed)
  }

  // ----- the actions of reviews and tiers themselves: none of them looks at the record -----

  function TierApprove(r: Record, i: nat, k: nat, user: User, approvers: set<User>): Result<Record, Error> {
    if i < |r.reviews| then WithReview(r, i, ApproveTierAt(r.reviews[i], k, user, approvers)) else Err(NoPendingTier)
  }

  function TierReject(r: Record, i: nat, k: nat, user: User, approvers: set<User>): Result<Record, Error> {
    if i < |r.reviews| then WithReview(r, i, RejectTierAt(r.reviews[i], k, user, approvers)) else Err(NoPendingTier)
  }

  function TierActivate(r: Record, i: nat, k: nat): Result<Record, Error> {
    if i < |r.reviews| then WithReview(r, i, ActivateTierAt(r.reviews[i], k)) else Err(NoPendingTier)
  }

  /** `action_approve` and `action_reject` of a review ask for nothing. */
  function ReviewClose(r: Record, i: nat, status: ReviewStatus): Result<Record, Error> {
    if i < |r.reviews| then Ok(r.(reviews := r.reviews[i := r.reviews[i].(status := status)])) else Err(NoPendingTier)
  }

  /** `action_approve_tier` of a review. */
  function ReviewApproveTier(r: Record, i: nat, user: User, approvers: set<User>): Result<Record, Error> {
    if i >= |r.reviews| then Err(NoPendingTier)
    else if !r.reviews[i].definition.multitier then ReviewClose(r, i, Accepted)
    else WithReview(r, i, ApproveTier(r.reviews[i], user, approvers))
  }

  /** `action_reject_tier` of a review. */
  function ReviewRejectTier(r: Record, i: nat, user: User, approvers: set<User>): Result<Record, Error> {
    if i >= |r.reviews| then Err(NoPendingTier)
    else if !r.reviews[i].definition.multitier then ReviewClose(r, i, Denied)
    else WithReview(r, i, RejectTier(r.reviews[i], user, approvers))
  }

  function WithReview(r: Record, i: nat, result: Result<Review, Error>): Result<Record, Error>
    requires i < |r.reviews|
  {
    match result
    case Ok(review) => Ok(r.(reviews := r.reviews[i := review]))
    case Err(e) => Err(e)
  }

  // ----- freeze periods -----

  /** A freeze period; no models means all models, no company means all companies. */
  datatype Freeze = Freeze(start: int, end: int, cancelled: bool, company: Option<nat>, models: set<string>)

  /** A freeze covers a record of a model, and of a company if the record has one. */
  predicate Covers(freeze: Freeze, now: int, model: string, company: Option<nat>) {
    && freeze.start <= now <= freeze.end && !freeze.cancelled
    && (company.None? || freeze.company.None? || freeze.company == company)
    && (freeze.models == {} || model in freeze.models)
  }

  /** `is_frozen`. */
  method IsFrozen(freezes: seq<Freeze>, now: int, model: string, company: Option<nat>) returns (frozen: bool)
    ensures frozen <==> exists f :: f in freezes && Covers(f, now, model, company)
  {
    for i := 0 to |freezes|
      invariant forall k :: 0 <= k < i ==> !Covers(freezes[k], now, model, company)
    {
      var f := freezes[i];
      if f.start <= now <= f.end && !f.cancelled && (company.None? || f.company.None? || f.company == company) {
        if f.models == {} || model in f.models {
          assert Covers(f, now, model, company);
          return true;
        }
      }
    }
    return false;
  }

  // ----- the record as the source updates it -----

  /** `_activate_next_tier_or_complete`. */
  method ActivateNextTierOrComplete(review: Review) returns (result: Review)
    ensures result == ActivateNext(review)
  {
    result := review;
    while true
      invariant |result.tierReviews| == |review.tierReviews| && result.definition == review.definition
      invariant ActivateNext(result) == ActivateNext(review)
      decreases WaitingTiers(result.tierReviews)
    {
      var next := FirstWith(result.tierReviews, Waiting);
      if next.None? {
        if !BlockingIncomplete(result) {
          result := result.(status := Accepted);
        }
        return;
      }
      var before := result;
      result := SetStatus(result, next.value, Active);
      assert WaitingTiers(result.tierReviews) == WaitingTiers(before.tierReviews) - {next.value};
      if result.tierReviews[next.value].tier.blocking {
        return;
      }
    }
  }

  class ApprovalRecord {
    var state: State
    var version: nat
    var reviews: seq<Review>

    ghost function Value(): Record
      reads this
    {
      Record(state, version, reviews)
    }

    constructor ()
      ensures Value() == Record(Draft, 1, [])
    {
      state, version, reviews := Draft, 1, [];
    }

    method ActionSubmit(definition: Definition, user: User, approvers: set<User>, freezes: seq<Freeze>, now: int,
                        model: string, company: Option<nat>) returns (error: Option<Error>)
      modifies this
      ensures var frozen := exists f :: f in freezes && Covers(f, now, model, company);
        Outcome(Submit(old(Value()), definition, user, approvers, frozen), old(Value()), Value(), error)
    {
      if state != Draft && state != Revision {
        return Some(NotAllowed);
      }
      if definition.respectsFreeze {
        var frozen := IsFrozen(freezes, now, model, company);
        if frozen {
          return Some(Frozen);
        }
      }
      if definition.autoApprove && user in approvers {
        error := ActionDoApprove(version);
        return;
      }
      if HasOpen(reviews, definition) {
        return Some(DuplicatePending);
      }
      reviews := [NewReview(definition)] + reviews;
      state := Pending;
      return None;
    }

    method ActionDoApprove(seen: nat) returns (error: Option<Error>)
      modifies this
      ensures Outcome(DoApprove(old(Value()), seen), old(Value()), Value(), error)
    {
      if state != Pending || version != seen {
        return Some(ModifiedMeanwhile);
      }
      state, version, reviews := Approved, version + 1, CloseReviews(reviews, Accepted);
      return None;
    }

    method ActionApprove(user: User, approvers: set<User>, seen: nat) returns (error: Option<Error>)
      modifies this
      ensures Outcome(Approve(old(Value()), user, approvers, seen), old(Value()), Value(), error)
    {
      if state != Pending {
        return Some(NotAllowed);
      }
      var active := ActiveReview(reviews);
      if active.None? {
        return Some(Inconsistent);
      }
      var i := active.value;
      if !CanAct(reviews[i], user, approvers) {
        return Some(NotAuthorized);
      }
      if !reviews[i].definition.multitier {
        error := ActionDoApprove(seen);
        return;
      }
      var approved := ApproveTier(reviews[i], user, approvers);
      if approved.Err? {
        return Some(approved.error);
      }
      var before := reviews;
      reviews := reviews[i := approved.value];
      error := None;
      if reviews[i].status == Accepted {
        error := ActionDoApprove(seen);
        if error.Some? {
          reviews := before;
        }
      }
    }

    method ActionDoReject(user: User, approvers: set<User>) returns (error: Option<Error>)
      modifies this
      ensures Outcome(Reject(old(Value()), user, approvers), old(Value()), Value(), error)
    {
      var active := ActiveReview(reviews);
      if active.Some? && reviews[active.value].definition.multitier {
        var rejected := RejectTier(reviews[active.value], user, approvers);
        if rejected.Err? {
          return Some(rejected.error);
        }
        reviews := reviews[active.value := rejected.value];
      }
      state := Rejected;
      return None;
    }

    method ActionRequestRevision(user: User, approvers: set<User>) returns (error: Option<Error>)
      modifies this
      ensures Outcome(RequestRevision(old(Value()), user, approvers), old(Value()), Value(), error)
    {
      if state != Pending {
        return Some(NotAllowed);
      }
      var active := ActiveReview(reviews);
      if active.None? || !CanAct(reviews[active.value], user, approvers) {
        return Some(NotAuthorized);
      }
      state, reviews := Revision, CloseReviews(reviews, Denied);
      return None;
    }

    method ActionResetToDraft() returns (error: Option<Error>)
      modifies this
      ensures Outcome(Reset(old(Value())), old(Value()), Value(), error)
    {
      if state != Rejected && state != Revision {
        return Some(NotAllowed);
      }
      state := Draft;
      return None;
    }

    method TierActionApprove(i: nat, k: nat, user: User, approvers: set<User>) returns (error: Option<Error>)
      modifies this
      ensures Outcome(TierApprove(old(Value()), i, k, user, approvers), old(Value()), Value(), error)
    {
      if i >= |reviews| || k >= |reviews[i].tierReviews| || reviews[i].tierReviews[k].status != Active {
        return Some(NoPendingTier);
      }
      var t := reviews[i].tierReviews[k];
      if user !in approvers {
        return Some(NotAuthorized);
      }
      if user in t.approvedBy {
        return Some(AlreadyApproved);
      }
      var review := reviews[i].(tierReviews := reviews[i].tierReviews[k := WithVote(t, user)]);
      if Quorum(t.tier, approvers, t.approvedBy + {user}) {
        review := ActivateNextTierOrComplete(SetStatus(review, k, Done));
      }
      reviews := reviews[i := review];
      return None;
    }

    method TierActionReject(i: nat, k: nat, user: User, approvers: set<User>) returns (error: Option<Error>)
      modifies this
      ensures Outcome(TierReject(old(Value()), i, k, user, approvers), old(Value()), Value(), error)
    {
      if i >= |reviews| || k >= |reviews[i].tierReviews| || reviews[i].tierReviews[k].status != Active {
        return Some(NoPendingTier);
      }
      if user !in approvers {
        return Some(NotAuthorized);
      }
      reviews := reviews[i := Refuse(reviews[i], k)];
      return None;
    }

    /** `action_approve` and `action_reject` of a review. */
    method ReviewAction(i: nat, status: ReviewStatus) returns (error: Option<Error>)
      modifies this
      ensures Outcome(ReviewClose(old(Value()), i, status), old(Value()), Value(), error)
    {
      if i >= |reviews| {
        return Some(NoPendingTier);
      }
      reviews := reviews[i := reviews[i].(status := status)];
      return None;
    }
  }

  /** An action took effect as specified, or raised and changed nothing. */
  ghost predicate Outcome(result: Result<Record, Error>, before: Record, after: Record, error: Option<Error>) {
    match result
    case Ok(expected) => error == None && after == expected
    case Err(e) => error == Some(e) && after == before
  }

  // ----- what activation does to any review -----

  /** A tier stays as it is, or starts. */
  predicate Progress(before: TierReview, after: TierReview) {
    after == before || (before.status == Waiting && after == before.(status := Active))
  }

  ghost predicate WaitsFirst(tierReviews: seq<TierReview>, k: nat)
    requires k < |tierReviews|
  {
    tierReviews[k].status == Waiting && forall j :: 0 <= j < k ==> tierReviews[j].status != Waiting
  }

  /** Activation starts waiting tiers, the first of them included, and does nothing else to the tiers. */
  lemma {:induction false} ActivateProgress(review: Review)
    ensures var after := ActivateNext(review);
      && (forall k :: 0 <= k < |review.tierReviews| ==> Progress(review.tierReviews[k], after.tierReviews[k]))
      && (forall k :: 0 <= k < |review.tierReviews| && WaitsFirst(review.tierReviews, k) ==> after.tierReviews[k].status == Active)
      && (after.status == review.status || after.status == Accepted)
    decreases WaitingTiers(review.tierReviews)
  {
    var next := FirstWith(review.tierReviews, Waiting);
    if next.Some? && !review.tierReviews[next.value].tier.blocking {
      var activated := SetStatus(review, next.value, Active);
      assert WaitingTiers(activated.tierReviews) == WaitingTiers(review.tierReviews) - {next.value};
      ActivateProgress(activated);
    }
  }

  // ----- the order of tiers -----

  /** The number of tiers up to the last blocking one: those that must approve. */
  function Required(tiers: seq<Tier>): (n: nat)
    ensures n <= |tiers| && (n > 0 ==> tiers[n - 1].blocking)
    ensures forall i :: n <= i < |tiers| ==> !tiers[i].blocking
  {
    if tiers == [] then 0
    else if tiers[|tiers| - 1].blocking then |tiers|
    else Required(tiers[..|tiers| - 1])
  }

  /** Someone approved the tier, and enough approvers did where a number is asked for. */
  predicate HasApproval(t: TierReview) {
    t.approvedBy != {} && (!t.tier.requireAll ==> |t.approvedBy| >= t.tier.minApprovers)
  }

  function StatusAt(i: nat, done: nat, open: nat): TierStatus {
    if i < done then Done else if i < open then Active else Waiting
  }

  /** The first `done` tiers are approved, those before `open` are pending, the others wait. */
  ghost predicate InOrder(review: Review, done: nat, open: nat) {
    && done <= open <= |review.tierReviews| == |review.definition.tiers|
    && forall i :: 0 <= i < |review.tierReviews| ==> TierInOrder(review.tierReviews[i], review.definition.tiers[i], i, done, open)
  }

  ghost predicate TierInOrder(t: TierReview, tier: Tier, i: nat, done: nat, open: nat) {
    t.tier == tier && t.status == StatusAt(i, done, open) && (i < done ==> HasApproval(t))
  }

  /** Where activation stops: after the next blocking tier, or after the last tier. */
  function Stop(tiers: seq<Tier>, open: nat): (stop: nat)
    requires open <= |tiers|
    ensures open <= stop <= |tiers| && (open < |tiers| ==> open < stop)
    ensures stop == |tiers| || tiers[stop - 1].blocking
    decreases |tiers| - open
  {
    if open == |tiers| then open
    else if tiers[open].blocking then open + 1
    else Stop(tiers, open + 1)
  }

  lemma IncompleteMeaning(review: Review, done: nat)
    requires InOrder(review, done, |review.tierReviews|)
    ensures BlockingIncomplete(review) <==> done < Required(review.definition.tiers)
  {
    var required := Required(review.definition.tiers);
    if done < required {
      assert review.tierReviews[required - 1] in review.tierReviews;
    }
  }

  lemma OpenNext(review: Review, done: nat, open: nat)
    requires InOrder(review, done, open) && open < |review.tierReviews|
    ensures InOrder(SetStatus(review, open, Active), done, open + 1)
  {
  }

  /** Activation opens the tiers up to the next blocking one, or completes the review. */
  lemma {:induction false} ActivateInOrder(review: Review, done: nat, open: nat)
    requires InOrder(review, done, open)
    ensures var tiers := review.definition.tiers;
      var after := ActivateNext(review);
      && InOrder(after, done, Stop(tiers, open))
      && after.status == (if Required(tiers) <= done then Accepted else review.status)
      && (Required(tiers) <= done ==> Stop(tiers, open) == |tiers|)
    decreases |review.tierReviews| - open
  {
    var tiers := review.definition.tiers;
    if open == |tiers| {
      IncompleteMeaning(review, done);
    } else {
      FirstIs(review.tierReviews, Waiting, open);
      var activated := SetStatus(review, open, Active);
      OpenNext(review, done, open);
      assert WaitingTiers(activated.tierReviews) == WaitingTiers(review.tierReviews) - {open};
      if !tiers[open].blocking {
        ActivateInOrder(activated, done, open + 1);
      }
    }
  }

  /** A pending multi-tier review: some required tier is still to approve, and the next one can. */
  ghost predicate InProgress(review: Review) {
    exists done: nat, open: nat :: InOrder(review, done, open) && done < open && done < Required(review.definition.tiers)
  }

  /** A multi-tier review completed in order: exactly the tiers up to the last blocking one approved. */
  ghost predicate Completed(review: Review) {
    && InOrder(review, Required(review.definition.tiers), |review.tierReviews|)
    && review.status == Accepted
  }

  ghost predicate ValidDefinition(definition: Definition) {
    definition.multitier ==> definition.tiers != [] && forall t :: t in definition.tiers ==> t.minApprovers >= 1
  }

  /** A new review starts at its first tier; with no blocking tier it is completed at once. */
  lemma NewReviewStarts(definition: Definition)
    requires definition.multitier && ValidDefinition(definition)
    ensures var review := NewReview(definition);
      if Required(definition.tiers) == 0 then Completed(review) else InProgress(review) && review.status == Open
  {
    var tiers := definition.tiers;
    var first := FirstActivated(definition);
    assert InOrder(first, 0, 1);
    if !tiers[0].blocking {
      ActivateInOrder(first, 0, 1);
    }
  }

  /**
   * Approving acts on the first tier not yet approved and on no other: the tiers approved remain a
   * prefix, and the review is approved exactly when its last blocking tier is.
   */
  lemma ApproveTierInOrder(review: Review, user: User, approvers: set<User>)
    requires InProgress(review) && ApproveTier(review, user, approvers).Ok? && review.status == Open
    ensures var after := ApproveTier(review, user, approvers).value;
      && after.definition == review.definition
      && ((after.status == Open && InProgress(after)) || Completed(after))
  {
    var done: nat, open: nat :| InOrder(review, done, open) && done < open && done < Required(review.definition.tiers);
    FirstIs(review.tierReviews, Active, done);
    var t := review.tierReviews[done];
    var approvedBy := t.approvedBy + {user};
    var approved := review.(tierReviews := review.tierReviews[done := WithVote(t, user)]);
    assert InOrder(approved, done, open);
    if Quorum(t.tier, approvers, approvedBy) {
      CloseTier(approved, done, open);
      ActivateInOrder(SetStatus(approved, done, Done), done + 1, open);
      assert ApproveTier(review, user, approvers) == Ok(ActivateNext(SetStatus(approved, done, Done)));
    }
  }

  /**
   * An approval is accepted from a designated approver who has not yet approved the first pending
   * tier. It is recorded, and closes the tier exactly when all designated approvers, or as many as
   * the tier asks for, have now approved.
   */
  lemma ApproveTierExact(review: Review, user: User, approvers: set<User>, i: nat)
    requires FirstWith(review.tierReviews, Active) == Some(i)
    ensures ApproveTier(review, user, approvers).Ok? <==> user in approvers && user !in review.tierReviews[i].approvedBy
    ensures ApproveTier(review, user, approvers).Ok? ==>
      var t, after := review.tierReviews[i], ApproveTier(review, user, approvers).value.tierReviews[i];
      && after.approvedBy == t.approvedBy + {user}
      && (after.status == Done <==>
            if t.tier.requireAll then forall a :: a in approvers ==> a in after.approvedBy else |after.approvedBy| >= t.tier.minApprovers)
  {
    if ApproveTier(review, user, approvers).Ok? {
      var t := review.tierReviews[i];
      var approved := review.(tierReviews := review.tierReviews[i := WithVote(t, user)]);
      ActivateProgress(SetStatus(approved, i, Done));
    }
  }

  lemma CloseTier(review: Review, done: nat, open: nat)
    requires InOrder(review, done, open) && done < open && HasApproval(review.tierReviews[done])
    ensures InOrder(SetStatus(review, done, Done), done + 1, open)
  {
  }

  /** Every tier has approved a completed review if and only if its last tier is blocking. */
  lemma EveryTierApproved(review: Review)
    requires Completed(review) && review.definition.tiers != []
    ensures (forall t :: t in review.tierReviews ==> t.status == Done)
        <==> review.definition.tiers[|review.definition.tiers| - 1].blocking
  {
    var n := |review.tierReviews|;
    assert review.tierReviews[n - 1] in review.tierReviews;
  }
}
