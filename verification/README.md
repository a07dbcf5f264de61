# Verified models of OpenSPP

Dafny 4.11 models of the parts of OpenSPP with the most state, branching and cross-function promises,
and proofs of what those parts promise over every input and every run. `dafny verify dfyconfig.toml`
checks the whole project.

| file | models |
|---|---|
| `ConsentPaging.dfy` | consent-filtered search paging, and a client that follows `next` |
| `FieldMapping.dfy` | the field-mapping apply strategy and the change detection that must agree with it |
| `Similarity.dfy`, `SimilarityMeaning.dfy` | duplicate similarity and field conflicts between change requests, and what they come to |
| `ChangeRequests.dfy` | a change request's life: its detail rows, the freeze after submission, decisions, apply |
| `ChangeRequestOperations.dfy` | what each of its operations does, field by field |
| `Approval.dfy` | approval records, reviews, tiers and freeze periods |
| `ApprovalActions.dfy` | what each of their actions does to the record, its reviews and their tiers |
| `ApprovalRuns.dfy`, `ApprovalVotes.dfy` | what survives runs of all their actions and of plain writes; when a record can be approved |
| `Routing.dfy` | the choice of an approval definition among sequenced candidates |
| `IfMatch.dfy` | partial updates of a change request with version tags |
| `Identifiers.dfy` | identifier lookups, creations, batches and references |
| `CelParser.dfy` | the CEL parser, with a printer |
| `CelSql.dfy`, `CelSqlMeaning.dfy`, `CelSqlSafety.dfy` | compilation to SQL CASE, both evaluations case by case, and when they agree |
| `AgeYears.dfy` | age comparisons and the date tests they are rewritten to |
| `Vocabulary.dfy`, `VocabularyCaches.dfy` | vocabulary predicates as prefix-notation domains, and the caches in front of the vocabulary |
| `DciMethods.dfy` | parameterized DCI methods as cached values |
| `ScanSweep.dfy` | the sweep of stranded malware scans |
| `Wrappers.dfy`, `Lists.dfy` | shared option, result and list types |

Objects whose methods update fields are classes; every such method is proved to equal a function of
the old state, and the promises are lemmas about these functions and about runs of them. An error
that the source raises rolls its transaction back, so a refused operation leaves the state unchanged.

## Where the code and its documentation differ

The model follows the code. Each difference has a lemma that shows it, and, where the code meets the
documented property for some inputs, one that says exactly when.

- Freeze periods are checked at submission only; approvals land inside them (`FreezeStopsSubmissionOnly`).
- Automatic approval of a submitter is a documented setting; the update it makes only matches pending
  records, so it is always refused (`AutoApproveRefused`).
- Not every tier approves: tiers after the last blocking one need not, and with no blocking tier at all
  the record can never be approved (`EveryTierApproved`, `ApprovableIff`, `StuckWithoutBlockingTier`). Batch
  and system approval do not look at tiers (`DirectSkipsTiers`).
- Tiers and reviews have public actions of their own, which look neither at the record nor at other tiers.
  Through them tiers are done out of sequence exactly if a required tier is non-blocking (`SequenceIff`), or
  started by hand (`StartedByHand`); the last blocking tier strands its record (`TierActionStrands`); and an
  older pending review is a way round the tiers of the newest (`StaleReviewIff`), the blocking tiers being
  required otherwise (`RunSound`). A non-blocking tier is waited for by the record's own approval, although
  its setting says otherwise, and not by an approval on a later tier (`NonBlockingHoldsUp`,
  `NonBlockingPassed`).
- `approval_state` and `approval_version` are plain fields: a write of the one approves (`ForgedApproval`), of
  the other lets a version be approved twice (`VersionReused`).
- After a rejection a single-tier review stays pending (`ResubmitAfterRejection`).
- A submitted change request is not locked to what was submitted. Four writes are never refused and alter
  it: giving its detail row to another request, deleting the row, `registrant_id` and `request_type_id`
  (`LockedKeeps`, `MovedRowIsOpen`, `RedirectedApply`). A write of `approval_state` lifts the lock, or
  approves without approval (`StateWriteLifts`, `KeptIffBound`, `AppliedIffApproved`), and one of
  `is_applied` lets a request be applied again (`AppliedAgain`). Without these its content is kept exactly
  if a detail row of its own was bound (`KeptIffBound`, `UnboundIsOpen`), and the value to be written exactly
  if the mapping's proposal does not move under the edits still possible and with time (`FixedIffStable`,
  `UnprotectedTransform`, `ClockTransform`). The repair of a missing detail and the tolerance of a repeated
  save have exact conditions (`EnsureRepairs`, `ResaveSelector`).
- Detection skips a mapping whose source the detail lacks; apply writes None for it
  (`AgreesIffSourceExists`). Padding is ignored exactly if it moves no report of a field that a candidate
  leaving the padded one alone can change (`ComparedExact`, `PaddingExact`, `PaddingThroughTransform`).
- `If-Match` compares the write date of the request, which an update of the detail does not move unless
  the selection is synced (`ConflictIff`, `BothAccepted`).
- The SQL of a value expression sees NULL where CEL reads False, zero or an empty recordset: null tests
  answer the opposite there, and comparisons are unknown that CEL decides (`TernarySafeIff`,
  `DisabilityDiffers`, `UnsetNumberDiffers`).
- `age_years(...) > n` and `<= n` are rewritten to tests that are a year off (`RewriteExact`,
  `EighteenIsOlder`).
- A code comparison in a domain also accepts codes that refer to the target, and `code_eq` evaluated
  directly also accepts codes the target refers to (`PredicateExact`). The documented order of `code()`
  is followed only in part (`CodeFollowsFourSteps`), and its cache and that of the groups survive
  creations and writes of codes (`Codes.Create`, `Codes.Write`, `ConceptGroups.WriteCode`).
- A batch of lookups is keyed by text in which an ID type may contain the separator (`BatchConfuses`).

## Model

| member | source | states |
|---|---|---|
| `ConsentPaging.ExamineBatch` | spp_api_v2/utils/pagination.py:79-88 | The inner loop examines a batch from the front: it returns exactly the visible records of the rows it examined, stops at the row that fills the page and never later, and reports a hidden row exactly when one was examined. |
| `ConsentPaging.FetchBatch` | spp_api_v2/utils/pagination.py:74-94 | One round of the outer loop keeps the reference scan's state: the rest of the page, scanned from the new offset with what is still wanted and allowed, ends where the whole page does. |
| `ConsentPaging.FetchWithConsent` | spp_api_v2/utils/pagination.py:37-96 | Batches, the 100-row cap and early breaks do not matter: a page ends where a row-by-row scan limited to the factor times a page of rows ends (the services use 3), and holds exactly the visible rows up to there, at most `count`. |
| `ConsentPaging.ScanEndMeaning` | spp_api_v2/utils/pagination.py:65-80 | Why a page stops: it is full, its budget is spent or the data is at its end; and no row is examined beyond the one that filled it. |
| `ConsentPaging.SearchPage` | spp_api_v2/routers/individual.py:238-256 | The published page, its total and its `next` are those of the reference scan. |
| `ConsentPaging.NextMeaning` | spp_api_v2/utils/pagination.py:17-34 | `next` is the first row not examined and at least a page further; a page without `next` has reached the end; a page that is consent-filtered or met a hidden row links exactly while rows remain and publishes the number of records returned as its total; any other links exactly when full and publishes the number of all rows. |
| `ConsentPaging.LinkToEmptyPage` | spp_api_v2/README.rst:224-227 | A page links to an empty one at the end of the data only for an unfiltered client with a full last page and nothing hidden; a consent-filtered page never does. |
| `ConsentPaging.FollowNext` | spp_api_v2/README.rst:218-227 | Following `next` from the first page until it is null ends, within a bounded number of pages, having returned exactly the rows the client may see, each once and in database order, for every visibility pattern, page size and over-fetch factor. |
| `FieldMapping.Apply` | spp_change_request_v2/strategies/field_mapping.py:91-159 | The loop over the effective mappings has the specified outcome: it raises and writes nothing, also for a target the registrant lacks, or the registrant becomes the specified record. |
| `FieldMapping.ValuesFail` | spp_change_request_v2/strategies/field_mapping.py:128-131 | Apply raises exactly when the transform of some effective mapping fails. |
| `FieldMapping.ValuesMeaning` | spp_change_request_v2/strategies/field_mapping.py:128-147 | A target is written exactly when one of its mappings changes it, with a value that differs from the stored one as Python compares them. |
| `FieldMapping.LastChangeWritten` | spp_change_request_v2/strategies/field_mapping.py:128-139 | Of several changing mappings into one target the last one's value is written. |
| `FieldMapping.AppliedValue` | spp_change_request_v2/strategies/field_mapping.py:91-152 | After a successful apply the target of a mapping that has it to itself holds the proposed value, whether it was written or already there. |
| `FieldMapping.UntargetedKept` | spp_change_request_v2/strategies/field_mapping.py:128-152 | A field that no effective mapping changes keeps its value, a regenerated name excepted. |
| `FieldMapping.NameRegenerated` | spp_change_request_v2/strategies/field_mapping.py:149-152 | When a mapping changes a name part of an individual, the name afterwards is formatted from the family, given and additional name as they are afterwards, whatever is mapped into the name itself; in every other case the name is a field like any other. |
| `FieldMapping.WrittenExactly` | spp_change_request_v2/strategies/field_mapping.py:128-147 | Read off the type's own mappings: a target gets the value of the detail's source field, or what the transform makes of value, detail, registrant and time, when that differs from what it has and no later mapping that takes part changes it; on a dynamic type those take part whose routing field, or else source, is selected. |
| `FieldMapping.RefusedExactly` | spp_change_request_v2/strategies/field_mapping.py:91-126 | Apply is refused exactly: without a detail; without a mapping that takes part; when the transform of one fails; or when one would change a field the registrant lacks. |
| `FieldMapping.SameMeaning` | spp_change_request_v2/strategies/field_mapping.py:134-135 | Values compare as in Python: the same value, or numbers, flags and record ids of one number. |
| `FieldMapping.ProposedChangedFields` | spp_change_request_v2/models/conflict_mixin.py:297-354 | The detection loop computes the set of source fields whose mapping would write a different value. |
| `FieldMapping.ReportedExactly` | spp_change_request_v2/models/conflict_mixin.py:297-354 | Detection falls back to the whole field set unless the type is dynamic, writes by field mapping and has mappings; otherwise it reports exactly the sources of readable mappings whose transform fails or proposes another value than the target has. |
| `FieldMapping.DetectionAgreesWithApply` | spp_change_request_v2/strategies/field_mapping.py:75-89 | Detection and apply agree over the routed mappings: apply raises exactly when a routed transform fails, and otherwise a target changes exactly when detection's comparison finds a change, or that change is a None over an unset value; whatever apply would change is reported. |
| `FieldMapping.DetectedIffWritten` | spp_change_request_v2/README.rst:1011-1019 | Field by field: where no other mapping shares the source or the target, detection reports the source if and only if apply changes the target or writes None to it. |
| `FieldMapping.AgreesIffSourceExists` | spp_change_request_v2/models/conflict_mixin.py:347-353 | For a direct mapping they agree if and only if the source is a field of the detail: for a missing source detection skips the mapping while apply writes None. |
| `FieldMapping.OnlyRoutedTargetsChange` | spp_change_request_v2/strategies/field_mapping.py:19-44 | On a dynamic type a field that no mapping with the selected routing key targets is untouched. |
| `FieldMapping.RefusedWithoutRoutedMapping` | spp_change_request_v2/strategies/field_mapping.py:99-126 | On a dynamic type apply is refused for want of a mapping exactly when none has the selected routing key. |
| `FieldMapping.NoOpApplies` | spp_change_request_v2/strategies/field_mapping.py:105-106 | A true no-op still applies: nothing is written exactly when no effective mapping changes its target, and then apply succeeds. |
| `Similarity.ScoreSet` | spp_change_request_v2/models/conflict_mixin.py:549-560 | Scoring a set of fields in any order of visiting gives the same score. |
| `Similarity.CalculateSimilarity` | spp_change_request_v2/models/conflict_mixin.py:500-609 | With the caller's change set passed in or derived here, the score is the one of deriving it for this pair. |
| `Similarity.DetectDuplicates` | spp_change_request_v2/models/conflict_mixin.py:479-498 | The candidate loop, with the change set derived once, reports the same duplicates and scores as deriving it for every candidate, and the greatest score. |
| `SimilarityMeaning.DuplicatesMeaning` | spp_change_request_v2/models/conflict_mixin.py:479-490 | The duplicates are exactly the candidates whose score reaches the threshold, with that score, in candidate order. |
| `Similarity.ScoreMeaning` | spp_change_request_v2/models/conflict_mixin.py:546-560 | A derived score lies between 0 and 100; it is 100 exactly when both change some field and all such fields are equal after normalisation, and 0 exactly when none is equal or similar. |
| `SimilarityMeaning.DerivedScore` | spp_change_request_v2/models/conflict_mixin.py:532-560 | The derived score is the share of the fields that both requests change and both details have, in percent: a whole point for an equal field, 0.8 for a similar one. |
| `SimilarityMeaning.ListedScore` | spp_change_request_v2/models/conflict_mixin.py:562-609 | For a static type on either side it is the share of the configured fields on the same scale, a field that either detail lacks counting against it; without a detail it is zero. |
| `SimilarityMeaning.TextsCompare` | spp_change_request_v2/models/conflict_mixin.py:611-645 | Texts are equal up to case and surrounding spaces, similar when one then reads in the other, and different otherwise. |
| `SimilarityMeaning.OthersCompare` | spp_change_request_v2/models/conflict_mixin.py:611-622 | Other values are equal or different: unset ones equal each other, numbers by value, references references only. |
| `SimilarityMeaning.Trimmed` | spp_change_request_v2/models/conflict_mixin.py:619-620 | Trimming takes all spaces from both ends, and nothing else. |
| `Similarity.SimilaritySymmetric` | spp_change_request_v2/models/conflict_mixin.py:500-609 | The score does not depend on which request runs the detection. |
| `Similarity.ComparedExact` | spp_change_request_v2/README.rst:1050-1061 | Editing a field leaves the set of compared fields as it is, for every candidate of the same type and registrant that leaves the field alone, if and only if no such candidate can change a field the edit moves. |
| `Similarity.PaddingExact` | spp_change_request_v2/README.rst:1050-1061 | Where the fields the edit moves can have any value in a candidate, the same condition is exactly when no score against such a candidate ever changes. |
| `Similarity.PaddingIgnored` | spp_change_request_v2/models/conflict_mixin.py:532-560 | The score against a candidate that changes no field the edit moves stays the same. |
| `Similarity.MovedHarmlessly` | spp_change_request_v2/models/conflict_mixin.py:297-354 | An edit can move another field's report without any candidate that leaves the edited field alone changing that field. |
| `Similarity.UnreadIsUnmoved` | spp_change_request_v2/models/conflict_mixin.py:532-546 | An edit of a field that no other mapping's transform reads moves no other report. |
| `Similarity.PaddingThroughTransform` | spp_change_request_v2/models/conflict_mixin.py:532-546 | It can move: a transform that reads the edited field lets such an edit take the score from 100 to 0. |
| `Similarity.FilterByFieldConflicts` | spp_change_request_v2/models/conflict_mixin.py:366-414 | The loop matches exactly the candidates that change, and set, a field of the rule that this request changes and sets too; a rule without fields matches every candidate. |
| `SimilarityMeaning.ConflictsMeaning` | spp_change_request_v2/models/conflict_mixin.py:392-412 | Two requests conflict exactly when a field of the rule is set in both and changed by both, a request without a derived change set counting as changing it. |
| `SimilarityMeaning.ConflictingInOrder` | spp_change_request_v2/models/conflict_mixin.py:391-414 | Candidates are matched one by one and kept in order. |
| `Similarity.ConflictUnaffectedByEdit` | spp_change_request_v2/models/conflict_mixin.py:356-364 | Editing a field the rule does not name neither hides nor makes a conflict, unless it moves the report of another field. |
| `ChangeRequests.ChangeRequest.Write` | spp_change_request_v2/models/change_request.py:722-736 | A write of frozen fields takes effect, or raises and changes nothing, as specified; the fields nothing guards are written by `WriteRegistrant` and `WriteType`. |
| `ChangeRequests.ChangeRequest.AssertContentEditable` | spp_change_request_v2/models/change_request_detail_base.py:102-127 | The loop over protected fields refuses exactly the writes that change one of them on a locked request. |
| `ChangeRequests.ChangeRequest.WriteRow` | spp_change_request_v2/models/change_request_detail_base.py:129-140 | A write of a detail row, with its sync of the selection, takes effect or is undone altogether. |
| `ChangeRequests.ChangeRequest.CreateRow` | spp_change_request_v2/models/change_request_detail_base.py:142-148 | Creating a detail row, with its sync, takes effect or is undone altogether. |
| `ChangeRequests.ChangeRequest.Ensure` | spp_change_request_v2/models/change_request.py:835-865 | `_ensure_detail` creates, binds and prefills a row, or is undone altogether. |
| `ChangeRequests.ChangeRequest.SubmitForApproval` | spp_change_request_v2/models/change_request.py:1112-1125 | Submission is accepted from draft and revision only, and on dynamic types only with a selection. |
| `ChangeRequests.ChangeRequest.ActionApply` | spp_change_request_v2/models/change_request.py:1473-1506 | Apply runs once, on an approved request, through the strategy; a failing strategy leaves it unapplied and the registrant unchanged. |
| `ChangeRequests.ChangeRequest.ActionApprove` | spp_change_request_v2/models/change_request.py:1087-1105 | Approval of a pending request, with apply in the same transaction when the type asks for it. |
| `ChangeRequestOperations.RequestWriteMeaning` | spp_change_request_v2/models/change_request.py:669-736 | A write of the request is refused exactly when it is locked and a frozen field would change, the first binding to a row of its own excepted; each field named then has the value written, and the others are as before. |
| `ChangeRequestOperations.RowWriteMeaning` | spp_change_request_v2/models/change_request_detail_base.py:77-140 | A detail write is accepted exactly for a row of the request's own and existing fields, and on a locked request only if no protected field changes and the selection it would sync is the one the request has. The fields named get the values written; on a dynamic type a write naming the selector or the selected field makes the selection show the row: its selector, the registrant's value for the first mapping of that source, and the row's value. |
| `ChangeRequestOperations.RowCreateMeaning` | spp_change_request_v2/models/change_request_detail_base.py:142-148 | A detail row is created with the values given; on a dynamic type a selector among them makes the selection show the row, which a locked request must show already. |
| `ChangeRequestOperations.OpeningMeaning` | spp_change_request_v2/models/change_request_detail_base.py:276-300 | Opening binds a row only where none is bound: the blank one with what the prefill takes from the registrant, the fields truthy there. |
| `ChangeRequestOperations.ActionsAccepted` | spp_change_request_v2/models/change_request.py:1087-1125 | When submission, approval, rejection, revision request, reset and apply are accepted, and what each writes; approval applies in the same step when the type asks for it. |
| `ChangeRequestOperations.WritesRefused` | spp_change_request_v2/models/change_request_detail_base.py:102-140 | Writes are refused for rows and fields that do not exist and by the lock, which asks for the protected fields first. |
| `ChangeRequestOperations.ActionsRefused` | spp_change_request_v2/models/change_request.py:1473-1506 | Which refusal each action gives: applied already, not approved, the failure of the strategy, no selection, or a state that does not allow it. |
| `ChangeRequestOperations.RowsTouched` | spp_change_request_v2/models/change_request_detail_base.py:129-140 | Giving a row away and deleting it are accepted for the request's own rows only, and touch no other row. |
| `ChangeRequestOperations.FrozenMeaning` | spp_change_request_v2/models/change_request.py:707-711 | The freeze compares as Python does, with None and the empty text among the unset values. |
| `ChangeRequests.StateSteps` | spp_api_v2_change_request/services/change_request_service.py:498-543 | Each action moves the state along its own edge only, and edits and applies never do; only a plain write of the state moves it along any. |
| `ChangeRequests.LockedKeeps` | spp_change_request_v2/models/change_request.py:669-736 | Of the accepted steps from a pending, approved or rejected request with a detail of its own, exactly four alter its type, registrant, selection, pointer or protected content, and none is ever refused: giving the bound row away, deleting it, writing another registrant, writing another type. |
| `ChangeRequests.MovedRowIsOpen` | spp_change_request_v2/models/change_request_detail_base.py:77-140 | The bound row can be given to another request, edited there and taken back: a locked request ends up bound to a row of its own with any content. |
| `ChangeRequests.RedirectedApply` | spp_change_request_v2/models/change_request.py:34-73 | On an approved request another registrant or another type can be written, and apply then updates that registrant, or follows that type's mappings. |
| `ChangeRequestOperations.RedirectsMeaning` | spp_change_request_v2/models/change_request.py:34-73 | A write of another registrant, or of another type, replaces what depends on it and nothing else; a write of the same one changes nothing. |
| `ChangeRequests.KeptIffBound` | spp_change_request_v2/models/change_request.py:669-720 | Let only some states be written. Then every run from a locked request that neither opens it by an action nor alters it keeps its whole change if and only if the request points at a detail row of its own and neither draft nor revision is among those states. |
| `ChangeRequests.StateWriteLifts` | spp_approval/models/approval_mixin.py:40-53 | An edit refused on a locked request is accepted after a write of the state, and a second write hides it. |
| `ChangeRequests.AppliedIffApproved` | spp_change_request_v2/models/change_request.py:1473-1500 | Let only some states be written. Then in every run from an unapplied draft that can be applied a request is applied only when approved since its last submission, if and only if approved is not among those states. |
| `ChangeRequests.AppliedOnce` | spp_change_request_v2/models/change_request.py:1483-1484 | A request is applied at most once, and never if marked applied, as long as `is_applied` is not written back. |
| `ChangeRequests.AppliedAgain` | spp_change_request_v2/models/change_request.py:135 | A write of `is_applied` marks a request applied that was not, or lets an applied one be applied again. |
| `ChangeRequests.SelectionLocked` | spp_change_request_v2/models/change_request.py:669-720 | The selection and its old and new values stay fixed there even without a bound detail. |
| `ChangeRequests.RunConsistent` | spp_change_request_v2/README.rst:1137-1144 | In every run of any events: unless a write moved its state since the last submission, a pending or approved request has the selection of that submission and approved means approved since; unless another unguarded write altered it, it also has that submission's type, registrant and content. |
| `ChangeRequestOperations.HistoryMeaning` | spp_change_request_v2/README.rst:1137-1144 | What `since the last submission` means in every run: an approval, an unguarded alteration or a write of the state is known of exactly if one was accepted after the last accepted submission, and the type, registrant, selection and content compared with are those that submission left. |
| `ChangeRequests.AppliesWhatWasSubmitted` | spp_change_request_v2/README.rst:1137-1144 | In every run of any events, apply leaves fields alone that the selection does not route to; unless a write moved the state since the last submission, the request was approved since and has its selection; unless another unguarded write altered it, apply writes to the submitted registrant, through the submitted type, the values proposed at submission for mappings that are direct or read protected fields only. |
| `ChangeRequests.UnboundIsOpen` | spp_change_request_v2/models/change_request.py:706-720 | Without a pointer any content can be bound after submission. |
| `ChangeRequests.EnsureRepairs` | spp_change_request_v2/models/change_request.py:711-716 | Opening the detail repairs a submitted request without one if and only if the prefill finds no protected field to change; before submission it always succeeds. |
| `ChangeRequestOperations.ResaveSelector` | spp_change_request_v2/models/change_request_detail_base.py:119-121 | Saving the same selector again on a locked request is accepted if and only if the registrant's value still reads as it did when selected. |
| `ChangeRequests.FixedIffStable` | spp_change_request_v2/models/change_request_detail_base.py:77-100 | For a mapping that has its target to itself, every undisturbed run from a pending or approved request writes what the mapping proposes there if and only if no edit the lock lets through, no change of the registrant and no passing of time alters that proposal. |
| `ChangeRequests.StableIsFixed` | spp_change_request_v2/models/change_request_detail_base.py:77-100 | That holds for every mapping that is direct, or whose transform depends on protected fields only and not on the clock. |
| `ChangeRequests.UnprotectedTransform` | spp_change_request_v2/models/change_request_detail_base.py:77-100 | It can fail: a transform that reads an unprotected detail field lets an edit made after approval decide what is written. |
| `ChangeRequests.ClockTransform` | spp_change_request_v2/strategies/field_mapping.py:200-225 | A transform that reads the clock lets the time of applying decide. |
| `Approval.IsFrozen` | spp_approval/models/approval_freeze.py:106-144 | A model is frozen exactly when some freeze that is not cancelled covers the time, the company and the model. |
| `Approval.ActivateNextTierOrComplete` | spp_approval/models/approval_review_multitier.py:129-161 | The loop activates tiers up to the next blocking one, or completes the review, as specified. |
| `Approval.ActivateInOrder` | spp_approval/models/approval_review_multitier.py:129-161 | Activation keeps the tiers in order and completes the review exactly when the last blocking tier has approved. |
| `Approval.NewReviewStarts` | spp_approval/models/approval_review_multitier.py:87-115 | A new review has its first tier pending; with no blocking tier it is approved at creation. |
| `Approval.ApproveTierExact` | spp_approval/models/approval_tier_review.py:105-179 | An approval counts once per designated approver and closes the tier exactly at its quorum. |
| `Approval.ApproveTierInOrder` | spp_approval/models/approval_review_multitier.py:179-191 | An approval acts on the first tier not yet approved: approved tiers remain a prefix, and the review is approved exactly with its last blocking tier. |
| `Approval.ApprovalRecord.ActionSubmit` | spp_approval/models/approval_mixin.py:271-327 | Submission has the specified outcome: state, freeze, automatic approval, one pending review per definition, new review. |
| `Approval.ApprovalRecord.ActionApprove` | spp_approval/models/approval_mixin_multitier.py:143-188 | Approval has the specified outcome, on the active review's current tier, and completes the record with its review. |
| `Approval.ApprovalRecord.ActionDoApprove` | spp_approval/models/approval_mixin.py:367-442 | The conditional update approves a pending record of the version seen, raises its version and closes its reviews, or changes nothing. |
| `Approval.ApprovalRecord.ActionDoReject` | spp_approval/models/approval_mixin_multitier.py:207-238 | Rejection has the specified outcome; a single-tier review stays pending. |
| `Approval.ApprovalRecord.ActionRequestRevision` | spp_approval/models/approval_mixin.py:527-559 | A revision request is accepted from an approver of a pending record and closes its reviews. |
| `ApprovalActions.SubmissionMeaning` | spp_approval/models/approval_mixin.py:271-315 | A submission is accepted exactly from draft or revision, outside a freeze the definition respects, when it is not to be approved automatically and no review of its definition is pending; it puts a new review before the others and changes nothing else. |
| `ApprovalActions.SubmissionRefused` | spp_approval/models/approval_mixin.py:271-297 | A submission is refused for its state first, then for a freeze, then as the automatic approval is, then for a pending review. |
| `ApprovalActions.NewReviewMeaning` | spp_approval/models/approval_review_multitier.py:77-115 | In a new review a tier is pending exactly if no blocking tier comes before it, nobody has voted, and it is approved at once exactly if no tier blocks. |
| `ApprovalActions.SingleTierApproval` | spp_approval/models/approval_mixin.py:329-333 | Under a single-tier review an approver approves a pending record at the version seen; every pending review is accepted with its tiers as they were. |
| `ApprovalActions.MultiTierApproval` | spp_approval/models/approval_mixin_multitier.py:143-188 | Under a multi-tier review an approval is a vote on the first pending tier by an approver who has not voted there; a vote that completes the review approves the record at the version seen, any other leaves it pending and touches no other review. |
| `ApprovalActions.NothingToApprove` | spp_approval/models/approval_mixin.py:587-604 | Without a pending review, or a pending tier of a multi-tier one, every approval is refused. |
| `ApprovalActions.DecisionRefused` | spp_approval/models/approval_mixin.py:561-664 | Approvals, revision requests and resets are refused for the state first, and then for the user or the version. |
| `ApprovalActions.DirectApprovalMeaning` | spp_approval/models/approval_mixin.py:367-429 | Approval without tiers is accepted exactly for a pending record at the version seen, raises the version by one and accepts every pending review. |
| `ApprovalActions.RejectionMeaning` | spp_approval/models/approval_mixin_multitier.py:207-238 | A rejection looks at no state; under a multi-tier review one of the first pending tier's approvers rejects that tier and the review and skips the tiers that wait, otherwise only the state changes. |
| `ApprovalActions.RevisionMeaning` | spp_approval/models/approval_mixin.py:527-546 | A revision is requested of a pending record by someone who may act on its newest pending review; every pending review is then denied with its tiers as they were, the others and the version stay, and none is pending. |
| `ApprovalActions.ResubmitAfterRevision` | spp_approval/models/approval_mixin.py:543-546 | After a revision request the record can be submitted again, under exactly the definitions that neither freeze nor auto-approve it. |
| `ApprovalActions.ActivationExact` | spp_approval/models/approval_review_multitier.py:129-161 | Activation starts exactly the waiting tiers before which no blocking tier waits, and approves exactly the reviews whose blocking tiers are all done or skipped. |
| `ApprovalActions.TierApprovalMeaning` | spp_approval/models/approval_tier_review.py:105-179 | The approval of a tier is accepted from one of its approvers who has not voted, while it is pending; it adds the vote, and closes the tier and activates the next exactly at the quorum. |
| `ApprovalActions.TierRejectionMeaning` | spp_approval/models/approval_tier_review.py:181-229 | The rejection of a pending tier by one of its approvers rejects the review and skips the tiers that wait; activation by hand starts a waiting tier and asks for no approver. |
| `ApprovalActions.ReviewActionsMeaning` | spp_approval/models/approval_review_multitier.py:179-205 | The actions of a review and of its tiers change that review only, never the record's state, version or other reviews. |
| `ApprovalActions.FreezeMeaning` | spp_approval/models/approval_freeze.py:106-144 | A freeze leaves a record alone exactly when it is cancelled, over or still to come, of another company, or for other models. |
| `Approval.ApprovalRecord.TierActionApprove` | spp_approval/models/approval_tier_review.py:105-179 | The approval of a tier itself asks for a pending tier and one of its approvers, and for nothing of the record or of earlier tiers; it activates further tiers or completes the review. |
| `Approval.ApprovalRecord.TierActionReject` | spp_approval/models/approval_tier_review.py:181-205 | The rejection of a tier itself rejects the review and skips its waiting tiers, and leaves the record as it is. |
| `Approval.ActivateProgress` | spp_approval/models/approval_review_multitier.py:129-161 | Activation starts waiting tiers, the first of them included, and changes nothing else of any tier. |
| `ApprovalRuns.ApproveOrdered` | spp_approval/models/approval_mixin_multitier.py:143-188 | An accepted approval keeps every pending review in tier order, and approves the record only with the review of its current submission. |
| `ApprovalRuns.RunOrdered` | spp_approval/README.rst:34-49 | In every run of the record's own actions an approved record was approved through the review of its last submission, by exactly its tiers up to the last blocking one, in sequence. |
| `ApprovalRuns.UnderwayVote` | spp_approval/models/approval_tier_review.py:105-179 | An approval of any pending tier of a review under way completes it, with all blocking tiers approved, or leaves it under way. |
| `ApprovalRuns.RunHealthy` | spp_approval/models/approval_review_multitier.py:129-161 | In every run of all actions of records, reviews and tiers a pending review has a blocking tier left, and its first tier not done is at hand. |
| `ApprovalRuns.RunSound` | spp_approval/README.rst:34-49 | In every run of all these actions that forges nothing, and in which no submission finds a review still pending, an approved record has had every blocking tier of its newest review approved. |
| `ApprovalRuns.ApprovedByApproval` | spp_approval/models/approval_mixin.py:367-399 | Without direct approval and writes of the state, approved means that an approval was accepted after the last submission. |
| `ApprovalRuns.ForgedApproval` | spp_approval/models/approval_mixin.py:40-53 | A write of the state approves in any state, and direct approval any pending record. |
| `ApprovalRuns.SequenceIff` | spp_approval/models/approval_tier_review.py:105-179 | With the actions of tiers and reviews among the events, a definition's required tiers are always done one after the other if and only if they are all blocking. |
| `ApprovalRuns.StartedByHand` | spp_approval/models/approval_tier_review.py:207-227 | A tier can be started by hand without an approver, and then be approved before the one ahead of it, blocking or not. |
| `Approval.EveryTierApproved` | spp_approval/models/approval_tier.py:93-97 | Every tier has approved if and only if the last tier is blocking. |
| `ApprovalRuns.NonBlockingHoldsUp` | spp_approval/models/approval_tier.py:93-97 | In every run of the record's own actions a tier is done only after all earlier ones, non-blocking ones included. |
| `ApprovalVotes.NonBlockingPassed` | spp_approval/models/approval_tier.py:93-97 | Approved on the tier itself, the last blocking tier completes the review with a non-blocking one still at hand; the record stays pending and refuses every approval. |
| `ApprovalVotes.TierActionStrands` | spp_approval/models/approval_review_multitier.py:129-161 | After an approval made on a tier itself, the record can still be approved within its submission if and only if a blocking tier is left. |
| `ApprovalVotes.StaleReviewIff` | spp_approval/models/approval_mixin_multitier.py:159-188 | A pending record can be approved without the blocking tiers of its newest review, by events that forge and submit nothing, if and only if an older review is still pending. |
| `ApprovalVotes.VoteStep` | spp_approval/models/approval_mixin_multitier.py:143-188 | A vote by a user of the tier at hand is ignored, counts once, moves on to the next tier, or approves the record. |
| `ApprovalVotes.MidwayApprovable` | spp_approval/models/approval_tier_review.py:105-179 | A record in the middle of its tiers, however they were acted on, can be approved by their staff if and only if every tier not done, up to the last blocking one, has someone left to approve and enough approvers. |
| `ApprovalVotes.ApprovableIff` | spp_approval/models/approval_review_multitier.py:87-161 | After a submission some sequence of approvals by the staff reaches Approved if and only if the definition is single-tier with an approver, or has a blocking tier and enough approvers for every tier up to the last blocking one. |
| `ApprovalVotes.StuckWithoutBlockingTier` | spp_approval/models/approval_review_multitier.py:129-161 | From a record without a pending review no run that forges nothing, and submits only definitions without a blocking tier, ever reaches Approved. |
| `ApprovalVotes.DirectSkipsTiers` | spp_approval/models/approval_mixin.py:781-802 | Batch and system approval need no tier: they approve any pending multi-tier record at once. |
| `ApprovalVotes.OneApprovalPerVersion` | spp_approval/models/approval_mixin.py:374-399 | Of all approvals made from one version at most one completes, in any run and from any state in which no write lowers the version. |
| `ApprovalVotes.VersionReused` | spp_approval/models/approval_mixin.py:133 | A version written back is approved a second time. |
| `ApprovalVotes.AutoApproveRefused` | spp_approval/models/approval_mixin.py:293-297 | Automatic approval of a submitter who is an approver is always refused: the update only matches pending records. |
| `ApprovalVotes.FreezeStopsSubmissionOnly` | spp_approval/models/approval_mixin.py:283-290 | Inside freeze periods a record, single- or multi-tier, can become approved if and only if it was pending with a pending review before: approvals land there, and submissions of the definitions that respect freezes do not. |
| `ApprovalVotes.ResubmitAfterRejection` | spp_approval/models/approval_review.py:75-103 | A rejected record can be submitted again under its definition if and only if that is multi-tier: a single-tier review stays pending and blocks the next. |
| `CelParser.Expr` | spp_cel_domain/services/cel_parser.py:531-539 | Every accepted expression is a tree the grammar has, and consumes tokens. |
| `CelParser.Reads` | spp_cel_domain/services/cel_parser.py:423-539 | Reading a printed tree at a lower power reads exactly that tree and goes on with what follows. |
| `CelParser.ItemsRead` | spp_cel_domain/services/cel_parser.py:434-489 | Argument and item lists read back, with their closing token. |
| `CelParser.ParsePrint` | spp_cel_domain/README.rst:148-150 | Printing any tree with the fewest parentheses its levels need and parsing it gives the same tree. |
| `CelParser.PrintParse` | spp_cel_domain/services/cel_parser.py:391-396 | Every accepted text parses like the printed form of its tree. |
| `CelParser.ChainParsesRight` | spp_cel_domain/services/cel_parser.py:523-528 | An unparenthesised ternary chain of any length parses right-associatively. |
| `CelParser.TighteningNests` | spp_cel_domain/services/cel_parser.py:416-421 | Operators that tighten from left to right nest to the right without parentheses. |
| `CelParser.PrecedenceLadder` | spp_cel_domain/services/cel_parser.py:398-414 | Or, and, equality, order, sum and product, each by any of its operators, bind from loosest to tightest. |
| `CelParser.PrecedenceExact` | spp_cel_domain/services/cel_parser.py:398-414 | Of any two operators in a row the second takes the operand between them exactly by the table of precedences, written out operator by operator. |
| `CelParser.InReaches` | spp_cel_domain/services/cel_parser.py:398-421 | Membership is tighter than or and and, and looser than every other operator: what it tests is the operand before it, or the whole operation. |
| `CelParser.SignedIn` | spp_cel_domain/services/cel_parser.py:490-496 | A minus sign is tighter than membership, a negation looser. |
| `CelParser.InEnds` | spp_cel_domain/services/cel_parser.py:508-522 | After a membership only or and and can follow; any other operator makes the text a syntax error. |
| `CelParser.InChain` | spp_cel_domain/services/cel_parser.py:508-522 | Memberships in a row associate to the left. |
| `CelParser.TernaryReaches` | spp_cel_domain/services/cel_parser.py:523-528 | The condition and the last branch of a ternary reach over every operator. |
| `CelParser.ParseYields` | spp_cel_domain/services/cel_parser.py:391-539 | Parsing drops, adds and reorders nothing: parentheses and commas apart, an accepted text is its tree read from left to right. |
| `CelParser.LeftAssociative` | spp_cel_domain/services/cel_parser.py:499-522 | Operators of one level associate to the left. |
| `CelParser.NotReaches` | spp_cel_domain/services/cel_parser.py:490-493 | A negation reaches over the whole expression that follows. |
| `CelParser.MinusReaches` | spp_cel_domain/services/cel_parser.py:494-496 | A minus sign reaches over products and nothing looser. |
| `CelSql.TernaryToCase` | spp_cel_domain/models/cel_translator.py:1497-1534 | The loop over a ternary chain builds the specified flat CASE. |
| `CelSql.AstToSql` | spp_cel_domain/models/cel_translator.py:1422-1597 | Compilation yields the specified SQL, or none when the caller must fall back. |
| `CelSqlMeaning.CompiledExactly` | spp_cel_domain/models/cel_translator.py:1422-1597 | Which expressions compile: literals, names but `r`, fields of `r`, negations, connectives, comparisons, null tests by equality only, and ternaries, of what compiles itself; any other is left to Python. |
| `CelSqlMeaning.NamesCompile` | spp_cel_domain/models/cel_translator.py:1455-1475 | `null`, `true` and `false` compile to their values, and any other name to a column of the record. |
| `CelSql.FlattenNests` | spp_cel_domain/models/cel_translator.py:1497-1534 | The flattened CASE evaluates like one CASE nested in the ELSE of another, for chains of any length. |
| `CelSql.SqlAgrees` | spp_cel_domain/models/cel_translator.py:1395-1420 | On every record where the SQL does not raise, unset fields included, a value-safe expression has its CEL value, and a true-safe (false-safe) condition is TRUE (FALSE) exactly when CEL finds it true (false); safety is a condition on the expression and its fields' kinds. |
| `CelSql.NoNullsAgree` | spp_cel_domain/models/cel_translator.py:1395-1420 | On a record whose fields read are all set, links being read in null tests only, every compiled expression has its CEL value, whatever its form. |
| `CelSqlMeaning.ComparesMeaning` | spp_cel_domain/services/cel_parser.py:695-716 | Numbers compare as numbers, with true as one and false as zero, days as days, and texts by the order given. |
| `CelSqlMeaning.LinksCompare` | spp_cel_domain/services/cel_parser.py:695-716 | Links are equal as records of one model, and ordered as sets: only the empty one comes before another. |
| `CelSqlMeaning.ComparesConverse` | spp_cel_domain/services/cel_parser.py:695-716 | The other comparisons are negations and converses of equality, less and at most. |
| `CelSqlMeaning.KindsApart` | spp_cel_domain/services/cel_parser.py:695-716 | Values of two kinds are never equal and never ordered; null equals null and is ordered with nothing. |
| `CelSqlMeaning.FieldReads` | spp_metric_service/models/demographic_dimension.py:203-222 | A field reads as stored, a link as the record it points to; one not set reads as zero, an empty link or False. |
| `CelSqlMeaning.ThreeValued` | spp_cel_domain/models/cel_translator.py:1535-1550 | The connectives of SQL are known exactly where every truth value that an unknown operand may stand for gives the same. |
| `CelSqlMeaning.NeverRaises` | spp_cel_domain/models/cel_translator.py:1422-1597 | A well-typed expression, its comparisons between operands of one type and its conditions logical, raises on no record of its schema and has a value of its type, or NULL. |
| `CelSqlMeaning.ComparisonRaises` | spp_cel_domain/models/cel_translator.py:1535-1597 | A comparison is unknown if an operand is NULL, and raises exactly if its operands are set and of no one type. |
| `CelSqlMeaning.ConnectivesRaise` | spp_cel_domain/models/cel_translator.py:1477-1496 | And, or and not raise exactly if an operand is set and no truth value. |
| `CelSqlSafety.ConditionExact` | spp_cel_domain/models/cel_translator.py:1535-1597 | On any record a condition of comparisons, null tests, flags, and, or and not has in SQL the answer of three-valued logic over what is stored, and in CEL that of two-valued logic over what the ORM reads for it. |
| `CelSqlSafety.TernaryExact` | spp_cel_domain/models/cel_translator.py:1497-1534 | For ternaries nested in any way over such conditions the SQL has CEL's value on a record if and only if each condition on CEL's way is true in the one logic exactly if it is in the other. |
| `CelSqlSafety.ConditionSafeIff` | spp_cel_domain/models/cel_translator.py:1535-1597 | A condition of null tests, comparisons and flags, each field once, selects the same in SQL as in CEL on every record of a schema if and only if it is true-safe: a null test never is, a comparison exactly if CEL finds it false where the field is unset. |
| `CelSqlSafety.TernarySafeIff` | spp_cel_domain/models/cel_translator.py:1497-1534 | For ternaries nested in any way over such conditions the SQL has CEL's value on every record of the schema if and only if every condition is true-safe. |
| `CelSql.DisabilityDiffers` | spp_metric_service/data/demographic_dimensions.xml:26 | The shipped disability dimension: on a person without a recorded disability direct evaluation answers `pwd` and the SQL `non_pwd`; on every other person they agree. |
| `CelSql.UnsetNumberDiffers` | spp_cel_domain/services/cel_parser.py:695-716 | A number that is not set is zero for CEL and unknown in SQL. |
| `AgeYears.CutoffExact` | spp_cel_domain/services/cel_functions.py:99-127 | Whoever was born on the cutoff day or earlier is at least that many years old, on every day of the calendar, leap days included. |
| `AgeYears.AgeMeaning` | spp_cel_domain/services/cel_functions.py:125-133 | An age is the number of birthdays reached, 29 February counting as the day after the 28th in common years. |
| `AgeYears.YearsAgoMeaning` | spp_cel_domain/services/cel_functions.py:99-109 | The cutoff is the same day of the year, the 28th for a 29 February the year lacks, and none outside the years 1 to 9999. |
| `AgeYears.RewriteExact` | spp_cel_domain/models/cel_translator.py:678-717 | The date test that an age comparison is rewritten to selects a record exactly as direct evaluation does if and only if the comparison is neither greater-than nor at-most, or the age differs from the bound, or today is the cutoff birthday; an unset date differs for inequalities only. |
| `AgeYears.EighteenIsOlder` | spp_cel_domain/models/cel_translator.py:1627-1635 | Older than 18 selects everyone who is 18 except on the birthday, whom direct evaluation leaves out. |
| `Vocabulary.PlanReadsBack` | spp_cel_domain/models/cel_executor.py:634-687 | The domain of a plan whose leaves are one expression each, read back by operator arity, is one expression that accepts a record exactly when the plan does. |
| `Vocabulary.ExecutedExactly` | spp_cel_domain/models/cel_executor.py:634-663 | A plan is handed to execution exactly when a node that no domain expresses occurs anywhere in it. |
| `Vocabulary.TopLevelAnd` | spp_cel_domain/models/cel_executor.py:665-687 | And-ing any two well-formed domains, their conjunctions explicit or implicit and with SQL objects or without, accepts exactly what both accept. |
| `Vocabulary.FinalDomain` | spp_cel_domain/models/cel_executor.py:600-632 | Any base domain with a plan's own domain, or with its SQL subquery, accepts exactly the records that both accept. |
| `Vocabulary.GroupExact` | spp_cel_vocabulary/models/cel_vocabulary_translator.py:80-169 | A group predicate's domain accepts a record exactly when direct evaluation does; empty and unknown groups match nothing. |
| `Vocabulary.HelperMeaning` | spp_cel_vocabulary/models/cel_vocabulary_translator.py:31-36 | The semantic helpers are membership in four groups of fixed names. |
| `Vocabulary.PredicateExact` | spp_cel_vocabulary/services/cel_vocabulary_functions.py:46-143 | The domain and the direct evaluation of a vocabulary predicate agree on a record if and only if a condition on the codes' URIs holds; group predicates and helpers always agree. |
| `Vocabulary.TranslationPreserves` | spp_cel_vocabulary/README.md:106-121 | The domain of any boolean combination of vocabulary predicates is one prefix expression, and accepts a record as direct evaluation does if and only if no difference of a code comparison comes through there: one operand's does if the other does not decide the connective by itself, two do if the operands evaluate alike. |
| `ScanSweep.Search` | spp_attachment_av_scan/models/ir_attachment.py:929-935 | The search returns at most a batch of eligible attachments, oldest first, and all of them if fewer. |
| `ScanSweep.PickedIsBatch` | spp_attachment_av_scan/models/ir_attachment.py:929-935 | What it returns is exactly the eligible attachments with fewer than a batch ahead of them. |
| `ScanSweep.Attachments.Sweep` | spp_attachment_av_scan/models/ir_attachment.py:901-1013 | A run counts one attempt for exactly its batch, queues those of it that are readable and accepted, at most a batch, and leaves every other attachment alone. |
| `ScanSweep.Attachments.WriteBytes` | spp_attachment_av_scan/models/ir_attachment.py:171-225 | New bytes make an attachment pending with a fresh budget. |
| `ScanSweep.Attachments.ActionRescan` | spp_attachment_av_scan/models/ir_attachment.py:708-757 | A rescan re-arms an attachment and queues its job, and is refused, changing nothing, for quarantined, non-binary and empty ones and when the queue refuses the job. |
| `ScanSweep.NeverTaken` | spp_attachment_av_scan/models/ir_attachment.py:874-898 | Attachments that are not pending, not binary, empty, young, quarantined, forensic, out of scope or exhausted are never taken, nor any when the sweep is disabled. |
| `ScanSweep.TakenExactly` | spp_attachment_av_scan/models/ir_attachment.py:884-935 | Condition by condition: a run takes an attachment exactly when the sweep is enabled, it is pending, binary, not empty, older than the minimum age, neither quarantined nor forensic, on a model other than none and the menus, below the cap, and fewer than a batch of such attachments precede it. |
| `ScanSweep.TakenRests` | spp_attachment_av_scan/models/ir_attachment.py:876-882 | An attachment taken is not due again until the minimum age has passed, and then exactly if attempts are left. |
| `ScanSweep.ReArmedIsDue` | spp_attachment_av_scan/models/ir_attachment.py:171-225 | New bytes make any stored file of a business record due again, whatever its status, quarantine and attempts were, and a rescan any that is neither quarantined nor empty, both from the minimum age on. |
| `ScanSweep.WritesOne` | spp_attachment_av_scan/models/ir_attachment.py:876-882 | Every other event writes one attachment, and every write starts its clock anew; the end of a scan sets the verdict, and unrelated writes nothing else. |
| `ScanSweep.BatchBound` | spp_attachment_av_scan/models/ir_attachment.py:929-935 | A run takes at most a batch, and something whenever anything is eligible. |
| `ScanSweep.SweepConsumes` | spp_attachment_av_scan/models/ir_attachment.py:944-953 | The total of remaining attempts falls by the size of the batch, strictly while anything is eligible. |
| `ScanSweep.SweepingEnds` | spp_attachment_av_scan/README.md:72-90 | However often the sweep runs, it takes attachments in at most as many runs as attempts remained. |
| `ScanSweep.RunCapped` | spp_attachment_av_scan/README.md:72-90 | In every run of events no attachment exceeds its maximum attempts. |
| `ScanSweep.TakenAtMost` | spp_attachment_av_scan/README.md:72-90 | Unless re-armed, an attachment is taken exactly as often as its attempts grow, at most up to the cap. |
| `ScanSweep.NoStarvation` | spp_attachment_av_scan/models/ir_attachment.py:929-935 | An attachment that is due, condition by condition, and not written to is taken by the time the sweeps had room for all due before it and one more, whatever happens to others. |
| `Identifiers.LookupMeaning` | spp_api_v2/services/registrant_resolver.py:48-71 | A lookup answers the one live holder of the requested kind, that there is none, or that there are several: it never picks one of several. |
| `Identifiers.ResolveRegistrants` | spp_api_v2/services/registrant_resolver.py:74-103 | The batch pass groups exactly the holders of the requested identifiers by key. |
| `Identifiers.BatchIsSingle` | spp_api_v2/services/registrant_resolver.py:74-103 | A batch answers an identifier like a lookup of its own when no other requested one shares its key. |
| `Identifiers.BatchConfuses` | spp_api_v2/services/registrant_resolver.py:96-100 | Two requested identifiers with one key are confused on some registry. |
| `Identifiers.KeysDistinct` | spp_api_v2/services/registrant_resolver.py:98 | Keys are distinct when no ID type contains the separator. |
| `Identifiers.Registrants.CreateRegistrant` | spp_api_v2/services/registrant_resolver.py:106-141 | Creation is refused when an identifier is live anywhere, and otherwise adds the registrant with its identifiers. |
| `Identifiers.CreationMeaning` | spp_api_v2/services/registrant_resolver.py:106-141 | A creation is refused with the type of the first identifier in use, or for two of one type; otherwise there is one registrant more, of the kind asked for, and exactly its identifiers get a holder, the new one. |
| `Identifiers.CreatedResolves` | spp_api_v2/services/registrant_resolver.py:48-71 | Every identifier of a registrant just created resolves to it, as its kind and as any kind, and as the other kind to none. |
| `Identifiers.RemovalMeaning` | spp_api_v2/services/registrant_resolver.py:32-45 | Removing an ID ends what that ID held, and nothing else. |
| `Identifiers.BundleIsRun` | spp_api_v2/services/bundle_service.py:47-150 | A bundle that is not atomic does what its creations do one by one; an atomic one is accepted if and only if each of them would be, in order, and then does the same. |
| `Identifiers.RunSound` | spp_api_v2/README.rst:185-210 | Every run of creations, splits, bundles and removals keeps each live identifier on one registrant and one live ID per type on each. |
| `Identifiers.UniqueNeverAmbiguous` | spp_api_v2/services/registrant_resolver.py:48-71 | On such a registry no lookup is ambiguous. |
| `Identifiers.ReferenceRoundTrip` | spp_api_v2/routers/dependencies.py:14-47 | Building a reference and parsing it gives the identifier back if and only if its type has no separator and nothing in it reads as a percent escape. |
| `Identifiers.EscapeMeaning` | spp_api_v2/routers/dependencies.py:40 | A percent escape in capitals or small letters decodes to the character of its number, and any other character stays. |
| `Identifiers.ReferenceRefused` | spp_api_v2/routers/dependencies.py:14-47 | A reference is refused exactly when it is of another kind or has no separator once decoded. |
| `Identifiers.MemberReferenceResolves` | spp_api_v2/services/group_service.py:178-190 | An individual is left out of member lists exactly when it has no live ID; otherwise its reference resolves to it, or is refused as ambiguous with it among the holders. |
| `Identifiers.UniqueReferencesResolve` | spp_api_v2/README.rst:168-176 | With unique live identifiers every member reference resolves to its member. |
| `Routing.ResolveDynamicApproval` | spp_change_request_v2/models/change_request.py:977-1008 | The loop over the sorted candidates returns the specified route; without a selection there is none. |
| `Routing.RouteMeaning` | spp_change_request_v2/README.rst:572-574 | The route is the candidate whose condition holds of the lowest sequence, the first listed of several, and exists exactly if some candidate's holds; no condition always holds and a failing one never. |
| `Routing.OrderIrrelevant` | spp_change_request_v2/models/change_request.py:991 | With distinct sequences the route does not depend on how the candidates are listed. |
| `Routing.AddAfterWinner` | spp_change_request_v2/models/change_request.py:991-1000 | A candidate sequenced after the winner, listed anywhere, never changes the route. |
| `IfMatch.ChangeRequestResource.Update` | spp_api_v2_change_request/routers/change_request.py:335-392 | An update checks the tag, then the state, then writes the detail, with the specified outcome. |
| `IfMatch.AcceptedExactly` | spp_api_v2_change_request/routers/change_request.py:335-392 | An update is refused for its tag first, then for the state, then for want of a detail; otherwise it is accepted exactly if it names no field, or existing fields of a row of the request's own. |
| `IfMatch.WrittenExactly` | spp_api_v2_change_request/routers/change_request.py:376-392 | An accepted update writes the fields it names and no other, and moves the request's write date exactly if it names the selector or the selected field of a dynamic type. |
| `IfMatch.DetailIsCommitted` | spp_api_v2_change_request/README.rst:454-457 | For any interleaving of clients the detail is what the accepted updates made of it in commit order; omitted fields keep their values. |
| `IfMatch.ConflictIff` | spp_api_v2_change_request/routers/change_request.py:367-376 | A tag sent after other events gets a conflict if and only if one of them wrote the request itself. |
| `IfMatch.BothAccepted` | spp_api_v2_change_request/README.rst:471-487 | On a type without dynamic approval two updates from one version are both accepted, and the second overwrites the first. |
| `IfMatch.OnlyOneAccepted` | spp_api_v2_change_request/README.rst:471-487 | Where the first update also syncs the selection, the second from the same version is refused. |
| `VocabularyCaches.ConceptGroups.GetGroupUrisCached` | spp_vocabulary/models/concept_group.py:105-128 | While the cache is right the cached answer is the uncached one, and the cache stays right. |
| `VocabularyCaches.GroupUrisMeaning` | spp_vocabulary/models/concept_group.py:77-98 | The URIs of a group are the URIs and reference URIs of its codes, as far as they are set. |
| `VocabularyCaches.ConceptGroups.WriteCode` | spp_vocabulary/models/concept_group.py:77-98 | A write of a code, which clears no cache, keeps the group cache right if and only if no cached group with the code loses or gains a URI by it. |
| `VocabularyCaches.VocabularyCache.CheckMembership` | spp_cel_vocabulary/services/vocabulary_cache.py:79-111 | Membership through both caches is direct membership in the vocabulary. |
| `VocabularyCaches.AnswerSession` | spp_cel_vocabulary/README.md:205-206 | Any sequence of questions in a session gets the vocabulary's own answers. |
| `VocabularyCaches.CodeExact` | spp_vocabulary/models/vocabulary_code.py:520-597 | `code()` finds, for an identifier that starts with `urn:`, the first active row with that URI; for any other the first with that code, or else that display name, or else that reference. |
| `VocabularyCaches.CodeFollowsFourSteps` | spp_cel_vocabulary/README.md:81-88 | `code()` follows the documented four steps if and only if: for a URN, some active row has it as URI or none has it as code, display name or reference; for anything else, no active row has it as URI, or the first that has is the one its code, display name or reference finds. |
| `VocabularyCaches.Codes.Code` | spp_vocabulary/models/vocabulary_code.py:520-597 | Over an unchanged table cached resolution is uncached resolution, after any lookups. |
| `VocabularyCaches.Codes.Create` | spp_vocabulary/models/vocabulary_code.py:241-245 | Creating a code keeps the cache coherent if and only if its URI was not looked up in vain before. |
| `VocabularyCaches.Codes.Write` | spp_vocabulary/models/vocabulary_code.py:250-320 | Writing a code keeps it coherent if and only if the code neither was the cached answer for a URI it no longer has, nor becomes the first row of a URI that was looked up. |
| `DciMethods.DataValues.Materialize` | spp_dci_indicators/models/dci_cel_fetcher.py:130-167 | A sync writes one row per person and argument for which a value was fetched, and no other. |
| `DciMethods.SyncWrites` | spp_dci_indicators/models/dci_cel_fetcher.py:168-189 | Argument by argument, a sync leaves for a person a severity of zero where the registry has no score, a birth event always, a death event if the registry knows; otherwise, for any other argument and without an answer, what was there before. |
| `DciMethods.AccessorsRead` | spp_dci_indicators/models/dci_cel_fetcher.py:27-30 | Each method reads the rows of its own accessor. |
| `DciMethods.LookupIsLastFetched` | spp_dci_indicators/README.md:62-64 | After any syncs a lookup returns the value fetched for that method, person and argument at its last successful sync; no other argument, person, method or failed fetch alters it. |
| `DciMethods.CollisionReadsOther` | spp_cel_domain/models/data_value.py:363 | If the hash of two fixed arguments collides, one is read for the other. |
| `DciMethods.RewriteMeaning` | spp_dci_indicators/models/cel_variable_resolver_dci.py:39-55 | The rewritten expression, over the cache table, has the value of the original over what the syncs fetched. |
| `DciMethods.RewriteIdempotent` | spp_dci_indicators/models/cel_variable_resolver_dci.py:32-36 | Rewriting twice changes nothing more. |

## Left out

- The ORM, PostgreSQL, record rules, access groups, HTTP and the queue: rows are sequences and maps, registry answers and users' groups are inputs, and a transaction is one step.
- Clocks: times are arguments. In `IfMatch` an event that writes the request happens later than the tag it replaces.
- An edit of a request's type record counts as writing another type, and an approval definition's tiers are those of its review. `registrant_id` is not emptied, and reviews are not deleted.
- FieldMapping.Apply: a transform reads the clock once per apply; the mappings of one apply see the same time. The registrant model's own write, which regenerates the name from its parts as well, is left out: the regeneration that follows it in apply gives the name.
- Change types with a custom apply strategy (merge, split, transfer and the like): their detail content is not frozen by the code either.
- Preview snapshots, document and required-field checks before submission are one input; notifications, activities, audit events and `apply_error` are not modelled.
- ChangeRequests.AppliesWhatWasSubmitted: values are compared as the freeze itself compares them, up to the spellings of an unset value (None, empty text, zero) and with true equal to one. How a name is formatted from its parts is a parameter.
- Similarity.CalculateSimilarity: scores are exact reals, and lower-casing and trimming cover ASCII only. The candidate search is an input, and so is the list of fields compared when no change set applies.
- ApprovalRuns.RunOrdered: who may approve is an input of every action, so a tier for which all must approve is compared with those designated at that moment.
- ApprovalVotes.ResubmitAfterRejection: takes the database's exclusion of two pending reviews of one definition as in place; the code installs it where it can.
- Approval.ApprovalRecord.ActionDoApprove: models records that store their approval state, not those that compute it from another field.
- ApprovalVotes.OneApprovalPerVersion: concerns completed approvals of a record; the approvals of single tiers are not versioned by the code.
- The POST search cursor and other pagers; `_elements` filtering.
- CelParser.Expr: the parser object's position is an argument, the tokens still to read, instead of a field it advances.
- CelParser.ParsePrint: the lexer and keyword arguments of calls are not modelled, and a list is a node of its own instead of a literal holding values and nodes.
- CelSql.SqlAgrees: SQL is a tree; its rendered text has no parentheses around the operands of a comparison or null test, so operands that are comparisons or negations themselves read differently there. `age_years`, field-name normalisation and string collation are left out; a date compared with a text literal raises here where the database coerces the text, and the names of registered functions, which evaluation finds outside the record, are read as unknown names.
- CelSql.Eval: arithmetic, membership and calls, which never compile, are not evaluated.
- CelSql.AstToSql: a comparison with `age_years` compiles in the code and not in these trees; `AgeYears.dfy` models it by itself.
- AgeYears.RewriteExact: bounds are integers, as literals with a fraction are truncated by the code first; a bound that is not a literal, which the domain reads as 0, is left out.
- Vocabulary.TranslationPreserves: fields resolve on the record itself, group names and identifiers are literals, and what the ORM answers for an inequality on an empty field is a parameter. The library's conjunction of domains is taken as prefixing each with the operators it leaves implicit.
- Identifiers.RunSound: writes are one after another, as two creations at the same instant are not excluded by the database; IDs made live again or imported are not among the events.
- Identifiers.ReferenceRoundTrip: percent escapes decode to single characters; multi-byte sequences are left out.
- DciMethods.RewriteMeaning: rewriting works on expressions instead of text, so accessors inside string literals are not touched; values are integers, and expiry is left out. A person occurs once in a sync.
- ScanSweep: the bytes of attachments, the scan itself and its encryption of quarantined files.
- Statistics, household membership, merge and transfer operations, and the parts of OpenSPP not named above: their rules are less involved than those modelled.
