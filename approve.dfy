/** The parent's review of a proof, api/approve.php: it records the decision on a pending
    submission and, in one transaction, moves what the proof was for forward (approved)
    or back (rejected so the kid can resubmit); an approved bonus banks its rewards. */
module Approve {
  import opened Common
  import opened ChoreData
  import Privileges
  import Bonuses
  import SubmitProof

  const ReviewPage := "/admin/review.php"

  /** The posted note: trimmed, and no note at all when nothing is left. */
  function NoteOf(raw: string): (r: Option<string>)
    ensures r.None? <==> Trim(raw) == []
    ensures r.Some? ==> r.value == Trim(raw) && r.value != []
  {
    var t := Trim(raw);
    if t == [] then None else Some(t)
  }

  /** The minutes an approved bonus banks: its definition's phone and games rewards, or
      none when the instance or its definition is gone (the query joins the two). */
  function Rewards(instances: map<int, Instance>, defs: map<int, BonusDef>, id: int): (r: (int, int))
    ensures id in instances && instances[id].defId in defs ==>
      r == (defs[instances[id].defId].rewardPhoneMin, defs[instances[id].defId].rewardGamesMin)
    ensures !(id in instances && instances[id].defId in defs) ==> r == (0, 0)
  {
    if id in instances && instances[id].defId in defs then
      var d := defs[instances[id].defId];
      (d.rewardPhoneMin, d.rewardGamesMin)
    else (0, 0)
  }

  /** The instance after the review of a bonus proof: approved, or claimed again. */
  function InstancesReviewed(instances: map<int, Instance>, kind: SubKind, approved: bool): (r: map<int, Instance>)
    ensures r.Keys == instances.Keys
    ensures forall j :: j in instances && !(kind.BonusProof? && j == kind.instanceId) ==> r[j] == instances[j]
    ensures kind.BonusProof? && kind.instanceId > 0 && kind.instanceId in instances ==>
      r[kind.instanceId] == instances[kind.instanceId].(status := if approved then Approved else Claimed)
  {
    if kind.BonusProof? && kind.instanceId > 0 && kind.instanceId in instances then
      instances[kind.instanceId := instances[kind.instanceId].(status := if approved then Approved else Claimed)]
    else instances
  }

  /** The kid's assignment for the day after the review of a base proof: approved, or
      open again with no submission. Nothing changes without a day or a kid. */
  function AssignmentsReviewed(asg: map<(string, int), Assignment>, kind: SubKind, kid: int, approved: bool)
    : (r: map<(string, int), Assignment>)
    ensures r.Keys == asg.Keys
    ensures forall key :: key in asg && !(kind.BaseProof? && key == (kind.day, kid)) ==> r[key] == asg[key]
    ensures kind.BaseProof? && kind.day != "" && kid > 0 && (kind.day, kid) in asg ==>
      r[(kind.day, kid)] ==
        (if approved then asg[(kind.day, kid)].(status := AssignApproved)
         else asg[(kind.day, kid)].(status := AssignOpen, submissionId := None))
    ensures kind.BaseProof? && (kind.day == "" || kid <= 0) ==> r == asg
  {
    if kind.BaseProof? && kind.day != "" && kid > 0 && (kind.day, kid) in asg then
      var a := asg[(kind.day, kid)];
      asg[(kind.day, kid) := if approved then a.(status := AssignApproved) else a.(status := AssignOpen, submissionId := None)]
    else asg
  }

  /** Whether an approval banks minutes: a bonus proof of a kid, whose definition
      rewards phone or games time. */
  predicate Banks(sub: Submission, instances: map<int, Instance>, defs: map<int, BonusDef>)
  {
    sub.kind.BonusProof? && sub.kind.instanceId > 0 && sub.kidId > 0 &&
    (Rewards(instances, defs, sub.kind.instanceId).0 > 0 || Rewards(instances, defs, sub.kind.instanceId).1 > 0)
  }

  /** The writes of a committed review. */
  method ApplyReview(db: ChoreDb, priv: Privileges.PrivilegeStore, subId: int, approved: bool, notes: Option<string>, now: int)
    requires db.Valid() && subId in db.submissions
    modifies db`submissions, db`instances, db`assignments, db`audit, priv
    ensures db.Valid()
    ensures var sub := old(db.submissions)[subId];
      db.submissions == old(db.submissions)[subId := sub.(status := if approved then SubApproved else SubRejected,
                                                          reviewedAt := Some(now), notes := notes)] &&
      db.instances == InstancesReviewed(old(db.instances), sub.kind, approved) &&
      db.assignments == AssignmentsReviewed(old(db.assignments), sub.kind, sub.kidId, approved) &&
      db.audit == old(db.audit) + [AuditEntry("admin", 0, "review_submission")] &&
      (approved && Banks(sub, old(db.instances), db.bonusDefs) ==>
        var (phone, games) := Rewards(old(db.instances), db.bonusDefs, sub.kind.instanceId);
        priv.rows == Privileges.BonusApplied(old(priv.rows), sub.kidId, phone, games)) &&
      (!(approved && Banks(sub, old(db.instances), db.bonusDefs)) ==> priv.rows == old(priv.rows))
  {
    var sub := db.submissions[subId];
    var rewards := Rewards(db.instances, db.bonusDefs, if sub.kind.BonusProof? then sub.kind.instanceId else 0);
    var banks := Banks(sub, db.instances, db.bonusDefs);
    db.submissions := db.submissions[subId := sub.(status := if approved then SubApproved else SubRejected,
                                                   reviewedAt := Some(now), notes := notes)];
    db.instances := InstancesReviewed(db.instances, sub.kind, approved);
    db.assignments := AssignmentsReviewed(db.assignments, sub.kind, sub.kidId, approved);
    if approved && banks {
      priv.ApplyBonus(sub.kidId, rewards.0, rewards.1);
    }
    db.audit := db.audit + [AuditEntry("admin", 0, "review_submission")];
  }

  /** The endpoint. `decision` is the posted decision, `noteRaw` the posted note, and
      `dbFails` a failure of any write, which rolls the whole review back. */
  method Review(db: ChoreDb, priv: Privileges.PrivilegeStore, subId: int, decision: string, noteRaw: string,
                now: int, dbFails: bool) returns (resp: Response)
    requires db.Valid()
    modifies db`submissions, db`instances, db`assignments, db`audit, priv
    ensures db.Valid()
    ensures resp.Redirect?
    ensures subId <= 0 || (decision != "approved" && decision != "rejected") ==>
      resp == Redirect(ReviewPage, FlashErr("Invalid action."))
    ensures subId > 0 && (decision == "approved" || decision == "rejected") &&
            (subId !in old(db.submissions) || old(db.submissions)[subId].status != SubPending) ==>
      resp == Redirect(ReviewPage, FlashErr("Submission is no longer pending."))
    ensures subId > 0 && (decision == "approved" || decision == "rejected") &&
            subId in old(db.submissions) && old(db.submissions)[subId].status == SubPending && dbFails ==>
      resp == Redirect(ReviewPage, FlashErr("Save failed."))
    ensures resp.flash.FlashErr? ==>
      db.submissions == old(db.submissions) && db.instances == old(db.instances) &&
      db.assignments == old(db.assignments) && db.audit == old(db.audit) && priv.rows == old(priv.rows)
    ensures resp.flash.FlashOk? ==>
      subId in old(db.submissions) && old(db.submissions)[subId].status == SubPending && !dbFails &&
      resp == Redirect(ReviewPage, FlashOk(if decision == "approved" then "Approved." else "Rejected.")) &&
      (decision == "approved" || decision == "rejected") &&
      db.submissions == old(db.submissions)[subId := old(db.submissions)[subId].(
        status := if decision == "approved" then SubApproved else SubRejected,
        reviewedAt := Some(now), notes := NoteOf(noteRaw))] &&
      db.instances == InstancesReviewed(old(db.instances), old(db.submissions)[subId].kind, decision == "approved") &&
      db.assignments == AssignmentsReviewed(old(db.assignments), old(db.submissions)[subId].kind,
                                            old(db.submissions)[subId].kidId, decision == "approved") &&
      db.audit == old(db.audit) + [AuditEntry("admin", 0, "review_submission")]
    ensures resp.flash.FlashOk? ==>
      var sub := old(db.submissions)[subId];
      (decision == "approved" && Banks(sub, old(db.instances), db.bonusDefs) ==>
        var (phone, games) := Rewards(old(db.instances), db.bonusDefs, sub.kind.instanceId);
        priv.rows == Privileges.BonusApplied(old(priv.rows), sub.kidId, phone, games)) &&
      (!(decision == "approved" && Banks(sub, old(db.instances), db.bonusDefs)) ==> priv.rows == old(priv.rows))
  {
    var notes := NoteOf(noteRaw);
    if subId <= 0 || (decision != "approved" && decision != "rejected") {
      return Redirect(ReviewPage, FlashErr("Invalid action."));
    }
    if subId !in db.submissions || db.submissions[subId].status != SubPending {
      return Redirect(ReviewPage, FlashErr("Submission is no longer pending."));
    }
    if dbFails {
      return Redirect(ReviewPage, FlashErr("Save failed."));
    }
    var approved := decision == "approved";
    ApplyReview(db, priv, subId, approved, notes, now);
    resp := Redirect(ReviewPage, FlashOk(if approved then "Approved." else "Rejected."));
  }

  /** Submitting a base proof and having it rejected puts an open assignment back as it
      was, so the kid can submit again; approving it leaves it approved on that proof. */
  lemma BaseRoundTrip(asg: map<(string, int), Assignment>, day: string, slotId: int, kid: int, subId: int)
    requires (day, kid) in asg && asg[(day, kid)].status == AssignOpen && asg[(day, kid)].submissionId == None
    requires day != "" && kid > 0
    ensures AssignmentsReviewed(SubmitProof.BaseSubmitted(asg, day, kid, subId), BaseProof(day, slotId), kid, false) == asg
    ensures var r := AssignmentsReviewed(SubmitProof.BaseSubmitted(asg, day, kid, subId), BaseProof(day, slotId), kid, true);
      r[(day, kid)].status == AssignApproved && r[(day, kid)].submissionId == Some(subId)
  {
    var mid := SubmitProof.BaseSubmitted(asg, day, kid, subId);
    var back := AssignmentsReviewed(mid, BaseProof(day, slotId), kid, false);
    assert back[(day, kid)] == asg[(day, kid)];
    assert forall key :: key in asg ==> back[key] == asg[key];
  }

  /** The life of a bonus instance: claimed, submitted, then rejected puts it back to
      claimed by the same kid, who may submit again; approved, it can no longer be
      claimed or submitted. */
  lemma BonusLifecycle(instances: map<int, Instance>, id: int, kid: int, other: int, subId: int, now: int, later: int, weekStart: string)
    requires id > 0 && id in instances && instances[id].status == Available
    ensures var claimed := Bonuses.ClaimOutcome(instances, kid, id, now).1;
      var submitted := SubmitProof.BonusSubmitted(claimed, id, subId);
      var rejected := InstancesReviewed(submitted, BonusProof(weekStart, id), false);
      var approved := InstancesReviewed(submitted, BonusProof(weekStart, id), true);
      SubmitProof.HoldsClaim(claimed, id, kid) &&
      !SubmitProof.HoldsClaim(submitted, id, kid) &&
      SubmitProof.HoldsClaim(rejected, id, kid) &&
      !SubmitProof.HoldsClaim(approved, id, kid) &&
      Bonuses.ClaimOutcome(approved, other, id, later) == (false, approved) &&
      approved[id].defId == instances[id].defId
  {
  }
}
