/** The chore and bonus tables shared by the rotation, the bonus pages, the proof
    upload and the approval handler: kids, chore slots, the rotation rule, daily
    assignments, bonus definitions and their weekly instances, and proof submissions. */
module ChoreData {
  import opened Common

  /** A row of `kids`, in the order the pages list them. */
  datatype KidRow = KidRow(id: int, name: string)

  /** A row of `chore_slots`; its id is its position in `ChoreDb.slots` plus one. */
  datatype SlotRow = SlotRow(title: string, active: bool, sortOrder: int)

  /** The latest row of `rotation_rules`, its JSON lists already decoded. */
  datatype RotationRule = RotationRule(name: string, kids: seq<string>, slots: seq<string>)

  datatype AssignStatus = AssignOpen | AssignPending | AssignApproved

  /** A row of `assignments`, keyed by its day string and kid id. */
  datatype Assignment = Assignment(slotId: int, status: AssignStatus, submissionId: Option<int>)

  datatype BonusDef = BonusDef(title: string, active: bool, rewardCents: int, rewardPhoneMin: int,
                               rewardGamesMin: int, maxPerWeek: int, sortOrder: int)

  datatype InstStatus = Available | Claimed | Pending | Approved

  /** A row of `bonus_instances`. */
  datatype Instance = Instance(weekStart: string, defId: int, status: InstStatus, claimedBy: Option<int>,
                               claimedAt: Option<int>, submissionId: Option<int>)

  /** What a proof is for: a day's base chore or a claimed bonus instance. */
  datatype SubKind = BaseProof(day: string, slotId: int) | BonusProof(weekStart: string, instanceId: int)

  datatype SubStatus = SubPending | SubApproved | SubRejected

  /** A row of `submissions`. */
  datatype Submission = Submission(kind: SubKind, kidId: int, photoPath: string, status: SubStatus,
                                   submittedAt: int, reviewedAt: Option<int>, notes: Option<string>)

  class ChoreDb {
    var kids: seq<KidRow>
    var slots: seq<SlotRow>
    var rule: Option<RotationRule>
    var assignments: map<(string, int), Assignment>
    var bonusDefs: map<int, BonusDef>
    var nextBonusDefId: int
    var instances: map<int, Instance>
    var nextInstanceId: int
    var submissions: map<int, Submission>
    var nextSubId: int
    var audit: seq<AuditEntry>

    /** Auto-increment ids are above every id in use. */
    ghost predicate Valid()
      reads this
    {
      nextBonusDefId >= 1 && nextInstanceId >= 1 && nextSubId >= 1 &&
      (forall id :: id in bonusDefs ==> 0 < id < nextBonusDefId) &&
      (forall id :: id in instances ==> 0 < id < nextInstanceId) &&
      (forall id :: id in submissions ==> 0 < id < nextSubId)
    }

    constructor (kids: seq<KidRow>)
      ensures Valid()
      ensures this.kids == kids && slots == [] && rule == None && assignments == map[]
      ensures bonusDefs == map[] && instances == map[] && submissions == map[] && audit == []
    {
      this.kids := kids;
      slots, rule, assignments := [], None, map[];
      bonusDefs, nextBonusDefId := map[], 1;
      instances, nextInstanceId := map[], 1;
      submissions, nextSubId := map[], 1;
      audit := [];
    }
  }
}
