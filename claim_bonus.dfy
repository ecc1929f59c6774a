/** The kid's claim endpoint, api/claim_bonus.php. Unlike `gb2_bonus_claim` it reads the
    instance and updates it outside a transaction: the update only applies while the
    instance is still available, and the endpoint reports a lost race when it did not. */
module ClaimBonus {
  import opened Common
  import opened ChoreData
  import Bonuses

  const BonusesPage := "/app/bonuses.php"

  /** A signed-in kid posts `instanceId` (after the int cast). `rival` is the kid whose
      claim of the same instance commits between this request's read and its update, if
      any; the rival's claim is the library claim. */
  method ClaimPost(db: ChoreDb, kid: int, instanceId: int, now: int, rival: Option<int>) returns (resp: Response)
    requires db.Valid()
    modifies db`instances, db`audit
    ensures db.Valid()
    ensures instanceId <= 0 ==>
      resp == Redirect(BonusesPage, FlashErr("Invalid bonus.")) &&
      db.instances == old(db.instances) && db.audit == old(db.audit)
    ensures instanceId > 0 && instanceId !in old(db.instances) ==>
      resp == Redirect(BonusesPage, FlashErr("Bonus not found.")) &&
      db.instances == old(db.instances) && db.audit == old(db.audit)
    ensures instanceId > 0 && instanceId in old(db.instances) && old(db.instances)[instanceId].status != Available ==>
      resp == Redirect(BonusesPage, FlashErr("Bonus is not available.")) &&
      db.instances == old(db.instances) && db.audit == old(db.audit)
    ensures instanceId > 0 && instanceId in old(db.instances) && old(db.instances)[instanceId].status == Available ==>
      if rival.Some? then
        resp == Redirect(BonusesPage, FlashErr("Someone else claimed it first.")) &&
        db.instances == Bonuses.ClaimOutcome(old(db.instances), rival.value, instanceId, now).1 &&
        db.audit == old(db.audit)
      else
        resp == Redirect(BonusesPage, FlashOk("Bonus claimed. Submit proof when done.")) &&
        db.instances == Bonuses.ClaimOutcome(old(db.instances), kid, instanceId, now).1 &&
        db.audit == old(db.audit) + [AuditEntry("kid", kid, "claim_bonus")]
  {
    if instanceId <= 0 {
      return Redirect(BonusesPage, FlashErr("Invalid bonus."));
    }
    if instanceId !in db.instances {
      return Redirect(BonusesPage, FlashErr("Bonus not found."));
    }
    if db.instances[instanceId].status != Available {
      return Redirect(BonusesPage, FlashErr("Bonus is not available."));
    }
    if rival.Some? {
      var _ := Bonuses.Claim(db, rival.value, instanceId, now);
    }
    // The conditional update: it changes the row only while it is still available.
    var changed := Bonuses.Claim(db, kid, instanceId, now);
    if !changed {
      return Redirect(BonusesPage, FlashErr("Someone else claimed it first."));
    }
    db.audit := db.audit + [AuditEntry("kid", kid, "claim_bonus")];
    resp := Redirect(BonusesPage, FlashOk("Bonus claimed. Submit proof when done."));
  }

  /** However the race goes, the instance ends up claimed by exactly one kid, and the
      kid told of success is the one holding it. */
  lemma SingleWinner(instances: map<int, Instance>, kid: int, rival: int, id: int, now: int)
    requires id in instances && instances[id].status == Available
    ensures var won := Bonuses.ClaimOutcome(instances, kid, id, now).1;
      won[id].status == Claimed && won[id].claimedBy == Some(kid)
    ensures var lost := Bonuses.ClaimOutcome(instances, rival, id, now).1;
      Bonuses.ClaimOutcome(lost, kid, id, now) == (false, lost) && lost[id].claimedBy == Some(rival)
  {
    Bonuses.ClaimOnce(instances, rival, kid, id, now, now);
  }
}
