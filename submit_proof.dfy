/** The kid's proof upload, api/submit_proof.php: it stores the photo (or the no-photo
    sentinel), then records a pending submission for a day's base chore or for a claimed
    bonus instance and marks what it is for as pending. */
module SubmitProof {
  import opened Common
  import opened ChoreData

  /** One entry of the uploaded files; each field is `None` when the entry lacks it. */
  datatype FileEntry = FileEntry(error: Option<int>, size: Option<int>, tmpName: Option<string>)

  const UploadErrOk := 0
  const UploadErrNoFile := 4
  const DefaultMaxBytes := 7 * 1024 * 1024
  const NoPhotoPath := "uploads/NO_PHOTO"

  /** The upload error code, `UPLOAD_ERR_NO_FILE` when the entry has none. */
  function ErrorOf(e: FileEntry): int
  {
    if e.error.Some? then e.error.value else UploadErrNoFile
  }

  /** A field holds a file the browser actually sent. */
  predicate Sent(files: map<string, FileEntry>, k: string)
  {
    k in files && ErrorOf(files[k]) != UploadErrNoFile
  }

  /** `gb2_pick_upload_field`: the first of the three field names that was sent, or
      `photo` when none was. */
  function PickUploadField(files: map<string, FileEntry>): (k: string)
    ensures k == "photo" || k == "photo_camera" || k == "photo_library"
    ensures Sent(files, k) || (!Sent(files, "photo") && !Sent(files, "photo_camera") &&
                               !Sent(files, "photo_library") && k == "photo")
    ensures k == "photo_camera" ==> !Sent(files, "photo")
    ensures k == "photo_library" ==> !Sent(files, "photo") && !Sent(files, "photo_camera")
  {
    if Sent(files, "photo") then "photo"
    else if Sent(files, "photo_camera") then "photo_camera"
    else if Sent(files, "photo_library") then "photo_library"
    else "photo"
  }

  /** The image types the endpoint accepts. */
  predicate AllowedMime(mime: string)
  {
    mime == "image/jpeg" || mime == "image/png" || mime == "image/heic" || mime == "image/heif" || mime == "image/webp"
  }

  /** The stored file's extension for an accepted type; JPEG is the default. */
  function ExtFor(mime: string): (ext: string)
    ensures ext == "jpg" || ext == "png" || ext == "webp" || ext == "heic"
    ensures ext == "png" <==> mime == "image/png"
    ensures ext == "webp" <==> mime == "image/webp"
    ensures ext == "heic" <==> mime == "image/heic" || mime == "image/heif"
  {
    if mime == "image/png" then "png"
    else if mime == "image/webp" then "webp"
    else if mime == "image/heic" || mime == "image/heif" then "heic"
    else "jpg"
  }

  /** What the environment supplies for the upload: the files, the configured size cap,
      whether the temporary file exists, the detected type ("" when none), the
      `year/month` directory, the random file name, and whether the move succeeded. */
  datatype UploadEnv = UploadEnv(files: map<string, FileEntry>, maxBytes: Option<int>, isFile: bool, mime: string,
                                 yearMonth: string, randomName: string, moved: bool)

  /** The stored photo's path under the data directory, or the status and body the
      endpoint stops with. */
  datatype Stored = StoredAt(path: string) | Refused(code: int, body: string)

  /** The photo handling, in the endpoint's order of checks. */
  function StorePhoto(noPhoto: bool, env: UploadEnv): (r: Stored)
    ensures noPhoto ==> r == StoredAt(NoPhotoPath)
    ensures !noPhoto && r.StoredAt? ==>
      var f := PickUploadField(env.files);
      f in env.files && ErrorOf(env.files[f]) == UploadErrOk && env.isFile && env.moved && AllowedMime(env.mime) &&
      r.path == "uploads/" + env.yearMonth + "/" + env.randomName + "." + ExtFor(env.mime)
    ensures r.Refused? ==> r.code in {400, 413, 500}
    ensures r.Refused? && r.code == 413 ==> r.body == "File too large."
  {
    if noPhoto then StoredAt(NoPhotoPath)
    else
      var f := PickUploadField(env.files);
      if f !in env.files || ErrorOf(env.files[f]) != UploadErrOk then Refused(400, "Upload failed.")
      else
        var e := env.files[f];
        var cap := if env.maxBytes.Some? then env.maxBytes.value else DefaultMaxBytes;
        if (if e.size.Some? then e.size.value else 0) > cap then Refused(413, "File too large.")
        else if (if e.tmpName.Some? then e.tmpName.value else "") == "" || !env.isFile then Refused(400, "Upload failed.")
        else if !AllowedMime(env.mime) then Refused(400, "Unsupported image type.")
        else if !env.moved then Refused(500, "Save failed.")
        else StoredAt("uploads/" + env.yearMonth + "/" + env.randomName + "." + ExtFor(env.mime))
  }

  /** A file over the size cap is refused whatever its type, and a file of a type not
      accepted is never stored. */
  lemma StorePhotoGuards(env: UploadEnv)
    ensures var f := PickUploadField(env.files);
      f in env.files && ErrorOf(env.files[f]) == UploadErrOk && env.files[f].size.Some? &&
      env.maxBytes.Some? && env.files[f].size.value > env.maxBytes.value ==>
        StorePhoto(false, env) == Refused(413, "File too large.")
    ensures !AllowedMime(env.mime) ==> StorePhoto(false, env).Refused?
  {
  }

  /** The date check `^\d{4}-\d{2}-\d{2}$`. PCRE's `$` also matches before a final line
      feed, so one trailing "\n" passes. */
  predicate IsYmd(s: string)
  {
    (|s| == 10 || (|s| == 11 && s[10] == '\n')) &&
    IsDigit(s[0]) && IsDigit(s[1]) && IsDigit(s[2]) && IsDigit(s[3]) && s[4] == '-' &&
    IsDigit(s[5]) && IsDigit(s[6]) && s[7] == '-' && IsDigit(s[8]) && IsDigit(s[9])
  }

  /** The check accepts a date with a trailing line feed, which then names no day row. */
  lemma YmdTrailingNewline()
    ensures IsYmd("2024-05-06") && IsYmd("2024-05-06\n") && !IsYmd("2024-5-06") && !IsYmd("2024-05-06 ")
  {
  }

  /** The posted form after the casts. */
  datatype ProofForm = ProofForm(noPhoto: string, kind: string, day: string, slotId: int,
                                 weekStart: string, instanceId: int)

  /** A base proof marks the kid's assignment for the posted day as pending on the new
      submission; without an assignment row nothing changes. */
  function BaseSubmitted(asg: map<(string, int), Assignment>, day: string, kid: int, subId: int)
    : (r: map<(string, int), Assignment>)
    ensures r.Keys == asg.Keys
    ensures (day, kid) in asg ==> r[(day, kid)] == Assignment(asg[(day, kid)].slotId, AssignPending, Some(subId))
    ensures forall key :: key in asg && key != (day, kid) ==> r[key] == asg[key]
  {
    if (day, kid) in asg then asg[(day, kid) := asg[(day, kid)].(status := AssignPending, submissionId := Some(subId))]
    else asg
  }

  /** A bonus proof marks the instance pending on the new submission, keeping its claim. */
  function BonusSubmitted(instances: map<int, Instance>, id: int, subId: int): (r: map<int, Instance>)
    requires id in instances
    ensures r.Keys == instances.Keys
    ensures r[id].status == Pending && r[id].submissionId == Some(subId)
    ensures r[id].claimedBy == instances[id].claimedBy && r[id].defId == instances[id].defId
    ensures forall j :: j in instances && j != id ==> r[j] == instances[j]
  {
    instances[id := instances[id].(status := Pending, submissionId := Some(subId))]
  }

  /** The audit action and the success message depend on whether a photo came along. */
  function SubmitAction(base: bool, noPhoto: bool): string
  {
    if base then (if noPhoto then "submit_base_no_photo" else "submit_base_proof")
    else (if noPhoto then "submit_bonus_no_photo" else "submit_bonus_proof")
  }

  function SubmittedMessage(noPhoto: bool): string
  {
    if noPhoto then "Submitted (no photo). Waiting for approval." else "Submitted. Waiting for approval."
  }

  datatype ProofKind = BaseKind | BonusKind | OtherKind

  /** The posted `kind` field. */
  function KindOf(kind: string): (k: ProofKind)
    ensures k == BaseKind <==> kind == "base"
    ensures k == BonusKind <==> kind == "bonus"
  {
    if kind == "base" then BaseKind else if kind == "bonus" then BonusKind else OtherKind
  }

  /** A bonus proof is accepted only for an instance this kid holds as claimed. */
  predicate HoldsClaim(instances: map<int, Instance>, id: int, kid: int)
  {
    id in instances && instances[id].status == Claimed && instances[id].claimedBy == Some(kid)
  }

  /** The base-chore branch, once the photo is stored at `path`. */
  method SubmitBase(db: ChoreDb, kid: int, day: string, slotId: int, path: string, noPhoto: bool, now: int)
    returns (resp: Response)
    requires db.Valid()
    modifies db`submissions, db`nextSubId, db`assignments, db`audit
    ensures db.Valid()
    ensures !(IsYmd(day) && slotId > 0) ==>
      resp == Status(400, "") && db.submissions == old(db.submissions) && db.nextSubId == old(db.nextSubId) &&
      db.assignments == old(db.assignments) && db.audit == old(db.audit)
    ensures IsYmd(day) && slotId > 0 ==>
      resp == Redirect("/app/today.php", FlashOk(SubmittedMessage(noPhoto))) &&
      db.submissions == old(db.submissions)[old(db.nextSubId) :=
        Submission(BaseProof(day, slotId), kid, path, SubPending, now, None, None)] &&
      db.nextSubId == old(db.nextSubId) + 1 &&
      db.assignments == BaseSubmitted(old(db.assignments), day, kid, old(db.nextSubId)) &&
      db.audit == old(db.audit) + [AuditEntry("kid", kid, SubmitAction(true, noPhoto))]
  {
    if !IsYmd(day) || slotId <= 0 {
      return Status(400, "");
    }
    var subId := db.nextSubId;
    db.submissions := db.submissions[subId := Submission(BaseProof(day, slotId), kid, path, SubPending, now, None, None)];
    db.nextSubId := subId + 1;
    db.assignments := BaseSubmitted(db.assignments, day, kid, subId);
    db.audit := db.audit + [AuditEntry("kid", kid, SubmitAction(true, noPhoto))];
    resp := Redirect("/app/today.php", FlashOk(SubmittedMessage(noPhoto)));
  }

  /** The bonus branch, once the photo is stored at `path`. */
  method SubmitBonus(db: ChoreDb, kid: int, weekStart: string, id: int, path: string, noPhoto: bool, now: int)
    returns (resp: Response)
    requires db.Valid()
    modifies db`submissions, db`nextSubId, db`instances, db`audit
    ensures db.Valid()
    ensures !(IsYmd(weekStart) && id > 0) ==> resp == Status(400, "")
    ensures IsYmd(weekStart) && id > 0 && !HoldsClaim(old(db.instances), id, kid) ==> resp == Status(403, "Not your bonus.")
    ensures !(IsYmd(weekStart) && id > 0 && HoldsClaim(old(db.instances), id, kid)) ==>
      db.submissions == old(db.submissions) && db.nextSubId == old(db.nextSubId) &&
      db.instances == old(db.instances) && db.audit == old(db.audit)
    ensures IsYmd(weekStart) && id > 0 && HoldsClaim(old(db.instances), id, kid) ==>
      resp == Redirect("/app/bonuses.php", FlashOk(SubmittedMessage(noPhoto))) &&
      db.submissions == old(db.submissions)[old(db.nextSubId) :=
        Submission(BonusProof(weekStart, id), kid, path, SubPending, now, None, None)] &&
      db.nextSubId == old(db.nextSubId) + 1 &&
      db.instances == BonusSubmitted(old(db.instances), id, old(db.nextSubId)) &&
      db.audit == old(db.audit) + [AuditEntry("kid", kid, SubmitAction(false, noPhoto))]
  {
    if !IsYmd(weekStart) || id <= 0 {
      return Status(400, "");
    }
    if !HoldsClaim(db.instances, id, kid) {
      return Status(403, "Not your bonus.");
    }
    var subId := db.nextSubId;
    db.submissions := db.submissions[subId := Submission(BonusProof(weekStart, id), kid, path, SubPending, now, None, None)];
    db.nextSubId := subId + 1;
    db.instances := BonusSubmitted(db.instances, id, subId);
    db.audit := db.audit + [AuditEntry("kid", kid, SubmitAction(false, noPhoto))];
    resp := Redirect("/app/bonuses.php", FlashOk(SubmittedMessage(noPhoto)));
  }

  /** The endpoint for a signed-in kid. A refused upload stops it before the form's kind
      is looked at; otherwise the base or bonus branch runs, and any other kind gets
      "Bad request." with nothing written. */
  method SubmitPost(db: ChoreDb, kid: int, form: ProofForm, env: UploadEnv, now: int) returns (resp: Response)
    requires db.Valid()
    modifies db`submissions, db`nextSubId, db`assignments, db`instances, db`audit
    ensures db.Valid()
    ensures StorePhoto(form.noPhoto == "1", env).Refused? || KindOf(form.kind) == OtherKind ==>
      db.submissions == old(db.submissions) && db.nextSubId == old(db.nextSubId) &&
      db.assignments == old(db.assignments) && db.instances == old(db.instances) && db.audit == old(db.audit)
    ensures StorePhoto(form.noPhoto == "1", env).Refused? ==>
      resp == Status(StorePhoto(form.noPhoto == "1", env).code, StorePhoto(form.noPhoto == "1", env).body)
    ensures StorePhoto(form.noPhoto == "1", env).StoredAt? && KindOf(form.kind) == OtherKind ==>
      resp == Status(400, "Bad request.")
    ensures StorePhoto(form.noPhoto == "1", env).StoredAt? && KindOf(form.kind) == BaseKind ==>
      var noPhoto, path := form.noPhoto == "1", StorePhoto(form.noPhoto == "1", env).path;
      db.instances == old(db.instances) &&
      (!(IsYmd(form.day) && form.slotId > 0) ==>
        resp == Status(400, "") && db.submissions == old(db.submissions) && db.nextSubId == old(db.nextSubId) &&
        db.assignments == old(db.assignments) && db.audit == old(db.audit)) &&
      (IsYmd(form.day) && form.slotId > 0 ==>
        resp == Redirect("/app/today.php", FlashOk(SubmittedMessage(noPhoto))) &&
        db.submissions == old(db.submissions)[old(db.nextSubId) :=
          Submission(BaseProof(form.day, form.slotId), kid, path, SubPending, now, None, None)] &&
        db.nextSubId == old(db.nextSubId) + 1 &&
        db.assignments == BaseSubmitted(old(db.assignments), form.day, kid, old(db.nextSubId)) &&
        db.audit == old(db.audit) + [AuditEntry("kid", kid, SubmitAction(true, noPhoto))])
    ensures StorePhoto(form.noPhoto == "1", env).StoredAt? && KindOf(form.kind) == BonusKind ==>
      var noPhoto, path := form.noPhoto == "1", StorePhoto(form.noPhoto == "1", env).path;
      var ok := IsYmd(form.weekStart) && form.instanceId > 0;
      db.assignments == old(db.assignments) &&
      (!ok ==> resp == Status(400, "")) &&
      (ok && !HoldsClaim(old(db.instances), form.instanceId, kid) ==> resp == Status(403, "Not your bonus.")) &&
      (!(ok && HoldsClaim(old(db.instances), form.instanceId, kid)) ==>
        db.submissions == old(db.submissions) && db.nextSubId == old(db.nextSubId) &&
        db.instances == old(db.instances) && db.audit == old(db.audit)) &&
      (ok && HoldsClaim(old(db.instances), form.instanceId, kid) ==>
        resp == Redirect("/app/bonuses.php", FlashOk(SubmittedMessage(noPhoto))) &&
        db.submissions == old(db.submissions)[old(db.nextSubId) :=
          Submission(BonusProof(form.weekStart, form.instanceId), kid, path, SubPending, now, None, None)] &&
        db.nextSubId == old(db.nextSubId) + 1 &&
        db.instances == BonusSubmitted(old(db.instances), form.instanceId, old(db.nextSubId)) &&
        db.audit == old(db.audit) + [AuditEntry("kid", kid, SubmitAction(false, noPhoto))])
  {
    var noPhoto := form.noPhoto == "1";
    var stored := StorePhoto(noPhoto, env);
    if stored.Refused? {
      return Status(stored.code, stored.body);
    }
    match KindOf(form.kind)
    case BaseKind =>
      resp := SubmitBase(db, kid, form.day, form.slotId, stored.path, noPhoto, now);
    case BonusKind =>
      resp := SubmitBonus(db, kid, form.weekStart, form.instanceId, stored.path, noPhoto, now);
    case OtherKind =>
      resp := Status(400, "Bad request.");
  }
}
