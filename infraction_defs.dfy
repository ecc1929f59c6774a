/** The definition editor of admin/infraction_defs.php: the form normalisers (integer
    clamps, mode, block flags, the ladder list and the repair lines) and the
    create/update/delete handler over the `infraction_defs` table. */
module InfractionDefs {
  import opened Common
  import opened Infractions

  /** `gb2_post_int`: the cast form value clamped to `[min, max]`. */
  function PostInt(raw: int, min: int, max: int): (v: int)
    ensures min <= max ==> min <= v <= max
    ensures min <= raw <= max ==> v == raw
    ensures raw < min && min <= max ==> v == min
    ensures raw > max ==> v == max
  {
    var v := if raw < min then min else raw;
    if v > max then max else v
  }

  /** `gb2_norm_mode`: `add` exactly when the trimmed, lower-cased input is `add`. */
  function NormMode(m: string): (r: Mode)
    ensures r == Add <==> ToLower(Trim(m)) == "add"
  {
    if ToLower(Trim(m)) == "add" then Add else Set
  }

  /** A saved mode reads back unchanged, both by the editor and by the engine. */
  lemma NormModeStable(m: string)
    ensures EngineMode(ModeName(NormMode(m))) == NormMode(m)
    ensures NormMode(ModeName(NormMode(m))) == NormMode(m)
  {
    var n := ModeName(NormMode(m));
    TrimNoEdges(n);
    assert ToLower(n) == n;
  }

  /** `gb2_norm_blocks`: one flag per category, 1 iff its checkbox was posted. */
  function NormBlocks(posted: set<string>): (t: Triple<int>)
    ensures forall c :: t.Get(c) == (if CatKey(c) in posted then 1 else 0)
  {
    Triple(if "phone" in posted then 1 else 0, if "games" in posted then 1 else 0, if "other" in posted then 1 else 0)
  }

  /** The object `json_encode` writes for a block triple. */
  function BlocksJson(t: Triple<int>): map<string, int>
  {
    map["phone" := t.phone, "games" := t.games, "other" := t.other]
  }

  /** The engine decodes exactly the flags the editor saved. */
  lemma BlocksRoundTrip(posted: set<string>)
    ensures DecodeBlocks(Arr(BlocksJson(NormBlocks(posted)))) == NormBlocks(posted)
  {
  }

  // ---------------------------------------------------------------- the ladder list

  /** The separators of `gb2_parse_int_list`: commas, pipes and PCRE's `\s`. */
  predicate IsListSep(c: char)
  {
    c == ',' || c == '|' || c == ' ' || c == '\t' || c == '\n' || c == '\r' || c == '\U{000B}' || c == '\U{000C}'
  }

  /** The cast of every trimmed part. */
  function Casts(parts: seq<string>): (r: seq<int>)
    ensures |r| == |parts|
    ensures forall i :: 0 <= i < |parts| ==> r[i] == IntCast(Trim(parts[i]))
  {
    if parts == [] then [] else [IntCast(Trim(parts[0]))] + Casts(parts[1..])
  }

  lemma {:induction false} CastsAppend(parts: seq<string>, p: string)
    ensures Casts(parts + [p]) == Casts(parts) + [IntCast(Trim(p))]
  {
    assert Casts(parts + [p]) == Casts(parts) + [IntCast(Trim(p))];
  }

  /** The list `gb2_parse_int_list` returns: nothing for a blank input, otherwise the
      positive casts of the parts, in order. */
  function IntListOf(s: string): seq<int>
  {
    if Trim(s) == [] then [] else Positives(Casts(SplitBy(Trim(s), IsListSep)))
  }

  /** `gb2_parse_int_list`. The split is made at every separator character; the empty
      parts a run of separators leaves cast to 0 and are dropped, as after a split on runs. */
  method ParseIntList(s: string) returns (out: seq<int>)
    ensures out == IntListOf(s)
    ensures forall i :: 0 <= i < |out| ==> out[i] > 0
    ensures Trim(s) == [] ==> out == []
  {
    var t := Trim(s);
    if t == [] {
      return [];
    }
    out := CastParts(SplitBy(t, IsListSep));
    PositivesSpec(Casts(SplitBy(t, IsListSep)));
  }

  /** The loop of `gb2_parse_int_list` over the parts. */
  method CastParts(parts: seq<string>) returns (out: seq<int>)
    ensures out == Positives(Casts(parts))
  {
    out := [];
    var i := 0;
    while i < |parts|
      invariant 0 <= i <= |parts|
      invariant out == Positives(Casts(parts[..i]))
    {
      var n := IntCast(Trim(parts[i]));
      CastPartsStep(parts, i);
      if n > 0 {
        out := out + [n];
      }
      i := i + 1;
    }
    assert parts[..i] == parts;
  }

  /** One pass of the loop: the next part's cast is appended when it is positive. */
  lemma CastPartsStep(parts: seq<string>, i: nat)
    requires i < |parts|
    ensures var n := IntCast(Trim(parts[i]));
      Positives(Casts(parts[..i + 1])) == Positives(Casts(parts[..i])) + (if n > 0 then [n] else [])
  {
    assert parts[..i + 1] == parts[..i] + [parts[i]];
    CastsAppend(parts[..i], parts[i]);
    PositivesAppend(Casts(parts[..i]), IntCast(Trim(parts[i])));
  }

  /** How the edit form prints an integer: `intval` then decimal. */
  function IntString(n: int): (s: string)
    ensures |s| >= 1 && IsDigit(s[|s| - 1])
    ensures IsDigit(s[0]) || s[0] == '-'
    ensures NoneOf(s, IsListSep)
  {
    if n >= 0 then DecimalString(n) else "-" + DecimalString(-n)
  }

  lemma IntStringCast(n: int)
    ensures IntCast(IntString(n)) == n
  {
    if n >= 0 {
      IntCastDecimal(n);
    } else {
      var d := DecimalString(-n);
      var s := "-" + d;
      assert SkipNumericSpace(s) == s;
      assert s[1..] == d;
      IntCastDecimal(-n);
      assert SkipNumericSpace(d) == d;
    }
  }

  function IntStrings(l: seq<int>): (r: seq<string>)
    ensures |r| == |l|
    ensures forall i :: 0 <= i < |l| ==> r[i] == IntString(l[i])
  {
    if l == [] then [] else [IntString(l[0])] + IntStrings(l[1..])
  }

  /** The ladder field of the edit form: `implode(',', array_map('intval', $ladder))`. */
  function LadderCsv(l: seq<int>): string
  {
    JoinWith(IntStrings(l), ',')
  }

  /** Saving the edit form unchanged keeps exactly the positive rungs of the stored
      ladder, in order. */
  lemma LadderCsvRoundTrip(l: seq<int>)
    ensures IntListOf(LadderCsv(l)) == Positives(l)
  {
    if l != [] {
      var parts := IntStrings(l);
      LadderCsvTrimmed(l);
      SplitJoin(parts, ',', IsListSep);
      CastsOfIntStrings(l);
    }
  }

  /** A printed ladder that is not empty is its own trim. */
  lemma LadderCsvTrimmed(l: seq<int>)
    requires l != []
    ensures Trim(LadderCsv(l)) == LadderCsv(l) != []
  {
    var parts := IntStrings(l);
    JoinHead(parts, ',');
    JoinLast(parts, ',');
    TrimNoEdges(LadderCsv(l));
  }

  /** Every printed rung casts back to itself. */
  lemma CastsOfIntStrings(l: seq<int>)
    ensures Casts(IntStrings(l)) == l
  {
    var parts := IntStrings(l);
    forall i | 0 <= i < |parts| ensures Casts(parts)[i] == l[i] {
      TrimNoEdges(parts[i]);
      IntStringCast(l[i]);
    }
  }

  lemma {:induction false} JoinHead(parts: seq<string>, sep: char)
    requires |parts| >= 1 && |parts[0]| >= 1
    ensures |JoinWith(parts, sep)| >= 1 && JoinWith(parts, sep)[0] == parts[0][0]
  {
  }

  lemma {:induction false} JoinLast(parts: seq<string>, sep: char)
    requires |parts| >= 1 && |parts[|parts| - 1]| >= 1
    ensures var j := JoinWith(parts, sep);
      var last := parts[|parts| - 1];
      |j| >= 1 && j[|j| - 1] == last[|last| - 1]
  {
    if |parts| > 1 {
      JoinLast(parts[1..], sep);
    }
  }

  // ---------------------------------------------------------------- the repair lines

  /** `str_replace("\r\n", "\n", $s)`. */
  function ReplaceCrlf(s: string): (r: string)
    ensures |r| <= |s|
  {
    if |s| >= 2 && s[0] == '\r' && s[1] == '\n' then "\n" + ReplaceCrlf(s[2..])
    else if s == [] then []
    else [s[0]] + ReplaceCrlf(s[1..])
  }

  predicate IsNewline(c: char) { c == '\n' }

  /** Keeps the strings that are not empty, in order. */
  function NonEmptyLines(ls: seq<string>): (r: seq<string>)
    ensures forall x :: x in r ==> x != [] && x in ls
  {
    if ls == [] then [] else (if ls[0] != [] then [ls[0]] else []) + NonEmptyLines(ls[1..])
  }

  /** Every non-empty string is kept, and the order is kept: what a prefix keeps is a
      prefix of what the whole list keeps. */
  lemma {:induction false} NonEmptyLinesSpec(ls: seq<string>)
    ensures forall i :: 0 <= i < |ls| && ls[i] != [] ==> ls[i] in NonEmptyLines(ls)
    ensures forall n :: 0 <= n <= |ls| ==> NonEmptyLines(ls[..n]) <= NonEmptyLines(ls)
  {
    if ls != [] {
      NonEmptyLinesSpec(ls[1..]);
      forall i | 1 <= i < |ls| && ls[i] != [] ensures ls[i] in NonEmptyLines(ls) {
        assert ls[1..][i - 1] == ls[i];
      }
      forall n | 1 <= n <= |ls| ensures NonEmptyLines(ls[..n]) <= NonEmptyLines(ls) {
        assert ls[..n][1..] == ls[1..][..n - 1];
      }
    }
  }

  lemma {:induction false} NonEmptyLinesAppend(ls: seq<string>, x: string)
    ensures NonEmptyLines(ls + [x]) == NonEmptyLines(ls) + (if x != [] then [x] else [])
  {
    if ls == [] {
      assert ls + [x] == [x];
    } else {
      assert (ls + [x])[1..] == ls[1..] + [x];
      NonEmptyLinesAppend(ls[1..], x);
    }
  }

  function TrimAll(ls: seq<string>): (r: seq<string>)
    ensures |r| == |ls|
    ensures forall i :: 0 <= i < |ls| ==> r[i] == Trim(ls[i])
  {
    if ls == [] then [] else [Trim(ls[0])] + TrimAll(ls[1..])
  }

  /** The list `gb2_parse_lines` returns: the trimmed lines that are not empty. */
  function LinesOf(s: string): seq<string>
  {
    NonEmptyLines(TrimAll(SplitBy(ReplaceCrlf(s), IsNewline)))
  }

  /** `gb2_parse_lines`. */
  method ParseLines(s: string) returns (out: seq<string>)
    ensures out == LinesOf(s)
    ensures forall x :: x in out ==> x != [] && !IsTrimChar(x[0]) && !IsTrimChar(x[|x| - 1])
  {
    var lines := TrimAll(SplitBy(ReplaceCrlf(s), IsNewline));
    out := [];
    var i := 0;
    while i < |lines|
      invariant 0 <= i <= |lines|
      invariant out == NonEmptyLines(lines[..i])
    {
      NonEmptyLinesAppend(lines[..i], lines[i]);
      assert lines[..i + 1] == lines[..i] + [lines[i]];
      if lines[i] != [] {
        out := out + [lines[i]];
      }
      i := i + 1;
    }
    assert lines[..i] == lines;
    forall x | x in out ensures x != [] && !IsTrimChar(x[0]) && !IsTrimChar(x[|x| - 1]) {
      var k :| 0 <= k < |lines| && lines[k] == x;
    }
  }

  lemma {:induction false} ReplaceCrlfPrefix(a: string, b: string)
    requires NoneOf(a, IsNewline) && (a == [] || a[|a| - 1] != '\r')
    ensures ReplaceCrlf(a + b) == a + ReplaceCrlf(b)
  {
    if a != [] {
      assert (a + b)[0] == a[0] && (a + b)[1..] == a[1..] + b;
      if |a| >= 2 {
        assert (a + b)[1] == a[1];
      }
      ReplaceCrlfPrefix(a[1..], b);
      assert [a[0]] + (a[1..] + ReplaceCrlf(b)) == a + ReplaceCrlf(b);
    } else {
      assert a + b == b;
    }
  }

  /** A line that neither starts nor ends with a trim character and has no line break. */
  predicate CleanLine(x: string)
  {
    x != [] && !IsTrimChar(x[0]) && !IsTrimChar(x[|x| - 1]) && NoneOf(x, IsNewline)
  }

  lemma {:induction false} JoinLinesCrlfFree(lines: seq<string>)
    requires forall i :: 0 <= i < |lines| ==> CleanLine(lines[i])
    ensures ReplaceCrlf(JoinWith(lines, '\n')) == JoinWith(lines, '\n')
  {
    if |lines| == 1 {
      assert CleanLine(lines[0]);
      CleanCrlfStep(lines[0], []);
      assert lines[0] + [] == lines[0];
    } else if |lines| > 1 {
      assert CleanLine(lines[0]);
      JoinLinesCrlfFree(lines[1..]);
      assert ("\n" + JoinWith(lines[1..], '\n'))[1..] == JoinWith(lines[1..], '\n');
      CleanCrlfStep(lines[0], "\n" + JoinWith(lines[1..], '\n'));
      assert lines[0] + ['\n'] + JoinWith(lines[1..], '\n') == lines[0] + ("\n" + JoinWith(lines[1..], '\n'));
    }
  }

  /** A clean line followed by a break and text the replacement leaves alone is left alone. */
  lemma CleanCrlfStep(l0: string, tail: string)
    requires CleanLine(l0)
    requires tail == [] || (tail[0] == '\n' && ReplaceCrlf(tail[1..]) == tail[1..])
    ensures ReplaceCrlf(l0 + tail) == l0 + tail
  {
    ReplaceCrlfPrefix(l0, tail);
    if tail == [] {
      assert l0 + tail == l0;
    } else {
      assert tail == "\n" + tail[1..];
    }
  }

  /** Saving the edit form unchanged keeps the stored repair lines when each is a
      single clean line (`implode("\n", …)` then `gb2_post_str` then `gb2_parse_lines`). */
  lemma RepairsRoundTrip(lines: seq<string>)
    requires forall i :: 0 <= i < |lines| ==> CleanLine(lines[i])
    ensures LinesOf(Trim(JoinWith(lines, '\n'))) == lines
  {
    if lines == [] {
      assert Trim(JoinWith(lines, '\n')) == [];
      assert LinesOf([]) == NonEmptyLines(TrimAll([[]]));
    } else {
      JoinLinesTrimmed(lines);
      JoinLinesCrlfFree(lines);
      SplitJoin(lines, '\n', IsNewline);
      TrimAllClean(lines);
      NonEmptyAll(lines);
    }
  }

  lemma JoinLinesTrimmed(lines: seq<string>)
    requires lines != []
    requires forall i :: 0 <= i < |lines| ==> CleanLine(lines[i])
    ensures Trim(JoinWith(lines, '\n')) == JoinWith(lines, '\n')
  {
    assert CleanLine(lines[0]) && CleanLine(lines[|lines| - 1]);
    JoinHead(lines, '\n');
    JoinLast(lines, '\n');
    TrimNoEdges(JoinWith(lines, '\n'));
  }

  lemma {:induction false} TrimAllClean(lines: seq<string>)
    requires forall i :: 0 <= i < |lines| ==> CleanLine(lines[i])
    ensures TrimAll(lines) == lines
  {
    if lines != [] {
      assert CleanLine(lines[0]);
      TrimNoEdges(lines[0]);
      TrimAllClean(lines[1..]);
      assert lines == [lines[0]] + lines[1..];
    }
  }

  lemma {:induction false} NonEmptyAll(ls: seq<string>)
    requires forall i :: 0 <= i < |ls| ==> ls[i] != []
    ensures NonEmptyLines(ls) == ls
  {
    if ls != [] {
      NonEmptyAll(ls[1..]);
      assert ls == [ls[0]] + ls[1..];
    }
  }

  // ---------------------------------------------------------------- the handler

  /** The POSTed definition form: raw strings, the `(int)`-cast numbers, whether
      `active` was posted, and the posted block checkbox names. */
  datatype DefForm = DefForm(action: string, id: int, code: string, title: string, active: bool, mode: string,
                             days: int, reviewDays: int, sortOrder: int, blocks: set<string>,
                             ladderCsv: string, repairsLines: string)

  datatype FormAction = Create | Update | Delete | Unknown

  function ActionOf(raw: string): (a: FormAction)
    ensures a == Create <==> Trim(raw) == "create"
    ensures a == Update <==> Trim(raw) == "update"
    ensures a == Delete <==> Trim(raw) == "delete"
  {
    var t := Trim(raw);
    if t == "create" then Create else if t == "update" then Update else if t == "delete" then Delete else Unknown
  }

  /** The row a create or update writes, with the given creation time. */
  function FormRow(f: DefForm, createdAt: int): DefRow
  {
    DefRow(Trim(f.code), Trim(f.title), f.active, ModeName(NormMode(f.mode)), PostInt(f.days, 0, 365),
           IntListOf(Trim(f.ladderCsv)), Arr(BlocksJson(NormBlocks(f.blocks))), LinesOf(Trim(f.repairsLines)),
           PostInt(f.reviewDays, 0, 365), PostInt(f.sortOrder, 0, 99999), createdAt)
  }

  /** What a saved definition means to the engine: its mode and blocks read back as
      normalised, its default days and review days lie in 0..365, and only positive
      rungs are stored. */
  lemma FormRowForEngine(f: DefForm, createdAt: int, strikeAfter: int)
    ensures var d := FormRow(f, createdAt);
      && EngineMode(d.mode) == NormMode(f.mode)
      && DecodeBlocks(d.blocks) == NormBlocks(f.blocks)
      && 0 <= d.days <= 365 && 0 <= d.reviewDays <= 365
      && Positives(d.ladder) == d.ladder
      && (d.ladder == [] ==> 0 <= ComputeDays(d, strikeAfter) <= 365)
  {
    NormModeStable(f.mode);
    var d := FormRow(f, createdAt);
    PositivesSpec(Casts(SplitBy(Trim(Trim(f.ladderCsv)), IsListSep)));
    PositivesSpec(d.ladder);
  }

  /** Whether both required fields are present after trimming. */
  predicate HasCodeAndLabel(f: DefForm)
  {
    Trim(f.code) != [] && Trim(f.title) != []
  }

  /** The POST handler. `dbError` stands for a failing statement and its message. */
  method HandleDefPost(db: InfractionDb, f: DefForm, a: FormAction, complete: bool, now: int, dbError: Option<string>)
    returns (flash: Flash)
    requires a == ActionOf(f.action) && complete == HasCodeAndLabel(f)
    requires db.Valid()
    modifies db`defs, db`nextDefId
    ensures db.Valid()
    ensures (a == Create || a == Update) && !complete ==>
      flash == FlashErr("Code and label are required.") && db.defs == old(db.defs)
    ensures a == Create && complete && dbError.None? ==>
      flash == FlashOk("Definition created.") && db.nextDefId == old(db.nextDefId) + 1 &&
      db.defs == old(db.defs)[old(db.nextDefId) := FormRow(f, now)]
    ensures a == Update && complete && PostInt(f.id, 0, 999999) <= 0 ==>
      flash == FlashErr("Save failed: Missing id for update.") && db.defs == old(db.defs)
    ensures a == Update && complete && PostInt(f.id, 0, 999999) > 0 && dbError.None? ==>
      var id := PostInt(f.id, 0, 999999);
      flash == FlashOk("Definition updated.") &&
      db.defs == (if id in old(db.defs) then old(db.defs)[id := FormRow(f, old(db.defs)[id].createdAt)] else old(db.defs))
    ensures a == Delete && PostInt(f.id, 0, 999999) > 0 && dbError.None? ==>
      flash == FlashOk("Definition deleted.") && db.defs == old(db.defs) - {PostInt(f.id, 0, 999999)}
    ensures a == Delete && PostInt(f.id, 0, 999999) <= 0 ==>
      flash == FlashErr("Missing id for delete.") && db.defs == old(db.defs)
    ensures a == Unknown ==> flash == FlashErr("Unknown action.") && db.defs == old(db.defs)
    ensures dbError.Some? && !(a == Update && complete && PostInt(f.id, 0, 999999) <= 0) &&
            (((a == Create || a == Update) && complete) || (a == Delete && PostInt(f.id, 0, 999999) > 0)) ==>
      db.defs == old(db.defs) &&
      flash == FlashErr((if a == Delete then "Delete failed: " else "Save failed: ") + dbError.value)
    ensures flash.FlashErr? ==> db.defs == old(db.defs) && db.nextDefId == old(db.nextDefId)
  {
    flash := FlashErr("Unknown action.");
    var id := PostInt(f.id, 0, 999999);
    if a == Create || a == Update {
      if !complete {
        flash := FlashErr("Code and label are required.");
      } else if a == Create {
        if dbError.Some? {
          flash := FlashErr("Save failed: " + dbError.value);
        } else {
          db.defs := db.defs[db.nextDefId := FormRow(f, now)];
          db.nextDefId := db.nextDefId + 1;
          flash := FlashOk("Definition created.");
        }
      } else if id <= 0 {
        flash := FlashErr("Save failed: Missing id for update.");
      } else if dbError.Some? {
        flash := FlashErr("Save failed: " + dbError.value);
      } else {
        if id in db.defs {
          db.defs := db.defs[id := FormRow(f, db.defs[id].createdAt)];
        }
        flash := FlashOk("Definition updated.");
      }
    } else if a == Delete {
      if id > 0 {
        if dbError.Some? {
          flash := FlashErr("Delete failed: " + dbError.value);
        } else {
          db.defs := db.defs - {id};
          flash := FlashOk("Definition deleted.");
        }
      } else {
        flash := FlashErr("Missing id for delete.");
      }
    }
  }

  /** The edit form's ladder field from the stored column (`gb2_decode_arr` with an
      empty fallback, then printed). */
  function EditLadderCsv(ladderJson: JsonText<seq<int>>): string
  {
    LadderCsv(JsonArr(ladderJson, []))
  }

  /** Opening a definition and saving it keeps the positive rungs of a stored ladder,
      and a blank or unreadable column saves as no ladder. */
  lemma EditLadderRoundTrip(ladderJson: JsonText<seq<int>>)
    ensures ladderJson.Doc? && ladderJson.doc.Arr? ==>
      IntListOf(Trim(EditLadderCsv(ladderJson))) == Positives(ladderJson.doc.value)
    ensures !(ladderJson.Doc? && ladderJson.doc.Arr?) ==> IntListOf(Trim(EditLadderCsv(ladderJson))) == []
  {
    var l := JsonArr(ladderJson, []);
    LadderCsvRoundTrip(l);
    if l != [] {
      var parts := IntStrings(l);
      JoinHead(parts, ',');
      JoinLast(parts, ',');
      TrimNoEdges(LadderCsv(l));
    } else {
      assert LadderCsv(l) == [];
    }
  }
}
