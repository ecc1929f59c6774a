/** The labels of the kid's history page, app/history.php: JSON columns read defensively,
    the blocked categories and their end times as text, the review status of an entry, and
    the mode shown for it. */
module History {
  import opened Common

  /** `gb2_hist_json_arr`: `json` is the column (None for NULL) and `decode` what
      `json_decode` makes of text (NotArray for an error or a non-array). */
  function JsonArrOf<T>(json: Option<string>, decode: string -> Decoded<T>, empty: T): (r: T)
    ensures json.None? || Trim(json.value) == [] ==> r == empty
    ensures json.Some? && Trim(json.value) != [] && decode(Trim(json.value)).NotArray? ==> r == empty
    ensures json.Some? && Trim(json.value) != [] && decode(Trim(json.value)).Arr? ==>
      r == decode(Trim(json.value)).value
  {
    if json.None? then empty
    else
      var t := Trim(json.value);
      if t == [] then empty
      else match decode(t)
        case NotArray => empty
        case Arr(v) => v
  }

  /** Surrounding whitespace never changes what the column reads as. */
  lemma JsonArrTrimmed<T>(s: string, decode: string -> Decoded<T>, empty: T)
    ensures JsonArrOf(Some(Trim(s)), decode, empty) == JsonArrOf(Some(s), decode, empty)
  {
    if Trim(s) != [] {
      TrimNoEdges(Trim(s));
    }
  }

  function Title(c: Category): string
  {
    match c
    case Phone => "Phone"
    case Games => "Games"
    case Other => "Other"
  }

  /** The titles of the categories whose flag is 1, in the fixed order. */
  function OnTitles(flags: Triple<int>): (r: seq<string>)
    ensures |r| <= 3
    ensures "Phone" in r <==> flags.phone == 1
    ensures "Games" in r <==> flags.games == 1
    ensures "Other" in r <==> flags.other == 1
  {
    (if flags.phone == 1 then ["Phone"] else []) +
    (if flags.games == 1 then ["Games"] else []) +
    (if flags.other == 1 then ["Other"] else [])
  }

  /** `gb2_hist_blocks_label`: `flags` are the decoded blocks after the int cast (a
      missing flag reads 0). */
  function BlocksLabel(flags: Triple<int>): (r: string)
    ensures r == "None" <==> flags.phone != 1 && flags.games != 1 && flags.other != 1
  {
    var on := OnTitles(flags);
    if on == [] then "None"
    else
      assert on[0][0] != 'N';
      Join(on, ", ")
  }

  /** The label tells exactly which categories are blocked. */
  lemma BlocksLabelInjective(a: Triple<int>, b: Triple<int>)
    requires BlocksLabel(a) == BlocksLabel(b)
    ensures a.phone == 1 <==> b.phone == 1
    ensures a.games == 1 <==> b.games == 1
    ensures a.other == 1 <==> b.other == 1
  {
    LabelShapes(a);
    LabelShapes(b);
  }

  lemma LabelShapes(f: Triple<int>)
    ensures BlocksLabel(f) ==
      if f.phone == 1 && f.games == 1 && f.other == 1 then "Phone, Games, Other"
      else if f.phone == 1 && f.games == 1 then "Phone, Games"
      else if f.phone == 1 && f.other == 1 then "Phone, Other"
      else if f.games == 1 && f.other == 1 then "Games, Other"
      else if f.phone == 1 then "Phone"
      else if f.games == 1 then "Games"
      else if f.other == 1 then "Other"
      else "None"
  {
  }

  /** The parts of the until label: `Title→iso` for each category with a non-empty time,
      in the order Phone, Games, Other. */
  function UntilParts(until: Triple<string>): (r: seq<string>)
    ensures |r| <= 3
    ensures forall i :: 0 <= i < |r| ==> |r[i]| >= 7
    ensures "Phone→" + until.phone in r <==> until.phone != ""
    ensures "Games→" + until.games in r <==> until.games != ""
    ensures "Other→" + until.other in r <==> until.other != ""
    ensures until.phone != "" ==> r[0] == "Phone→" + until.phone
    ensures until.other != "" ==> r[|r| - 1] == "Other→" + until.other
  {
    (if until.phone != "" then ["Phone→" + until.phone] else []) +
    (if until.games != "" then ["Games→" + until.games] else []) +
    (if until.other != "" then ["Other→" + until.other] else [])
  }

  /** `gb2_hist_until_label`: `until` holds each category's time as text ('' when
      missing). */
  function UntilLabel(until: Triple<string>): (r: string)
    ensures r == "—" <==> until.phone == "" && until.games == "" && until.other == ""
    ensures until.phone != "" && until.games == "" && until.other == "" ==> r == "Phone→" + until.phone
  {
    var parts := UntilParts(until);
    if parts == [] then "—"
    else
      assert |Join(parts, " • ")| >= 7;
      Join(parts, " • ")
  }

  /** The eight possible labels: the parts of the categories with a time, joined by
      " • " in the order Phone, Games, Other. */
  lemma UntilLabelShapes(u: Triple<string>)
    ensures var p, g, o := "Phone→" + u.phone, "Games→" + u.games, "Other→" + u.other;
      UntilLabel(u) ==
        if u.phone != "" && u.games != "" && u.other != "" then p + " • " + g + " • " + o
        else if u.phone != "" && u.games != "" then p + " • " + g
        else if u.phone != "" && u.other != "" then p + " • " + o
        else if u.games != "" && u.other != "" then g + " • " + o
        else if u.phone != "" then p
        else if u.games != "" then g
        else if u.other != "" then o
        else "—"
  {
    var p, g, o := "Phone→" + u.phone, "Games→" + u.games, "Other→" + u.other;
    if u.phone != "" && u.games != "" && u.other != "" {
      assert UntilParts(u) == [p, g, o];
      JoinThree(p, g, o);
    } else if u.phone != "" && u.games != "" {
      assert UntilParts(u) == [p, g];
      JoinTwo(p, g);
    } else if u.phone != "" && u.other != "" {
      assert UntilParts(u) == [p, o];
      JoinTwo(p, o);
    } else if u.games != "" && u.other != "" {
      assert UntilParts(u) == [g, o];
      JoinTwo(g, o);
    } else if u.phone != "" {
      assert UntilParts(u) == [p];
    } else if u.games != "" {
      assert UntilParts(u) == [g];
    } else if u.other != "" {
      assert UntilParts(u) == [o];
    }
  }

  lemma JoinTwo(a: string, b: string)
    ensures Join([a, b], " • ") == a + " • " + b
  {
    assert [a, b][1..] == [b];
  }

  lemma JoinThree(a: string, b: string, c: string)
    ensures Join([a, b, c], " • ") == a + " • " + b + " • " + c
  {
    assert [a, b, c][1..] == [b, c];
    JoinTwo(b, c);
    assert a + " • " + (b + " • " + c) == a + " • " + b + " • " + c;
  }

  datatype StatusClass = StPending | StApproved | StOpen

  /** `gb2_hist_review_status`: `reviewedAt` and `action` as text ('' when missing). */
  function ReviewStatus(reviewedAt: string, action: string): (r: (StatusClass, string))
    ensures r.0 == StPending <==> reviewedAt == ""
    ensures r.0 == StApproved <==> reviewedAt != "" && (action == "unlock" || action == "shorten")
    ensures r.0 == StOpen <==> reviewedAt != "" && action != "unlock" && action != "shorten"
    ensures reviewedAt == "" ==> r.1 == "Pending review"
    ensures reviewedAt != "" && action == "unlock" ==> r.1 == "Reviewed: unlock"
    ensures reviewedAt != "" && action == "shorten" ==> r.1 == "Reviewed: shorten"
    ensures reviewedAt != "" && action == "review_only" ==> r.1 == "Reviewed: review-only"
    ensures reviewedAt != "" && action != "unlock" && action != "shorten" && action != "review_only" ==> r.1 == "Reviewed"
  {
    if reviewedAt == "" then (StPending, "Pending review")
    else if action == "unlock" then (StApproved, "Reviewed: unlock")
    else if action == "shorten" then (StApproved, "Reviewed: shorten")
    else if action == "review_only" then (StOpen, "Reviewed: review-only")
    else (StOpen, "Reviewed")
  }

  /** The mode shown for an entry: "add" or "set", anything else (or nothing) showing as
      "set". */
  function DisplayMode(mode: Option<string>): (r: string)
    ensures r == "add" || r == "set"
    ensures r == "add" <==> mode == Some("add")
  {
    var m := if mode.Some? then mode.value else "set";
    if m != "set" && m != "add" then "set" else m
  }
}
