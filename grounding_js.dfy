/** The board's script, assets/js/grounding.js: the theme switch, the quick-add dialog's
    recent list, search filter, escaping and reset, and the tabs' first selection. */
module GroundingJs {
  import opened Common
  import AppJs

  // --- Theme ---

  /** The themes the switch knows; anything else is "auto". */
  function ThemeOf(v: string): (r: string)
    ensures r == "light" || r == "dark" || r == "auto"
    ensures (v == "light" || v == "dark" || v == "auto") ==> r == v
  {
    if v == "light" || v == "dark" || v == "auto" then v else "auto"
  }

  /** `applyTheme`: the value it stores, and the `data-theme` attribute it leaves (None
      when it removes it, for "auto"). */
  function ApplyTheme(v: string): (r: (string, Option<string>))
    ensures r.0 == ThemeOf(v)
    ensures r.1.None? <==> ThemeOf(v) == "auto"
    ensures r.1.Some? ==> r.1.value == r.0 && (r.0 == "light" || r.0 == "dark")
  {
    var val := ThemeOf(v);
    (val, if val == "auto" then None else Some(val))
  }

  /** The theme applied on load: the stored one, or "auto" when nothing (or '') is stored. */
  function InitialTheme(stored: Option<string>): (r: (string, Option<string>))
    ensures stored.None? || stored.value == "" ==> r == ("auto", None)
  {
    ApplyTheme(if stored.None? || stored.value == "" then "auto" else stored.value)
  }

  /** Applying what was stored applies the same theme again. */
  lemma ThemeReload(v: string)
    ensures InitialTheme(Some(ApplyTheme(v).0)) == ApplyTheme(v)
  {
  }

  // --- Recent infractions ---

  /** What `JSON.parse` makes of the stored text: an error, something other than a list,
      or a list whose items are strings (Some) or anything else (None). */
  datatype Parsed = Unparseable | NotList | List(items: seq<Option<string>>)

  /** The string items of a list, in order. */
  function Strings(items: seq<Option<string>>): (r: seq<string>)
    ensures |r| <= |items|
    ensures forall x :: x in r <==> Some(x) in items
  {
    if items == [] then []
    else
      var rest := Strings(items[..|items| - 1]);
      var last := items[|items| - 1];
      assert items == items[..|items| - 1] + [last];
      if last.Some? then rest + [last.value] else rest
  }

  /** `readRecent`. */
  function ReadRecent(parsed: Parsed): (r: seq<string>)
    ensures !parsed.List? ==> r == []
    ensures parsed.List? ==> r == Strings(parsed.items)
  {
    if parsed.List? then Strings(parsed.items) else []
  }

  const RecentMax := 10

  /** `writeRecent`: the first ten ids. */
  function WriteRecent(ids: seq<string>): (r: seq<string>)
    ensures |r| == Min(|ids|, RecentMax) && r == ids[..|r|]
  {
    ids[..Min(|ids|, RecentMax)]
  }

  /** The list without `id`, in order. */
  function Without(ids: seq<string>, id: string): (r: seq<string>)
    ensures |r| <= |ids|
    ensures forall x :: x in r <==> x in ids && x != id
  {
    if ids == [] then []
    else
      var rest := Without(ids[..|ids| - 1], id);
      var last := ids[|ids| - 1];
      assert ids == ids[..|ids| - 1] + [last];
      if last == id then rest else rest + [last]
  }

  predicate Distinct(ids: seq<string>)
  {
    forall i, j :: 0 <= i < j < |ids| ==> ids[i] != ids[j]
  }

  lemma {:induction false} WithoutDistinct(ids: seq<string>, id: string)
    requires Distinct(ids)
    ensures Distinct(Without(ids, id))
  {
    if ids != [] {
      var n := |ids| - 1;
      assert forall i :: 0 <= i < n ==> ids[..n][i] == ids[i];
      WithoutDistinct(ids[..n], id);
      var rest := Without(ids[..n], id);
      if ids[n] != id {
        assert ids[n] !in ids[..n];
        assert ids[n] !in rest;
      }
    }
  }

  /** The list the submit handler stores: None when no infraction is chosen (nothing is
      written), otherwise the chosen id first and the earlier ids after it, at most ten. */
  function SubmitRecent(id: string, current: Parsed): (r: Option<seq<string>>)
    ensures id == "" ==> r.None?
    ensures id != "" ==> r.Some? && r.value == WriteRecent([id] + Without(ReadRecent(current), id))
  {
    if id == "" then None else Some(WriteRecent([id] + Without(ReadRecent(current), id)))
  }

  /** After a submit the chosen id is first and appears once, at most ten ids are kept,
      every other id was there before, and no id appears twice when none did before. */
  lemma SubmitRecentSpec(id: string, current: Parsed)
    requires id != ""
    ensures var r := SubmitRecent(id, current).value;
      |r| >= 1 && r[0] == id && |r| <= RecentMax &&
      (forall i :: 1 <= i < |r| ==> r[i] != id) &&
      (forall x :: x in r && x != id ==> x in ReadRecent(current)) &&
      (Distinct(ReadRecent(current)) ==> Distinct(r))
  {
    var cur := ReadRecent(current);
    var next := [id] + Without(cur, id);
    var r := WriteRecent(next);
    assert r[0] == id;
    forall i | 1 <= i < |r|
      ensures r[i] != id && r[i] in cur
    {
      assert r[i] == next[i] == Without(cur, id)[i - 1];
      assert Without(cur, id)[i - 1] in Without(cur, id);
    }
    if Distinct(cur) {
      WithoutDistinct(cur, id);
      forall i, j | 0 <= i < j < |r|
        ensures r[i] != r[j]
      {
        if i > 0 {
          assert r[i] == Without(cur, id)[i - 1] && r[j] == Without(cur, id)[j - 1];
        }
      }
    }
  }

  /** What is written reads back as the same list. */
  lemma {:induction false} WriteReadRoundTrip(ids: seq<string>)
    ensures ReadRecent(List(seq(|ids|, i requires 0 <= i < |ids| => Some(ids[i])))) == ids
  {
    if ids != [] {
      var n := |ids| - 1;
      var items := seq(|ids|, i requires 0 <= i < |ids| => Some(ids[i]));
      assert items[..n] == seq(n, i requires 0 <= i < n => Some(ids[..n][i]));
      WriteReadRoundTrip(ids[..n]);
      assert ids[..n] + [ids[n]] == ids;
    }
  }

  // --- Escaping ---

  /** `escapeHtml`: the same chain as the page script's, with `&#039;` for the quote. */
  function EscapeHtml(s: string): (r: string)
    ensures r == AppJs.EscapeChain(s, "&#039;")
    ensures AppJs.NoMarkup(r)
  {
    AppJs.EscapeChainIsEscape(s, "&#039;");
    AppJs.EscapeSafe(s, "&#039;");
    AppJs.Escape(s, "&#039;")
  }

  // --- Search ---

  /** The whitespace JavaScript's `trim` removes. */
  predicate IsJsSpace(c: char)
  {
    c == '\t' || c == '\n' || c == '\U{000B}' || c == '\U{000C}' || c == '\r' || c == ' ' ||
    c == '\U{00A0}' || c == '\U{1680}' || ('\U{2000}' <= c <= '\U{200A}') || c == '\U{2028}' ||
    c == '\U{2029}' || c == '\U{202F}' || c == '\U{205F}' || c == '\U{3000}' || c == '\U{FEFF}'
  }

  function JsTrimStart(s: string): (r: string)
    ensures r == [] || !IsJsSpace(r[0])
  {
    if s != [] && IsJsSpace(s[0]) then JsTrimStart(s[1..]) else s
  }

  function JsTrimEnd(s: string): (r: string)
    ensures r == [] || !IsJsSpace(r[|r| - 1])
    ensures |r| <= |s| && (r != [] ==> r[0] == s[0])
  {
    if s != [] && IsJsSpace(s[|s| - 1]) then JsTrimEnd(s[..|s| - 1]) else s
  }

  function JsTrim(s: string): (r: string)
    ensures r == [] || (!IsJsSpace(r[0]) && !IsJsSpace(r[|r| - 1]))
  {
    JsTrimEnd(JsTrimStart(s))
  }

  /** An infraction as the dialog lists it (a missing id or label reads as ''). */
  datatype Infraction = Infraction(id: string, title: string)

  predicate Matches(x: Infraction, query: string)
  {
    query == [] || IsSubstring(query, ToLower(x.title)) || IsSubstring(query, ToLower(x.id))
  }

  function FilterBy(infs: seq<Infraction>, query: string): (r: seq<Infraction>)
    ensures |r| <= |infs|
    ensures forall x :: x in r <==> x in infs && Matches(x, query)
    ensures query == [] ==> r == infs
  {
    if infs == [] then []
    else
      var rest := FilterBy(infs[..|infs| - 1], query);
      var last := infs[|infs| - 1];
      assert infs == infs[..|infs| - 1] + [last];
      if Matches(last, query) then rest + [last] else rest
  }

  /** The filter of `renderAll`: the search box's text, trimmed and lower-cased, matched
      as a substring of the lower-cased label or id; an empty search lists everything. */
  function Filtered(infs: seq<Infraction>, search: string): (r: seq<Infraction>)
    ensures forall x :: x in r <==> x in infs && Matches(x, ToLower(JsTrim(search)))
    ensures JsTrim(search) == [] ==> r == infs
  {
    FilterBy(infs, ToLower(JsTrim(search)))
  }

  /** Every infraction matches a search for its own id. */
  lemma FindsOwnId(infs: seq<Infraction>, x: Infraction)
    requires x in infs && x.id == ToLower(x.id)
    ensures x in FilterBy(infs, x.id)
  {
    assert x.id == ToLower(x.id)[0..|x.id|];
    assert IsSubstring(x.id, ToLower(x.id)) by {
      assert ToLower(x.id)[0..0 + |x.id|] == x.id;
    }
  }

  // --- Tabs ---

  /** The tab shown first: the saved one when it names a tab, otherwise the first tab;
      nothing when that is ''. With no tabs at all a saved name is still shown. */
  function InitialTab(tabs: seq<string>, saved: Option<string>): (r: Option<string>)
    ensures tabs != [] && r.Some? ==> r.value in tabs
    ensures tabs != [] && saved.Some? && saved.value != "" && saved.value in tabs ==> r == Some(saved.value)
    ensures tabs != [] && !(saved.Some? && saved.value != "" && saved.value in tabs) ==>
      r == (if tabs[0] == "" then None else Some(tabs[0]))
  {
    var first := if tabs != [] then tabs[0] else "";
    var initial := if saved.Some? && saved.value != "" then saved.value else first;
    var chosen := if initial !in tabs then (if tabs != [] then tabs[0] else initial) else initial;
    if chosen == "" then None else Some(chosen)
  }

  // --- Quick-add dialog ---

  /** The dialog's state. An element the page lacks is None. */
  class QuickAdd {
    var hidden: bool
    var selectedId: string
    var infInput: Option<string>
    var applyDisabled: Option<bool>
    var hint: Option<string>
    var preview: Option<string>
    var search: Option<string>
    var activePills: set<string>
    var infractions: seq<Infraction>

    constructor (infs: seq<Infraction>)
      ensures hidden && selectedId == "" && infInput == None && applyDisabled == None && hint == None
      ensures preview == None && search == None && activePills == {} && infractions == infs
    {
      hidden := true;
      selectedId := "";
      infInput := None;
      applyDisabled := None;
      hint := None;
      preview := None;
      search := None;
      activePills := {};
      infractions := infs;
    }

    /** The infractions `renderAll` lists for the current search. */
    function Listed(): seq<Infraction>
      reads this
    {
      Filtered(infractions, if search.Some? then search.value else "")
    }

    /** `close`: hides the dialog and clears the choice, the search and the highlights;
        the Apply button is disabled and the full list is shown again. */
    method Close()
      modifies this
      ensures hidden && selectedId == "" && activePills == {}
      ensures infInput == (if old(infInput).Some? then Some("") else None)
      ensures applyDisabled == (if old(applyDisabled).Some? then Some(true) else None)
      ensures hint == (if old(hint).Some? then Some("Select an infraction.") else None)
      ensures preview == (if old(preview).Some? then Some("Pick an infraction to see the outcome.") else None)
      ensures search == (if old(search).Some? then Some("") else None)
      ensures infractions == old(infractions)
      ensures Listed() == infractions
    {
      hidden := true;
      selectedId := "";
      if infInput.Some? { infInput := Some(""); }
      if applyDisabled.Some? { applyDisabled := Some(true); }
      if hint.Some? { hint := Some("Select an infraction."); }
      if preview.Some? { preview := Some("Pick an infraction to see the outcome."); }
      activePills := {};
      if search.Some? { search := Some(""); }
      assert JsTrim("") == [];
    }
  }
}
