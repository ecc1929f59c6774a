/** The countdowns and escaping of the pages' script, assets/js/app.js. Seconds are whole
    numbers here, so the script's `Math.floor` calls change nothing. */
module AppJs {
  import opened Common

  /** A leading zero adds nothing to a run of digits. */
  lemma {:induction false} LeadingZero(ds: string)
    requires forall i :: 0 <= i < |ds| ==> IsDigit(ds[i])
    ensures DigitsValue("0" + ds) == DigitsValue(ds)
  {
    if ds != [] {
      var n := |ds| - 1;
      assert ("0" + ds)[..|"0" + ds| - 1] == "0" + ds[..n];
      LeadingZero(ds[..n]);
    }
  }

  /** `pad2`: at least two digits, reading back as the number. */
  function Pad2(n: nat): (r: string)
    ensures |r| >= 2 && (n < 100 ==> |r| == 2)
    ensures forall i :: 0 <= i < |r| ==> IsDigit(r[i])
    ensures DigitsValue(r) == n
  {
    DigitsOfDecimal(n);
    if n < 10 then
      LeadingZero(DecimalString(n));
      "0" + DecimalString(n)
    else
      assert n < 100 ==> DecimalString(n) == DecimalString(n / 10) + [DigitChar(n % 10)];
      DecimalString(n)
  }

  /** Whole days, hours, minutes and seconds of a non-negative count of seconds. */
  function Breakdown(secs: nat): (r: (nat, nat, nat, nat))
    ensures r.0 * 86400 + r.1 * 3600 + r.2 * 60 + r.3 == secs
    ensures r.1 < 24 && r.2 < 60 && r.3 < 60
  {
    var d := secs / 86400;
    var rest := secs % 86400;
    (d, rest / 3600, rest % 3600 / 60, rest % 60)
  }

  /** The parts `fmtRemaining` joins: days when there are any, hours when there are any
      or there are days, then minutes and seconds, always two digits each. */
  function RemainingParts(secs: int): (parts: seq<string>)
    ensures var b := Breakdown(Max(0, secs));
      |parts| == 2 + (if b.0 > 0 then 1 else 0) + (if b.1 > 0 || b.0 > 0 then 1 else 0) &&
      parts[|parts| - 2] == Pad2(b.2) + "m" && parts[|parts| - 1] == Pad2(b.3) + "s" &&
      |parts[|parts| - 2]| == 3 && |parts[|parts| - 1]| == 3 &&
      (b.0 > 0 ==> parts[0] == DecimalString(b.0) + "d" && parts[1] == DecimalString(b.1) + "h") &&
      (b.0 == 0 && b.1 > 0 ==> parts[0] == DecimalString(b.1) + "h")
  {
    var b := Breakdown(Max(0, secs));
    (if b.0 > 0 then [DecimalString(b.0) + "d"] else []) +
    (if b.1 > 0 || b.0 > 0 then [DecimalString(b.1) + "h"] else []) +
    [Pad2(b.2) + "m", Pad2(b.3) + "s"]
  }

  /** `fmtRemaining`. */
  function FmtRemaining(secs: int): (r: string)
    ensures |r| >= 12 && r[0] == '(' && r[|r| - 11..] == " remaining)"
  {
    "(" + Join(RemainingParts(secs), " ") + " remaining)"
  }

  /** Negative time left reads as none. */
  lemma FmtRemainingClamps(secs: int)
    requires secs <= 0
    ensures FmtRemaining(secs) == FmtRemaining(0)
    ensures RemainingParts(secs) == ["00m", "00s"]
  {
    assert DecimalString(0) == "0";
    assert Pad2(0) == "00";
    assert Breakdown(Max(0, secs)) == (0, 0, 0, 0);
    var parts := RemainingParts(secs);
    assert |parts| == 2 && parts[0] == Pad2(0) + "m" && parts[1] == Pad2(0) + "s";
    assert parts[0] == "00m" && parts[1] == "00s";
  }

  /** A countdown element: its `data-gb2-until` after `parseInt` (None when that is not a
      number), its text, and whether it carries the `expired` class. */
  datatype Countdown = Countdown(until: Option<int>, text: string, expired: bool)

  /** One element at one tick: left alone without a positive end time, marked expired
      once no time is left, otherwise showing the time left. */
  function Tick(el: Countdown, now: int): (r: Countdown)
    ensures r.until == el.until
    ensures el.until.None? || el.until.value <= 0 ==> r == el
    ensures el.until.Some? && el.until.value > 0 ==>
      (r.expired <==> el.until.value - now <= 0) &&
      (r.expired ==> r.text == "(expired — refresh)") &&
      (!r.expired ==> r.text == FmtRemaining(el.until.value - now))
  {
    if el.until.None? || el.until.value <= 0 then el
    else if el.until.value - now <= 0 then el.(text := "(expired — refresh)", expired := true)
    else el.(text := FmtRemaining(el.until.value - now), expired := false)
  }

  /** `tickCountdowns` over the page's countdown elements. */
  method TickCountdowns(els: array<Countdown>, now: int)
    modifies els
    ensures forall i :: 0 <= i < els.Length ==> els[i] == Tick(old(els[i]), now)
  {
    var i := 0;
    while i < els.Length
      invariant 0 <= i <= els.Length
      invariant forall j :: 0 <= j < i ==> els[j] == Tick(old(els[j]), now)
      invariant forall j :: i <= j < els.Length ==> els[j] == old(els[j])
    {
      els[i] := Tick(els[i], now);
      i := i + 1;
    }
  }

  /** Once expired, an element stays expired at every later tick. */
  lemma ExpiredStays(el: Countdown, now: int, later: int)
    requires now <= later && Tick(el, now).expired && el.until.Some? && el.until.value > 0
    ensures Tick(Tick(el, now), later).expired
  {
  }

  // --- Escaping ---

  /** The replacement of one character by the chain of `replaceAll` calls; `apos` is the
      entity used for the single quote. */
  function EscapeChar(c: char, apos: string): string
  {
    if c == '&' then "&amp;"
    else if c == '<' then "&lt;"
    else if c == '>' then "&gt;"
    else if c == '"' then "&quot;"
    else if c == '\'' then apos
    else [c]
  }

  /** Every character replaced by its entity, in one pass. */
  function Escape(s: string, apos: string): (r: string)
  {
    if s == [] then [] else Escape(s[..|s| - 1], apos) + EscapeChar(s[|s| - 1], apos)
  }

  /** `s.replaceAll(c, rep)`. */
  function ReplaceAll(s: string, c: char, rep: string): (r: string)
  {
    if s == [] then [] else ReplaceAll(s[..|s| - 1], c, rep) + (if s[|s| - 1] == c then rep else [s[|s| - 1]])
  }

  lemma {:induction false} ReplaceAllAppend(a: string, b: string, c: char, rep: string)
    ensures ReplaceAll(a + b, c, rep) == ReplaceAll(a, c, rep) + ReplaceAll(b, c, rep)
  {
    if b == [] {
      assert a + b == a;
    } else {
      var n := |b| - 1;
      assert (a + b)[..|a + b| - 1] == a + b[..n];
      assert (a + b)[|a + b| - 1] == b[n];
      ReplaceAllAppend(a, b[..n], c, rep);
    }
  }

  lemma {:induction false} ReplaceAllAbsent(s: string, c: char, rep: string)
    requires c !in s
    ensures ReplaceAll(s, c, rep) == s
  {
    if s != [] {
      ReplaceAllAbsent(s[..|s| - 1], c, rep);
    }
  }

  /** The chain as the script writes it: `&` first, so the entities added later are not
      escaped again. */
  function EscapeChain(s: string, apos: string): string
  {
    ReplaceAll(ReplaceAll(ReplaceAll(ReplaceAll(ReplaceAll(s, '&', "&amp;"), '<', "&lt;"), '>', "&gt;"), '"', "&quot;"), '\'', apos)
  }

  lemma EscapeChainAppend(a: string, b: string, apos: string)
    ensures EscapeChain(a + b, apos) == EscapeChain(a, apos) + EscapeChain(b, apos)
  {
    var s1a := ReplaceAll(a, '&', "&amp;");
    var s1b := ReplaceAll(b, '&', "&amp;");
    ReplaceAllAppend(a, b, '&', "&amp;");
    var s2a := ReplaceAll(s1a, '<', "&lt;");
    var s2b := ReplaceAll(s1b, '<', "&lt;");
    ReplaceAllAppend(s1a, s1b, '<', "&lt;");
    var s3a := ReplaceAll(s2a, '>', "&gt;");
    var s3b := ReplaceAll(s2b, '>', "&gt;");
    ReplaceAllAppend(s2a, s2b, '>', "&gt;");
    var s4a := ReplaceAll(s3a, '"', "&quot;");
    var s4b := ReplaceAll(s3b, '"', "&quot;");
    ReplaceAllAppend(s3a, s3b, '"', "&quot;");
    ReplaceAllAppend(s4a, s4b, '\'', apos);
  }

  lemma ReplaceAllSingle(c: char, d: char, rep: string)
    ensures ReplaceAll([c], d, rep) == if c == d then rep else [c]
  {
    assert [c][..0] == [];
  }

  /** The later steps of the chain leave alone a text with none of their characters. */
  lemma ChainTail(t: string, apos: string, from: nat)
    requires 1 <= from <= 4
    requires from <= 1 ==> '<' !in t
    requires from <= 2 ==> '>' !in t
    requires from <= 3 ==> '"' !in t
    requires '\'' !in t
    ensures from == 1 ==> ReplaceAll(ReplaceAll(ReplaceAll(ReplaceAll(t, '<', "&lt;"), '>', "&gt;"), '"', "&quot;"), '\'', apos) == t
    ensures from == 2 ==> ReplaceAll(ReplaceAll(ReplaceAll(t, '>', "&gt;"), '"', "&quot;"), '\'', apos) == t
    ensures from == 3 ==> ReplaceAll(ReplaceAll(t, '"', "&quot;"), '\'', apos) == t
    ensures from == 4 ==> ReplaceAll(t, '\'', apos) == t
  {
    if from <= 1 { ReplaceAllAbsent(t, '<', "&lt;"); }
    if from <= 2 { ReplaceAllAbsent(t, '>', "&gt;"); }
    if from <= 3 { ReplaceAllAbsent(t, '"', "&quot;"); }
    ReplaceAllAbsent(t, '\'', apos);
  }

  /** The chain on a single character: each entity added holds none of the characters
      replaced after it. */
  lemma EscapeChainChar(c: char, apos: string)
    ensures EscapeChain([c], apos) == EscapeChar(c, apos)
  {
    ReplaceAllSingle(c, '&', "&amp;");
    if c == '&' {
      ChainTail("&amp;", apos, 1);
    } else {
      ReplaceAllSingle(c, '<', "&lt;");
      if c == '<' {
        ChainTail("&lt;", apos, 2);
      } else {
        ReplaceAllSingle(c, '>', "&gt;");
        if c == '>' {
          ChainTail("&gt;", apos, 3);
        } else {
          ReplaceAllSingle(c, '"', "&quot;");
          if c == '"' {
            ChainTail("&quot;", apos, 4);
          } else {
            ReplaceAllSingle(c, '\'', apos);
          }
        }
      }
    }
  }

  /** The chain of replacements is the one-pass escape. */
  lemma {:induction false} EscapeChainIsEscape(s: string, apos: string)
    ensures EscapeChain(s, apos) == Escape(s, apos)
  {
    if s == [] {
    } else {
      var n := |s| - 1;
      assert s == s[..n] + [s[n]];
      EscapeChainAppend(s[..n], [s[n]], apos);
      EscapeChainIsEscape(s[..n], apos);
      EscapeChainChar(s[n], apos);
    }
  }

  /** Free of the characters that end text or an attribute in markup. */
  predicate NoMarkup(s: string)
  {
    forall i :: 0 <= i < |s| ==> s[i] != '<' && s[i] != '>' && s[i] != '"' && s[i] != '\''
  }

  lemma EscapeCharSafe(c: char, apos: string)
    requires NoMarkup(apos)
    ensures NoMarkup(EscapeChar(c, apos))
  {
  }

  /** The escape leaves none of the markup characters behind. */
  lemma {:induction false} EscapeSafe(s: string, apos: string)
    requires NoMarkup(apos)
    ensures NoMarkup(Escape(s, apos))
  {
    if s != [] {
      EscapeSafe(s[..|s| - 1], apos);
      EscapeCharSafe(s[|s| - 1], apos);
      var a := Escape(s[..|s| - 1], apos);
      var b := EscapeChar(s[|s| - 1], apos);
      assert forall i :: 0 <= i < |a + b| ==> (a + b)[i] == if i < |a| then a[i] else b[i - |a|];
    }
  }

  /** `esc`. */
  function Esc(s: string): (r: string)
    ensures r == EscapeChain(s, "&#39;")
    ensures NoMarkup(r)
  {
    EscapeChainIsEscape(s, "&#39;");
    EscapeSafe(s, "&#39;");
    Escape(s, "&#39;")
  }
}
