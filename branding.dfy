/** The branding page, admin/branding.php: sanitised header texts written into the local
    config, leaving everything else in it as it was. */
module Branding {
  import opened Common

  /** The characters the pattern `[\x00-\x1F\x7F]` removes. */
  predicate IsControl(c: char) { c as int <= 0x1F || c as int == 0x7F }

  /** The text with every control character removed, the rest in order. */
  function StripControl(s: string): (r: string)
    ensures |r| <= |s|
    ensures forall i :: 0 <= i < |r| ==> !IsControl(r[i])
    ensures (forall i :: 0 <= i < |s| ==> !IsControl(s[i])) ==> r == s
  {
    if s == [] then []
    else (if IsControl(s[0]) then [] else [s[0]]) + StripControl(s[1..])
  }

  /** `gb2_safe_text`: trimmed, then stripped of control characters, then cut to `maxLen`
      characters. */
  function SafeText(s: string, maxLen: nat): (r: string)
    ensures |r| <= maxLen
    ensures forall i :: 0 <= i < |r| ==> !IsControl(r[i])
    ensures |r| <= |StripControl(Trim(s))| && r == StripControl(Trim(s))[..|r|]
    ensures |StripControl(Trim(s))| <= maxLen ==> r == StripControl(Trim(s))
  {
    var t := StripControl(Trim(s));
    if |t| > maxLen then t[..maxLen] else t
  }

  /** Plain text within the limit passes through unchanged. */
  lemma SafeTextKeepsPlain(s: string, maxLen: nat)
    requires s != [] && !IsTrimChar(s[0]) && !IsTrimChar(s[|s| - 1])
    requires forall i :: 0 <= i < |s| ==> !IsControl(s[i])
    requires |s| <= maxLen
    ensures SafeText(s, maxLen) == s
  {
    TrimNoEdges(s);
  }

  /** Trimming comes before stripping, so a control character ahead of a space leaves
      the space at the front. */
  lemma SafeTextLeadingSpace()
    ensures SafeText("\U{1} GB", 16) == " GB"
  {
    var s := "\U{1} GB";
    assert !IsTrimChar(s[0]) && !IsTrimChar(s[|s| - 1]);
    TrimNoEdges(s);
    assert StripControl(s) == [] + StripControl(s[1..]);
    assert StripControl(s[1..]) == [' '] + StripControl(s[2..]);
  }

  const BrandMax: nat := 16
  const FamilyMax: nat := 32
  const DefaultBrand := "GB2"

  /** A top-level entry of the local config: a section of texts, or anything else. */
  datatype LocalValue = Section(entries: map<string, string>) | Scalar(text: string)

  datatype Outcome = Saved(local: map<string, LocalValue>, brand: string, family: string)
                   | WriteFailed(message: string)

  /** The posted brand as saved: sanitised and capped, and "GB2" when nothing is left. */
  function NewBrand(raw: string): (r: string)
    ensures r != [] && |r| <= BrandMax
    ensures SafeText(raw, BrandMax) != [] ==> r == SafeText(raw, BrandMax)
  {
    var b := SafeText(raw, BrandMax);
    if b == [] then DefaultBrand else b
  }

  /** A POST of the form: `writeError` is the message of a failed config write, if any. */
  function BrandingPost(local: map<string, LocalValue>, brandRaw: string, familyRaw: string,
                        writeError: Option<string>): (r: Outcome)
    ensures writeError.Some? ==> r == WriteFailed(writeError.value)
    ensures writeError.None? ==> r.Saved? && r.brand == NewBrand(brandRaw) && r.family == SafeText(familyRaw, FamilyMax)
    ensures r.Saved? ==> r.local.Keys == local.Keys + {"branding"}
  {
    var brand := NewBrand(brandRaw);
    var family := SafeText(familyRaw, FamilyMax);
    var section := if "branding" in local && local["branding"].Section? then local["branding"].entries else map[];
    var updated := local["branding" := Section(section["brand" := brand]["family" := family])];
    if writeError.Some? then WriteFailed(writeError.value) else Saved(updated, brand, family)
  }

  /** A save sets the brand and the family and nothing else: every other key of the local
      config, and every other branding entry, is kept. */
  lemma BrandingKeepsOthers(local: map<string, LocalValue>, brandRaw: string, familyRaw: string)
    ensures var r := BrandingPost(local, brandRaw, familyRaw, None);
      r.local["branding"].Section? &&
      r.local["branding"].entries["brand"] == r.brand &&
      r.local["branding"].entries["family"] == r.family &&
      |r.brand| <= BrandMax && r.brand != [] && |r.family| <= FamilyMax &&
      (forall k :: k in local && k != "branding" ==> r.local[k] == local[k]) &&
      ("branding" in local && local["branding"].Section? ==>
        forall e :: e in local["branding"].entries && e != "brand" && e != "family" ==>
          e in r.local["branding"].entries && r.local["branding"].entries[e] == local["branding"].entries[e])
  {
  }
}
