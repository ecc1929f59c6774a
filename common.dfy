/** Shared vocabulary: optional values, results, the three lock categories,
    per-category triples and the string helpers PHP's `trim`/`strtolower` need. */
module Common {

  datatype Option<T> = None | Some(value: T)

  /** An operation that either succeeds with a value or fails with a short reason. */
  datatype Result<T> = Ok(value: T) | Err(reason: string)

  /** An entry of the audit log (`gb2_audit`): who acted and what they did; the JSON
      details are not modelled. */
  datatype AuditEntry = AuditEntry(actorType: string, actorId: int, action: string)

  /** The message a page redirects with, as its `ok=` or `err=` query parameter. */
  datatype Flash = FlashOk(message: string) | FlashErr(message: string)

  /** What an endpoint answers: a redirect carrying a message, or a bare status code
      with a plain-text body (empty when the endpoint echoes nothing). */
  datatype Response = Redirect(path: string, flash: Flash) | Status(code: int, body: string)

  /** A JSON document after `json_decode($s, true)`: not an array (invalid JSON, a
      scalar, null) or an array. */
  datatype Decoded<T> = NotArray | Arr(value: T)

  /** A stored JSON column: blank (NULL, '' or another falsy string) or a document. */
  datatype JsonText<T> = Blank | Doc(doc: Decoded<T>)

  /** The `json_arr`/`decode_arr` helpers of the pages: the decoded array, or the
      fallback for a blank column or a document that is not an array. */
  function JsonArr<T>(j: JsonText<T>, fallback: T): (r: T)
    ensures j.Blank? || j.doc.NotArray? ==> r == fallback
    ensures j.Doc? && j.doc.Arr? ==> r == j.doc.value
  {
    match j
    case Blank => fallback
    case Doc(NotArray) => fallback
    case Doc(Arr(v)) => v
  }

  /** The three independently lockable privileges. */
  datatype Category = Phone | Games | Other

  /** The order in which every per-category loop of the source visits the categories. */
  const Categories: seq<Category> := [Phone, Games, Other]

  function CatIndex(c: Category): (i: nat)
    ensures i < |Categories| && Categories[i] == c
  {
    match c
    case Phone => 0
    case Games => 1
    case Other => 2
  }

  /** The column-name stem of a category (`phone`, `games`, `other`). */
  function CatKey(c: Category): (k: string)
    ensures |k| == 5
  {
    match c
    case Phone => "phone"
    case Games => "games"
    case Other => "other"
  }

  /** One value per category: the source's `phone_*`, `games_*`, `other_*` column triples. */
  datatype Triple<T> = Triple(phone: T, games: T, other: T) {

    function Get(c: Category): T {
      match c
      case Phone => phone
      case Games => games
      case Other => other
    }

    /** Replaces the value of one category and keeps the other two. */
    function With(c: Category, v: T): (r: Triple<T>)
      ensures r.Get(c) == v
      ensures forall d :: d != c ==> r.Get(d) == Get(d)
    {
      match c
      case Phone => this.(phone := v)
      case Games => this.(games := v)
      case Other => this.(other := v)
    }
  }

  function Max(a: int, b: int): int { if a < b then b else a }

  function Min(a: int, b: int): int { if a < b then a else b }

  /** The characters PHP's `trim` strips by default: space, tab, LF, CR, NUL, vertical tab. */
  predicate IsTrimChar(c: char) {
    c == ' ' || c == '\t' || c == '\n' || c == '\r' || c == '\0' || c == '\U{000B}'
  }

  function TrimLeft(s: string): (r: string)
    ensures |r| <= |s|
    ensures r == [] || !IsTrimChar(r[0])
  {
    if s != [] && IsTrimChar(s[0]) then TrimLeft(s[1..]) else s
  }

  /** What `TrimLeft` removed is a prefix of trim characters. */
  lemma {:induction false} TrimLeftSpec(s: string)
    ensures TrimLeft(s) == s[|s| - |TrimLeft(s)|..]
    ensures forall i :: 0 <= i < |s| - |TrimLeft(s)| ==> IsTrimChar(s[i])
  {
    if s != [] && IsTrimChar(s[0]) {
      TrimLeftSpec(s[1..]);
    }
  }

  function TrimRight(s: string): (r: string)
    ensures |r| <= |s|
    ensures r == [] || !IsTrimChar(r[|r| - 1])
    ensures r != [] ==> r[0] == s[0]
  {
    if s != [] && IsTrimChar(s[|s| - 1]) then TrimRight(s[..|s| - 1]) else s
  }

  /** What `TrimRight` removed is a suffix of trim characters. */
  lemma {:induction false} TrimRightSpec(s: string)
    ensures TrimRight(s) == s[..|TrimRight(s)|]
    ensures forall i :: |TrimRight(s)| <= i < |s| ==> IsTrimChar(s[i])
  {
    if s != [] && IsTrimChar(s[|s| - 1]) {
      TrimRightSpec(s[..|s| - 1]);
    }
  }

  /** PHP `trim($s)`: strips the trim characters from both ends. */
  function Trim(s: string): (r: string)
    ensures |r| <= |s|
    ensures r == [] || (!IsTrimChar(r[0]) && !IsTrimChar(r[|r| - 1]))
  {
    TrimRight(TrimLeft(s))
  }

  /** The right trim keeps a string that starts with a character it does not strip. */
  lemma {:induction false} TrimRightNonEmpty(s: string)
    requires s != [] && !IsTrimChar(s[0])
    ensures TrimRight(s) != []
  {
    if |s| > 1 && IsTrimChar(s[|s| - 1]) {
      TrimRightNonEmpty(s[..|s| - 1]);
    }
  }

  /** A string made only of trim characters trims to the empty string, and only such a string does. */
  lemma {:induction false} TrimEmptyIff(s: string)
    ensures Trim(s) == [] <==> forall i :: 0 <= i < |s| ==> IsTrimChar(s[i])
  {
    var l := TrimLeft(s);
    TrimLeftSpec(s);
    TrimRightSpec(l);
    if l != [] {
      TrimRightNonEmpty(l);
      assert s[|s| - |l|] == l[0];
    }
  }

  /** A string that neither starts nor ends with a trim character is its own trim. */
  lemma TrimNoEdges(s: string)
    requires s != [] && !IsTrimChar(s[0]) && !IsTrimChar(s[|s| - 1])
    ensures Trim(s) == s
  {
  }

  predicate IsUpperAscii(c: char) { 'A' <= c <= 'Z' }

  function LowerChar(c: char): char {
    if IsUpperAscii(c) then (c as int + 32) as char else c
  }

  /** ASCII lower-casing, as PHP's `strtolower` does. */
  function ToLower(s: string): (r: string)
    ensures |r| == |s|
    ensures forall i :: 0 <= i < |s| ==> r[i] == LowerChar(s[i])
  {
    if s == [] then [] else [LowerChar(s[0])] + ToLower(s[1..])
  }

  predicate IsDigit(c: char) { '0' <= c <= '9' }

  function DigitValue(c: char): int requires IsDigit(c) { c as int - '0' as int }

  /** True when `sub` occurs in `s` at some position (JavaScript's `includes`). */
  predicate IsSubstring(sub: string, s: string) {
    (|sub| <= |s| && s[..|sub|] == sub) || (s != [] && IsSubstring(sub, s[1..]))
  }

  /** Keeps the positive entries of a list, in order. */
  function Positives(s: seq<int>): (r: seq<int>)
  {
    if s == [] then [] else (if s[0] > 0 then [s[0]] else []) + Positives(s[1..])
  }

  lemma {:induction false} PositivesSpec(s: seq<int>)
    ensures |Positives(s)| <= |s|
    ensures forall i :: 0 <= i < |Positives(s)| ==> Positives(s)[i] > 0
    ensures forall x :: x in Positives(s) <==> x in s && x > 0
    ensures (forall i :: 0 <= i < |s| ==> s[i] > 0) ==> Positives(s) == s
  {
    if s != [] {
      PositivesSpec(s[1..]);
      assert s == [s[0]] + s[1..];
    }
  }

  lemma {:induction false} PositivesAppend(s: seq<int>, x: int)
    ensures Positives(s + [x]) == Positives(s) + (if x > 0 then [x] else [])
  {
    if s == [] {
      assert s + [x] == [x];
    } else {
      assert (s + [x])[1..] == s[1..] + [x];
      PositivesAppend(s[1..], x);
    }
  }

  /** Splits at every separator character, as `explode` does for a single separator:
      `n` separators give `n + 1` parts. */
  function SplitBy(s: string, isSep: char -> bool): (parts: seq<string>)
    ensures |parts| >= 1
  {
    if s == [] then [[]]
    else
      var rest := SplitBy(s[1..], isSep);
      if isSep(s[0]) then [[]] + rest else [[s[0]] + rest[0]] + rest[1..]
  }

  /** `implode(sep, parts)`. */
  function JoinWith(parts: seq<string>, sep: char): string
  {
    if parts == [] then []
    else if |parts| == 1 then parts[0]
    else parts[0] + [sep] + JoinWith(parts[1..], sep)
  }

  /** `implode(sep, parts)` (and JavaScript's `join`) with a separator string. The first
      part starts the result. */
  function Join(parts: seq<string>, sep: string): (r: string)
    ensures parts == [] ==> r == []
    ensures parts != [] ==> |parts[0]| <= |r| && r[..|parts[0]|] == parts[0]
  {
    if parts == [] then []
    else if |parts| == 1 then parts[0]
    else parts[0] + sep + Join(parts[1..], sep)
  }

  predicate NoneOf(s: string, isSep: char -> bool)
  {
    forall i :: 0 <= i < |s| ==> !isSep(s[i])
  }

  lemma {:induction false} SplitNoSep(a: string, b: string, isSep: char -> bool)
    requires NoneOf(a, isSep)
    ensures SplitBy(a + b, isSep) == [a + SplitBy(b, isSep)[0]] + SplitBy(b, isSep)[1..]
  {
    var sb := SplitBy(b, isSep);
    if a == [] {
      assert a + b == b && a + sb[0] == sb[0];
      assert sb == [sb[0]] + sb[1..];
    } else {
      assert (a + b)[0] == a[0] && (a + b)[1..] == a[1..] + b;
      SplitNoSep(a[1..], b, isSep);
      var rest := SplitBy(a[1..] + b, isSep);
      assert SplitBy(a + b, isSep) == [[a[0]] + rest[0]] + rest[1..];
      assert [a[0]] + (a[1..] + sb[0]) == a + sb[0];
    }
  }

  /** Splitting undoes joining when no part contains a separator. */
  lemma {:induction false} SplitJoin(parts: seq<string>, sep: char, isSep: char -> bool)
    requires |parts| >= 1 && isSep(sep)
    requires forall i :: 0 <= i < |parts| ==> NoneOf(parts[i], isSep)
    ensures SplitBy(JoinWith(parts, sep), isSep) == parts
  {
    if |parts| == 1 {
      SplitNoSep(parts[0], [], isSep);
      assert parts[0] + [] == parts[0];
    } else {
      var tail := [sep] + JoinWith(parts[1..], sep);
      assert JoinWith(parts, sep) == parts[0] + tail;
      SplitNoSep(parts[0], tail, isSep);
      assert tail[1..] == JoinWith(parts[1..], sep);
      SplitJoin(parts[1..], sep, isSep);
      var st := SplitBy(tail, isSep);
      assert st == [[]] + parts[1..];
      assert st[0] == [] && st[1..] == parts[1..];
      assert parts[0] + st[0] == parts[0];
      assert parts == [parts[0]] + parts[1..];
    }
  }

  /** The value of a run of decimal digits. */
  function DigitsValue(ds: string): (v: nat)
    requires forall i :: 0 <= i < |ds| ==> IsDigit(ds[i])
  {
    if ds == [] then 0 else DigitsValue(ds[..|ds| - 1]) * 10 + DigitValue(ds[|ds| - 1])
  }

  /** The longest prefix made of decimal digits. */
  function LeadingDigits(s: string): (ds: string)
    ensures |ds| <= |s| && ds == s[..|ds|]
    ensures forall i :: 0 <= i < |ds| ==> IsDigit(ds[i])
    ensures |ds| < |s| ==> !IsDigit(s[|ds|])
  {
    if s != [] && IsDigit(s[0]) then [s[0]] + LeadingDigits(s[1..]) else []
  }

  /** The whitespace PHP skips before a numeric string. */
  predicate IsNumericSpace(c: char) {
    c == ' ' || c == '\t' || c == '\n' || c == '\r' || c == '\U{000B}' || c == '\U{000C}'
  }

  function SkipNumericSpace(s: string): (r: string)
    ensures |r| <= |s|
  {
    if s != [] && IsNumericSpace(s[0]) then SkipNumericSpace(s[1..]) else s
  }

  /** PHP's `(int)` cast of a string: leading whitespace, an optional sign and the
      leading decimal digits; 0 when there are none. */
  function IntCast(s: string): int
  {
    var t := SkipNumericSpace(s);
    if t != [] && t[0] == '-' then 0 - DigitsValue(LeadingDigits(t[1..])) as int
    else if t != [] && t[0] == '+' then DigitsValue(LeadingDigits(t[1..]))
    else DigitsValue(LeadingDigits(t))
  }

  function DigitChar(d: nat): (c: char)
    requires d < 10
    ensures IsDigit(c) && DigitValue(c) == d
  {
    ('0' as int + d) as char
  }

  /** The decimal rendering of a natural number, as PHP's `(string)` and `implode` print it. */
  function DecimalString(n: nat): (s: string)
    ensures |s| >= 1
    ensures forall i :: 0 <= i < |s| ==> IsDigit(s[i])
  {
    if n < 10 then [DigitChar(n)] else DecimalString(n / 10) + [DigitChar(n % 10)]
  }

  lemma {:induction false} DigitsOfDecimal(n: nat)
    ensures DigitsValue(DecimalString(n)) == n
  {
    if n >= 10 {
      DigitsOfDecimal(n / 10);
      var s := DecimalString(n);
      assert s[..|s| - 1] == DecimalString(n / 10);
    }
  }

  lemma {:induction false} LeadingDigitsAll(s: string)
    requires forall i :: 0 <= i < |s| ==> IsDigit(s[i])
    ensures LeadingDigits(s) == s
  {
    if s != [] {
      LeadingDigitsAll(s[1..]);
    }
  }

  /** Casting the decimal rendering of a number gives the number back. */
  lemma IntCastDecimal(n: nat)
    ensures IntCast(DecimalString(n)) == n
  {
    var s := DecimalString(n);
    assert SkipNumericSpace(s) == s;
    LeadingDigitsAll(s);
    DigitsOfDecimal(n);
  }
}
