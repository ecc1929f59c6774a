/** Device tokens, lib/gb/tokens.php: the list kept under the `device_tokens` config key,
    the making of a token, its verification, and the pruning of the list to the newest. */
module Tokens {
  import opened Common

  datatype Scope = Kid | Kiosk

  /** A stored row as decoded: missing strings read as '', a missing scope as "kiosk",
      `created` after the int cast (missing reads 0), and `revoked` whether the stored
      value is non-empty in PHP's sense. */
  datatype RawToken = RawToken(id: string, hash: string, title: string, scope: string, created: int, revoked: bool)

  datatype Token = Token(id: string, hash: string, title: string, scope: Scope, created: int, revoked: bool)

  function ScopeOf(s: string): (r: Scope)
    ensures r == Kid <==> s == "kid"
  {
    if s == "kid" then Kid else Kiosk
  }

  function ScopeName(s: Scope): (r: string)
    ensures ScopeOf(r) == s
  {
    match s
    case Kid => "kid"
    case Kiosk => "kiosk"
  }

  /** The normalised form of one row, when it is kept. */
  function NormalRow(row: Option<RawToken>): (r: Option<Token>)
    ensures r.Some? <==> row.Some? && row.value.id != "" && row.value.hash != ""
    ensures r.Some? ==>
      r.value == Token(row.value.id, row.value.hash, row.value.title, ScopeOf(row.value.scope),
                       row.value.created, row.value.revoked)
  {
    match row
    case None => None
    case Some(t) =>
      if t.id == "" || t.hash == "" then None
      else Some(Token(t.id, t.hash, t.title, ScopeOf(t.scope), t.created, t.revoked))
  }

  /** The normalised list: rows that are not arrays, and rows without an id or a hash,
      are dropped; the others keep their order. */
  function Normalised(rows: seq<Option<RawToken>>): (r: seq<Token>)
    ensures |r| <= |rows|
  {
    if rows == [] then []
    else
      var last := NormalRow(rows[|rows| - 1]);
      Normalised(rows[..|rows| - 1]) + (if last.Some? then [last.value] else [])
  }

  predicate WellFormed(t: Token) { t.id != "" && t.hash != "" }

  lemma {:induction false} NormalisedWellFormed(rows: seq<Option<RawToken>>)
    ensures forall i :: 0 <= i < |Normalised(rows)| ==> WellFormed(Normalised(rows)[i])
  {
    if rows != [] {
      NormalisedWellFormed(rows[..|rows| - 1]);
    }
  }

  /** Every kept row is in the result. */
  lemma {:induction false} NormalisedKeeps(rows: seq<Option<RawToken>>, i: int)
    requires 0 <= i < |rows| && NormalRow(rows[i]).Some?
    ensures NormalRow(rows[i]).value in Normalised(rows)
  {
    var n := |rows| - 1;
    if i < n {
      assert rows[..n][i] == rows[i];
      NormalisedKeeps(rows[..n], i);
    }
  }

  /** `gb_tokens_get`: the stored value, when it is a list, normalised. */
  method TokensGet(stored: Decoded<seq<Option<RawToken>>>) returns (out: seq<Token>)
    ensures stored.NotArray? ==> out == []
    ensures stored.Arr? ==> out == Normalised(stored.value)
  {
    out := [];
    if stored.NotArray? {
      return;
    }
    var rows := stored.value;
    var i := 0;
    while i < |rows|
      invariant 0 <= i <= |rows|
      invariant out == Normalised(rows[..i])
    {
      assert rows[..i + 1][..i] == rows[..i];
      var row := rows[i];
      if row.Some? && row.value.id != "" && row.value.hash != "" {
        var t := row.value;
        out := out + [Token(t.id, t.hash, t.title, ScopeOf(t.scope), t.created, t.revoked)];
      }
      i := i + 1;
    }
    assert rows[..|rows|] == rows;
  }

  /** The rows `gb_tokens_save` stores for a list of tokens. */
  function Saved(tokens: seq<Token>): (r: seq<Option<RawToken>>)
    ensures |r| == |tokens|
  {
    if tokens == [] then []
    else
      var t := tokens[|tokens| - 1];
      Saved(tokens[..|tokens| - 1]) + [Some(RawToken(t.id, t.hash, t.title, ScopeName(t.scope), t.created, t.revoked))]
  }

  /** Saving a list of well-formed tokens and reading it back gives the same list. */
  lemma {:induction false} SaveGetRoundTrip(tokens: seq<Token>)
    requires forall i :: 0 <= i < |tokens| ==> WellFormed(tokens[i])
    ensures Normalised(Saved(tokens)) == tokens
  {
    if tokens != [] {
      var n := |tokens| - 1;
      var s := Saved(tokens);
      assert s[..n] == Saved(tokens[..n]);
      SaveGetRoundTrip(tokens[..n]);
      assert tokens[..n] + [tokens[n]] == tokens;
    }
  }

  /** `gb_token_make`: `plain` and `id` are the random parts, `sha256` the hash and `now`
      the clock. The token shown once is `plain`; the row stores its hash. */
  function Make(title: string, scope: string, plain: string, id: string, sha256: string -> string, now: int)
    : (r: (string, Token))
    ensures r.0 == plain
    ensures r.1.hash == sha256(plain) && r.1.id == id && r.1.created == now
    ensures r.1.title == Trim(title) && r.1.scope == ScopeOf(scope) && !r.1.revoked
  {
    (plain, Token(id, sha256(plain), Trim(title), ScopeOf(scope), now, false))
  }

  /** Whether one token accepts a presented hash for the needed scope. */
  predicate Accepts(t: Token, hash: string, need: Scope)
  {
    !t.revoked && t.scope == need && t.hash == hash
  }

  /** `gb_token_verify`: the presented token, trimmed, must be non-blank; revoked tokens
      and tokens of the other scope are skipped; it holds iff a remaining hash matches. */
  method Verify(tokens: seq<Token>, plain: string, scope: string, sha256: string -> string) returns (ok: bool)
    ensures ok <==> Trim(plain) != [] &&
                    exists i :: 0 <= i < |tokens| && Accepts(tokens[i], sha256(Trim(plain)), ScopeOf(scope))
  {
    var p := Trim(plain);
    if p == [] {
      return false;
    }
    var hash := sha256(p);
    var need := ScopeOf(scope);
    var i := 0;
    while i < |tokens|
      invariant 0 <= i <= |tokens|
      invariant forall j :: 0 <= j < i ==> !Accepts(tokens[j], hash, need)
    {
      var t := tokens[i];
      if !t.revoked && t.scope == need && t.hash == hash {
        return true;
      }
      i := i + 1;
    }
    ok := false;
  }

  /** A freshly made token verifies with the plain text shown for it, in its own scope,
      once it is in the list; a revoked copy of it would not. */
  lemma MadeTokenVerifies(tokens: seq<Token>, title: string, scope: string, plain: string, id: string,
                          sha256: string -> string, now: int, i: int)
    requires plain != [] && Trim(plain) == plain
    requires 0 <= i < |tokens| && tokens[i] == Make(title, scope, plain, id, sha256, now).1
    ensures Trim(plain) != [] &&
            exists j :: 0 <= j < |tokens| && Accepts(tokens[j], sha256(Trim(plain)), ScopeOf(scope))
    ensures !Accepts(tokens[i].(revoked := true), sha256(plain), ScopeOf(scope))
  {
    assert Accepts(tokens[i], sha256(Trim(plain)), ScopeOf(scope));
  }

  // --- Pruning ---

  predicate SortedDesc(s: seq<Token>)
  {
    forall i, j :: 0 <= i < j < |s| ==> s[i].created >= s[j].created
  }

  /** Places `x` before the first token that is not newer than it. */
  function Insert(x: Token, s: seq<Token>): (r: seq<Token>)
    ensures |r| == |s| + 1
  {
    if s == [] then [x]
    else if s[0].created <= x.created then [x] + s
    else [s[0]] + Insert(x, s[1..])
  }

  /** Every token of the result is the inserted one or one of the list's. */
  lemma {:induction false} InsertMembers(x: Token, s: seq<Token>)
    ensures forall k :: 0 <= k < |Insert(x, s)| ==> Insert(x, s)[k] == x || Insert(x, s)[k] in s
  {
    if s != [] && s[0].created > x.created {
      InsertMembers(x, s[1..]);
      assert Insert(x, s) == [s[0]] + Insert(x, s[1..]);
      forall k | 1 <= k < |Insert(x, s)| ensures Insert(x, s)[k] == x || Insert(x, s)[k] in s {
        assert Insert(x, s)[k] == Insert(x, s[1..])[k - 1];
        assert Insert(x, s[1..])[k - 1] in s[1..] ==> Insert(x, s[1..])[k - 1] in s;
      }
    }
  }

  lemma {:induction false} InsertSpec(x: Token, s: seq<Token>)
    requires SortedDesc(s)
    ensures SortedDesc(Insert(x, s))
    ensures multiset(Insert(x, s)) == multiset(s) + multiset{x}
  {
    if s == [] {
    } else if s[0].created <= x.created {
      assert Insert(x, s) == [x] + s;
    } else {
      var rest := Insert(x, s[1..]);
      InsertSpec(x, s[1..]);
      InsertMembers(x, s[1..]);
      assert Insert(x, s) == [s[0]] + rest;
      assert s == [s[0]] + s[1..];
      forall k | 0 <= k < |rest|
        ensures s[0].created >= rest[k].created
      {
        if rest[k] != x {
          var m :| 0 <= m < |s[1..]| && s[1..][m] == rest[k];
          assert s[m + 1] == rest[k];
        }
      }
    }
  }

  /** The `usort` by `created`, newest first. */
  function SortByCreatedDesc(s: seq<Token>): (r: seq<Token>)
    ensures |r| == |s|
  {
    if s == [] then [] else Insert(s[0], SortByCreatedDesc(s[1..]))
  }

  lemma {:induction false} SortSpec(s: seq<Token>)
    ensures SortedDesc(SortByCreatedDesc(s))
    ensures multiset(SortByCreatedDesc(s)) == multiset(s)
  {
    if s != [] {
      SortSpec(s[1..]);
      InsertSpec(s[0], SortByCreatedDesc(s[1..]));
      assert s == [s[0]] + s[1..];
    }
  }

  /** How many tokens `gb_token_prune` keeps at most (the default `max` is 50). */
  function KeepCount(max: int): (r: int)
    ensures r >= 1 && (max >= 1 ==> r == max)
  {
    Max(1, max)
  }

  /** `gb_token_prune`: newest first, at most `max(1, max)` of them. Revocation does
      not enter the order. */
  function Prune(tokens: seq<Token>, max: int): (r: seq<Token>)
    ensures |r| == Min(|tokens|, KeepCount(max))
  {
    var sorted := SortByCreatedDesc(tokens);
    sorted[..Min(|sorted|, KeepCount(max))]
  }

  /** Cutting a newest-first list: both parts together are the list, the first part is
      still newest first, and everything before the cut is at least as new as everything
      after it. */
  lemma SortedCut(sorted: seq<Token>, k: int)
    requires SortedDesc(sorted) && 0 <= k <= |sorted|
    ensures SortedDesc(sorted[..k])
    ensures multiset(sorted) == multiset(sorted[..k]) + multiset(sorted[k..])
    ensures forall kept, dropped :: kept in sorted[..k] && dropped in multiset(sorted[k..]) ==> kept.created >= dropped.created
  {
    assert sorted == sorted[..k] + sorted[k..];
    forall kept, dropped | kept in sorted[..k] && dropped in multiset(sorted[k..])
      ensures kept.created >= dropped.created
    {
      var a :| 0 <= a < k && sorted[..k][a] == kept;
      var b :| 0 <= b < |sorted| - k && sorted[k..][b] == dropped;
      assert sorted[a] == kept && sorted[k + b] == dropped;
    }
  }

  /** What pruning keeps: newest first, taken from the list, as many as allowed, and
      no dropped token is newer than a kept one. */
  lemma PruneSpec(tokens: seq<Token>, max: int)
    ensures SortedDesc(Prune(tokens, max))
    ensures multiset(Prune(tokens, max)) <= multiset(tokens)
    ensures |tokens| <= KeepCount(max) ==> multiset(Prune(tokens, max)) == multiset(tokens)
    ensures forall kept, dropped :: kept in Prune(tokens, max) && dropped in multiset(tokens) - multiset(Prune(tokens, max))
              ==> kept.created >= dropped.created
  {
    var sorted := SortByCreatedDesc(tokens);
    SortSpec(tokens);
    var k := Min(|sorted|, KeepCount(max));
    SortedCut(sorted, k);
    assert Prune(tokens, max) == sorted[..k];
    assert multiset(tokens) - multiset(sorted[..k]) == multiset(sorted[k..]);
    if |tokens| <= KeepCount(max) {
      assert sorted[k..] == [];
    }
  }
}
