/** Sign-in, lib/auth.php: the PIN policy, the kid's device login and its cookie check,
    and the parent's session with its sliding time-out. */
module Auth {
  import opened Common

  // --- PIN policy ---

  predicate AllDigits(s: string)
  {
    |s| > 0 && forall i :: 0 <= i < |s| ==> IsDigit(s[i])
  }

  /** What `^[0-9]+$` matches under PCRE's defaults: `$` also matches just before a
      final newline. */
  predicate DigitsPattern(s: string)
  {
    AllDigits(s) || (|s| >= 2 && s[|s| - 1] == '\n' && AllDigits(s[..|s| - 1]))
  }

  /** The configured bounds; both default to 6. */
  function PinBound(configured: Option<int>): int
  {
    if configured.Some? then configured.value else 6
  }

  /** `gb2_pin_policy_ok` as written: the pattern, then the length in bytes. */
  function PinPolicyAsWritten(pin: string, minLen: Option<int>, maxLen: Option<int>): (r: bool)
    ensures r <==> DigitsPattern(pin) && PinBound(minLen) <= |pin| <= PinBound(maxLen)
  {
    DigitsPattern(pin) && PinBound(minLen) <= |pin| && |pin| <= PinBound(maxLen)
  }

  /** Under the default bounds the policy as written lets through five digits followed by
      a newline. */
  lemma PinPolicyAcceptsNewline()
    ensures PinPolicyAsWritten("12345\n", None, None)
    ensures !AllDigits("12345\n")
  {
    assert AllDigits("12345\n"[..5]);
    assert "12345\n"[5] == '\n';
  }

  /** The policy as intended: digits only, with the length within the bounds. */
  function PinPolicyOk(pin: string, minLen: Option<int>, maxLen: Option<int>): (r: bool)
    ensures r <==> AllDigits(pin) && PinBound(minLen) <= |pin| <= PinBound(maxLen)
    ensures r ==> PinPolicyAsWritten(pin, minLen, maxLen)
  {
    AllDigits(pin) && PinBound(minLen) <= |pin| && |pin| <= PinBound(maxLen)
  }

  /** The two agree on every PIN that does not end in a newline. */
  lemma PinPolicyAgrees(pin: string, minLen: Option<int>, maxLen: Option<int>)
    requires |pin| == 0 || pin[|pin| - 1] != '\n'
    ensures PinPolicyOk(pin, minLen, maxLen) == PinPolicyAsWritten(pin, minLen, maxLen)
  {
  }

  // --- Kid devices ---

  datatype Device = Device(id: int, kidId: int, tokenHash: string, revoked: bool, lastSeen: int)

  datatype KidSession = KidSession(kidId: int, name: string, devId: int)

  /** A kid's row as the login reads it. */
  datatype KidAuth = KidAuth(pinHash: string, name: string)

  /** PHP's `empty` on a string. */
  predicate EmptyString(s: string) { s == "" || s == "0" }

  predicate IsHexChar(c: char)
  {
    '0' <= c <= '9' || 'a' <= c <= 'f' || 'A' <= c <= 'F'
  }

  predicate AllHex(s: string)
  {
    forall i :: 0 <= i < |s| ==> IsHexChar(s[i])
  }

  /** What `^[A-Fa-f0-9]{64}$` matches, a final newline allowed as PCRE does. */
  predicate TokenPattern(s: string)
  {
    (|s| == 64 && AllHex(s)) || (|s| == 65 && s[64] == '\n' && AllHex(s[..64]))
  }

  /** Whether `hex2bin` succeeds: an even number of hex digits. */
  predicate HexDecodes(s: string)
  {
    |s| % 2 == 0 && AllHex(s)
  }

  /** The first live device with the hash whose kid still exists, as the joined query
      finds it. */
  function FindDevice(devices: seq<Device>, hash: string, names: map<int, string>): (r: Option<Device>)
    ensures r.Some? ==> r.value in devices && r.value.tokenHash == hash && !r.value.revoked && r.value.kidId in names
    ensures r.None? ==> forall d :: d in devices && d.tokenHash == hash && !d.revoked ==> d.kidId !in names
  {
    if devices == [] then None
    else if devices[0].tokenHash == hash && !devices[0].revoked && devices[0].kidId in names then Some(devices[0])
    else FindDevice(devices[1..], hash, names)
  }

  /** `gb2_kid_current`: `cookie` is the device cookie, `hashOfToken` the SHA-256 of the
      bytes the token's hex spells. */
  function KidCurrent(cookie: Option<string>, devices: seq<Device>, names: map<int, string>,
                      hashOfToken: string -> string): (r: Option<KidSession>)
    ensures r.Some? ==> cookie.Some? && |cookie.value| == 64 && AllHex(cookie.value)
    ensures r.Some? ==>
      exists d :: d in devices && d.tokenHash == hashOfToken(cookie.value) && !d.revoked && d.kidId in names &&
                  r.value == KidSession(d.kidId, names[d.kidId], d.id)
  {
    if cookie.None? || EmptyString(cookie.value) then None
    else if !TokenPattern(cookie.value) || !HexDecodes(cookie.value) then None
    else
      match FindDevice(devices, hashOfToken(cookie.value), names)
      case None => None
      case Some(d) => Some(KidSession(d.kidId, names[d.kidId], d.id))
  }

  /** A token that spells 64 hex digits, with a newline after them, passes the pattern but
      not the decoding, so it is refused all the same. */
  lemma NewlineTokenRefused(token: string, devices: seq<Device>, names: map<int, string>, hashOfToken: string -> string)
    requires |token| == 64 && AllHex(token)
    ensures TokenPattern(token + "\n")
    ensures KidCurrent(Some(token + "\n"), devices, names, hashOfToken) == None
  {
    assert (token + "\n")[..64] == token;
  }

  class KidDevices {
    var devices: seq<Device>
    var nextId: int
    var audit: seq<AuditEntry>

    constructor ()
      ensures devices == [] && nextId == 1 && audit == []
    {
      devices := [];
      nextId := 1;
      audit := [];
    }

    /** `gb2_kid_login`. `kids` is the kids table, `verify` the password check, `tokenHash`
        the hash of the fresh random token the cookie receives, `now` the clock. */
    method KidLogin(kidId: int, pin: string, minLen: Option<int>, maxLen: Option<int>,
                    kids: map<int, KidAuth>, verify: (string, string) -> bool, tokenHash: string, now: int)
      returns (ok: bool)
      modifies this
      ensures ok <==> PinPolicyOk(pin, minLen, maxLen) && kidId in kids && !EmptyString(kids[kidId].pinHash) &&
                      verify(pin, kids[kidId].pinHash)
      ensures !ok ==> devices == old(devices) && nextId == old(nextId) && audit == old(audit)
      ensures ok ==>
        devices == old(devices) + [Device(old(nextId), kidId, tokenHash, false, now)] &&
        nextId == old(nextId) + 1 && audit == old(audit) + [AuditEntry("kid", kidId, "kid_login")]
    {
      if !PinPolicyOk(pin, minLen, maxLen) {
        return false;
      }
      if kidId !in kids || EmptyString(kids[kidId].pinHash) {
        return false;
      }
      if !verify(pin, kids[kidId].pinHash) {
        return false;
      }
      devices := devices + [Device(nextId, kidId, tokenHash, false, now)];
      nextId := nextId + 1;
      audit := audit + [AuditEntry("kid", kidId, "kid_login")];
      ok := true;
    }
  }

  /** After a login, the cookie it sets is recognised: some kid is signed in with it, and
      it is this kid on this device when no earlier live device carries the same hash. */
  lemma LoginRecognised(devices: seq<Device>, dev: Device, names: map<int, string>, token: string,
                        hashOfToken: string -> string)
    requires |token| == 64 && AllHex(token)
    requires dev.tokenHash == hashOfToken(token) && !dev.revoked && dev.kidId in names
    ensures KidCurrent(Some(token), devices + [dev], names, hashOfToken).Some?
    ensures (forall d :: d in devices ==> d.tokenHash != dev.tokenHash) ==>
      KidCurrent(Some(token), devices + [dev], names, hashOfToken) == Some(KidSession(dev.kidId, names[dev.kidId], dev.id))
  {
    FindAppended(devices, dev, names);
  }

  lemma {:induction false} FindAppended(devices: seq<Device>, dev: Device, names: map<int, string>)
    requires !dev.revoked && dev.kidId in names
    ensures FindDevice(devices + [dev], dev.tokenHash, names).Some?
    ensures (forall d :: d in devices ==> d.tokenHash != dev.tokenHash) ==>
      FindDevice(devices + [dev], dev.tokenHash, names) == Some(dev)
  {
    if devices != [] {
      assert (devices + [dev])[1..] == devices[1..] + [dev];
      FindAppended(devices[1..], dev, names);
    }
  }

  // --- Parent session ---

  /** Whether the parent's session is current: a stored time that is not 0 (a missing one
      reads 0), no older than the time-out. */
  predicate AdminCheck(ts: Option<int>, now: int, ttlMin: int)
  {
    var t := if ts.Some? then ts.value else 0;
    t != 0 && now - t <= ttlMin * 60
  }

  class AdminSession {
    /** `$_SESSION['gb2_admin_ts']`. */
    var adminTs: Option<int>
    var audit: seq<AuditEntry>

    constructor ()
      ensures adminTs == None && audit == []
    {
      adminTs := None;
      audit := [];
    }

    /** `gb2_admin_current`: `ttlMin` is the configured time-out (20 by default). A current
        session is refreshed to now; an expired one is left as it is. */
    method AdminCurrent(now: int, ttlMin: int) returns (ok: bool)
      modifies this`adminTs
      ensures ok == AdminCheck(old(adminTs), now, ttlMin)
      ensures adminTs == (if ok then Some(now) else old(adminTs))
    {
      var t := if adminTs.Some? then adminTs.value else 0;
      if t == 0 {
        return false;
      }
      if now - t > ttlMin * 60 {
        return false;
      }
      adminTs := Some(now);
      ok := true;
    }

    /** `gb2_admin_login`: an unset password hash refuses every password. */
    method AdminLogin(password: string, hash: string, verify: (string, string) -> bool, now: int) returns (ok: bool)
      modifies this
      ensures ok <==> !EmptyString(hash) && verify(password, hash)
      ensures ok ==> adminTs == Some(now) && audit == old(audit) + [AuditEntry("admin", 0, "admin_login")]
      ensures !ok ==> adminTs == old(adminTs) && audit == old(audit)
    {
      if EmptyString(hash) {
        return false;
      }
      if !verify(password, hash) {
        return false;
      }
      adminTs := Some(now);
      audit := audit + [AuditEntry("admin", 0, "admin_login")];
      ok := true;
    }

    /** `gb2_admin_logout`: afterwards no check succeeds, at any time. */
    method AdminLogout()
      modifies this`adminTs
      ensures adminTs == None
      ensures forall now, ttlMin :: !AdminCheck(adminTs, now, ttlMin)
    {
      adminTs := None;
    }
  }

  /** The window slides: a session checked at `now` stays current until `now` plus the
      time-out, and lapses after it unless checked again. */
  lemma AdminWindowSlides(ts: Option<int>, now: int, later: int, ttlMin: int)
    requires now != 0 && AdminCheck(ts, now, ttlMin)
    ensures now <= later <= now + ttlMin * 60 ==> AdminCheck(Some(now), later, ttlMin)
    ensures later > now + ttlMin * 60 ==> !AdminCheck(Some(now), later, ttlMin)
  {
  }
}
