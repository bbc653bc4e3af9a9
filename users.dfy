/** The account object and its login state machine: sessions and auth
    sessions are created, looked up by their hexadecimal id, proved (password,
    then MFA), converted, checked for expiry and removed. Randomness and the
    clock are parameters: `id`, `challenge`, `sessionId` stand for fresh
    `random_u128()` values, `now` for `current_time()`. */
module Users {

  import opened Wrappers
  import opened Ints
  import opened Hex
  import opened Account
  import Security
  import Seqs

  /** Why a lookup by textual id fails: the text is not a base-16 `u128`, or
      no entry carries that id. */
  datatype LookupError = InvalidId | Missing

  /** The refusals of `convert_auth_session_to_session`. */
  datatype ConvertError = NotFound | RequirePassword | RequireMfa

  function ConvertCode(e: ConvertError): string {
    match e
    case NotFound => "not_found"
    case RequirePassword => "require_password"
    case RequireMfa => "require_mfa"
  }

  /** `get_session_by_id`, `get_auth_session_by_id` and the `&mut` variant:
      parse the id as hex, then the position of the first entry with that id. */
  function Locate<T>(list: seq<T>, key: T -> U128, id: string): (r: Result<nat, LookupError>)
    ensures r == Err(InvalidId) <==> TryParse(id).None?
    ensures r == Err(Missing) <==> TryParse(id).Some? && forall j :: 0 <= j < |list| ==> key(list[j]) != TryParse(id).value
    ensures r.Ok? ==> r.value < |list| && TryParse(id) == Some(key(list[r.value]))
    ensures r.Ok? ==> forall j :: 0 <= j < r.value ==> key(list[j]) != key(list[r.value])
  {
    match TryParse(id)
    case None => Err(InvalidId)
    case Some(n) =>
      match Seqs.IndexOfKey(list, key, n)
      case None => Err(Missing)
      case Some(i) => Ok(i)
  }

  /** `check_auth_by_id`: the session exists and `last_used + timeout`
      neither overflows nor lies in the past. */
  function SessionAlive(sessions: seq<Session>, id: string, timeout: U64, now: U64): (r: bool)
    ensures r <==> Locate(sessions, SessionKey, id).Ok? &&
                   (var s := sessions[Locate(sessions, SessionKey, id).value];
                    s.lastUsed + timeout < U64_LIMIT && s.lastUsed + timeout > now)
  {
    match Locate(sessions, SessionKey, id)
    case Err(_) => false
    case Ok(i) =>
      match CheckedAddU64(sessions[i].lastUsed, timeout)
      case None => false
      case Some(deadline) => deadline > now
  }

  /** The number of completed MFA steps as the gate reads it: `len() as u8`. */
  function MfaCount(a: AuthSession): U8 {
    AsU8(|a.completedMfa|)
  }

  /** The gate of `convert_auth_session_to_session`, in the source's order:
      lookup, password, then (only with MFA enabled) the method count. */
  function ConvertCheck(list: seq<AuthSession>, mfa: Mfa, id: string): (r: Option<ConvertError>)
    ensures r == Some(NotFound) <==> Locate(list, AuthSessionKey, id).Err?
    ensures Locate(list, AuthSessionKey, id).Ok? ==>
      var a := list[Locate(list, AuthSessionKey, id).value];
      && (r == Some(RequirePassword) <==> !a.passwordCorrect)
      && (r == Some(RequireMfa) <==> a.passwordCorrect && mfa.enabled && |a.completedMfa| % 256 < mfa.minMethods)
      && (r.None? <==> a.passwordCorrect && (!mfa.enabled || |a.completedMfa| % 256 >= mfa.minMethods))
  {
    match Locate(list, AuthSessionKey, id)
    case Err(_) => Some(NotFound)
    case Ok(i) =>
      if !list[i].passwordCorrect then Some(RequirePassword)
      else if mfa.enabled && MfaCount(list[i]) < mfa.minMethods then Some(RequireMfa)
      else None
  }

  /** `check_mfa`: the first method with the id decides; a TOTP method asks
      `totp(secret, code)` (which stands for decoding the secret and checking
      the current code), a U2F method always refuses. */
  function CheckMfa(methods: seq<MfaMethod>, id: U8, code: string, totp: (string, string) -> bool): (r: bool)
    ensures !IdInUse(methods, id) ==> !r
    ensures r <==> FindMethod(methods, id).Some? && FindMethod(methods, id).value.kind == Totp
                   && totp(FindMethod(methods, id).value.data, code)
  {
    match FindMethod(methods, id)
    case None => false
    case Some(m) =>
      match m.kind
      case Totp => totp(m.data, code)
      case U2f => false
  }

  class User {
    var username: string
    var sessions: seq<Session>
    var auth: Auth

    /** `User::new`: no sessions, no auth sessions, MFA off with no methods,
        no recovery codes and a minimum of zero, empty encrypted fields. */
    constructor (username: string, hash: string, salt: string)
      ensures this.username == username && sessions == []
      ensures auth == Auth(hash, salt, [], Mfa(false, [], [], 0), EncryptedData("", "", ""))
    {
      this.username := username;
      sessions := [];
      auth := Auth(hash, salt, [], Mfa(false, [], [], 0), EncryptedData("", "", ""));
    }

    /** `create_session`: one new non-root session, created and used at
        `now`; its token is the 32-digit hex of the id. */
    method CreateSession(id: U128, now: U64) returns (token: string)
      modifies this
      ensures sessions == old(sessions) + [Session(id, now, now, false)]
      ensures auth == old(auth) && username == old(username)
      ensures token == Hex32(id) && TryParse(token) == Some(id)
    {
      sessions := sessions + [Session(id, now, now, false)];
      token := Hex32(id);
    }

    /** `create_auth_session`: one new auth session expiring an hour after
        `now` (u64 addition), with no proof and no MFA step yet. */
    method CreateAuthSession(id: U128, challenge: U128, now: U64) returns (token: string)
      modifies this
      ensures auth == old(auth).(authSessions := old(auth.authSessions)
                + [AuthSession(id, WrappingAddU64(now, 3600), challenge, [], false)])
      ensures sessions == old(sessions) && username == old(username)
      ensures token == Hex32(id) && TryParse(token) == Some(id)
    {
      auth := auth.(authSessions := auth.authSessions
                + [AuthSession(id, WrappingAddU64(now, 3600), challenge, [], false)]);
      token := Hex32(id);
    }

    /** `delete_auth_session_by_id`: every auth session with the id goes; an
        unparseable id changes nothing. */
    method DeleteAuthSessionById(id: string)
      modifies this
      ensures TryParse(id).Some? ==>
        auth == old(auth).(authSessions := Seqs.RemoveKey(old(auth.authSessions), AuthSessionKey, TryParse(id).value))
      ensures TryParse(id).None? ==> auth == old(auth)
      ensures sessions == old(sessions) && username == old(username)
    {
      match TryParse(id)
      case None =>
      case Some(n) =>
        auth := auth.(authSessions := Seqs.RemoveKey(auth.authSessions, AuthSessionKey, n));
    }

    /** `delete_session_by_id`: every session with the id goes; the answer
        says only whether the id parsed. */
    method DeleteSessionById(id: string) returns (ok: bool)
      modifies this
      ensures ok <==> TryParse(id).Some?
      ensures ok ==> sessions == Seqs.RemoveKey(old(sessions), SessionKey, TryParse(id).value)
      ensures !ok ==> sessions == old(sessions)
      ensures auth == old(auth) && username == old(username)
    {
      match TryParse(id)
      case None =>
        ok := false;
      case Some(n) =>
        sessions := Seqs.RemoveKey(sessions, SessionKey, n);
        ok := true;
    }

    /** `check_password_for_auth_session`: the proof is compared with the
        digest of the challenge digits followed by the stored hash; on a match
        the first auth session with the id is marked, and nothing else moves. */
    method CheckPasswordForAuthSession(sha: string -> string, id: string, proof: string) returns (ok: bool)
      modifies this
      ensures var found := Locate(old(auth.authSessions), AuthSessionKey, id);
        ok <==> found.Ok? && Security.VerifyChallengeResponse(sha, old(auth.authSessions)[found.value].challenge, proof, old(auth.hash))
      ensures ok ==>
        var i := Locate(old(auth.authSessions), AuthSessionKey, id).value;
        auth == old(auth).(authSessions := old(auth.authSessions)[i := old(auth.authSessions)[i].(passwordCorrect := true)])
      ensures !ok ==> auth == old(auth)
      ensures sessions == old(sessions) && username == old(username)
    {
      var hash := auth.hash;
      match Locate(auth.authSessions, AuthSessionKey, id)
      case Err(_) =>
        ok := false;
      case Ok(i) =>
        var a := auth.authSessions[i];
        if proof == sha(Hex32(a.challenge) + hash) {
          auth := auth.(authSessions := auth.authSessions[i := a.(passwordCorrect := true)]);
          ok := true;
        } else {
          ok := false;
        }
    }

    /** `convert_auth_session_to_session`: on a passed gate, one session is
        added, every auth session with the id is removed and the new token is
        returned; on a refusal nothing changes. */
    method ConvertAuthSessionToSession(id: string, sessionId: U128, now: U64) returns (r: Result<string, ConvertError>)
      modifies this
      ensures var check := ConvertCheck(old(auth.authSessions), old(auth.mfa), id);
        check.Some? ==> r == Err(check.value) && sessions == old(sessions) && auth == old(auth)
      ensures ConvertCheck(old(auth.authSessions), old(auth.mfa), id).None? ==>
        && TryParse(id).Some?
        && r == Ok(Hex32(sessionId))
        && sessions == old(sessions) + [Session(sessionId, now, now, false)]
        && auth == old(auth).(authSessions := Seqs.RemoveKey(old(auth.authSessions), AuthSessionKey, TryParse(id).value))
      ensures r.Ok? ==> Locate(auth.authSessions, AuthSessionKey, id) == Err(Missing)
      ensures r.Ok? ==> Locate(sessions, SessionKey, r.value).Ok?
      ensures username == old(username)
    {
      var check := ConvertCheck(auth.authSessions, auth.mfa, id);
      if check.Some? {
        r := Err(check.value);
      } else {
        var token := CreateSession(sessionId, now);
        DeleteAuthSessionById(id);
        r := Ok(token);
        RemovedIdMissing(old(auth.authSessions), id);
        AppendedSessionFound(old(sessions), sessionId, now);
      }
    }

    /** `delete_all_sessions`: both lists become empty. */
    method DeleteAllSessions()
      modifies this
      ensures sessions == [] && auth == old(auth).(authSessions := [])
      ensures username == old(username)
    {
      sessions := [];
      auth := auth.(authSessions := []);
    }

    /** `delete_all_auth_sessions`: the auth-session list becomes empty. */
    method DeleteAllAuthSessions()
      modifies this
      ensures auth == old(auth).(authSessions := [])
      ensures sessions == old(sessions) && username == old(username)
    {
      auth := auth.(authSessions := []);
    }

    /** `auth_session_add_completed_mfa`: the method id is appended to the
        first auth session with the id, even when already present; an unknown
        or invalid id changes nothing. */
    method AuthSessionAddCompletedMfa(id: string, mfaId: U8)
      modifies this
      ensures Locate(old(auth.authSessions), AuthSessionKey, id).Ok? ==>
        var i := Locate(old(auth.authSessions), AuthSessionKey, id).value;
        var a := old(auth.authSessions)[i];
        auth == old(auth).(authSessions := old(auth.authSessions)[i := a.(completedMfa := a.completedMfa + [mfaId])])
      ensures Locate(old(auth.authSessions), AuthSessionKey, id).Err? ==> auth == old(auth)
      ensures sessions == old(sessions) && username == old(username)
    {
      match Locate(auth.authSessions, AuthSessionKey, id)
      case Err(_) =>
      case Ok(i) =>
        var a := auth.authSessions[i];
        auth := auth.(authSessions := auth.authSessions[i := a.(completedMfa := a.completedMfa + [mfaId])]);
    }

    /** `create_mfa`: random 8-bit ids are drawn (the stream `draws`) until one
        is not in use; one enabled method with that id is appended. A TOTP
        method carries the generated secret `totpSecret`, a U2F method none.
        The loop ends only if some draw is free, hence the precondition. */
    method CreateMfa(kind: MfaKind, draws: seq<U8>, totpSecret: string) returns (m: MfaMethod)
      requires exists k :: 0 <= k < |draws| && !IdInUse(auth.mfa.methods, draws[k])
      modifies this
      ensures !IdInUse(old(auth.mfa.methods), m.id)
      ensures exists k :: 0 <= k < |draws| && m.id == draws[k] &&
                (forall j :: 0 <= j < k ==> IdInUse(old(auth.mfa.methods), draws[j]))
      ensures m.enabled && m.kind == kind
      ensures kind == Totp ==> m.name == "TOTP" && m.data == totpSecret
      ensures kind == U2f ==> m.name == "U2F" && m.data == ""
      ensures auth == old(auth).(mfa := old(auth.mfa).(methods := old(auth.mfa.methods) + [m]))
      ensures IdsDistinct(old(auth.mfa.methods)) ==> IdsDistinct(auth.mfa.methods)
      ensures sessions == old(sessions) && username == old(username)
    {
      var methods := auth.mfa.methods;
      var k := 0;
      var candidate := draws[0];
      while IdInUse(methods, candidate)
        invariant 0 <= k < |draws| && candidate == draws[k]
        invariant forall j :: 0 <= j < k ==> IdInUse(methods, draws[j])
        invariant exists f :: k <= f < |draws| && !IdInUse(methods, draws[f])
        decreases |draws| - k
      {
        k := k + 1;
        candidate := draws[k];
      }
      match kind {
        case Totp =>
          m := MfaMethod(candidate, "TOTP", true, totpSecret, Totp);
        case U2f =>
          m := MfaMethod(candidate, "U2F", true, "", U2f);
      }
      auth := auth.(mfa := auth.mfa.(methods := methods + [m]));
      assert forall j :: 0 <= j < |methods| ==> methods[j].id != m.id;
    }
  }

  // ---------------------------------------------------------------------------
  // Properties of the state machine

  /** After `retain(|s| s.id != id)` no auth session answers to the id. */
  lemma RemovedIdMissing(list: seq<AuthSession>, id: string)
    requires TryParse(id).Some?
    ensures Locate(Seqs.RemoveKey(list, AuthSessionKey, TryParse(id).value), AuthSessionKey, id) == Err(Missing)
  {
    var rest := Seqs.RemoveKey(list, AuthSessionKey, TryParse(id).value);
    forall j | 0 <= j < |rest|
      ensures AuthSessionKey(rest[j]) != TryParse(id).value
    {
      assert rest[j] in rest;
    }
  }

  /** The token of a just-appended session finds a session. */
  lemma AppendedSessionFound(sessions: seq<Session>, id: U128, now: U64)
    ensures Locate(sessions + [Session(id, now, now, false)], SessionKey, Hex32(id)).Ok?
  {
    var all := sessions + [Session(id, now, now, false)];
    assert SessionKey(all[|sessions|]) == id;
  }

  /** A freshly created session (with an id no earlier session uses) is
      alive until `timeout` seconds have passed. */
  lemma NewSessionAlive(sessions: seq<Session>, id: U128, now: U64, timeout: U64, later: U64)
    requires forall s :: s in sessions ==> s.id != id
    requires now + timeout < U64_LIMIT
    ensures SessionAlive(sessions + [Session(id, now, now, false)], Hex32(id), timeout, later)
        <==> later < now + timeout
  {
    var all := sessions + [Session(id, now, now, false)];
    assert all[|sessions|].id == id;
    forall j | 0 <= j < |sessions|
      ensures all[j].id != id
    {
      assert sessions[j] in sessions;
    }
  }

  /** After `delete_session_by_id` with a valid id, that id is no longer
      alive at any time. */
  lemma DeletedSessionDead(sessions: seq<Session>, id: string, timeout: U64, now: U64)
    requires TryParse(id).Some?
    ensures !SessionAlive(Seqs.RemoveKey(sessions, SessionKey, TryParse(id).value), id, timeout, now)
  {
    var rest := Seqs.RemoveKey(sessions, SessionKey, TryParse(id).value);
    forall j | 0 <= j < |rest|
      ensures SessionKey(rest[j]) != TryParse(id).value
    {
      assert rest[j] in rest;
    }
  }

  /** A session whose `last_used + timeout` overflows u64 is never alive. */
  lemma OverflowingSessionDead(sessions: seq<Session>, id: string, timeout: U64, now: U64)
    requires Locate(sessions, SessionKey, id).Ok?
    requires sessions[Locate(sessions, SessionKey, id).value].lastUsed + timeout >= U64_LIMIT
    ensures !SessionAlive(sessions, id, timeout, now)
  {
  }

  /** The gate never reads `expires_at`: changing the expiry of any auth
      session changes no answer, so an expired auth session still converts. */
  lemma ConvertIgnoresExpiry(list: seq<AuthSession>, mfa: Mfa, id: string, i: nat, expiresAt: U64)
    requires i < |list|
    ensures ConvertCheck(list[i := list[i].(expiresAt := expiresAt)], mfa, id) == ConvertCheck(list, mfa, id)
  {
    var other := list[i := list[i].(expiresAt := expiresAt)];
    assert forall j :: 0 <= j < |list| ==> AuthSessionKey(other[j]) == AuthSessionKey(list[j]);
  }

  /** The count is taken modulo 256: an auth session holding 256 completed
      steps is refused as if it held none, whenever a minimum is set. */
  lemma MfaCountWrapsAt256(list: seq<AuthSession>, mfa: Mfa, id: string)
    requires Locate(list, AuthSessionKey, id).Ok?
    requires list[Locate(list, AuthSessionKey, id).value].passwordCorrect
    requires |list[Locate(list, AuthSessionKey, id).value].completedMfa| == 256
    requires mfa.enabled && mfa.minMethods > 0
    ensures ConvertCheck(list, mfa, id) == Some(RequireMfa)
  {
  }

  /** Completions are counted with repetition: completing one method
      `minMethods` times (below 256) passes the gate, even when the account
      has fewer distinct methods than that. */
  lemma RepeatedMethodPassesGate(list: seq<AuthSession>, mfa: Mfa, id: string, mfaId: U8)
    requires Locate(list, AuthSessionKey, id).Ok?
    requires var a := list[Locate(list, AuthSessionKey, id).value];
      a.passwordCorrect && a.completedMfa == seq(mfa.minMethods, _ => mfaId)
    ensures ConvertCheck(list, mfa, id).None?
  {
  }

  /** Without the password proof no amount of MFA converts an auth session;
      with MFA disabled the proof alone suffices. */
  lemma PasswordAlwaysRequired(list: seq<AuthSession>, mfa: Mfa, id: string)
    requires Locate(list, AuthSessionKey, id).Ok?
    ensures !list[Locate(list, AuthSessionKey, id).value].passwordCorrect ==> ConvertCheck(list, mfa, id) == Some(RequirePassword)
    ensures list[Locate(list, AuthSessionKey, id).value].passwordCorrect && !mfa.enabled ==> ConvertCheck(list, mfa, id).None?
  {
  }

  /** The whole login of an account without MFA: an auth session is created,
      the client's proof is accepted, the auth session becomes a session,
      the session is alive, and after logout it is not. */
  method LoginScenario(sha: string -> string, hash: string, authId: U128, challenge: U128,
                       sessionId: U128, now: U64, timeout: U64)
      returns (proved: bool, converted: bool, aliveBefore: bool, aliveAfter: bool)
    requires 0 < timeout && now + timeout < U64_LIMIT
    ensures proved && converted && aliveBefore && !aliveAfter
  {
    var u := new User("@alice:example.com", hash, "salt");
    var authToken := u.CreateAuthSession(authId, challenge, now);
    assert u.auth.authSessions[0].id == authId;
    proved := u.CheckPasswordForAuthSession(sha, authToken, sha(Security.ChallengeText(challenge, hash)));
    var r := u.ConvertAuthSessionToSession(authToken, sessionId, now);
    converted := r.Ok?;
    var token := Hex32(sessionId);
    NewSessionAlive([], sessionId, now, timeout, now);
    aliveBefore := SessionAlive(u.sessions, token, timeout, now);
    var ok := u.DeleteSessionById(token);
    DeletedSessionDead([Session(sessionId, now, now, false)], token, timeout, now);
    aliveAfter := SessionAlive(u.sessions, token, timeout, now);
  }
}
