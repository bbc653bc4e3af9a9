/** The account record and the pure helpers around it: the record's types,
    the handle-to-directory rule, loading, the existence test, and the
    search for a free MFA method id. */
module Account {

  import opened Wrappers
  import opened Ints
  import opened Storage
  import Seqs

  datatype Session = Session(id: U128, createdAt: U64, lastUsed: U64, root: bool)

  datatype AuthSession = AuthSession(
    id: U128,
    expiresAt: U64,
    challenge: U128,
    completedMfa: seq<U8>,
    passwordCorrect: bool)

  datatype MfaKind = Totp | U2f

  datatype MfaMethod = MfaMethod(id: U8, name: string, enabled: bool, data: string, kind: MfaKind)

  datatype Mfa = Mfa(enabled: bool, methods: seq<MfaMethod>, recoveryCodes: seq<string>, minMethods: U8)

  datatype EncryptedData = EncryptedData(masterKey: string, keyring: string, blobMap: string)

  datatype Auth = Auth(
    hash: string,
    salt: string,
    authSessions: seq<AuthSession>,
    mfa: Mfa,
    encrypted: EncryptedData)

  function SessionKey(s: Session): U128 { s.id }
  function AuthSessionKey(a: AuthSession): U128 { a.id }
  function MethodKey(m: MfaMethod): U8 { m.id }

  // ---------------------------------------------------------------------------
  // Handles and directories

  /** The text before the first `c` (all of `s` when there is none): the first
      piece of `s.split(c)`. */
  function TakeUntil(s: string, c: char): (r: string)
    ensures |r| <= |s| && r == s[..|r|]
    ensures c !in r
    ensures |r| < |s| ==> s[|r|] == c
  {
    if |s| == 0 || s[0] == c then [] else [s[0]] + TakeUntil(s[1..], c)
  }

  /** The text after the first `c`. */
  function DropThrough(s: string, c: char): (r: string)
    requires c in s
    ensures |r| < |s|
  {
    s[|TakeUntil(s, c)| + 1..]
  }

  /** `username.split("@")[1].split(":")[0]`: the text between the first '@'
      and the next '@' or ':'. None where the source's `[1]` is out of range,
      that is when there is no '@'. */
  function UserSegment(username: string): (r: Option<string>)
    ensures r.Some? <==> '@' in username
    ensures r.Some? ==> '@' !in r.value && ':' !in r.value
  {
    if '@' !in username then None
    else
      var piece := TakeUntil(DropThrough(username, '@'), '@');
      var seg := TakeUntil(piece, ':');
      assert '@' !in seg by {
        assert seg == piece[..|seg|];
      }
      Some(seg)
  }

  /** `resolve_user_data_path`: the data directory, "/users/", the handle's
      segment, "/" and the relative path. */
  function ResolveUserDataPath(dataDir: string, username: string, path: string): (r: Option<string>)
    ensures r.Some? <==> '@' in username
    ensures r.Some? ==> r.value == dataDir + "/users/" + UserSegment(username).value + "/" + path
  {
    match UserSegment(username)
    case None => None
    case Some(seg) => Some(dataDir + "/users/" + seg + "/" + path)
  }

  lemma {:induction false} TakeUntilAppend(a: string, b: string, c: char)
    requires c !in a
    ensures TakeUntil(a + b, c) == a + TakeUntil(b, c)
  {
    if |a| > 0 {
      assert (a + b)[1..] == a[1..] + b;
      TakeUntilAppend(a[1..], b, c);
    } else {
      assert a + b == b;
    }
  }

  /** A handle `@local:domain` whose local part holds neither '@' nor ':'
      resolves to the directory named by its local part. */
  lemma HandleResolvesToLocalPart(local: string, domain: string)
    requires '@' !in local && ':' !in local
    ensures UserSegment("@" + local + ":" + domain) == Some(local)
  {
    var u := "@" + local + ":" + domain;
    assert TakeUntil(u, '@') == [];
    assert DropThrough(u, '@') == local + (":" + domain);
    TakeUntilAppend(local, ":" + domain, '@');
    var piece := TakeUntil(local + (":" + domain), '@');
    assert piece == local + TakeUntil(":" + domain, '@');
    assert TakeUntil(":" + domain, '@') == [':'] + TakeUntil(domain, '@');
    TakeUntilAppend(local, TakeUntil(":" + domain, '@'), ':');
    assert TakeUntil(TakeUntil(":" + domain, '@'), ':') == [];
  }

  function LowerChar(c: char): char {
    if 'A' <= c <= 'Z' then (c as int + 32) as char else c
  }

  /** ASCII lower-casing (`to_lowercase` on the ASCII range). */
  function LowerAscii(s: string): (r: string)
    ensures |r| == |s|
    ensures forall i :: 0 <= i < |s| ==> r[i] == LowerChar(s[i])
  {
    seq(|s|, i requires 0 <= i < |s| => LowerChar(s[i]))
  }

  predicate HasUpper(s: string) {
    exists i :: 0 <= i < |s| && 'A' <= s[i] <= 'Z'
  }

  lemma {:induction false} TakeUntilLower(s: string, c: char)
    requires !('A' <= c <= 'Z') && !('a' <= c <= 'z')
    ensures TakeUntil(LowerAscii(s), c) == LowerAscii(TakeUntil(s, c))
  {
    var l := LowerAscii(s);
    if |s| > 0 {
      if s[0] == c {
        assert l[0] == c;
      } else {
        assert l[0] != c;
        assert l[1..] == LowerAscii(s[1..]);
        TakeUntilLower(s[1..], c);
        assert LowerAscii([s[0]] + TakeUntil(s[1..], c)) == [l[0]] + LowerAscii(TakeUntil(s[1..], c));
      }
    } else {
      assert l == [];
    }
  }

  lemma SegmentOfLowered(username: string)
    requires '@' in username
    ensures '@' in LowerAscii(username)
    ensures UserSegment(LowerAscii(username)) == Some(LowerAscii(UserSegment(username).value))
  {
    var l := LowerAscii(username);
    var k :| 0 <= k < |username| && username[k] == '@';
    assert l[k] == '@';
    TakeUntilLower(username, '@');
    var n := |TakeUntil(username, '@')|;
    assert DropThrough(l, '@') == LowerAscii(DropThrough(username, '@'));
    TakeUntilLower(DropThrough(username, '@'), '@');
    TakeUntilLower(TakeUntil(DropThrough(username, '@'), '@'), ':');
  }

  /** `load`: the record of the handle's directory, read from the path of the
      handle as given; the loaded record carries the lower-cased handle. None
      stands for the source's "Could not load user data". */
  function Load(files: map<string, Bytes>, dataDir: string, username: string): (r: Option<string>)
    requires '@' in username
    ensures r.Some? <==> ResolveUserDataPath(dataDir, username, "data.json").value in files
    ensures r.Some? ==> r.value == LowerAscii(username)
  {
    if ResolveUserDataPath(dataDir, username, "data.json").value in files
    then Some(LowerAscii(username))
    else None
  }

  lemma LowerFixedIffNoUpper(s: string)
    ensures LowerAscii(s) == s <==> !HasUpper(s)
  {
    if HasUpper(s) {
      var i :| 0 <= i < |s| && 'A' <= s[i] <= 'Z';
      assert LowerAscii(s)[i] != s[i];
    }
  }

  lemma SegmentPathsDiffer(dataDir: string, a: string, b: string, path: string)
    requires |a| == |b|
    ensures dataDir + "/users/" + a + "/" + path == dataDir + "/users/" + b + "/" + path <==> a == b
  {
    var pre := dataDir + "/users/";
    var pa, pb := pre + a + "/" + path, pre + b + "/" + path;
    assert pa[|pre|..|pre| + |a|] == a;
    assert pb[|pre|..|pre| + |b|] == b;
  }

  /** A record loaded under a handle is saved (through its lower-cased name)
      to the directory it was read from exactly when the handle's directory
      segment has no upper-case letter. */
  lemma LoadAndSaveAgreeIffLowerCase(files: map<string, Bytes>, dataDir: string, username: string)
    requires '@' in username
    requires Load(files, dataDir, username).Some?
    ensures '@' in Load(files, dataDir, username).value
    ensures ResolveUserDataPath(dataDir, Load(files, dataDir, username).value, "data.json")
         == ResolveUserDataPath(dataDir, username, "data.json")
        <==> !HasUpper(UserSegment(username).value)
  {
    SegmentOfLowered(username);
    var seg := UserSegment(username).value;
    LowerFixedIffNoUpper(seg);
    SegmentPathsDiffer(dataDir, LowerAscii(seg), seg, "data.json");
  }

  /** A handle `@local:domain` whose local part has an upper-case letter is
      read from the directory named as written and saved to a different one. */
  lemma MixedCaseHandleChangesDirectory(files: map<string, Bytes>, dataDir: string, local: string, domain: string)
    requires '@' !in local && ':' !in local && HasUpper(local)
    requires dataDir + "/users/" + local + "/data.json" in files
    ensures Load(files, dataDir, "@" + local + ":" + domain).Some?
    ensures ResolveUserDataPath(dataDir, Load(files, dataDir, "@" + local + ":" + domain).value, "data.json")
         != Some(dataDir + "/users/" + local + "/data.json")
  {
    var u := "@" + local + ":" + domain;
    HandleResolvesToLocalPart(local, domain);
    assert '@' in u by { assert u[0] == '@'; }
    assert dataDir + "/users/" + local + "/" + "data.json" == dataDir + "/users/" + local + "/data.json";
    LoadAndSaveAgreeIffLowerCase(files, dataDir, u);
  }

  /** `user_exists` as written: the NEGATION of "the record file exists". */
  function UserExistsAsWritten(files: map<string, Bytes>, dataDir: string, username: string): (r: bool)
    requires '@' in username
    ensures r <==> Load(files, dataDir, username).None?
  {
    !(ResolveUserDataPath(dataDir, username, "data.json").value in files)
  }

  /** What the name and its caller in registration promise: true exactly when
      the handle's record file exists. */
  function UserExists(files: map<string, Bytes>, dataDir: string, username: string): (r: bool)
    requires '@' in username
    ensures r <==> Load(files, dataDir, username).Some?
  {
    ResolveUserDataPath(dataDir, username, "data.json").value in files
  }

  /** The written test answers the opposite of the intended one for every
      handle: true for a handle with no record, false for a registered one. */
  lemma UserExistsAsWrittenIsInverted(files: map<string, Bytes>, dataDir: string, username: string)
    requires '@' in username
    ensures UserExistsAsWritten(files, dataDir, username) <==> !UserExists(files, dataDir, username)
    ensures UserExistsAsWritten(files, dataDir, username) <==> Load(files, dataDir, username).None?
  {
  }

  // ---------------------------------------------------------------------------
  // MFA method ids

  predicate IdInUse(methods: seq<MfaMethod>, id: U8) {
    exists j :: 0 <= j < |methods| && methods[j].id == id
  }

  predicate IdsDistinct(methods: seq<MfaMethod>) {
    forall i, j :: 0 <= i < j < |methods| ==> methods[i].id != methods[j].id
  }

  /** `methods.iter().find(|m| m.id == id)`. */
  function FindMethod(methods: seq<MfaMethod>, id: U8): (r: Option<MfaMethod>)
    ensures r.Some? <==> IdInUse(methods, id)
    ensures r.Some? ==> r.value in methods && r.value.id == id
    ensures r.Some? && IdsDistinct(methods) ==> forall m :: m in methods && m.id == id ==> m == r.value
  {
    match Seqs.IndexOfKey(methods, MethodKey, id)
    case None => None
    case Some(i) => Some(methods[i])
  }

  /** Fewer than 256 methods leave an 8-bit id free, so the random retry in
      `create_mfa` can succeed. */
  lemma FreeIdExists(methods: seq<MfaMethod>)
    requires |methods| < U8_LIMIT
    ensures exists v: U8 :: !IdInUse(methods, v)
  {
    var ids := seq(|methods|, i requires 0 <= i < |methods| => methods[i].id as nat);
    Seqs.MissingBelow(ids, U8_LIMIT);
    var v: nat :| v < U8_LIMIT && v !in ids;
    var w: U8 := v;
    forall j | 0 <= j < |methods|
      ensures methods[j].id != w
    {
      assert ids[j] == methods[j].id as nat;
    }
    assert !IdInUse(methods, w);
  }

  /** With every 8-bit id taken, no draw is ever free: the retry loop of
      `create_mfa` cannot end. */
  lemma NoFreeIdWhenAllTaken(methods: seq<MfaMethod>, draws: seq<U8>)
    requires forall v: U8 :: IdInUse(methods, v)
    ensures forall k :: 0 <= k < |draws| ==> IdInUse(methods, draws[k])
  {
  }
}
