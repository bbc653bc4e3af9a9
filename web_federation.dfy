/** The federation endpoint: another server asks, on behalf of a share
    holder, to list, read, update, delete or create blobs of a local account
    through one of its shares. The request names the share owner's handle,
    the share id and the share secret (both as hex text), and the blob.
    The server resolution of a handle (`resolve_user`), the installed
    configuration, the available quota and the random id of a new blob are
    parameters; the proxy action, which forwards to a remote server, is
    represented only by its outcome `Proxied`. */
module WebFederation {

  import opened Wrappers
  import opened Ints
  import opened Hex
  import opened Errors
  import opened Storage
  import opened Account
  import opened Shares
  import opened SynxitBlobs
  import Config

  /** The request fields the endpoint reads; a missing string field is the
      empty string (`as_str().unwrap_or_default()`). */
  datatype Request = Request(action: string, shareUser: string, secret: string, id: string,
                             blob: string, content: string, hash: string)

  datatype Payload =
    | BlobList(blobs: seq<string>, writeAccess: bool)
    | BlobContent(content: string, hash: string)
    | NewHash(newHash: string)
    | NoData
    | NewBlob(newId: string)

  /** `Crash` is the panic of the path resolver on a handle without '@'. */
  datatype Response =
    | Success(data: Payload)
    | Failure(error: Error)
    | Crash
    | Proxied

  // ---------------------------------------------------------------------------
  // Which servers may ask

  /** The server part of the resolved handle, or "" when it does not resolve. */
  function ServerOf(resolved: Option<(string, string)>): (r: string)
    ensures resolved.None? ==> r == ""
  {
    match resolved
    case None => ""
    case Some(pair) => pair.1
  }

  /** The configuration in force: the installed one, else the defaults. */
  function FederationInForce(installed: Option<Config.Federation>): (r: Config.Federation)
    ensures installed.None? ==> r == Config.DefaultFederation
  {
    match installed
    case None => Config.DefaultFederation
    case Some(f) => f
  }

  /** The gate at the top of `handle_federation`: federation must be on, an
      enabled whitelist must list the server, an enabled blacklist must not;
      every refusal is `REMOTE_ERROR`. */
  function TrustGate(fed: Config.Federation, server: string): (r: Option<Error>)
    ensures r.None? <==> fed.enabled && (fed.whitelist.enabled ==> server in fed.whitelist.hosts)
                                     && (fed.blacklist.enabled ==> server !in fed.blacklist.hosts)
    ensures r.Some? ==> r.value == RemoteError
  {
    if !fed.enabled then Some(RemoteError)
    else if fed.whitelist.enabled && server !in fed.whitelist.hosts then Some(RemoteError)
    else if fed.blacklist.enabled && server in fed.blacklist.hosts then Some(RemoteError)
    else None
  }

  /** Without a configuration file every server is admitted. */
  lemma DefaultFederationTrustsEveryServer(server: string)
    ensures TrustGate(FederationInForce(None), server).None?
  {
  }

  /** A server listed on both enabled lists is refused: the blacklist wins. */
  lemma BlacklistOverridesWhitelist(fed: Config.Federation, server: string)
    requires fed.whitelist.enabled && fed.blacklist.enabled
    requires server in fed.whitelist.hosts && server in fed.blacklist.hosts
    ensures TrustGate(fed, server) == Some(RemoteError)
  {
  }

  /** A handle that does not resolve passes an enabled whitelist only when
      the whitelist lists the empty host. */
  lemma UnresolvedHandleNeedsEmptyHost(fed: Config.Federation)
    requires fed.whitelist.enabled
    ensures TrustGate(fed, ServerOf(None)).None? ==> "" in fed.whitelist.hosts
  {
  }

  // ---------------------------------------------------------------------------
  // Share access

  /** `validate_share_access`: the share looked up by the id text, and its
      secret compared with the parsed secret. */
  function ValidateShareAccess(shareFiles: map<string, seq<Share<string>>>, dataDir: string, shareUser: string,
                               secret: U128, id: string): (r: Result<Share<string>, Error>)
    requires '@' in shareUser
    ensures r.Ok? <==> GetShareById(shareFiles, dataDir, shareUser, id).Ok?
                       && GetShareById(shareFiles, dataDir, shareUser, id).value.secret == secret
    ensures r.Ok? ==> r.value == GetShareById(shareFiles, dataDir, shareUser, id).value
    ensures r.Err? ==> r.error == (if GetShareById(shareFiles, dataDir, shareUser, id).Err? then ShareNotFound else WrongSecret)
  {
    match GetShareById(shareFiles, dataDir, shareUser, id)
    case Err(e) => Err(e)
    case Ok(share) => if share.secret != secret then Err(WrongSecret) else Ok(share)
  }

  /** The secret text handed to `check_share_permissions` as written: the
      DECIMAL rendering of the parsed number, which that function reads back
      as hex. */
  function SecretTextAsWritten(secret: U128): (s: string)
    ensures ParseOrZero(s) == secret <==> secret < 10
  {
    DecimalReadAsHex(secret);
    Decimal(secret)
  }

  /** The corrected secret text: the 32-digit hex rendering, which reads back
      as the same number. */
  function SecretText(secret: U128): (s: string)
    ensures ParseOrZero(s) == secret
  {
    ParseOrZeroOfHex32(secret);
    Hex32(secret)
  }

  /** The checks shared by `get`, `update` and `delete`, as written: share
      and secret, the owner's record, then the permission check with the
      decimal secret text. Since that text reads back as the secret only
      below 10, success needs a secret below 10 on top of what the corrected
      `AccessCheck` needs. Success yields the lower-cased handle that the
      loaded record carries. */
  function AccessCheckAsWritten(files: map<string, Bytes>, shareFiles: map<string, seq<Share<string>>>, dataDir: string,
                                shareUser: string, secret: U128, id: string, blob: string, write: bool): (r: Result<string, Error>)
    requires '@' in shareUser
    ensures r.Ok? <==>
      && GetShareById(shareFiles, dataDir, shareUser, id).Ok?
      && GetShareById(shareFiles, dataDir, shareUser, id).value.secret == secret
      && Load(files, dataDir, shareUser).Some?
      && secret < 10
      && blob in GetShareById(shareFiles, dataDir, shareUser, id).value.blobs
      && (write ==> GetShareById(shareFiles, dataDir, shareUser, id).value.write)
    ensures r.Ok? ==> r.value == LowerAscii(shareUser) && '@' in r.value
    ensures r.Err? ==> r.error in {ShareNotFound, WrongSecret, UserNotFound, BlobNotInShare}
  {
    match ValidateShareAccess(shareFiles, dataDir, shareUser, secret, id)
    case Err(e) => Err(e)
    case Ok(_) =>
      match Load(files, dataDir, shareUser)
      case None => Err(UserNotFound)
      case Some(lower) =>
        SegmentOfLowered(shareUser);
        if CheckSharePermissions(shareFiles, dataDir, shareUser, id, SecretTextAsWritten(secret), blob, write).Some?
        then Err(BlobNotInShare)
        else Ok(lower)
  }

  /** The same checks with the corrected secret text. Success means the share
      exists, its secret matches, the owner is registered, the blob is listed
      and, for a write, the share grants writing. A missing write grant is
      reported as `BLOB_IS_NOT_IN_SHARE`. */
  function AccessCheck(files: map<string, Bytes>, shareFiles: map<string, seq<Share<string>>>, dataDir: string,
                       shareUser: string, secret: U128, id: string, blob: string, write: bool): (r: Result<string, Error>)
    requires '@' in shareUser
    ensures r.Ok? <==>
      && GetShareById(shareFiles, dataDir, shareUser, id).Ok?
      && GetShareById(shareFiles, dataDir, shareUser, id).value.secret == secret
      && Load(files, dataDir, shareUser).Some?
      && blob in GetShareById(shareFiles, dataDir, shareUser, id).value.blobs
      && (write ==> GetShareById(shareFiles, dataDir, shareUser, id).value.write)
    ensures r.Ok? ==> r.value == LowerAscii(shareUser) && '@' in r.value
    ensures r.Err? ==> r.error in {ShareNotFound, WrongSecret, UserNotFound, BlobNotInShare}
  {
    match ValidateShareAccess(shareFiles, dataDir, shareUser, secret, id)
    case Err(e) => Err(e)
    case Ok(_) =>
      match Load(files, dataDir, shareUser)
      case None => Err(UserNotFound)
      case Some(lower) =>
        SegmentOfLowered(shareUser);
        if CheckSharePermissions(shareFiles, dataDir, shareUser, id, SecretText(secret), blob, write).Some?
        then Err(BlobNotInShare)
        else Ok(lower)
  }

  /** The written checks lock every share whose secret is 10 or more out of
      `get`, `update` and `delete`; where the corrected checks admit such a
      request (a share with secret 0x10 listing the blob, say) the answer is
      `BLOB_IS_NOT_IN_SHARE`. */
  lemma LargeSecretLockedOutAsWritten(files: map<string, Bytes>, shareFiles: map<string, seq<Share<string>>>,
                                      dataDir: string, shareUser: string, secret: U128, id: string,
                                      blob: string, write: bool)
    requires '@' in shareUser
    requires 10 <= secret
    ensures AccessCheckAsWritten(files, shareFiles, dataDir, shareUser, secret, id, blob, write).Err?
    ensures AccessCheck(files, shareFiles, dataDir, shareUser, secret, id, blob, write).Ok? ==>
              AccessCheckAsWritten(files, shareFiles, dataDir, shareUser, secret, id, blob, write) == Err(BlobNotInShare)
  {
    if AccessCheck(files, shareFiles, dataDir, shareUser, secret, id, blob, write).Ok? {
      var share := GetShareById(shareFiles, dataDir, shareUser, id).value;
      assert ParseOrZero(SecretTextAsWritten(secret)) != share.secret;
    }
  }

  /** Below 10 the decimal and hex readings agree, so the written checks
      and the corrected ones give the same answer. */
  lemma SmallSecretAgrees(files: map<string, Bytes>, shareFiles: map<string, seq<Share<string>>>,
                          dataDir: string, shareUser: string, secret: U128, id: string,
                          blob: string, write: bool)
    requires '@' in shareUser
    requires secret < 10
    ensures AccessCheckAsWritten(files, shareFiles, dataDir, shareUser, secret, id, blob, write)
         == AccessCheck(files, shareFiles, dataDir, shareUser, secret, id, blob, write)
  {
    assert ParseOrZero(SecretTextAsWritten(secret)) == ParseOrZero(SecretText(secret));
  }

  // ---------------------------------------------------------------------------
  // The actions

  /** `blobs`: the share's list and write flag, once the secret matches. */
  function HandleBlobs(shareFiles: map<string, seq<Share<string>>>, dataDir: string, shareUser: string,
                       secret: U128, id: string): (r: Response)
    ensures '@' !in shareUser ==> r == Crash
    ensures '@' in shareUser ==>
      (r.Success? <==> ValidateShareAccess(shareFiles, dataDir, shareUser, secret, id).Ok?)
    ensures '@' in shareUser && r.Success? ==>
      var share := GetShareById(shareFiles, dataDir, shareUser, id).value;
      r.data == BlobList(share.blobs, share.write) && share.secret == secret
    ensures r.Failure? ==> r.error == ShareNotFound || r.error == WrongSecret
  {
    if '@' !in shareUser then Crash
    else match GetShareById(shareFiles, dataDir, shareUser, id)
      case Err(e) => Failure(e)
      case Ok(share) =>
        if share.secret != secret then Failure(WrongSecret)
        else Success(BlobList(share.blobs, share.write))
  }

  /** `get`: the checks for reading as written, then the blob of the
      owner's lower-cased handle. */
  function HandleGet(files: map<string, Bytes>, shareFiles: map<string, seq<Share<string>>>, prim: Primitives,
                     dataDir: string, shareUser: string, secret: U128, id: string, blob: string): (r: Response)
    ensures '@' !in shareUser ==> r == Crash
    ensures '@' in shareUser && AccessCheckAsWritten(files, shareFiles, dataDir, shareUser, secret, id, blob, false).Err? ==>
              r == Failure(AccessCheckAsWritten(files, shareFiles, dataDir, shareUser, secret, id, blob, false).error)
    ensures '@' in shareUser && AccessCheckAsWritten(files, shareFiles, dataDir, shareUser, secret, id, blob, false).Ok? ==>
      '@' in LowerAscii(shareUser) &&
      var path := BlobPath(dataDir, LowerAscii(shareUser), blob);
      && (IsValidBlobId(blob) && path in files ==>
            r == Success(BlobContent(prim.base64Encode(files[path]), prim.sha256(files[path]))))
      && (!(IsValidBlobId(blob) && path in files) ==> r == Failure(BlobNotFound))
    ensures r.Success? ==> secret < 10
  {
    if '@' !in shareUser then Crash
    else match AccessCheckAsWritten(files, shareFiles, dataDir, shareUser, secret, id, blob, false)
      case Err(e) => Failure(e)
      case Ok(owner) =>
        match ReadBlob(files, prim, dataDir, owner, blob)
        case Err(e) => Failure(e)
        case Ok(read) => Success(BlobContent(read.0, read.1))
  }

  /** `update`: the checks for writing as written, then `update_blob` on the
      owner's lower-cased handle. */
  method HandleUpdate(fs: Store, prim: Primitives, dataDir: string, shareUser: string, secret: U128,
                      id: string, blob: string, content: string, oldHash: string, quota: nat) returns (r: Response)
    modifies fs
    ensures '@' !in shareUser ==> r == Crash && unchanged(fs)
    ensures '@' in shareUser && AccessCheckAsWritten(old(fs.files), old(fs.shareFiles), dataDir, shareUser, secret, id, blob, true).Err? ==>
              r == Failure(AccessCheckAsWritten(old(fs.files), old(fs.shareFiles), dataDir, shareUser, secret, id, blob, true).error)
              && unchanged(fs)
    ensures '@' in shareUser && AccessCheckAsWritten(old(fs.files), old(fs.shareFiles), dataDir, shareUser, secret, id, blob, true).Ok? ==>
      var owner := LowerAscii(shareUser);
      '@' in owner &&
      var out := UpdateOutcome(old(fs.files), prim, dataDir, owner, blob, content, oldHash, quota);
      && (out.Ok? ==> r == Success(NewHash(prim.sha256(out.value)))
                      && fs.files == old(fs.files)[BlobPath(dataDir, owner, blob) := out.value])
      && (out.Err? ==> r == Failure(out.error) && fs.files == old(fs.files))
    ensures fs.shareFiles == old(fs.shareFiles)
    ensures r.Success? ==> secret < 10
  {
    if '@' !in shareUser {
      return Crash;
    }
    var access := AccessCheckAsWritten(fs.files, fs.shareFiles, dataDir, shareUser, secret, id, blob, true);
    if access.Err? {
      return Failure(access.error);
    }
    var updated := UpdateBlob(fs, prim, dataDir, access.value, blob, content, oldHash, quota);
    match updated {
      case Ok(hash) => r := Success(NewHash(hash));
      case Err(e) => r := Failure(e);
    }
  }

  /** `delete`: the checks for writing as written, then the blob is read and
      deleted when the presented hash is its current one. The deletion
      removes the file first; when the share cascade then panics the request
      ends in `Crash` with the file gone and the share list unchanged. The
      `BLOB_NOT_FOUND` answer after a successful read cannot occur. */
  method HandleDelete(fs: Store, prim: Primitives, dataDir: string, shareUser: string, secret: U128,
                      id: string, blob: string, hash: string) returns (r: Response)
    modifies fs
    ensures '@' !in shareUser ==> r == Crash && unchanged(fs)
    ensures '@' in shareUser && AccessCheckAsWritten(old(fs.files), old(fs.shareFiles), dataDir, shareUser, secret, id, blob, true).Err? ==>
              r == Failure(AccessCheckAsWritten(old(fs.files), old(fs.shareFiles), dataDir, shareUser, secret, id, blob, true).error)
              && unchanged(fs)
    ensures '@' in shareUser && AccessCheckAsWritten(old(fs.files), old(fs.shareFiles), dataDir, shareUser, secret, id, blob, true).Ok? ==>
      var owner := LowerAscii(shareUser);
      '@' in owner &&
      var read := ReadBlob(old(fs.files), prim, dataDir, owner, blob);
      var panics := DeletePanics(ShareData(old(fs.shareFiles), dataDir, owner), blob);
      && (read.Err? ==> r == Failure(read.error) && unchanged(fs))
      && (read.Ok? && read.value.1 != hash ==> r == Failure(BlobHashNotMatch) && unchanged(fs))
      && (read.Ok? && read.value.1 == hash ==>
            && fs.files == old(fs.files) - {BlobPath(dataDir, owner, blob)}
            && (panics ==> r == Crash && fs.shareFiles == old(fs.shareFiles))
            && (!panics ==> r == Success(NoData)
                            && fs.shareFiles == old(fs.shareFiles)[SharesPath(dataDir, owner) :=
                                                   StripBlob(ShareData(old(fs.shareFiles), dataDir, owner), blob)]))
    ensures r.Success? ==> secret < 10
  {
    if '@' !in shareUser {
      return Crash;
    }
    var access := AccessCheckAsWritten(fs.files, fs.shareFiles, dataDir, shareUser, secret, id, blob, true);
    if access.Err? {
      return Failure(access.error);
    }
    var owner := access.value;
    var read := ReadBlob(fs.files, prim, dataDir, owner, blob);
    if read.Err? {
      return Failure(read.error);
    }
    if hash != read.value.1 {
      return Failure(BlobHashNotMatch);
    }
    var deleted := SynxitBlobs.DeleteBlob(fs, dataDir, owner, blob);
    if deleted.None? {
      r := Crash;
    } else if deleted.value {
      r := Success(NoData);
    } else {
      r := Failure(BlobNotFound);
    }
  }

  /** `new`: share and secret, the write grant (`NO_WRITE_ACCESS`), the
      owner's record, then a new blob of the owner's lower-cased handle whose
      id is appended to the first share with the id. `new` does not go
      through `check_share_permissions`, so no secret is locked out here. */
  method HandleNew(fs: Store, prim: Primitives, dataDir: string, shareUser: string, secret: U128,
                   id: string, content: string, quota: nat, draw: U128) returns (r: Response)
    modifies fs
    ensures '@' !in shareUser ==> r == Crash && unchanged(fs)
    ensures '@' in shareUser && ValidateShareAccess(old(fs.shareFiles), dataDir, shareUser, secret, id).Err? ==>
              r == Failure(ValidateShareAccess(old(fs.shareFiles), dataDir, shareUser, secret, id).error) && unchanged(fs)
    ensures '@' in shareUser && ValidateShareAccess(old(fs.shareFiles), dataDir, shareUser, secret, id).Ok? ==>
      var share := ValidateShareAccess(old(fs.shareFiles), dataDir, shareUser, secret, id).value;
      && (!share.write ==> r == Failure(NoWriteAccess) && unchanged(fs))
      && (share.write && Load(old(fs.files), dataDir, shareUser).None? ==> r == Failure(UserNotFound) && unchanged(fs))
      && (share.write && Load(old(fs.files), dataDir, shareUser).Some? ==>
            '@' in LowerAscii(shareUser) &&
            var decoded := prim.base64Decode(content);
            && (decoded.None? ==> r == Failure(Base64DecodeError))
            && (decoded.Some? && quota < |content| ==> r == Failure(QuotaExceeded))
            && (decoded.Some? && |content| <= quota ==>
                  && r == Success(NewBlob(Hex32(draw)))
                  && fs.files == old(fs.files)[BlobPath(dataDir, LowerAscii(shareUser), Hex32(draw)) := decoded.value]
                  && fs.shareFiles == old(fs.shareFiles)[SharesPath(dataDir, shareUser) :=
                       AddToFirst(ShareData(old(fs.shareFiles), dataDir, shareUser), ParseOrZero(id), Hex32(draw))]))
    ensures r.Success? ==>
      && '@' in shareUser && '@' in LowerAscii(shareUser)
      && r.data == NewBlob(Hex32(draw))
      && ReadBlob(fs.files, prim, dataDir, LowerAscii(shareUser), Hex32(draw)).Ok?
      && GetShareById(fs.shareFiles, dataDir, shareUser, id).Ok?
      && Hex32(draw) in GetShareById(fs.shareFiles, dataDir, shareUser, id).value.blobs
    ensures !r.Success? ==> fs.files == old(fs.files) && fs.shareFiles == old(fs.shareFiles)
  {
    if '@' !in shareUser {
      return Crash;
    }
    var access := ValidateShareAccess(fs.shareFiles, dataDir, shareUser, secret, id);
    if access.Err? {
      return Failure(access.error);
    }
    if !access.value.write {
      return Failure(NoWriteAccess);
    }
    var loaded := Load(fs.files, dataDir, shareUser);
    if loaded.None? {
      return Failure(UserNotFound);
    }
    SegmentOfLowered(shareUser);
    var owner := loaded.value;
    var created := CreateBlob(fs, prim, dataDir, owner, content, quota, draw);
    if created.Err? {
      if prim.base64Decode(content).Some? {
        assert quota < |content|;
      }
      assert fs.files == old(fs.files) && fs.shareFiles == old(fs.shareFiles);
      return Failure(created.error);
    }
    var newId := created.value.0;
    assert newId == Hex32(draw);
    ghost var written := fs.files;
    assert ReadBlob(written, prim, dataDir, owner, newId).Ok?;
    var shares := ShareData(fs.shareFiles, dataDir, shareUser);
    assert FindShare(shares, ParseOrZero(id)).Ok? by {
      assert shares == ShareData(old(fs.shareFiles), dataDir, shareUser);
      assert GetShareById(old(fs.shareFiles), dataDir, shareUser, id).Ok?;
    }
    SynxitBlobs.AddBlobToShare(fs, dataDir, shareUser, id, newId);
    NewBlobListed(shares, dataDir, shareUser, id, newId, fs.shareFiles);
    assert fs.files == written;
    r := Success(NewBlob(newId));
  }

  /** Appending to the share found by the id makes the blob visible to the
      next lookup by that id. */
  lemma NewBlobListed(shares: seq<Share<string>>, dataDir: string, shareUser: string, id: string, blob: string,
                      after: map<string, seq<Share<string>>>)
    requires '@' in shareUser
    requires FindShare(shares, ParseOrZero(id)).Ok?
    requires SharesPath(dataDir, shareUser) in after
    requires after[SharesPath(dataDir, shareUser)] == AddToFirst(shares, ParseOrZero(id), blob)
    ensures GetShareById(after, dataDir, shareUser, id).Ok?
    ensures blob in GetShareById(after, dataDir, shareUser, id).value.blobs
  {
    AddedBlobIsListed(shares, ParseOrZero(id), blob);
  }

  // ---------------------------------------------------------------------------
  // Dispatch

  predicate IsDataAction(action: string) {
    action in {"blobs", "get", "update", "delete", "new"}
  }

  /** `handle_federation`: the trust gate first, then the action. Only
      `update`, `delete` and `new` can change storage, and only past the
      gate. */
  method HandleFederation(fs: Store, prim: Primitives, installed: Option<Config.Federation>,
                          resolved: Option<(string, string)>, req: Request,
                          dataDir: string, quota: nat, draw: U128) returns (r: Response)
    modifies fs
    ensures TrustGate(FederationInForce(installed), ServerOf(resolved)).Some? ==>
              r == Failure(RemoteError) && unchanged(fs)
    ensures TrustGate(FederationInForce(installed), ServerOf(resolved)).None? ==>
      && (req.action == "proxy" ==> r == Proxied && unchanged(fs))
      && (req.action != "proxy" && !IsDataAction(req.action) ==> r == Failure(InvalidAction) && unchanged(fs))
      && (req.action == "blobs" ==>
            r == HandleBlobs(old(fs.shareFiles), dataDir, req.shareUser, ParseOrZero(req.secret), req.id) && unchanged(fs))
      && (req.action == "get" ==>
            r == HandleGet(old(fs.files), old(fs.shareFiles), prim, dataDir, req.shareUser,
                           ParseOrZero(req.secret), req.id, req.blob) && unchanged(fs))
      && (req.action == "update" ==> fs.shareFiles == old(fs.shareFiles))
    ensures req.action !in {"update", "delete", "new"} ==> unchanged(fs)
    ensures r.Success? && req.action in {"get", "update", "delete"} ==> ParseOrZero(req.secret) < 10
  {
    var gate := TrustGate(FederationInForce(installed), ServerOf(resolved));
    if gate.Some? {
      return Failure(gate.value);
    }
    var secret := ParseOrZero(req.secret);
    if req.action == "proxy" {
      r := Proxied;
    } else if req.action == "blobs" {
      r := HandleBlobs(fs.shareFiles, dataDir, req.shareUser, secret, req.id);
    } else if req.action == "get" {
      r := HandleGet(fs.files, fs.shareFiles, prim, dataDir, req.shareUser, secret, req.id, req.blob);
    } else if req.action == "update" {
      r := HandleUpdate(fs, prim, dataDir, req.shareUser, secret, req.id, req.blob, req.content, req.hash, quota);
    } else if req.action == "delete" {
      r := HandleDelete(fs, prim, dataDir, req.shareUser, secret, req.id, req.blob, req.hash);
    } else if req.action == "new" {
      r := HandleNew(fs, prim, dataDir, req.shareUser, secret, req.id, req.content, quota, draw);
    } else {
      r := Failure(InvalidAction);
    }
  }

  /** A blob created through a share can be read back through the same share
      with the hash the creation reported. */
  lemma CreatedBlobReadable(files: map<string, Bytes>, prim: Primitives, dataDir: string, shareUser: string,
                            draw: U128, data: Bytes)
    requires '@' in shareUser
    ensures '@' in LowerAscii(shareUser)
    ensures var owner := LowerAscii(shareUser);
      ReadBlob(files[BlobPath(dataDir, owner, Hex32(draw)) := data], prim, dataDir, owner, Hex32(draw))
        == Ok((prim.base64Encode(data), prim.sha256(data)))
  {
    SegmentOfLowered(shareUser);
    FormattedIdValid(draw);
  }
}
