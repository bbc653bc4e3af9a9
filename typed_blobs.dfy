/** The blob store of the typed-id generation: blob, share and secret ids
    are 128-bit numbers wrapped in their own types and turned into text only
    for file names. Compared with the textual generation it checks no id
    syntax, measures the quota on the decoded bytes, retries the random id
    while the file exists, and adds `validate_share_access` and
    `validate_blob_access`. */
module TypedBlobs {

  import opened Wrappers
  import opened Ints
  import opened Hex
  import opened Errors
  import opened Storage
  import opened Account
  import opened Shares

  datatype BlobId = BlobId(value: U128)

  type Store = FileStore<Share<BlobId>>

  /** `String::from(BlobID)`: the 32-digit rendering. */
  function BlobIdText(b: BlobId): (s: string)
    ensures |s| == 32 && TryParse(s) == Some(b.value)
  {
    Hex32(b.value)
  }

  /** `BlobID::from(String)` (and likewise `ShareID`, `ShareSecret`): the
      "0 on failure" parser. */
  function ParseBlobId(s: string): (b: BlobId)
    ensures TryParse(s).Some? ==> b.value == TryParse(s).value
    ensures TryParse(s).None? ==> b == BlobId(0)
  {
    BlobId(ParseOrZero(s))
  }

  /** The two conversions are inverse on ids, and the text form is injective. */
  lemma BlobIdRoundTrip(a: BlobId, b: BlobId)
    ensures ParseBlobId(BlobIdText(a)) == a
    ensures BlobIdText(a) == BlobIdText(b) <==> a == b
  {
    Hex32Injective(a.value, b.value);
  }

  function BlobPath(dataDir: string, username: string, id: BlobId): (p: string)
    requires '@' in username
    ensures p == ResolveUserDataPath(dataDir, username, "blobs/").value + BlobIdText(id)
  {
    ResolveUserDataPath(dataDir, username, "blobs/").value + BlobIdText(id)
  }

  lemma BlobPathInjective(dataDir: string, username: string, a: BlobId, b: BlobId)
    requires '@' in username
    ensures BlobPath(dataDir, username, a) == BlobPath(dataDir, username, b) <==> a == b
  {
    var dir := ResolveUserDataPath(dataDir, username, "blobs/").value;
    BlobIdRoundTrip(a, b);
    assert (dir + BlobIdText(a))[|dir|..] == BlobIdText(a);
    assert (dir + BlobIdText(b))[|dir|..] == BlobIdText(b);
  }

  function SharesPath(dataDir: string, username: string): string
    requires '@' in username
  {
    ResolveUserDataPath(dataDir, username, "shares.json").value
  }

  /** `get_share_data`: the stored list, or empty when absent. */
  function ShareData(shareFiles: map<string, seq<Share<BlobId>>>, dataDir: string, username: string): (r: seq<Share<BlobId>>)
    requires '@' in username
    ensures SharesPath(dataDir, username) !in shareFiles ==> r == []
    ensures SharesPath(dataDir, username) in shareFiles ==> r == shareFiles[SharesPath(dataDir, username)]
  {
    var p := SharesPath(dataDir, username);
    if p in shareFiles then shareFiles[p] else []
  }

  /** `set_share_data`. */
  method SetShareData(fs: Store, dataDir: string, username: string, shares: seq<Share<BlobId>>)
    requires '@' in username
    modifies fs
    ensures fs.shareFiles == old(fs.shareFiles)[SharesPath(dataDir, username) := shares]
    ensures fs.files == old(fs.files)
  {
    fs.shareFiles := fs.shareFiles[SharesPath(dataDir, username) := shares];
  }

  /** `get_share_by_id`. */
  function GetShareById(shareFiles: map<string, seq<Share<BlobId>>>, dataDir: string, username: string, id: U128): (r: Result<Share<BlobId>, Error>)
    requires '@' in username
    ensures r.Ok? ==> r.value in ShareData(shareFiles, dataDir, username) && r.value.id == id
    ensures r.Ok? ==> var shares := ShareData(shareFiles, dataDir, username);
      exists j :: 0 <= j < |shares| && shares[j] == r.value && (forall k :: 0 <= k < j ==> shares[k].id != id)
    ensures r.Err? <==> forall s :: s in ShareData(shareFiles, dataDir, username) ==> s.id != id
    ensures r.Err? ==> r.error == ShareNotFound
  {
    var shares := ShareData(shareFiles, dataDir, username);
    var r := FindShare(shares, id);
    assert r.Err? <==> forall s :: s in shares ==> s.id != id by {
      if !r.Err? {
        var j :| 0 <= j < |shares| && shares[j] == r.value && r.value.id == id;
        assert shares[j] in shares;
      }
    }
    r
  }

  /** `check_share_permissions`: lookup, secret, membership, write; None is
      success. */
  function CheckSharePermissions(shareFiles: map<string, seq<Share<BlobId>>>, dataDir: string, username: string,
                                 id: U128, secret: U128, blob: BlobId, write: bool): (r: Option<Error>)
    requires '@' in username
    ensures GetShareById(shareFiles, dataDir, username, id).Err? ==> r == Some(ShareNotFound)
    ensures GetShareById(shareFiles, dataDir, username, id).Ok? ==>
      var share := GetShareById(shareFiles, dataDir, username, id).value;
      && (r.None? <==> secret == share.secret && blob in share.blobs && (!write || share.write))
      && (r == Some(WrongSecret) <==> secret != share.secret)
      && (r == Some(BlobNotInShare) <==> secret == share.secret && blob !in share.blobs)
      && (r == Some(NoWriteAccess) <==> secret == share.secret && blob in share.blobs && write && !share.write)
  {
    match GetShareById(shareFiles, dataDir, username, id)
    case Err(e) => Some(e)
    case Ok(share) => Permission(share, secret, blob, write)
  }

  /** `validate_share_access`: `SHARE_NOT_FOUND`, then `WRONG_SECRET`,
      otherwise the share. */
  function ValidateShareAccess(shareFiles: map<string, seq<Share<BlobId>>>, dataDir: string, username: string,
                               id: U128, secret: U128): (r: Result<Share<BlobId>, Error>)
    requires '@' in username
    ensures r.Ok? <==> GetShareById(shareFiles, dataDir, username, id).Ok?
                       && GetShareById(shareFiles, dataDir, username, id).value.secret == secret
    ensures r.Ok? ==> r.value == GetShareById(shareFiles, dataDir, username, id).value
    ensures r.Err? ==> r.error == (if GetShareById(shareFiles, dataDir, username, id).Err? then ShareNotFound else WrongSecret)
  {
    match GetShareById(shareFiles, dataDir, username, id)
    case Err(e) => Err(e)
    case Ok(share) => if share.secret != secret then Err(WrongSecret) else Ok(share)
  }

  /** `validate_blob_access`: the share check first, then the per-blob check. */
  function ValidateBlobAccess(shareFiles: map<string, seq<Share<BlobId>>>, dataDir: string, username: string,
                              id: U128, secret: U128, blob: BlobId, write: bool): (r: Option<Error>)
    requires '@' in username
    ensures ValidateShareAccess(shareFiles, dataDir, username, id, secret).Err? ==>
              r == Some(ValidateShareAccess(shareFiles, dataDir, username, id, secret).error)
    ensures ValidateShareAccess(shareFiles, dataDir, username, id, secret).Ok? ==>
              r == CheckSharePermissions(shareFiles, dataDir, username, id, secret, blob, write)
  {
    match ValidateShareAccess(shareFiles, dataDir, username, id, secret)
    case Err(e) => Some(e)
    case Ok(_) => CheckSharePermissions(shareFiles, dataDir, username, id, secret, blob, write)
  }

  /** The share check in `validate_blob_access` adds nothing: the per-blob
      check repeats the lookup and the secret test in the same order, so
      `SHARE_NOT_FOUND` and `WRONG_SECRET` win either way. */
  lemma BlobAccessIsPermissionCheck(shareFiles: map<string, seq<Share<BlobId>>>, dataDir: string, username: string,
                                    id: U128, secret: U128, blob: BlobId, write: bool)
    requires '@' in username
    ensures ValidateBlobAccess(shareFiles, dataDir, username, id, secret, blob, write)
         == CheckSharePermissions(shareFiles, dataDir, username, id, secret, blob, write)
  {
  }

  // ---------------------------------------------------------------------------
  // Blob files

  /** `read_blob`: a missing file is `BLOB_NOT_FOUND`, otherwise the content
      in base64 and its SHA-256. */
  function ReadBlob(files: map<string, Bytes>, prim: Primitives, dataDir: string, username: string, id: BlobId): (r: Result<(string, string), Error>)
    requires '@' in username
    ensures r.Err? <==> BlobPath(dataDir, username, id) !in files
    ensures r.Err? ==> r.error == BlobNotFound
    ensures r.Ok? ==> var content := files[BlobPath(dataDir, username, id)];
      r.value.0 == prim.base64Encode(content) && r.value.1 == prim.sha256(content)
  {
    var p := BlobPath(dataDir, username, id);
    if p !in files then Err(BlobNotFound)
    else Ok((prim.base64Encode(files[p]), prim.sha256(files[p])))
  }

  /** What `update_blob` decides: missing file, undecodable content, stale
      hash, quota on the DECODED length; otherwise the bytes to write. */
  function UpdateOutcome(files: map<string, Bytes>, prim: Primitives, dataDir: string, username: string,
                         id: BlobId, content: string, oldHash: string, quota: nat): Result<Bytes, Error>
    requires '@' in username
  {
    var p := BlobPath(dataDir, username, id);
    if p !in files then Err(BlobNotFound)
    else match prim.base64Decode(content)
      case None => Err(Base64DecodeError)
      case Some(data) =>
        if oldHash != prim.sha256(files[p]) then Err(BlobHashNotMatch)
        else if quota < |data| then Err(QuotaExceeded)
        else Ok(data)
  }

  /** `update_blob`. */
  method UpdateBlob(fs: Store, prim: Primitives, dataDir: string, username: string,
                    id: BlobId, content: string, oldHash: string, quota: nat) returns (r: Result<string, Error>)
    requires '@' in username
    modifies fs
    ensures var out := UpdateOutcome(old(fs.files), prim, dataDir, username, id, content, oldHash, quota);
      && (out.Ok? ==> r == Ok(prim.sha256(out.value))
                      && fs.files == old(fs.files)[BlobPath(dataDir, username, id) := out.value])
      && (out.Err? ==> r == Err(out.error) && fs.files == old(fs.files))
    ensures fs.shareFiles == old(fs.shareFiles)
  {
    var p := BlobPath(dataDir, username, id);
    if p !in fs.files {
      return Err(BlobNotFound);
    }
    var oldContent := fs.files[p];
    var decoded := prim.base64Decode(content);
    if decoded.None? {
      return Err(Base64DecodeError);
    }
    var data := decoded.value;
    if oldHash != prim.sha256(oldContent) {
      return Err(BlobHashNotMatch);
    }
    if quota < |data| {
      return Err(QuotaExceeded);
    }
    fs.files := fs.files[p := data];
    r := Ok(prim.sha256(data));
  }

  /** The hash `read_blob` reports is the one `update_blob` accepts. */
  lemma ReadHashAcceptedByUpdate(files: map<string, Bytes>, prim: Primitives, dataDir: string, username: string,
                                 id: BlobId, content: string, quota: nat)
    requires '@' in username
    requires ReadBlob(files, prim, dataDir, username, id).Ok?
    requires prim.base64Decode(content).Some? && |prim.base64Decode(content).value| <= quota
    ensures UpdateOutcome(files, prim, dataDir, username, id, content,
                          ReadBlob(files, prim, dataDir, username, id).value.1, quota)
         == Ok(prim.base64Decode(content).value)
  {
  }

  /** Compare-and-swap: a second update presenting the hash from before a
      first (hash-changing) update is refused. */
  lemma StaleHashRejected(files: map<string, Bytes>, prim: Primitives, dataDir: string, username: string,
                          id: BlobId, first: string, second: string, oldHash: string, quota: nat)
    requires '@' in username
    requires UpdateOutcome(files, prim, dataDir, username, id, first, oldHash, quota).Ok?
    requires prim.sha256(UpdateOutcome(files, prim, dataDir, username, id, first, oldHash, quota).value) != oldHash
    requires prim.base64Decode(second).Some?
    ensures var written := UpdateOutcome(files, prim, dataDir, username, id, first, oldHash, quota).value;
      UpdateOutcome(files[BlobPath(dataDir, username, id) := written], prim, dataDir, username, id, second, oldHash, quota)
        == Err(BlobHashNotMatch)
  {
  }

  /** The retry loop of `create_blob` over the candidate paths: the first
      one that does not exist yet. */
  method FirstAbsent(files: map<string, Bytes>, paths: seq<string>) returns (k: nat)
    requires exists f :: 0 <= f < |paths| && paths[f] !in files
    ensures k < |paths| && paths[k] !in files
    ensures forall j :: 0 <= j < k ==> paths[j] in files
  {
    k := 0;
    while paths[k] in files
      invariant 0 <= k < |paths|
      invariant forall j :: 0 <= j < k ==> paths[j] in files
      invariant exists f :: k <= f < |paths| && paths[f] !in files
      decreases |paths| - k
    {
      k := k + 1;
    }
  }

  /** `create_blob`: decode, quota on the decoded length, then draw ids
      (the stream `draws`) until one names no existing file, and write
      there. The loop ends only if some draw is free, hence the precondition. */
  method CreateBlob(fs: Store, prim: Primitives, dataDir: string, username: string,
                    content: string, quota: nat, draws: seq<U128>) returns (r: Result<(BlobId, string), Error>)
    requires '@' in username
    requires prim.base64Decode(content).Some? && |prim.base64Decode(content).value| <= quota ==>
               exists k :: 0 <= k < |draws| && BlobPath(dataDir, username, BlobId(draws[k])) !in fs.files
    modifies fs
    ensures prim.base64Decode(content).None? ==> r == Err(Base64DecodeError) && fs.files == old(fs.files)
    ensures prim.base64Decode(content).Some? && quota < |prim.base64Decode(content).value| ==>
              r == Err(QuotaExceeded) && fs.files == old(fs.files)
    ensures prim.base64Decode(content).Some? && |prim.base64Decode(content).value| <= quota ==>
              var data := prim.base64Decode(content).value;
              && r.Ok?
              && r.value.1 == prim.sha256(data)
              && BlobPath(dataDir, username, r.value.0) !in old(fs.files)
              && fs.files == old(fs.files)[BlobPath(dataDir, username, r.value.0) := data]
              && (exists k :: 0 <= k < |draws| && r.value.0 == BlobId(draws[k]) &&
                    (forall j :: 0 <= j < k ==> BlobPath(dataDir, username, BlobId(draws[j])) in old(fs.files)))
    ensures fs.shareFiles == old(fs.shareFiles)
  {
    var decoded := prim.base64Decode(content);
    if decoded.None? {
      return Err(Base64DecodeError);
    }
    var data := decoded.value;
    if quota < |data| {
      return Err(QuotaExceeded);
    }
    var paths := seq(|draws|, i requires 0 <= i < |draws| => BlobPath(dataDir, username, BlobId(draws[i])));
    ghost var f :| 0 <= f < |draws| && BlobPath(dataDir, username, BlobId(draws[f])) !in fs.files;
    assert paths[f] !in fs.files;
    var k := FirstAbsent(fs.files, paths);
    assert forall j :: 0 <= j < k ==> BlobPath(dataDir, username, BlobId(draws[j])) in old(fs.files) by {
      forall j | 0 <= j < k
        ensures BlobPath(dataDir, username, BlobId(draws[j])) in old(fs.files)
      {
        assert paths[j] in fs.files;
      }
    }
    var id := BlobId(draws[k]);
    fs.files := fs.files[BlobPath(dataDir, username, id) := data];
    r := Ok((id, prim.sha256(data)));
  }

  /** `delete_blob` as written: a missing file answers false and changes
      nothing. Otherwise the file is removed first and the cascade runs;
      when its removal loop panics (`Shares.DeletePanics`) the call aborts
      (None) with the file gone and the share list as it was, and otherwise
      the id is stripped from every share and the answer is true. */
  method DeleteBlob(fs: Store, dataDir: string, username: string, id: BlobId) returns (r: Option<bool>)
    requires '@' in username
    modifies fs
    ensures r == Some(false) <==> BlobPath(dataDir, username, id) !in old(fs.files)
    ensures r.None? <==> BlobPath(dataDir, username, id) in old(fs.files)
                         && DeletePanics(ShareData(old(fs.shareFiles), dataDir, username), id)
    ensures r == Some(false) ==> fs.files == old(fs.files) && fs.shareFiles == old(fs.shareFiles)
    ensures r != Some(false) ==> fs.files == old(fs.files) - {BlobPath(dataDir, username, id)}
    ensures r.None? ==> fs.shareFiles == old(fs.shareFiles)
    ensures r == Some(true) ==> fs.shareFiles == old(fs.shareFiles)[SharesPath(dataDir, username) :=
                                   StripBlob(ShareData(old(fs.shareFiles), dataDir, username), id)]
  {
    var p := BlobPath(dataDir, username, id);
    if p !in fs.files {
      return Some(false);
    }
    fs.files := fs.files - {p};
    var panicked := DeleteSharedBlob(fs, dataDir, username, id);
    if panicked {
      return None;
    }
    r := Some(true);
  }

  /** `delete_shared_blob` as written: when the removal loop panics the
      share file is never rewritten (`panicked`); otherwise the account's
      list becomes the stripped list. */
  method DeleteSharedBlob(fs: Store, dataDir: string, username: string, blob: BlobId) returns (panicked: bool)
    requires '@' in username
    modifies fs
    ensures panicked <==> DeletePanics(ShareData(old(fs.shareFiles), dataDir, username), blob)
    ensures panicked ==> fs.shareFiles == old(fs.shareFiles)
    ensures !panicked ==> fs.shareFiles == old(fs.shareFiles)[SharesPath(dataDir, username) :=
                                StripBlob(ShareData(old(fs.shareFiles), dataDir, username), blob)]
    ensures fs.files == old(fs.files)
  {
    var shares := ShareData(fs.shareFiles, dataDir, username);
    var stripped := DeleteSharedBlobAsWritten(shares, blob);
    if stripped.None? {
      return true;
    }
    SetShareData(fs, dataDir, username, stripped.value);
    panicked := false;
  }

  /** `delete_shared_blob` with the removal loop corrected (see `Shares`):
      the list is always rewritten, stripped. */
  method DeleteSharedBlobCorrected(fs: Store, dataDir: string, username: string, blob: BlobId)
    requires '@' in username
    modifies fs
    ensures fs.shareFiles == old(fs.shareFiles)[SharesPath(dataDir, username) :=
                               StripBlob(ShareData(old(fs.shareFiles), dataDir, username), blob)]
    ensures fs.files == old(fs.files)
  {
    var shares := ShareData(fs.shareFiles, dataDir, username);
    var stripped := Shares.DeleteSharedBlob(shares, blob);
    SetShareData(fs, dataDir, username, stripped);
  }

  /** `add_blob_to_share`: the blob is appended to the first share with the id. */
  method AddBlobToShare(fs: Store, dataDir: string, username: string, shareId: U128, blob: BlobId)
    requires '@' in username
    modifies fs
    ensures fs.shareFiles == old(fs.shareFiles)[SharesPath(dataDir, username) :=
                               AddToFirst(ShareData(old(fs.shareFiles), dataDir, username), shareId, blob)]
    ensures fs.files == old(fs.files)
  {
    var shares := ShareData(fs.shareFiles, dataDir, username);
    var added := Shares.AddBlobToShare(shares, shareId, blob);
    SetShareData(fs, dataDir, username, added);
  }

  /** A blob added to an existing share passes that share's read check with
      the share's secret. */
  lemma AddedBlobReadable(shareFiles: map<string, seq<Share<BlobId>>>, dataDir: string, username: string,
                          shareId: U128, blob: BlobId)
    requires '@' in username
    requires GetShareById(shareFiles, dataDir, username, shareId).Ok?
    ensures var after := shareFiles[SharesPath(dataDir, username) :=
                            AddToFirst(ShareData(shareFiles, dataDir, username), shareId, blob)];
      GetShareById(after, dataDir, username, shareId).Ok? &&
      CheckSharePermissions(after, dataDir, username, shareId,
                            GetShareById(after, dataDir, username, shareId).value.secret, blob, false).None?
  {
    var shares := ShareData(shareFiles, dataDir, username);
    var after := shareFiles[SharesPath(dataDir, username) := AddToFirst(shares, shareId, blob)];
    assert ShareData(after, dataDir, username) == AddToFirst(shares, shareId, blob);
    AddedBlobIsListed(shares, shareId, blob);
  }
}
