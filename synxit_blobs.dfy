/** The blob store with textual ids, the one the federation endpoint calls.
    A blob lives at `<data>/users/<segment>/blobs/<id>` as raw bytes and
    travels as base64 text; the share list lives at `.../shares.json`.
    The available quota is a parameter (its sources are not part of this
    model), and so is the random id. */
module SynxitBlobs {

  import opened Wrappers
  import opened Ints
  import opened Hex
  import opened Errors
  import opened Storage
  import opened Account
  import opened Shares

  type Store = FileStore<Share<string>>

  /** `is_valid_blob_id`: 32 characters, every one an ASCII hex digit.
      Every valid id is the text of a 128-bit number. */
  predicate IsValidBlobId(id: string)
    ensures IsValidBlobId(id) <==> |id| == 32 && forall i :: 0 <= i < |id| ==> IsHexDigit(id[i])
    ensures IsValidBlobId(id) ==> TryParse(id).Some?
  {
    if |id| == 32 && AllHex(id) then ThirtyTwoDigitsParse(id); true else false
  }

  /** Every formatted id is valid: the retry guard of `create_blob`
      ("exists and is invalid") is false for every id it can draw. */
  lemma FormattedIdValid(n: U128)
    ensures IsValidBlobId(Hex32(n))
  {
  }

  /** `resolve_blob_path`: the account's `blobs/` directory followed by the id. */
  function BlobPath(dataDir: string, username: string, id: string): (p: string)
    requires '@' in username
    ensures p == ResolveUserDataPath(dataDir, username, "blobs/").value + id
  {
    ResolveUserDataPath(dataDir, username, "blobs/").value + id
  }

  /** Ids of one length name different files; with the 32-digit rendering,
      different numbers name different files. */
  lemma BlobPathsDistinct(dataDir: string, username: string, a: U128, b: U128)
    requires '@' in username
    requires a != b
    ensures BlobPath(dataDir, username, Hex32(a)) != BlobPath(dataDir, username, Hex32(b))
  {
    var dir := ResolveUserDataPath(dataDir, username, "blobs/").value;
    Hex32Injective(a, b);
    assert (dir + Hex32(a))[|dir|..] == Hex32(a);
    assert (dir + Hex32(b))[|dir|..] == Hex32(b);
  }

  function SharesPath(dataDir: string, username: string): string
    requires '@' in username
  {
    ResolveUserDataPath(dataDir, username, "shares.json").value
  }

  /** `get_share_data`: the stored list, or the empty list when the file is
      absent (or unreadable, which the decoded store does not distinguish). */
  function ShareData(shareFiles: map<string, seq<Share<string>>>, dataDir: string, username: string): (r: seq<Share<string>>)
    requires '@' in username
    ensures SharesPath(dataDir, username) !in shareFiles ==> r == []
    ensures SharesPath(dataDir, username) in shareFiles ==> r == shareFiles[SharesPath(dataDir, username)]
  {
    var p := SharesPath(dataDir, username);
    if p in shareFiles then shareFiles[p] else []
  }

  /** `set_share_data`: the list replaces the account's share file. */
  method SetShareData(fs: Store, dataDir: string, username: string, shares: seq<Share<string>>) returns (ok: bool)
    requires '@' in username
    modifies fs
    ensures fs.shareFiles == old(fs.shareFiles)[SharesPath(dataDir, username) := shares]
    ensures fs.files == old(fs.files)
    ensures ok
  {
    fs.shareFiles := fs.shareFiles[SharesPath(dataDir, username) := shares];
    ok := true;
  }

  /** `get_share_by_id`: the id text is parsed with the "0 on failure" parser,
      then the first share with that number is returned. */
  function GetShareById(shareFiles: map<string, seq<Share<string>>>, dataDir: string, username: string, id: string): (r: Result<Share<string>, Error>)
    requires '@' in username
    ensures r.Ok? ==> r.value in ShareData(shareFiles, dataDir, username) && r.value.id == ParseOrZero(id)
    ensures r.Ok? ==> var shares := ShareData(shareFiles, dataDir, username);
      exists j :: 0 <= j < |shares| && shares[j] == r.value && (forall k :: 0 <= k < j ==> shares[k].id != ParseOrZero(id))
    ensures r.Err? <==> forall s :: s in ShareData(shareFiles, dataDir, username) ==> s.id != ParseOrZero(id)
    ensures r.Err? ==> r.error == ShareNotFound
  {
    var shares := ShareData(shareFiles, dataDir, username);
    var r := FindShare(shares, ParseOrZero(id));
    assert r.Err? <==> forall s :: s in shares ==> s.id != ParseOrZero(id) by {
      if !r.Err? {
        var j :| 0 <= j < |shares| && shares[j] == r.value && r.value.id == ParseOrZero(id);
        assert shares[j] in shares;
      }
    }
    r
  }

  /** An id that does not parse looks up share 0. */
  lemma UnparsableShareIdMeansZero(shareFiles: map<string, seq<Share<string>>>, dataDir: string, username: string, id: string)
    requires '@' in username
    requires TryParse(id).None?
    ensures GetShareById(shareFiles, dataDir, username, id) == GetShareById(shareFiles, dataDir, username, Hex32(0))
  {
    ParseOrZeroOfHex32(0);
  }

  /** `check_share_permissions`: lookup (`SHARE_NOT_FOUND`), then the secret
      (parsed as hex, 0 on failure), membership and write access; None is
      success. */
  function CheckSharePermissions(shareFiles: map<string, seq<Share<string>>>, dataDir: string, username: string,
                                 id: string, secret: string, blob: string, write: bool): (r: Option<Error>)
    requires '@' in username
    ensures GetShareById(shareFiles, dataDir, username, id).Err? ==> r == Some(ShareNotFound)
    ensures GetShareById(shareFiles, dataDir, username, id).Ok? ==>
      var share := GetShareById(shareFiles, dataDir, username, id).value;
      && (r.None? <==> ParseOrZero(secret) == share.secret && blob in share.blobs && (!write || share.write))
      && (r == Some(WrongSecret) <==> ParseOrZero(secret) != share.secret)
      && (r == Some(BlobNotInShare) <==> ParseOrZero(secret) == share.secret && blob !in share.blobs)
      && (r == Some(NoWriteAccess) <==> ParseOrZero(secret) == share.secret && blob in share.blobs && write && !share.write)
  {
    match GetShareById(shareFiles, dataDir, username, id)
    case Err(e) => Some(e)
    case Ok(share) => Permission(share, ParseOrZero(secret), blob, write)
  }

  // ---------------------------------------------------------------------------
  // Blob files

  /** `read_blob`: an invalid id or a missing file is `BLOB_NOT_FOUND`;
      otherwise the content in base64 and its SHA-256. */
  function ReadBlob(files: map<string, Bytes>, prim: Primitives, dataDir: string, username: string, id: string): (r: Result<(string, string), Error>)
    requires '@' in username
    ensures r.Err? <==> !IsValidBlobId(id) || BlobPath(dataDir, username, id) !in files
    ensures r.Err? ==> r.error == BlobNotFound
    ensures r.Ok? ==> var content := files[BlobPath(dataDir, username, id)];
      r.value.0 == prim.base64Encode(content) && r.value.1 == prim.sha256(content)
  {
    if !IsValidBlobId(id) then Err(BlobNotFound)
    else
      var p := BlobPath(dataDir, username, id);
      if p !in files then Err(BlobNotFound)
      else Ok((prim.base64Encode(files[p]), prim.sha256(files[p])))
  }

  /** What `update_blob` decides, in the source's order: invalid id, missing
      file, undecodable content, stale hash, quota (on the base64 text
      length); otherwise the decoded bytes to write. */
  function UpdateOutcome(files: map<string, Bytes>, prim: Primitives, dataDir: string, username: string,
                         id: string, content: string, oldHash: string, quota: nat): Result<Bytes, Error>
    requires '@' in username
  {
    if !IsValidBlobId(id) then Err(BlobNotFound)
    else
      var p := BlobPath(dataDir, username, id);
      if p !in files then Err(BlobNotFound)
      else match prim.base64Decode(content)
        case None => Err(Base64DecodeError)
        case Some(data) =>
          if oldHash != prim.sha256(files[p]) then Err(BlobHashNotMatch)
          else if quota < |content| then Err(QuotaExceeded)
          else Ok(data)
  }

  /** `update_blob`: the file changes only when every check passes; the
      answer is then the SHA-256 of the new bytes. */
  method UpdateBlob(fs: Store, prim: Primitives, dataDir: string, username: string,
                    id: string, content: string, oldHash: string, quota: nat) returns (r: Result<string, Error>)
    requires '@' in username
    modifies fs
    ensures var out := UpdateOutcome(old(fs.files), prim, dataDir, username, id, content, oldHash, quota);
      && (out.Ok? ==> r == Ok(prim.sha256(out.value))
                      && fs.files == old(fs.files)[BlobPath(dataDir, username, id) := out.value])
      && (out.Err? ==> r == Err(out.error) && fs.files == old(fs.files))
    ensures fs.shareFiles == old(fs.shareFiles)
  {
    if !IsValidBlobId(id) {
      return Err(BlobNotFound);
    }
    var p := BlobPath(dataDir, username, id);
    if p !in fs.files {
      return Err(BlobNotFound);
    }
    var oldContent := fs.files[p];
    var decoded := prim.base64Decode(content);
    if decoded.None? {
      return Err(Base64DecodeError);
    }
    var data := decoded.value;
    if oldHash != prim.sha256(oldContent) {
      return Err(BlobHashNotMatch);
    }
    if quota < |content| {
      return Err(QuotaExceeded);
    }
    fs.files := fs.files[p := data];
    r := Ok(prim.sha256(data));
  }

  /** The hash `read_blob` reports is the one `update_blob` accepts: with
      decodable content within quota the update goes through. */
  lemma ReadHashAcceptedByUpdate(files: map<string, Bytes>, prim: Primitives, dataDir: string, username: string,
                                 id: string, content: string, quota: nat)
    requires '@' in username
    requires ReadBlob(files, prim, dataDir, username, id).Ok?
    requires prim.base64Decode(content).Some? && |content| <= quota
    ensures UpdateOutcome(files, prim, dataDir, username, id, content,
                          ReadBlob(files, prim, dataDir, username, id).value.1, quota)
         == Ok(prim.base64Decode(content).value)
  {
  }

  /** Compare-and-swap: once an update has replaced the bytes by bytes of a
      different hash, a second update that presents the original hash is
      refused with `BLOB_HASH_NOT_MATCH` and cannot overwrite the first. */
  lemma StaleHashRejected(files: map<string, Bytes>, prim: Primitives, dataDir: string, username: string,
                          id: string, first: string, second: string, oldHash: string, quota: nat)
    requires '@' in username
    requires UpdateOutcome(files, prim, dataDir, username, id, first, oldHash, quota).Ok?
    requires prim.sha256(UpdateOutcome(files, prim, dataDir, username, id, first, oldHash, quota).value) != oldHash
    requires prim.base64Decode(second).Some?
    ensures var written := UpdateOutcome(files, prim, dataDir, username, id, first, oldHash, quota).value;
      UpdateOutcome(files[BlobPath(dataDir, username, id) := written], prim, dataDir, username, id, second, oldHash, quota)
        == Err(BlobHashNotMatch)
  {
  }

  /** Storage is never consulted for an invalid id: the answer is
      `BLOB_NOT_FOUND` whatever the files hold. */
  lemma InvalidIdRejectedFirst(files: map<string, Bytes>, other: map<string, Bytes>, prim: Primitives, dataDir: string,
                               username: string, id: string, content: string, oldHash: string, quota: nat)
    requires '@' in username
    requires !IsValidBlobId(id)
    ensures UpdateOutcome(files, prim, dataDir, username, id, content, oldHash, quota) == Err(BlobNotFound)
    ensures ReadBlob(files, prim, dataDir, username, id) == ReadBlob(other, prim, dataDir, username, id)
  {
  }

  /** `create_blob`: decode, quota on the base64 TEXT length, then write the
      bytes under the 32-digit rendering of the drawn id. The source's retry
      loop cannot run (see `FormattedIdValid`), so an existing file with the
      drawn id is overwritten. */
  method CreateBlob(fs: Store, prim: Primitives, dataDir: string, username: string,
                    content: string, quota: nat, draw: U128) returns (r: Result<(string, string), Error>)
    requires '@' in username
    modifies fs
    ensures prim.base64Decode(content).None? ==> r == Err(Base64DecodeError) && fs.files == old(fs.files)
    ensures prim.base64Decode(content).Some? && quota < |content| ==>
              r == Err(QuotaExceeded) && fs.files == old(fs.files)
    ensures prim.base64Decode(content).Some? && |content| <= quota ==>
              var data := prim.base64Decode(content).value;
              && r == Ok((Hex32(draw), prim.sha256(data)))
              && fs.files == old(fs.files)[BlobPath(dataDir, username, Hex32(draw)) := data]
    ensures r.Ok? ==> ReadBlob(fs.files, prim, dataDir, username, r.value.0).Ok?
    ensures fs.shareFiles == old(fs.shareFiles)
  {
    var decoded := prim.base64Decode(content);
    if decoded.None? {
      return Err(Base64DecodeError);
    }
    var data := decoded.value;
    if quota < |content| {
      return Err(QuotaExceeded);
    }
    var id := Hex32(draw);
    FormattedIdValid(draw);
    fs.files := fs.files[BlobPath(dataDir, username, id) := data];
    r := Ok((id, prim.sha256(data)));
  }

  /** `delete_blob` as written: an invalid id or a missing file answers
      false and changes nothing. Otherwise the file is removed first and the
      cascade runs; when its removal loop panics (`Shares.DeletePanics`) the
      request aborts (None) with the file gone and the share list as it was,
      and otherwise the id is stripped from every share and the answer is
      true. */
  method DeleteBlob(fs: Store, dataDir: string, username: string, id: string) returns (r: Option<bool>)
    requires '@' in username
    modifies fs
    ensures r == Some(false) <==> !IsValidBlobId(id) || BlobPath(dataDir, username, id) !in old(fs.files)
    ensures r.None? <==> IsValidBlobId(id) && BlobPath(dataDir, username, id) in old(fs.files)
                         && DeletePanics(ShareData(old(fs.shareFiles), dataDir, username), id)
    ensures r == Some(false) ==> fs.files == old(fs.files) && fs.shareFiles == old(fs.shareFiles)
    ensures r != Some(false) ==> fs.files == old(fs.files) - {BlobPath(dataDir, username, id)}
    ensures r.None? ==> fs.shareFiles == old(fs.shareFiles)
    ensures r == Some(true) ==> fs.shareFiles == old(fs.shareFiles)[SharesPath(dataDir, username) :=
                                   StripBlob(ShareData(old(fs.shareFiles), dataDir, username), id)]
  {
    if !IsValidBlobId(id) {
      return Some(false);
    }
    var p := BlobPath(dataDir, username, id);
    if p !in fs.files {
      return Some(false);
    }
    fs.files := fs.files - {p};
    var panicked := DeleteSharedBlob(fs, dataDir, username, id);
    if panicked {
      return None;
    }
    r := Some(true);
  }

  /** `delete_shared_blob` as written: when the removal loop panics the
      share file is never rewritten (`panicked`); otherwise the account's
      list becomes the stripped list. */
  method DeleteSharedBlob(fs: Store, dataDir: string, username: string, blob: string) returns (panicked: bool)
    requires '@' in username
    modifies fs
    ensures panicked <==> DeletePanics(ShareData(old(fs.shareFiles), dataDir, username), blob)
    ensures panicked ==> fs.shareFiles == old(fs.shareFiles)
    ensures !panicked ==> fs.shareFiles == old(fs.shareFiles)[SharesPath(dataDir, username) :=
                                StripBlob(ShareData(old(fs.shareFiles), dataDir, username), blob)]
    ensures fs.files == old(fs.files)
  {
    var shares := ShareData(fs.shareFiles, dataDir, username);
    var stripped := DeleteSharedBlobAsWritten(shares, blob);
    if stripped.None? {
      return true;
    }
    var _ := SetShareData(fs, dataDir, username, stripped.value);
    panicked := false;
  }

  /** `delete_shared_blob` with the removal loop corrected (see `Shares`):
      the list is always rewritten, stripped. */
  method DeleteSharedBlobCorrected(fs: Store, dataDir: string, username: string, blob: string)
    requires '@' in username
    modifies fs
    ensures fs.shareFiles == old(fs.shareFiles)[SharesPath(dataDir, username) :=
                               StripBlob(ShareData(old(fs.shareFiles), dataDir, username), blob)]
    ensures fs.files == old(fs.files)
  {
    var shares := ShareData(fs.shareFiles, dataDir, username);
    var stripped := Shares.DeleteSharedBlob(shares, blob);
    var _ := SetShareData(fs, dataDir, username, stripped);
  }

  /** `add_blob_to_share`: the share id text is parsed (0 on failure) and the
      blob appended to the first share with that number. */
  method AddBlobToShare(fs: Store, dataDir: string, username: string, shareId: string, blob: string)
    requires '@' in username
    modifies fs
    ensures fs.shareFiles == old(fs.shareFiles)[SharesPath(dataDir, username) :=
                               AddToFirst(ShareData(old(fs.shareFiles), dataDir, username), ParseOrZero(shareId), blob)]
    ensures fs.files == old(fs.files)
  {
    var shares := ShareData(fs.shareFiles, dataDir, username);
    var added := Shares.AddBlobToShare(shares, ParseOrZero(shareId), blob);
    var _ := SetShareData(fs, dataDir, username, added);
  }

  /** The share files `delete_blob` leaves behind, as written: unchanged
      when the cascade panics, else with the id stripped from every share. */
  function SharesAfterDelete(shareFiles: map<string, seq<Share<string>>>, dataDir: string, username: string, id: string)
    : (r: map<string, seq<Share<string>>>)
    requires '@' in username
    ensures DeletePanics(ShareData(shareFiles, dataDir, username), id) ==> r == shareFiles
    ensures !DeletePanics(ShareData(shareFiles, dataDir, username), id) ==>
              ShareData(r, dataDir, username) == StripBlob(ShareData(shareFiles, dataDir, username), id)
  {
    if DeletePanics(ShareData(shareFiles, dataDir, username), id) then shareFiles
    else shareFiles[SharesPath(dataDir, username) := StripBlob(ShareData(shareFiles, dataDir, username), id)]
  }

  /** After `delete_blob` has removed the file, reading it fails. When the
      cascade completes, no share of the account grants access to the blob
      any more; when it panics, some share still lists the id of a blob that
      no longer exists. */
  lemma DeletedBlobUnreachable(shareFiles: map<string, seq<Share<string>>>, files: map<string, Bytes>, prim: Primitives,
                               dataDir: string, username: string, id: string,
                               shareId: string, secret: string, write: bool)
    requires '@' in username
    ensures ReadBlob(files - {BlobPath(dataDir, username, id)}, prim, dataDir, username, id).Err?
    ensures !DeletePanics(ShareData(shareFiles, dataDir, username), id) ==>
      CheckSharePermissions(SharesAfterDelete(shareFiles, dataDir, username, id), dataDir, username, shareId, secret, id, write).Some?
    ensures DeletePanics(ShareData(shareFiles, dataDir, username), id) ==>
      var left := ShareData(SharesAfterDelete(shareFiles, dataDir, username, id), dataDir, username);
      exists j :: 0 <= j < |left| && id in left[j].blobs
  {
    var shares := ShareData(shareFiles, dataDir, username);
    var after := SharesAfterDelete(shareFiles, dataDir, username, id);
    if DeletePanics(shares, id) {
      var j :| 0 <= j < |shares| && RemovalPanics(shares[j].blobs, id);
      var bs := shares[j].blobs;
      assert id in bs by {
        var k :| 0 <= k < |bs[..|bs| - 1]| && bs[..|bs| - 1][k] == id;
        assert bs[k] == id;
      }
    } else {
      var stripped := StripBlob(shares, id);
      match GetShareById(after, dataDir, username, shareId)
      case Err(_) =>
      case Ok(share) =>
        var j :| 0 <= j < |stripped| && stripped[j] == share;
        StripBlobSpec(shares, id, j);
    }
  }
}
