/** Shares: capabilities over a list of blobs, kept per account in a share
    list. Both generations of the blob store use the same record (an id, the
    listed blobs, a write flag and a secret) and the same list edits; only the
    blob id type `B` differs, so the record and its edits are generic here. */
module Shares {

  import opened Wrappers
  import opened Ints
  import opened Errors
  import Seqs

  datatype Share<B> = Share(id: U128, blobs: seq<B>, write: bool, secret: U128)

  function ShareKey<B>(s: Share<B>): U128 { s.id }

  /** `get_share_by_id` once the list is read: the first share with the id,
      or `SHARE_NOT_FOUND`. */
  function FindShare<B>(shares: seq<Share<B>>, id: U128): (r: Result<Share<B>, Error>)
    ensures r.Err? <==> forall j :: 0 <= j < |shares| ==> shares[j].id != id
    ensures r.Err? ==> r.error == ShareNotFound
    ensures r.Ok? ==> exists j :: 0 <= j < |shares| && shares[j] == r.value && r.value.id == id &&
                                  (forall k :: 0 <= k < j ==> shares[k].id != id)
  {
    match Seqs.IndexOfKey(shares, ShareKey, id)
    case None => Err(ShareNotFound)
    case Some(j) => Ok(shares[j])
  }

  /** The checks of `check_share_permissions` after the lookup, first failure
      wins: secret, then membership, then write access. */
  function Permission<B(==,!new)>(share: Share<B>, secret: U128, blob: B, write: bool): (r: Option<Error>)
    ensures r.None? <==> secret == share.secret && blob in share.blobs && (!write || share.write)
    ensures r == Some(WrongSecret) <==> secret != share.secret
    ensures r == Some(BlobNotInShare) <==> secret == share.secret && blob !in share.blobs
    ensures r == Some(NoWriteAccess) <==> secret == share.secret && blob in share.blobs && write && !share.write
  {
    if secret != share.secret then Some(WrongSecret)
    else if blob !in share.blobs then Some(BlobNotInShare)
    else if write && !share.write then Some(NoWriteAccess)
    else None
  }

  /** A share whose read check passes keeps passing the write check exactly
      when it grants write access; a write grant implies a read grant. */
  lemma WriteImpliesRead<B(!new)>(share: Share<B>, secret: U128, blob: B)
    ensures Permission(share, secret, blob, true).None? ==> Permission(share, secret, blob, false).None?
    ensures Permission(share, secret, blob, false).None? ==>
              (Permission(share, secret, blob, true).None? <==> share.write)
  {
  }

  // ---------------------------------------------------------------------------
  // Removing a blob from every share

  /** Every share with every occurrence of `blob` removed: the intended
      effect of `delete_shared_blob`. */
  function StripBlob<B(==,!new)>(shares: seq<Share<B>>, blob: B): (r: seq<Share<B>>)
    ensures |r| == |shares|
    ensures forall j :: 0 <= j < |r| ==>
      r[j] == shares[j].(blobs := Seqs.Without(shares[j].blobs, blob))
  {
    seq(|shares|, j requires 0 <= j < |shares| => shares[j].(blobs := Seqs.Without(shares[j].blobs, blob)))
  }

  /** After stripping, no share lists the blob, every other blob is still
      listed where it was, and ids, secrets and write flags are untouched. */
  lemma StripBlobSpec<B(!new)>(shares: seq<Share<B>>, blob: B, j: nat)
    requires j < |shares|
    ensures blob !in StripBlob(shares, blob)[j].blobs
    ensures forall x :: x != blob ==> (x in StripBlob(shares, blob)[j].blobs <==> x in shares[j].blobs)
    ensures StripBlob(shares, blob)[j].id == shares[j].id
    ensures StripBlob(shares, blob)[j].secret == shares[j].secret
    ensures StripBlob(shares, blob)[j].write == shares[j].write
  {
  }

  /** Stripping a blob that no share lists changes nothing. */
  lemma StripAbsentBlob<B(!new)>(shares: seq<Share<B>>, blob: B)
    requires forall j :: 0 <= j < |shares| ==> blob !in shares[j].blobs
    ensures StripBlob(shares, blob) == shares
  {
  }

  /** The in-place loop over one share's list as written: the index runs over
      the ORIGINAL length while `remove(i)` shortens the list, so a removal
      anywhere but the last place is followed by an index past the end. */
  predicate RemovalPanics<B(==,!new)>(bs: seq<B>, blob: B) {
    |bs| > 0 && blob in bs[..|bs| - 1]
  }

  /** `for i in 0..len { if blobs[i] == blob { blobs.remove(i) } }` as
      written; None stands for the out-of-range panic. */
  method RemoveFromListAsWritten<B(==,!new)>(bs: seq<B>, blob: B) returns (r: Option<seq<B>>)
    ensures r.None? <==> RemovalPanics(bs, blob)
    ensures r.Some? ==> r.value == Seqs.Without(bs, blob)
  {
    var n := |bs|;
    var cur := bs;
    var removed := false;
    var i := 0;
    while i < n
      invariant 0 <= i <= n
      invariant !removed ==> cur == bs && blob !in bs[..i]
      invariant removed ==>
        (i == n && n > 0 && cur == bs[..n - 1] && bs[n - 1] == blob && blob !in bs[..n - 1]) ||
        (i < n && |cur| < n && blob in bs[..n - 1])
    {
      if i >= |cur| {
        return None;
      }
      if cur[i] == blob {
        if !removed {
          assert bs[..i + 1] == bs[..i] + [blob];
          if i < n - 1 {
            assert bs[i] == bs[..n - 1][i];
          }
        }
        cur := cur[..i] + cur[i + 1..];
        removed := true;
      } else if !removed {
        assert bs[..i + 1] == bs[..i] + [bs[i]];
      }
      i := i + 1;
    }
    if removed {
      assert bs == bs[..n - 1] + [blob];
      WithoutAppend(bs[..n - 1], [blob], blob);
    } else {
      assert bs[..n] == bs;
    }
    r := Some(cur);
  }

  lemma {:induction false} WithoutAppend<B(!new)>(a: seq<B>, b: seq<B>, v: B)
    requires v !in a
    requires b == [v]
    ensures Seqs.Without(a + b, v) == a
  {
    if |a| == 0 {
      assert a + b == [v];
      assert Seqs.Without([v], v) == Seqs.Without([v][1..], v);
    } else {
      assert (a + b)[0] == a[0];
      assert (a + b)[1..] == a[1..] + b;
      WithoutAppend(a[1..], b, v);
      assert [a[0]] + a[1..] == a;
    }
  }

  /** Some share's list makes the removal loop panic. */
  predicate DeletePanics<B(==,!new)>(shares: seq<Share<B>>, blob: B) {
    exists j :: 0 <= j < |shares| && RemovalPanics(shares[j].blobs, blob)
  }

  /** `delete_shared_blob`'s loop over the shares as written: it panics as
      soon as one share panics, and otherwise agrees with `StripBlob`. */
  method DeleteSharedBlobAsWritten<B(==,!new)>(shares: seq<Share<B>>, blob: B) returns (r: Option<seq<Share<B>>>)
    ensures r.None? <==> DeletePanics(shares, blob)
    ensures r.Some? ==> r.value == StripBlob(shares, blob)
  {
    var out: seq<Share<B>> := [];
    var j := 0;
    while j < |shares|
      invariant 0 <= j <= |shares|
      invariant forall k :: 0 <= k < j ==> !RemovalPanics(shares[k].blobs, blob)
      invariant out == StripBlob(shares[..j], blob)
    {
      var s := shares[j];
      var kept := RemoveFromListAsWritten(s.blobs, blob);
      if kept.None? {
        return None;
      }
      out := out + [s.(blobs := kept.value)];
      assert shares[..j + 1] == shares[..j] + [s];
      j := j + 1;
    }
    assert shares[..j] == shares;
    r := Some(out);
  }

  /** Concrete witness: a share listing ["A", "B"] panics when "A" is
      deleted, although the intended result ["B"] is well defined. */
  method RemovalPanicWitness() returns (asWritten: Option<seq<string>>, intended: seq<string>)
    ensures asWritten.None?
    ensures intended == ["B"]
  {
    assert ["A", "B"][..1] == ["A"];
    asWritten := RemoveFromListAsWritten(["A", "B"], "A");
    intended := Seqs.Without(["A", "B"], "A");
    assert ["A", "B"][1..] == ["B"];
    assert Seqs.Without(["B"], "A") == ["B"] + Seqs.Without([], "A");
  }

  /** The corrected `delete_shared_blob`: each share's list keeps every entry
      but the blob (a `retain`), for every list, with no panic. */
  method DeleteSharedBlob<B(==,!new)>(shares: seq<Share<B>>, blob: B) returns (r: seq<Share<B>>)
    ensures r == StripBlob(shares, blob)
  {
    r := [];
    var j := 0;
    while j < |shares|
      invariant 0 <= j <= |shares|
      invariant r == StripBlob(shares[..j], blob)
    {
      r := r + [shares[j].(blobs := Seqs.Without(shares[j].blobs, blob))];
      assert shares[..j + 1] == shares[..j] + [shares[j]];
      j := j + 1;
    }
    assert shares[..j] == shares;
  }

  // ---------------------------------------------------------------------------
  // Adding a blob to a share

  /** The effect of `add_blob_to_share`: the blob is appended to the first
      share with the id; without such a share the list is unchanged. */
  function AddToFirst<B>(shares: seq<Share<B>>, id: U128, blob: B): (r: seq<Share<B>>)
    ensures |r| == |shares|
    ensures (forall j :: 0 <= j < |shares| ==> shares[j].id != id) ==> r == shares
    ensures forall j :: 0 <= j < |shares| && shares[j].id == id &&
                        (forall k :: 0 <= k < j ==> shares[k].id != id) ==>
              r == shares[j := shares[j].(blobs := shares[j].blobs + [blob])]
  {
    match Seqs.IndexOfKey(shares, ShareKey, id)
    case None => shares
    case Some(j) => shares[j := shares[j].(blobs := shares[j].blobs + [blob])]
  }

  /** `for share in &mut shares { if share.id == id { push; break } }`. */
  method AddBlobToShare<B>(shares: seq<Share<B>>, id: U128, blob: B) returns (r: seq<Share<B>>)
    ensures r == AddToFirst(shares, id, blob)
  {
    r := shares;
    var j := 0;
    while j < |r|
      invariant 0 <= j <= |r| && r == shares
      invariant forall k :: 0 <= k < j ==> shares[k].id != id
    {
      if r[j].id == id {
        r := r[j := r[j].(blobs := r[j].blobs + [blob])];
        break;
      }
      j := j + 1;
    }
  }

  /** After adding, the blob is listed in the share that the lookup by the
      same id returns, and every other share is as before. */
  lemma AddedBlobIsListed<B>(shares: seq<Share<B>>, id: U128, blob: B)
    requires FindShare(shares, id).Ok?
    ensures FindShare(AddToFirst(shares, id, blob), id).Ok?
    ensures blob in FindShare(AddToFirst(shares, id, blob), id).value.blobs
  {
    var j :| 0 <= j < |shares| && shares[j] == FindShare(shares, id).value && shares[j].id == id &&
             (forall k :: 0 <= k < j ==> shares[k].id != id);
    var after := AddToFirst(shares, id, blob);
    assert after == shares[j := shares[j].(blobs := shares[j].blobs + [blob])];
    assert after[j].blobs[|shares[j].blobs|] == blob;
    var found := FindShare(after, id).value;
    var j' :| 0 <= j' < |after| && after[j'] == found && found.id == id &&
              (forall k :: 0 <= k < j' ==> after[k].id != id);
    assert j' == j;
  }
}
