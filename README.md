# synxit-server core in Dafny

This project models the per-account core of the synxit server, which stores
end-to-end encrypted blobs. It covers:

- **Hex ids.** Every id is a 128-bit number that travels as 32 upper-case hex
  digits and is parsed back with "0 on failure" (`Hex`).
- **Password proof.** The client proves its password by hashing the challenge
  with the stored hash (`Security`).
- **Login state machine.** An account's sessions and auth sessions: create,
  look up, prove the password, record MFA steps, convert to a session, check
  expiry, log out (`Users.User`).
- **Account record.** The initial record, the rule that maps a handle to its
  directory, loading, the existence test, and MFA methods (`Account`,
  `Users`).
- **Blob store and shares, two generations.**
  - Textual ids: `SynxitBlobs`. This is the store the federation endpoint
    uses.
  - Typed ids: `TypedBlobs`.
  - Both generations share one record and the list edits on shares (`Shares`).
- **Federation endpoint.** The trust gate, share validation, and the order of
  checks in the `blobs`, `get`, `update`, `delete` and `new` actions
  (`WebFederation`).
- **Configuration.** The defaults, the tier lookup, and how each section of
  the TOML table is read into the configuration object (`Config`).

The file store is a class `Storage.FileStore`. Its map from path to bytes
holds account records and blobs. A second map holds the decoded share lists
by the path of their `shares.json`. The operations that write files are
methods on this store.

The account object is the class `Users.User`. Its session operations are
methods that update its fields. They are proved against specification
functions: `Users.Locate`, `Users.SessionAlive` and `Users.ConvertCheck`.

Foreign code becomes parameters:

- SHA-256 and base64 (`Storage.Primitives`);
- the TOTP check;
- random ids (a value, or a finite stream of draws);
- the clock (`now`);
- the available quota;
- the resolution of a handle to its server;
- the installed configuration.

Integer widths are written out:

- `u8` truncation of the MFA count;
- `u16` truncation of the port;
- `u64` casts of configured integers;
- the wrapping `u64` addition of the auth-session expiry;
- the checked addition of the session deadline.

## Model

| member | source | states |
|---|---|---|
| Hex.Hex32 | src/utils/mod.rs:9-11 | the rendering has 32 characters, each an upper-case hex digit, and parses back to the number |
| Hex.ParseOrZero | src/utils/mod.rs:13-18 | the parsed value when `from_str_radix(.., 16)` succeeds, 0 otherwise |
| Hex.HexRoundTrip | src/utils/mod.rs:9-18 | parsing the zero-padded 32-digit rendering gives the number back |
| Hex.ParseOrZeroOfHex32 | src/utils/mod.rs:9-18 | `char_hex_string_to_u128(u128_to_32_char_hex_string(n)) == n` for every n |
| Hex.Hex32Injective | src/utils/mod.rs:9-11 | two numbers have the same rendering exactly when they are equal |
| Hex.NumeralValueLowerBound | src/utils/mod.rs:14 | a numeral with a non-zero lead digit is worth at least 16^(length-1), the overflow bound the parser applies |
| Hex.NumeralValueUpperBound | src/utils/mod.rs:14 | a numeral of k digits is worth less than 16^k |
| Hex.ThirtyTwoDigitsParse | src/utils/mod.rs:13-18 | 32 hex digits always parse, to their value: they never overflow 128 bits |
| Hex.LongNumeralRejected | src/utils/mod.rs:13-18 | more than 32 significant digits overflow 128 bits: parsing fails and the result is 0 |
| Hex.NonDigitRejected | src/utils/mod.rs:13-18 | a non-hex character (other than a leading '+') makes parsing fail and the result 0 |
| Hex.NumeralValueIgnoresCase | src/utils/mod.rs:14 | upper-casing a hex numeral keeps it a numeral and keeps its value |
| Hex.ParseIgnoresCase | src/utils/mod.rs:14 | upper- and lower-case spellings parse to the same result |
| Hex.Decimal | src/web/federation.rs:204 | `to_string()` of a number: non-empty decimal digits, a single digit exactly below 10 |
| Hex.DecimalAsHexValue | src/synxit/user/blob.rs:164 | decimal text read as hex is worth at least the number, and more from 10 on |
| Hex.DecimalReadAsHex | src/synxit/user/blob.rs:164 | decimal text parsed as hex gives the number back exactly when it is below 10 |
| Security.ChallengeText | src/synxit/security.rs:6-13 | the hashed text is the 32-digit challenge followed by the stored hash |
| Security.VerifyChallengeResponse | src/synxit/security.rs:6-13 | accepted exactly when the response is the digest of a text made of the 32 challenge digits followed by the stored hash |
| Security.ChallengeTextUnique | src/synxit/security.rs:6-13 | the challenge text is the only text with those two parts |
| Security.ResponseBuiltInOrderAccepted | src/tests/mod.rs:41-50 | the digest of challenge digits then stored hash is accepted |
| Security.OtherStoredHashRejected | src/tests/mod.rs:52-56 | with an injective digest, that response is rejected against any other stored hash |
| Security.ChallengeBinding | src/synxit/security.rs:6-13 | with an injective digest, a response for one challenge is rejected for every other challenge |
| Security.ReversedOrderRejected | src/synxit/security.rs:6-13 | with an injective digest, hashing the stored hash first is rejected whenever the order matters |
| Account.UserSegment | src/synxit/user/mod.rs:164-172 | defined exactly when the handle has '@'; holds neither '@' nor ':' |
| Account.ResolveUserDataPath | src/synxit/user/mod.rs:164-172 | data dir + "/users/" + segment + "/" + path; none (the panic) when the handle has no '@' |
| Account.TakeUntilAppend | src/synxit/user/mod.rs:167-169 | splitting at a separator absent from a prefix keeps the prefix |
| Account.HandleResolvesToLocalPart | src/synxit/user/mod.rs:164-172 | the handle `@local:domain` names the directory `local` |
| Account.LowerAscii | src/synxit/user/mod.rs:146 | lower-casing keeps the length and lowers each character |
| Account.TakeUntilLower | src/synxit/user/mod.rs:146-147 | splitting at a non-letter commutes with lower-casing |
| Account.SegmentOfLowered | src/synxit/user/mod.rs:146-150 | the lowered handle's segment is the lowered segment |
| Account.Load | src/synxit/user/mod.rs:145-158 | succeeds exactly when the record file of the handle as given exists, and carries the lowered handle |
| Account.LowerFixedIffNoUpper | src/synxit/user/mod.rs:146 | lower-casing changes a text exactly when it has an upper-case letter |
| Account.SegmentPathsDiffer | src/synxit/user/mod.rs:164-172 | segments of one length give one path exactly when they are equal |
| Account.LoadAndSaveAgreeIffLowerCase | src/synxit/user/mod.rs:145-162 | a loaded record is saved to the file it came from exactly when the segment has no upper-case letter |
| Account.MixedCaseHandleChangesDirectory | src/synxit/user/mod.rs:145-162 | a mixed-case handle loads from one directory and saves to another |
| Account.UserExists | src/synxit/user/mod.rs:121-123 | corrected: true exactly when the record loads |
| Account.UserExistsAsWritten | src/synxit/user/mod.rs:121-123 | as written: true exactly when the handle's record does NOT load |
| Account.UserExistsAsWrittenIsInverted | src/synxit/user/mod.rs:121-123 | the test as written answers the opposite of the corrected one for every handle |
| Account.FindMethod | src/synxit/user/mod.rs:212 | finds a method exactly when the id is in use; with distinct ids it is the only one |
| Account.FreeIdExists | src/synxit/user/mod.rs:178-181 | fewer than 256 methods leave an 8-bit id free, so the retry can end |
| Account.NoFreeIdWhenAllTaken | src/synxit/user/mod.rs:178-181 | with all 256 ids taken every draw is in use, so the retry never ends |
| Users.Locate | src/synxit/user/sessions.rs:30-61 | `InvalidId` exactly when the id is not hex, `Missing` exactly when no entry has it, otherwise the first entry with it |
| Users.SessionAlive | src/synxit/user/sessions.rs:137-148 | true exactly when the session exists and `last_used + timeout` neither overflows nor is at or before now |
| Users.ConvertCheck | src/synxit/user/sessions.rs:98-122 | `not_found`, then `require_password`, then `require_mfa` when MFA is on and `len as u8 < min_methods`, else pass |
| Users.CheckMfa | src/synxit/user/mod.rs:211-227 | true exactly when the first method with the id is TOTP and the code checks; never for an unknown id or U2F |
| Users.User.constructor | src/synxit/user/mod.rs:98-119 | no sessions or auth sessions, MFA off with no methods or codes, minimum 0, empty encrypted fields |
| Users.User.CreateSession | src/synxit/user/sessions.rs:7-16 | appends one session created and used at now, not root; returns the hex token that parses to the id |
| Users.User.CreateAuthSession | src/synxit/user/sessions.rs:18-28 | appends one auth session expiring at now+3600 (wrapping), no MFA, password unproved; returns its token |
| Users.User.DeleteAuthSessionById | src/synxit/user/sessions.rs:63-69 | a hex id removes every auth session with it; any other id changes nothing |
| Users.User.DeleteSessionById | src/synxit/user/sessions.rs:71-79 | true exactly when the id is hex, even with no match; then every session with it is removed |
| Users.User.CheckPasswordForAuthSession | src/synxit/user/sessions.rs:81-96 | true exactly when the auth session exists and the proof passes the challenge check; sets its flag only then |
| Users.User.ConvertAuthSessionToSession | src/synxit/user/sessions.rs:98-123 | fails with the first refusal of the gate and changes nothing; on success swaps the auth session for a live session |
| Users.User.DeleteAllSessions | src/synxit/user/sessions.rs:125-130 | no sessions and no auth sessions remain |
| Users.User.DeleteAllAuthSessions | src/synxit/user/sessions.rs:132-135 | no auth sessions remain; sessions unchanged |
| Users.User.AuthSessionAddCompletedMfa | src/synxit/user/sessions.rs:150-157 | appends the method id to the found auth session, duplicates kept; unknown id changes nothing |
| Users.User.CreateMfa | src/synxit/user/mod.rs:174-209 | appends one enabled method with the first unused draw as id, name and data by kind; keeps ids distinct |
| Users.RemovedIdMissing | src/synxit/user/sessions.rs:63-69 | after removal no auth session answers to the id |
| Users.AppendedSessionFound | src/synxit/user/sessions.rs:7-16 | the token of an appended session finds a session |
| Users.NewSessionAlive | src/synxit/user/sessions.rs:137-148 | a new session with a fresh id is alive exactly until `timeout` seconds have passed |
| Users.DeletedSessionDead | src/synxit/user/sessions.rs:71-79 | after logout the id is never alive |
| Users.OverflowingSessionDead | src/synxit/user/sessions.rs:137-148 | a session whose deadline overflows u64 is never alive |
| Users.ConvertIgnoresExpiry | src/synxit/user/sessions.rs:98-123 | changing any `expires_at` changes no answer of the gate |
| Users.MfaCountWrapsAt256 | src/synxit/user/sessions.rs:102-110 | 256 completed steps count as none, so the gate refuses |
| Users.RepeatedMethodPassesGate | src/synxit/user/sessions.rs:102-110 | completing one method `min_methods` times passes the gate |
| Users.PasswordAlwaysRequired | src/synxit/user/sessions.rs:98-122 | no password, no conversion; with MFA off the password alone suffices |
| Users.LoginScenario | src/synxit/user/sessions.rs:18-135 | create, prove, convert: the session is alive; after logout it is not |
| Shares.FindShare | src/synxit/user/blob.rs:176-184 | the first share with the id, `SHARE_NOT_FOUND` exactly when none has it |
| Shares.Permission | src/synxit/user/blob.rs:164-173 | `WRONG_SECRET`, then `BLOB_IS_NOT_IN_SHARE`, then `NO_WRITE_ACCESS`; pass exactly when the secret matches, the blob is listed and a write is granted |
| Shares.WriteImpliesRead | src/synxit/user/blob.rs:155-174 | a write grant implies a read grant; after a read grant the write grant is the share's flag |
| Shares.StripBlob | src/synxit/user/blob.rs:186-197 | the intended effect: each share keeps every entry but the blob |
| Shares.StripBlobSpec | src/synxit/user/blob.rs:186-197 | after stripping, no share lists the blob, every other blob stays, id, secret and flag untouched |
| Shares.StripAbsentBlob | src/synxit/user/blob.rs:186-197 | stripping a blob no share lists changes nothing |
| Shares.RemoveFromListAsWritten | src/synxit/user/blob.rs:189-193 | as written: panics exactly when the blob occurs before the last place; otherwise removes it |
| Shares.WithoutAppend | src/synxit/user/blob.rs:189-193 | removing a value that only ends the list drops the last element |
| Shares.DeleteSharedBlobAsWritten | src/synxit/user/blob.rs:186-197 | as written: panics exactly when some share panics; otherwise equals the intended effect |
| Shares.RemovalPanicWitness | src/synxit/user/blob.rs:189-193 | ["A","B"] minus "A" panics as written; intended ["B"] |
| Shares.DeleteSharedBlob | src/synxit/user/blob.rs:186-197 | corrected loop: the intended effect, for every list |
| Shares.AddToFirst | src/synxit/user/blob.rs:199-213 | the blob is appended to the first share with the id only; no match leaves the list unchanged |
| Shares.AddBlobToShare | src/synxit/user/blob.rs:204-210 | the loop with `break` computes exactly that effect |
| Shares.AddedBlobIsListed | src/synxit/user/blob.rs:199-213 | after adding, the lookup by the same id lists the blob |
| SynxitBlobs.FormattedIdValid | src/synxit/user/blob.rs:56-61 | every drawn id is valid, so the retry guard is always false |
| SynxitBlobs.IsValidBlobId | src/synxit/user/blob.rs:41-43 | exactly 32 characters, each an ASCII hex digit; every valid id parses as a 128-bit number |
| SynxitBlobs.BlobPath | src/synxit/user/blob.rs:45-47 | the account's `blobs/` directory followed by the id |
| SynxitBlobs.BlobPathsDistinct | src/synxit/user/blob.rs:45-47 | distinct numbers name distinct blob files |
| SynxitBlobs.ShareData | src/synxit/user/blob.rs:128-138 | the stored list, or empty when there is none |
| SynxitBlobs.SetShareData | src/synxit/user/blob.rs:140-153 | replaces the account's list; blobs untouched; answers true |
| SynxitBlobs.GetShareById | src/synxit/user/blob.rs:176-184 | the FIRST listed share with the id parsed "0 on failure", or `SHARE_NOT_FOUND` exactly when none has it |
| SynxitBlobs.UnparsableShareIdMeansZero | src/synxit/user/blob.rs:177 | an id that does not parse looks up share 0 |
| SynxitBlobs.CheckSharePermissions | src/synxit/user/blob.rs:155-174 | lookup error first; then `WRONG_SECRET`, `BLOB_IS_NOT_IN_SHARE`, `NO_WRITE_ACCESS` and success, each exactly under its condition, the secret hex-parsed |
| SynxitBlobs.ReadBlob | src/synxit/user/blob.rs:69-85 | `BLOB_NOT_FOUND` exactly for an invalid id or a missing file; else base64 and SHA-256 of the bytes |
| SynxitBlobs.UpdateBlob | src/synxit/user/blob.rs:87-112 | invalid id, missing, decode, hash, quota on text length, in that order; writes only when all pass; returns the new hash |
| SynxitBlobs.ReadHashAcceptedByUpdate | src/synxit/user/blob.rs:78-102 | the hash `read_blob` reports is accepted by `update_blob` |
| SynxitBlobs.StaleHashRejected | src/synxit/user/blob.rs:99-102 | after a hash-changing update, the old hash is refused |
| SynxitBlobs.InvalidIdRejectedFirst | src/synxit/user/blob.rs:71-73 | an invalid id is refused whatever the store holds |
| SynxitBlobs.CreateBlob | src/synxit/user/blob.rs:49-67 | decode error, quota on text length, else writes the bytes under the drawn id and returns its hash; readable after |
| SynxitBlobs.DeleteBlob | src/synxit/user/blob.rs:114-126 | as written: false and no change for an invalid or missing id; else the file is removed, then either the cascade panics (no answer, share list untouched) or every share is stripped and the answer is true |
| SynxitBlobs.DeleteSharedBlob | src/synxit/user/blob.rs:186-197 | as written: panics exactly when some share's loop panics, leaving the list file as it was; otherwise the list becomes the stripped list |
| SynxitBlobs.DeleteSharedBlobCorrected | src/synxit/user/blob.rs:186-197 | corrected: the account's list always becomes the stripped list |
| SynxitBlobs.AddBlobToShare | src/synxit/user/blob.rs:199-213 | the account's list gets the blob in the first share with the parsed id |
| SynxitBlobs.SharesAfterDelete | src/synxit/user/blob.rs:114-126 | the share files after `delete_blob`: unchanged when the cascade panics, else the account's list stripped |
| SynxitBlobs.DeletedBlobUnreachable | src/synxit/user/blob.rs:114-126 | after the file is removed reading fails; if the cascade completes no share grants the blob, and if it panics some share still lists the vanished blob |
| TypedBlobs.BlobIdText | src/user/blob.rs:37-41 | 32 characters parsing back to the id |
| TypedBlobs.ParseBlobId | src/user/blob.rs:43-47 | the parsed value, or 0 when parsing fails |
| TypedBlobs.BlobIdRoundTrip | src/user/blob.rs:37-47 | text then parse gives the id back; the text form is injective |
| TypedBlobs.BlobPath | src/user/blob.rs:105-108 | the account's `blobs/` directory followed by the id's text |
| TypedBlobs.BlobPathInjective | src/user/blob.rs:105-108 | distinct ids name distinct files |
| TypedBlobs.ShareData | src/user/blob.rs:178-185 | the stored list, or empty when absent |
| TypedBlobs.SetShareData | src/user/blob.rs:187-194 | replaces the account's list; blobs untouched |
| TypedBlobs.GetShareById | src/user/blob.rs:215-222 | the FIRST listed share with the id, or `SHARE_NOT_FOUND` exactly when none has it |
| TypedBlobs.CheckSharePermissions | src/user/blob.rs:196-213 | lookup error first; then `WRONG_SECRET`, `BLOB_IS_NOT_IN_SHARE`, `NO_WRITE_ACCESS` and success, each exactly under its condition |
| TypedBlobs.ValidateShareAccess | src/user/blob.rs:249-259 | `SHARE_NOT_FOUND`, then `WRONG_SECRET`, otherwise the share |
| TypedBlobs.ValidateBlobAccess | src/user/blob.rs:261-270 | the share check's error first, else the per-blob check |
| TypedBlobs.BlobAccessIsPermissionCheck | src/user/blob.rs:249-270 | the combined check always equals the per-blob check |
| TypedBlobs.ReadBlob | src/user/blob.rs:126-136 | `BLOB_NOT_FOUND` exactly when the file is missing; else base64 and hash |
| TypedBlobs.UpdateBlob | src/user/blob.rs:138-165 | missing, decode, hash, quota on decoded length, in order; writes only when all pass |
| TypedBlobs.ReadHashAcceptedByUpdate | src/user/blob.rs:126-165 | the hash `read_blob` reports is accepted by `update_blob` |
| TypedBlobs.StaleHashRejected | src/user/blob.rs:138-165 | after a hash-changing update, the old hash is refused |
| TypedBlobs.FirstAbsent | src/user/blob.rs:117-120 | the retry loop stops at the first candidate whose file is absent |
| TypedBlobs.CreateBlob | src/user/blob.rs:110-124 | decode error, quota on decoded length (no change), else writes under the first free draw and returns the hash |
| TypedBlobs.DeleteBlob | src/user/blob.rs:167-176 | as written: false and no change when missing; else the file is removed, then either the cascade panics (no answer, share list untouched) or every share is stripped and the answer is true |
| TypedBlobs.DeleteSharedBlob | src/user/blob.rs:224-235 | as written: panics exactly when some share's loop panics, leaving the list file as it was; otherwise the list becomes the stripped list |
| TypedBlobs.DeleteSharedBlobCorrected | src/user/blob.rs:224-235 | corrected: the account's list always becomes the stripped list |
| TypedBlobs.AddBlobToShare | src/user/blob.rs:237-247 | the blob goes into the first share with the id only |
| TypedBlobs.AddedBlobReadable | src/user/blob.rs:237-247 | a blob added to a share passes that share's read check |
| Config.NetworkAfter | src/synxit/config.rs:206-215 | no section, no change; a present port is stored `as u16` |
| Config.StorageAfter | src/synxit/config.rs:218-230 | no section, no change |
| Config.AuthAfter | src/synxit/config.rs:233-250 | no section, no change; a timeout is stored `as u64` |
| Config.AuthIdempotent | src/synxit/config.rs:169-197 | reading the auth section twice equals reading it once |
| Config.TiersOf | src/synxit/config.rs:253-274 | never more tiers than entries |
| Config.TiersOfExact | src/synxit/config.rs:253-274 | a tier is read exactly when some entry is a complete tier table |
| Config.AllCompleteTiersKept | src/synxit/config.rs:253-274 | all-complete entries give exactly as many tiers |
| Config.HostsOf | src/synxit/config.rs:289-307 | hosts are exactly the string entries |
| Config.HostListAfter | src/synxit/config.rs:284-308 | `enable` defaults to false; no `hosts` array keeps the hosts |
| Config.FederationAfter | src/synxit/config.rs:277-310 | no section, no change; otherwise `enabled` is its boolean or false |
| Config.EnabledKeyIgnoredForLists | src/synxit/config.rs:277-310 | a list switched on with `enabled` stays off |
| Config.GetTier | src/synxit/config.rs:163-165 | the first tier with the id, none exactly when no tier has it |
| Config.Config.constructor | src/synxit/config.rs:69-106 | defaults: port 8044 on 127.0.0.1, the three directories, 604800/60/registration on, no tiers, federation on with both lists off |
| Config.Config.ParseNetworkConfig | src/synxit/config.rs:206-215 | only the network changes, to its reading |
| Config.Config.ParseStorageConfig | src/synxit/config.rs:218-230 | only the directories change |
| Config.Config.ParseAuthConfig | src/synxit/config.rs:233-250 | only the auth settings change |
| Config.Config.ParseTiersConfig | src/synxit/config.rs:253-274 | a present array replaces the tiers with its complete entries in order; otherwise no change |
| Config.Config.ParseFederationConfig | src/synxit/config.rs:277-310 | only the federation settings change |
| Config.LoadConfig | src/synxit/config.rs:169-197 | defaults without a file; otherwise each section read over the defaults |
| WebFederation.ServerOf | src/web/federation.rs:22-24 | "" when the handle does not resolve |
| WebFederation.FederationInForce | src/web/federation.rs:20-21 | the defaults when no configuration is installed |
| WebFederation.TrustGate | src/web/federation.rs:25-38 | passes exactly when federation is on, an enabled whitelist lists the server and an enabled blacklist does not; refusals are `REMOTE_ERROR` |
| WebFederation.DefaultFederationTrustsEveryServer | src/web/federation.rs:20-38 | with the defaults every server passes |
| WebFederation.BlacklistOverridesWhitelist | src/web/federation.rs:26-35 | a server on both enabled lists is refused |
| WebFederation.UnresolvedHandleNeedsEmptyHost | src/web/federation.rs:22-30 | an unresolved handle passes an enabled whitelist only if it lists "" |
| WebFederation.ValidateShareAccess | src/web/federation.rs:343-358 | `SHARE_NOT_FOUND` when the lookup fails, else `WRONG_SECRET` when the secret differs, else the share |
| WebFederation.SecretTextAsWritten | src/web/federation.rs:204 | the decimal text parses back to the secret exactly when it is below 10 |
| WebFederation.SecretText | src/web/federation.rs:204 | corrected: the hex text always parses back to the secret |
| WebFederation.AccessCheckAsWritten | src/web/federation.rs:191-209 | as written: passes exactly when the share exists with the secret, the owner loads, the secret is below 10, the blob is listed and a write is granted; else one of four errors |
| WebFederation.AccessCheck | src/web/federation.rs:191-209 | passes exactly when the share exists with the secret, the owner loads, the blob is listed and a write is granted; else one of four errors |
| WebFederation.LargeSecretLockedOutAsWritten | src/web/federation.rs:201-209 | a secret of 10 or more always fails the written check; where the corrected check passes, the answer is `BLOB_IS_NOT_IN_SHARE` |
| WebFederation.SmallSecretAgrees | src/web/federation.rs:201-209 | below 10 the written and corrected checks agree |
| WebFederation.HandleBlobs | src/web/federation.rs:164-181 | succeeds exactly when the secret matches, with the share's blobs and write flag |
| WebFederation.HandleGet | src/web/federation.rs:183-218 | as written: the access error, else `BLOB_NOT_FOUND` or the content and hash of the lower-cased owner's blob; success only with a secret below 10 |
| WebFederation.HandleUpdate | src/web/federation.rs:220-256 | as written: the access error and no change, else `update_blob` on the lower-cased owner; success only with a secret below 10 |
| WebFederation.HandleDelete | src/web/federation.rs:258-301 | as written: the access error, the read error or `BLOB_HASH_NOT_MATCH` with no change; else the file goes and the answer is `Crash` (shares untouched) when the cascade panics, success with stripped shares otherwise |
| WebFederation.HandleNew | src/web/federation.rs:303-341 | share error, `NO_WRITE_ACCESS`, `USER_NOT_FOUND`, decode error or quota error with no change; otherwise the new files and share lists exactly, and the new blob is readable and listed |
| WebFederation.NewBlobListed | src/web/federation.rs:330-334 | after adding, the share lookup lists the new blob |
| WebFederation.HandleFederation | src/web/federation.rs:17-53 | gate first, then dispatch; `blobs` and `get` equal their handlers; unknown action `INVALID_ACTION`; only update, delete and new change storage; get, update and delete succeed only with a secret below 10 |
| WebFederation.CreatedBlobReadable | src/web/federation.rs:325-339 | a created blob reads back with its content and hash |

## Left out

- HTTP and JSON are not modelled: request parsing, response bodies, serde. Requests arrive as a `Request` value whose missing fields are empty strings.
- The federation proxy action (src/web/federation.rs:55-162, 360-372) is an outbound network call. Dispatch yields `Proxied` and nothing further is modelled.
- File I/O and directories are left out: `create_blob_dir`, `read_dir`, `User::all`, `save`, record (de)serialisation. Files are a map, and a record file counts as loadable when it exists.
- SHA-256, base64 and TOTP are uninterpreted parameters. Randomness is a parameter (`random_u128`, `rand::random::<u8>`), and so is the clock (`current_time`).
- `Users.User.CreateSession`: the source reads the clock twice (created and last used). The model uses one `now` for both.
- The quota sources (`get_available_quota` and the tier quota) are not part of this model. The available quota is a parameter.
- `resolve_user` is not part of this model. Its result is the parameter `resolved`.
- `new_blob` is not part of this model. The `new` action is modelled with `create_blob`'s behaviour.
- `Account.LowerAscii`: `to_lowercase` is modelled on ASCII letters only. Unicode case mapping is out.
- `Users.User.CreateMfa`: the random retry is a finite draw stream with a free id in it. `Account.NoFreeIdWhenAllTaken` states the non-terminating case.
- `TypedBlobs.CreateBlob`: likewise, the retry runs over a finite draw stream with a free id in it.
- Handles without '@': src/synxit/user/blob.rs:129 and :141 match on the path resolver as if it returned a Result, but src/synxit/user/mod.rs:164-172 returns a String and panics on the missing split piece. The model follows mod.rs: every store operation requires '@', and the federation actions answer `Crash`.
- Blob files: a read failure after the existence test is not distinguished from a missing file.
- `load_config`'s file read and global, the logger, and `Storage::init`/`clean`/`delete_temp` are left out. The older `src/synxit/config/mod.rs` is left out too. `Config.LoadConfig` takes the parsed table, or none.
- `verify_totp_code` and the inline password check: both are the same predicate as `Security.VerifyChallengeResponse`, used directly by `Users.User.CheckPasswordForAuthSession`.
- `WebFederation.HandleFederation`: the `update`, `delete` and `new` branches are not equated to their handlers in this contract; what they compute is in the handlers' own contracts.
- `Users.User.CreateAuthSession`: `current_time() + 3600` is modelled with release-build wrap-around. The overflow panic of a debug build is not modelled.

## Findings

The federation handlers and both `delete_blob` members follow the code as written. The corrected members are kept beside them: `WebFederation.AccessCheck` (related to the written check by `WebFederation.SmallSecretAgrees` and `WebFederation.LargeSecretLockedOutAsWritten`), and `Shares.DeleteSharedBlob` with the store-level `SynxitBlobs.DeleteSharedBlobCorrected` and `TypedBlobs.DeleteSharedBlobCorrected`.

| source | as written | input that shows it | evidently intended | confidence | as-written member | corrected member |
|---|---|---|---|---|---|---|
| src/synxit/user/blob.rs:186-197 | the index runs to the original length while `remove(i)` shortens the list | a share listing ["A","B"], deleting "A": index 1 is out of range on a one-element list | every occurrence removed from every share (a `retain`) | not executed | Shares.RemoveFromListAsWritten | Shares.DeleteSharedBlob |
| src/web/federation.rs:204 | the parsed secret is passed on as decimal text, and `check_share_permissions` reparses it as hex | a share with secret 0x10 listing the blob: `get` answers `BLOB_IS_NOT_IN_SHARE` | the secret passed in a form that parses back to itself | not executed | WebFederation.LargeSecretLockedOutAsWritten | WebFederation.AccessCheck |
| src/synxit/user/mod.rs:121-123 | `user_exists` negates the file test | a registered handle: answers false | true exactly when the record exists | not executed | Account.UserExistsAsWrittenIsInverted | Account.UserExists |
