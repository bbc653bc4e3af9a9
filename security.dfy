/** The password proof of the login protocol: a response is accepted when it
    equals SHA-256 over the 32-digit hexadecimal challenge followed by the
    stored password hash. SHA-256 over text is the parameter `sha`. */
module Security {

  import opened Ints
  import opened Hex

  /** The text the client hashes: challenge digits first, stored hash second. */
  function ChallengeText(challenge: U128, passwordHash: string): (t: string)
    ensures |t| == 32 + |passwordHash|
    ensures t[..32] == Hex32(challenge) && t[32..] == passwordHash
  {
    Hex32(challenge) + passwordHash
  }

  /** `verify_challenge_response`: the response must be the digest of a text
      made of the challenge digits followed by the stored hash. */
  predicate VerifyChallengeResponse(sha: string -> string, challenge: U128, response: string, passwordHash: string)
    ensures VerifyChallengeResponse(sha, challenge, response, passwordHash) <==>
      exists t :: |t| == 32 + |passwordHash| && t[..32] == Hex32(challenge) && t[32..] == passwordHash && response == sha(t)
  {
    ChallengeTextUnique(challenge, passwordHash);
    response == sha(ChallengeText(challenge, passwordHash))
  }

  /** The challenge text is the only text with those two parts. */
  lemma ChallengeTextUnique(challenge: U128, passwordHash: string)
    ensures forall t :: |t| == 32 + |passwordHash| && t[..32] == Hex32(challenge) && t[32..] == passwordHash ==>
                          t == ChallengeText(challenge, passwordHash)
  {
    forall t | |t| == 32 + |passwordHash| && t[..32] == Hex32(challenge) && t[32..] == passwordHash
      ensures t == ChallengeText(challenge, passwordHash)
    {
      assert t == t[..32] + t[32..];
    }
  }

  /** A digest function that never maps two texts to one digest. */
  ghost predicate Injective(sha: string -> string) {
    forall a, b :: sha(a) == sha(b) ==> a == b
  }

  /** The response a client builds from the challenge and the stored hash, in
      that order, is accepted. */
  lemma ResponseBuiltInOrderAccepted(sha: string -> string, challenge: U128, passwordHash: string)
    ensures VerifyChallengeResponse(sha, challenge, sha(Hex32(challenge) + passwordHash), passwordHash)
  {
  }

  /** The same response is rejected against any other stored hash. */
  lemma OtherStoredHashRejected(sha: string -> string, challenge: U128, passwordHash: string, otherHash: string)
    requires Injective(sha)
    requires otherHash != passwordHash
    ensures !VerifyChallengeResponse(sha, challenge, sha(ChallengeText(challenge, passwordHash)), otherHash)
  {
    var t1, t2 := ChallengeText(challenge, passwordHash), ChallengeText(challenge, otherHash);
    assert t1[32..] != t2[32..];
  }

  /** A proof computed for one challenge is rejected for every other challenge
      under the same stored hash: each proof is bound to one login attempt. */
  lemma ChallengeBinding(sha: string -> string, challenge: U128, otherChallenge: U128, passwordHash: string)
    requires Injective(sha)
    requires otherChallenge != challenge
    ensures !VerifyChallengeResponse(sha, otherChallenge, sha(ChallengeText(challenge, passwordHash)), passwordHash)
  {
    var t1, t2 := ChallengeText(challenge, passwordHash), ChallengeText(otherChallenge, passwordHash);
    Hex32Injective(challenge, otherChallenge);
    assert t1[..32] != t2[..32];
  }

  /** Reversing the order (stored hash first) is a different text whenever the
      two parts differ, so such a response is rejected. */
  lemma ReversedOrderRejected(sha: string -> string, challenge: U128, passwordHash: string)
    requires Injective(sha)
    requires passwordHash + Hex32(challenge) != Hex32(challenge) + passwordHash
    ensures !VerifyChallengeResponse(sha, challenge, sha(passwordHash + Hex32(challenge)), passwordHash)
  {
  }
}
