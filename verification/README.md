# OpenPubkey in Dafny

A model of the hard parts of OpenPubkey, with proofs about it:

* **GQ1 signatures** (`Arithmetic`, `ByteStrings`, `Base64Url`, `Pkcs1`, `Gq1`, `GqCompleteness`, `GqExtraction`,
  `GqKeys`, `GqTokens`, `GqForking`): signing and verifying loops over byte buffers, the padding, the blinded inverse,
  and the JWT wrappers. Honest signatures verify exactly when no draw is zero, what is accepted is bound to the message
  through the hash, and two accepted proofs that share a test number under different hashes give away an RS256 signature
  or a factor of the modulus.
* **Provider verification** (`Jose`, `Oidc`, `Expiration`, `Providers`, `GqVerdicts`, `Acceptance`, `Panics`): exactly
  which ID Tokens are accepted, that turning an RS256 token into a GQ token leaves the verdict unchanged, and exactly
  which inputs panic.
* **PK Tokens** (`CompactForm`, `PkTokens`, `PkInvariants`, `PkJson`, `Osm`): the compact and the JSON form with exact
  round trips, what every sequence of added signatures keeps, and signed messages bound to a token's hash.
* **The MFA cosigner** (`AuthIds`, `AuthStore`, `StoreThreads`, `StoreRuns`, `Redemptions`, `AuthCosigning`): the store
  as objects with locks, the same store under every interleaving of lock-level steps, and end-to-end statements about
  cosignatures over every run.
* **Acceptance** (`Verification`, `PkAcceptance`, `Policies`): exactly which PK Tokens are accepted under every sequence
  of options, whose signatures they carry, and the opkssh policy.
* **End to end** (`EndToEnd`): a client's session with the cosigner up to the verified PK Token, and GQ signing inside
  a PK Token. `Assumptions` gives one small world in which everything assumed of foreign code holds at once and an
  honest client gets its cosignature.

Imperative code is modelled as methods and classes and proved against specification functions; the theorems are
lemmas about those functions. Bytes are naturals below 256, integers are unbounded except where the source's 64-bit
arithmetic wraps (`WrappingAdd`, the ID counter).

## Assumptions

Foreign code enters as function values, and what is assumed of it is written in predicates that the lemmas require.

* SHA-256 and SHAKE256 have outputs of fixed length; nothing else is assumed of them. The keyed hash behind session IDs
  has text as output and is injective on the sixteen-byte inputs it is given (`Mac`).
* `SoundBase64`: jwx base64 decoding agrees with strict base64url where the latter decodes, and accepts only ASCII texts
  without the separators. jwx splits compact tokens as `oidc.SplitCompact` does, and jwx and encoding/json are taken to
  decode a header alike. Only compact serializations are parsed as single messages.
* `Sound`: in addition, the headers GQ signing makes survive JSON. These have an ASCII kid and ASCII claims under names
  that jwx gives no meaning of its own. `SoundEnv`: key thumbprints are ASCII.
* `ClaimsAgree`: the reader of the issuer alone finds the issuer that the reader of all OIDC claims finds. The readers of
  a payload are separate functions, so one may fail where another does not.
* `SoundScheme`, `SoundMessages`: signatures verify under the matching key, digests and algorithm names are ASCII, and
  the cosigner's messages survive JSON when their strings are ASCII and their times are below 2^53, since they pass
  through a float64. A `Clock` reads seconds below 2^52.
* `OnlySigned`, where a lemma asks for it: no signature verifies under a signer's key but over what that signer signed.
* RS256 verification is the relation of section 8.2.2 of RFC 8017 over the raw segments.
* Random draws are inputs. A call reads the clock once; `time.Unix` is exact. The security parameter is not negative.

`Assumptions.AssumptionsMet` exhibits codecs, a keyed scheme and messages that meet all of these predicates together, and
`Assumptions.SessionExists` a client, a cosigner and a run in the same world that meet what the session theorems require.

## Where the code differs from what is written about it

* `NewSignerVerifier` divides by the byte length of the exponent before it looks at the parse error, so an even modulus
  with exponent 65537 panics instead of returning the error (`GqKeys.NewSignerVerifier`).
* The comment on `Hash` says the raw JSON is kept; no code sets that field, so the hash is always taken over a fresh
  marshalling. `Osm.ParsedTokenAccepts` shows that both sides still agree.
* `CreateNewAuthSession` returns on a duplicate ID without releasing the state lock. Two IDs are equal exactly when their
  numbers agree modulo 2^64 and the clock read the same. `StoreRuns.EarlyReturnUnreachable` shows that the return is
  unreachable as long as no two readings collide so, `StoreRuns.LockCanBeLost` that every collision loses the lock in
  some run, and `StoreRuns.LostLockIsForever` what follows.
* A comment in `ByKeyID` says that a blank key ID finds the only key of a set; the code finds a key only under the ID it
  was given (`Acceptance.LookupExactly`).
* A header or payload that is the JSON text null leaves a nil pointer behind, which `VerifyIDToken` and `NewFromCompact`
  dereference; an audience list with an item that is no string, and some GQ keys, panic as well.
  `Panics.VerifyIdTokenPanics` and `Panics.FromCompactPanics` state exactly when; `Panics.NullClaimsPanic` and
  `Panics.NullHeaderPanics` give inputs.
* A provider token whose typ is CIC gives way to the client's token when the compact form is read, and is lost without an
  error; so does one whose typ is COS to a cosignature, and without one it becomes the cosignature. Any other typ but JWT
  and the empty one is an error (`PkInvariants.CompactOutcome`). The JSON form refuses all of these and the empty typ
  (`PkJson.JsonRoundTrip`).

## Model

| member | source | states |
|---|---|---|
| Base64Url.DecodeEncode | util/base64.go:25-46 | decoding inverts encoding on all byte strings |
| Base64Url.EncodeDecode | util/base64.go:29-46 | a decodable text is the encoding of its decoding if and only if it has no line ends, so strict texts are canonical |
| Base64Url.AlphabetExactly | util/base64.go:25-31 | symbols are those of the URL and filename safe alphabet of section 5 of RFC 4648, and nothing else is one |
| Base64Url.EncodeValue | util/base64.go:25-37 | read in base 64 a text is the bytes read in base 256 followed by zero bits, of the least length that holds them |
| Pkcs1.EncodePkcs1v15 | gq/rsa.go:24-45 | the array fill leaves the encoding of section 9.2 of RFC 8017 in the buffer, for every length that holds it: its last 32 bytes are the digest of the data, its last 51 the DER of the DigestInfo, and what shorter buffers keep of the rest |
| Pkcs1.PaddedIsEmsa | gq/rsa.go:30-45 | from 54 bytes on the padding is the standard's EM of the digest, with the DigestInfo built as nested DER values around the object identifier of SHA-256 |
| Pkcs1.PaddedInjective | gq/rsa.go:30-45 | paddings of one length, and their public numbers, are equal if and only if the digests of the data are |
| Pkcs1.PaddedBelowModulus | gq/verify.go:43-46 | the public number is below every modulus of that many bytes |
| Gq1.CommitAll | gq/sign.go:52-59 | the loop concatenates all r_i^v mod n in fixed width |
| Gq1.ParseQuestion | gq/sign.go:68-75 | the question is cut into t numbers, an error if and only if one reaches the modulus |
| Gq1.AnswerAll | gq/sign.go:77-85 | the loop concatenates all Q^R_i * r_i mod n in fixed width |
| Gq1.Sign | gq/sign.go:34-89 | the whole signing is the function Signature of key, message and draws, errors included |
| Gq1.ParseWitnesses | gq/verify.go:55-64 | the witnesses are cut out of S, rejected if and only if one is zero or not below n |
| Gq1.RecommitAll | gq/verify.go:66-78 | the loop concatenates all S_i^v * G^R_i mod n in fixed width |
| Gq1.Verify | gq/verify.go:31-91 | the whole verification is the function Checked of its inputs: wrong sizes refused, a panic on a modulus too short for the padding; GqForking.AcceptedExactly says what is accepted |
| Gq1.DecodeEncodeProof | gq/verify.go:109-126 | decoding inverts encoding of a proof of the right sizes and refuses any other length |
| GqCompleteness.RoundCompletes | gq/verify.go:66-78 | in every round the recomputed test number is the commitment, for every key pair, question and draw |
| GqCompleteness.AnswerZero | gq/verify.go:59-62 | a witness is zero if and only if its draw is |
| GqCompleteness.Completeness | gq/sign.go:34-89 | for every key pair, message and draws below n signing succeeds and the proof verifies if and only if no draw is zero |
| GqExtraction.CoprimeToExponent | gq/gq.go:134-157 | every nonzero difference of two questions is coprime to 65537 |
| GqExtraction.DifferentQuestion | gq/verify.go:48-53 | two different questions differ in some round |
| GqExtraction.Extraction | gq/verify.go:48-78 | two proofs with equal recomputed test numbers whose questions differ in a round yield x with x^65537 mod n equal to the padded identity, if the identity and the witness to the larger question of that round are units |
| GqExtraction.ExtractedSignature | gq/verify.go:31-91 | under a supported key long enough for RS256 this is an RS256 signature on the identity |
| GqForking.AcceptedExactly | gq/verify.go:31-91 | a proof is accepted if and only if it has the right size, its witnesses are in range, and its first t * vBytes bytes are SHAKE256 of the recomputed test number and the message |
| GqForking.MessageBinding | gq/verify.go:80-90 | a proof accepted for one message is accepted for another if and only if both hash alike after the test number |
| GqForking.Forking | gq/verify.go:31-91 | two accepted proofs for one identity with equal test numbers and different hashes of it, because hash function or message differ, yield an RS256 signature on the identity or a proper factor of the modulus |
| GqForking.SigningExactly | gq/sign.go:34-89 | signing fails if and only if the private number or a block of the hash reaches the modulus, and else the proof starts with that hash of the commitments and the message |
| GqKeys.ByteLength | gq/gq.go:146-161 | the byte length computed from the bit length brackets the modulus |
| GqKeys.NewSignerVerifier | gq/gq.go:134-161 | an error if and only if the exponent is not 65537, a panic if and only if it is and the modulus is even, else parameters that fit the modulus |
| GqKeys.ModInverseBlinded | gq/sign.go:167-235 | the retry loop computes the unblinded inverse for every sequence of draws, and keeps drawing exactly when the secret or every draw is no unit |
| GqKeys.BlindingTransparent | gq/sign.go:167-235 | the result is the one inverse below n, whichever draw was used, and fits the length of the signature |
| GqTokens.SignJwt | gq/sign.go:91-161 | the token is the function SignedJwt of its inputs: new header with the old one as kid, same payload, proof over the old signing input |
| GqTokens.SignedJwtParses | gq/sign.go:91-161 | the GQ token parses back: same payload segment, original header as kid, proof as signature |
| GqTokens.SigningSucceeds | gq/gq.go:62-76 | signing a token that verifies under RS256 succeeds if and only if the key is supported, the signature is strict base64url, signature and some draw are units, and no extra claim is alg, typ or kid |
| GqTokens.InverseOfSignature | gq/sign.go:137-148 | the inverse of an RSA signature is a GQ1 private number for the signed message |
| GqTokens.SignedJwtVerifies | gq/gq.go:79-85 | a GQ token made from an RS256 token verifies if and only if none of the sixteen draws was zero |
| GqTokens.SignatureOfOneDigest | gq/rsa.go:30-45 | a signature that verifies for one message verifies for another if and only if their digests agree |
| GqTokens.NotGqRefused | gq/verify.go:93-107 | a token that is no GQ token is refused under every supported key |
| Expiration.MaxAgeExact | providers/expiration.go:79-98 | the wrapping overflow test is exact: accepted if and only if both inputs are positive, the true sum fits and lies ahead |
| Expiration.LongerAge | providers/expiration.go:32-44 | a longer maximal age keeps acceptance if and only if the later expiry still fits in 64 bits |
| Expiration.LongerPolicies | providers/expiration.go:32-44 | a token accepted under the 24 hour policy is accepted under those of 48 hours and a week exactly as far as the later expiry fits |
| Expiration.PoliciesWithAge | providers/expiration.go:32-60 | the three policies accept exactly tokens issued less than one, two and seven days ago whose expiry fits |
| Expiration.PoliciesWithoutAge | providers/expiration.go:32-60 | the OIDC policy accepts exactly unexpired claims, the never-expire policy everything |
| Expiration.AcceptedEarlier | providers/expiration.go:46-60 | what is accepted now was accepted at every earlier time |
| Providers.VerifyAudience | providers/providerverifier.go:297-309 | the search loop finds the client ID exactly among the comma-separated audiences |
| Providers.AudienceExact | oidc/oidc.go:42-70 | over a joined list of comma-free audiences the check finds exactly its members |
| GqVerdicts.SameKey | discover/discover.go:140-162 | the kid of a GQ token leads to the key of its original token |
| GqVerdicts.GqSigningPreservesVerdict | providers/providerverifier.go:93-275 | a created GQ token is accepted if and only if the original is accepted by the verifier without the GQ-only restriction, names the verifier's issuer, and no draw was zero |
| GqVerdicts.BoundTokenVerdict | providers/providerverifier.go:172-227 | the exact condition under which a token bound through its GQ header is accepted |
| GqVerdicts.CreationSucceeds | providers/gq.go:40-90 | from an accepted RS256 token a GQ token is made if and only if the published key and the draws allow it |
| GqVerdicts.AcceptedTokenSurvives | providers/gq.go:40-90 | an accepted RS256 token naming the verifier's issuer, turned into a GQ token with nonzero draws, is accepted at the same time |
| GqVerdicts.CreatedShows | providers/gq.go:40-90 | a created token shows the header of its original, the thumbprint of the published key and, if bound, the hash |
| GqVerdicts.BindingNeedsCommitment | providers/gq.go:40-47 | a hash is refused for a provider that does not commit through GQ signatures |
| Acceptance.LookupExactly | discover/discover.go:183-196 | the first entry with the kid is found, and nothing if and only if there is none |
| Acceptance.RecordAlg | discover/discover.go:44-68 | a key without an algorithm counts as RS256, and one with an unknown algorithm is refused |
| Acceptance.ParsedExactly | oidc/jwt.go:30-50 | a token parses with header and claims if and only if both decode, are not null and the audience holds only strings; each claim ends up in its own field |
| Acceptance.AudienceListExact | oidc/oidc.go:42-70 | a list of comma-free audiences names exactly its members, unless it is one empty string |
| Acceptance.CommitmentExactly | providers/providerverifier.go:172-227 | the commitment is accepted if and only if the named claim of the payload, or the cic claim of the GQ header under an announcing audience, is the hash |
| Acceptance.IdTokenExactly | providers/providerverifier.go:93-275 | an ID Token is accepted if and only if it parses, has not expired, names the client, is signed by the key published first under its kid as RS256 or through a GQ proof, and commits to the hash of the client |
| Acceptance.OneClient | providers/providerverifier.go:172-227 | whatever the clock reads, an ID Token is accepted for one client hash only |
| Panics.NewJwtPanics | oidc/jwt.go:30-50 | parsing an ID Token panics if and only if its header decodes and its payload decodes to claims with an audience list that has an item that is no string |
| Panics.AllAddedPanics | pktoken/pktoken.go:90-112 | the loop panics if and only if some token panics in the parser, or parses with a null header, after all before it were added |
| Panics.FromCompactPanics | pktoken/pktoken.go:83-114 | reading a compact PK Token panics if and only if it splits and its tokens make the loop panic |
| Panics.FromCompactSucceeds | pktoken/pktoken.go:83-114 | it succeeds if and only if it splits into tokens that both parsers read and whose typ names a slot; these are also the tokens that can come before one that panics |
| Panics.Gq256VerifyPanics | gq/gq.go:79-85 | GQ verification panics if and only if the exponent is 65537 and the modulus is even, or under 51 bytes with a GQ token whose proof has the right size |
| Panics.VerifyGqSigPanics | providers/providerverifier.go:232-275 | the GQ signature check panics if and only if the original header is null, or it names RS256, the issuer is the verifier's and the published key makes GQ verification panic |
| Panics.VerifyParsedPanics | providers/providerverifier.go:123-166 | past the claims only GQ tokens panic: in the signature, or, if that is accepted, in the commitment when the audience is no string |
| Panics.VerifyIdTokenPanics | providers/providerverifier.go:93-275 | the verifier panics if and only if it is well configured and parsing panics, or the claims are null, or they are acceptable and the header is null or panics as above |
| Panics.NullHeaderPanics | pktoken/pktoken.go:83-114 | a compact PK Token with null as its first header and any payload that parses panics |
| Panics.NullClaimsPanic | providers/providerverifier.go:93-125 | an ID Token with null as its payload and any header that decodes makes every well configured verifier panic |
| CompactForm.CompactPkToken | pktoken/compact.go:27-61 | the loop computes the common payload and the other segments in order, an error if and only if a token is malformed, payloads differ or the refreshed ID Token is malformed |
| CompactForm.SplitCompactPkToken | pktoken/compact.go:64-86 | the loop puts every pair back around the payload, errors included |
| CompactForm.SplitThenCompact | pktoken/compact.go:27-86 | every byte string that splits is restored by compacting |
| CompactForm.CompactThenSplit | pktoken/compact.go:27-86 | compacting then splitting restores the tokens if and only if none holds a colon |
| CompactForm.CompactLayout | pktoken/compact.go:27-61 | the compact form is the payload, then protected and signature of each token in order, between colons, then the refreshed ID Token after a dot |
| PkTokens.PkToken.AddSignature | pktoken/pktoken.go:162-203 | the new contents and outcome, including what a failing call leaves behind |
| PkTokens.NewFromCompact | pktoken/pktoken.go:83-114 | the object built in the loop holds the contents FromCompact gives, errors and panics alike; Panics.FromCompactSucceeds and Panics.FromCompactPanics say when it gives which |
| PkInvariants.AdditionsKeep | pktoken/pktoken.go:162-203 | over every sequence of calls, failing ones included, the payload never changes once set, every stored token has it, and the CIC and COS slots hold only their typ |
| PkInvariants.NewIsComplete | pktoken/pktoken.go:68-80 | what New builds has both signatures and is consistent |
| PkInvariants.NewExactly | pktoken/pktoken.go:68-80 | New succeeds if and only if both tokens parse over one payload and the client's has typ CIC, and holds exactly these |
| PkInvariants.CosignedIsComplete | pktoken/pktoken.go:162-203 | adding a cosignature to such a token keeps it so |
| PkInvariants.CompactRestores | pktoken/pktoken.go:83-114 | the compact form restores every slot and the refreshed ID Token byte for byte if and only if every token parses as an ID Token with a header that is not null and the provider's typ is absent, empty or JWT |
| PkInvariants.CompactOutcome | pktoken/pktoken.go:83-114 | reading back the compact form of a token whose parts parse: itself, the token without the provider's, the same with the provider's token as cosignature, or an error, for every typ of the provider's token; no success if a part does not parse |
| PkJson.Jws.AddSignature | oidc/jws.go:42-69 | appends exactly the tokens over the document's payload, each of which can be read back unchanged |
| PkJson.Jws.GetToken | oidc/jws.go:71-77 | the token at every valid index and nothing else |
| PkJson.Jws.GetTokenByTyp | oidc/jws.go:79-114 | an error if and only if a signature is unreadable or the typ occurs twice, else the only token of the typ or none |
| PkJson.MarshalJson | pktoken/pktoken.go:258-282 | the document in slot order, an error if a token is missing or not over the canonical payload, a panic without a provider signature |
| PkJson.MarshalledLayout | pktoken/pktoken.go:258-282 | the document holds the encoded payload and, in slot order, the other two segments of every token |
| PkJson.UnmarshalJson | pktoken/pktoken.go:284-360 | succeeds exactly on readable documents with one provider, one client and at most one cosigner signature, and the contents it leaves in every case |
| PkJson.AcceptableExactly | pktoken/pktoken.go:284-360 | a document is accepted if and only if it decodes and shows one provider signature, one client signature and beside them nothing but at most one cosigner signature |
| PkJson.FilledSlots | pktoken/pktoken.go:296-340 | each slot holds the last signature of its type |
| PkJson.JsonRoundTrip | pktoken/pktoken.go:258-360 | unmarshalling what was marshalled restores every token if and only if the provider's typ is absent or JWT, and fails otherwise |
| PkJson.MarshalledCarried | pktoken/pktoken.go:223-241 | marshalling again gives the same document, so the hash is the same |
| PkJson.MarshalSucceeds | pktoken/pktoken.go:258-282 | marshalling succeeds if and only if every payload segment is canonical base64url |
| PkJson.CompactSucceeds | pktoken/pktoken.go:244-256 | such a token also has a compact form unless its refreshed ID Token is malformed |
| PkJson.DeepCopyIsEqual | pktoken/pktoken.go:363-374 | a copy equals the original if and only if the provider's typ is absent or JWT |
| Osm.SignedMessageAccepted | pktoken/osm.go:71-124 | a message made for one token is accepted under another with the same client key if and only if both tokens hash alike |
| Osm.SignedMessageExactly | pktoken/osm.go:71-124 | for every message, it is accepted if and only if its header has typ osm, the alg of the client key and as kid the digest of the token's JSON form, and the client key verifies its signature over the first two segments |
| Osm.AcceptedWasSigned | pktoken/osm.go:71-124 | where nothing verifies but what was signed, the holder of the client key signed an accepted content for this token's digest |
| Osm.ParsedTokenAccepts | pktoken/osm.go:30-124 | whoever parsed the client's JSON computes the same document and accepts what the client signs |
| AuthIds.AuthIdIssuer.CreateAuthId | cosigner/authidissuer.go:40-53 | the wrapping counter and the ID it gives |
| AuthIds.AuthIdInput | cosigner/authidissuer.go:40-53 | the hash is taken over the new count and the clock, eight bytes each, least significant first |
| AuthIds.AuthIdsCollide | cosigner/authidissuer.go:40-53 | two IDs are equal if and only if the clock read the same and their numbers agree modulo 2^64 |
| AuthIds.FewNoCollision | cosigner/authidissuer.go:40-53 | up to 2^64 clock readings never collide |
| AuthIds.AuthIdsDistinct | cosigner/authidissuer.go:40-53 | up to 2^64 IDs are distinct whatever the clock reads |
| AuthStore.AuthStateInMemoryStore.CreateNewAuthSession | cosigner/mocks/authstatestore.go:73-129 | the session is inserted under a new ID, and the state lock stays taken if and only if that ID is in use |
| AuthStore.AuthStateInMemoryStore.CreateAuthcode | cosigner/mocks/authstatestore.go:131-158 | the effect is Issue on both maps, and both locks are free again |
| AuthStore.AuthStateInMemoryStore.RedeemAuthcode | cosigner/mocks/authstatestore.go:160-181 | the effect is Redeem on both maps, and both locks are free again |
| AuthStore.ApplyKeeps | cosigner/mocks/authstatestore.go:73-181 | every call keeps: redeemed implies issued, codes belong to issued sessions and back, distinct codes have distinct sessions; and no missing session is dereferenced |
| AuthStore.NewStateFields | cosigner/mocks/authstatestore.go:73-116 | every field of a new session comes from its own claim, the display name is the email up to its first at sign, and both flags are down |
| AuthStore.Successes | cosigner/mocks/authstatestore.go:118-181 | exactly when each call succeeds |
| AuthStore.RefusedUnchanged | cosigner/mocks/authstatestore.go:118-181 | a call that does not succeed leaves the store as it is |
| StoreThreads.AdvanceMoves | cosigner/mocks/authstatestore.go:118-181 | each lock-level step either takes effect exactly as the atomic store would or leaves the store alone, and takes or gives back just its locks |
| StoreThreads.RunKeeps | cosigner/mocks/authstatestore.go:118-181 | the invariant over every interleaving: locks held exactly by the calls inside them and by one that met a duplicate ID, what calls remember still true, history sequential |
| StoreRuns.Linearizable | cosigner/mocks/authstatestore.go:118-181 | over every run, every finished call has exactly one place in one sequential run that explains all results and the contents |
| StoreRuns.RealTimeOrder | cosigner/mocks/authstatestore.go:118-181 | over every run, a call that ended before another began takes effect first |
| StoreRuns.EarlyReturnUnreachable | cosigner/mocks/authstatestore.go:118-129 | over every run whose clock readings do not collide the early return is never taken |
| StoreRuns.NoMissingSession | cosigner/mocks/authstatestore.go:160-181 | over every run the session a code maps to exists when it is dereferenced |
| StoreRuns.LocksReleased | cosigner/mocks/authstatestore.go:118-181 | over every run, once every call has ended the code lock is free, and the state lock is if and only if no call met a duplicate ID |
| StoreRuns.Progress | cosigner/mocks/authstatestore.go:118-181 | while a call has not ended and none met a duplicate ID some call can step, even if waiting writers keep readers out |
| StoreRuns.AdvanceTotal | cosigner/mocks/authstatestore.go:118-181 | every step leaves fewer steps to take |
| StoreRuns.Finishes | cosigner/mocks/authstatestore.go:118-181 | from every reachable state all pending calls can end within the steps they have left, unless the IDs they take collide |
| StoreRuns.RunsToEnd | cosigner/mocks/authstatestore.go:73-181 | while no other call is inside a lock, a new call runs to its end with exactly the effect and result of its operation on the atomic store, and gives its locks back unless it met a duplicate ID |
| StoreRuns.SessionCompletes | cosigner/mocks/authstatestore.go:73-181 | every session can be opened, given a code and redeemed under it, which yields the state it was opened with, both flags set |
| StoreRuns.DuplicateLosesLock | cosigner/mocks/authstatestore.go:121-124 | over every run a call that met a duplicate ID ended with the state lock still taken and no other call inside it |
| StoreRuns.LockCanBeLost | cosigner/mocks/authstatestore.go:118-129 | for every sequence of clock readings that collide, some run handing out IDs at these readings loses the state lock |
| StoreRuns.StandingClockCollides | cosigner/authidissuer.go:40-53 | a clock that stands still for 2^64 + 1 IDs is such a case |
| StoreRuns.LostLockIsForever | cosigner/mocks/authstatestore.go:121-124 | after that the lock is never free again, whatever follows |
| Redemptions.RedeemedOnce | cosigner/mocks/authstatestore.go:160-181 | in every legal history a code and a session are redeemed at most once |
| Redemptions.RedeemedProvenance | cosigner/mocks/authstatestore.go:73-181 | what is redeemed was created earlier, unchanged but for its flags, under a code issued in between for that session |
| AuthCosigning.AuthCosigner.InitAuth | cosigner/authcosigner.go:49-68 | the checks, the session inserted, the ID returned, and when the store is left locked |
| AuthCosigning.AuthCosigner.NewAuthcode | cosigner/authcosigner.go:70-72 | a code is returned exactly when the store issues it |
| AuthCosigning.AuthCosigner.RedeemAuthcode | cosigner/authcosigner.go:74-92 | the store is redeemed first and the answer depends on the later signature check |
| AuthCosigning.AtMostOneCosignature | cosigner/authcosigner.go:70-92 | over every concurrent run two redemptions that pass the store differ in code and session, even if the later check fails |
| AuthCosigning.CosignedMeans | cosigner/authcosigner.go:74-111 | a response is a cosignature only over a redeemed session, for a message whose content is the redeemed code and which the client key of the session's PK Token verifies for that token's digest |
| AuthCosigning.CosignatureProvenance | cosigner/authcosigner.go:49-111 | every redeemed session carries the PK Token, redirect URI and nonce of the InitAuth that created it, whose message that token's client key verifies and which named this issuer within two minutes of the clock |
| AuthCosigning.CheckedExactly | cosigner/authcosigner.go:49-68 | the first message is accepted if and only if it is signed under its PK Token, names this issuer and is at most two minutes off |
| AuthCosigning.CosignedByClient | cosigner/authcosigner.go:49-92 | over every run, where nothing verifies but what was signed, the holder of the client key signed both the message that asked for a cosigned session and the code redeemed for it, for the digest of that session's PK Token |
| AuthCosigning.CosignatureShowsSession | cosigner/authcosigner.go:94-111 | over every run each cosignature shows the session ID it was redeemed for, with the nonce, redirect URI and payload of the request that opened that session, and expires an hour later |
| AuthCosigning.ValidateExact | client/cos.go:222-260 | a client accepts a cosignature if and only if nonce, redirect URI and issuer are the expected ones |
| AuthCosigning.ValidateCosExactly | client/cos.go:222-260 | for every token, it is accepted if and only if it parses and its header object has the expected issuer, nonce and redirect URI as texts |
| AuthCosigning.InitMessageExactly | client/cos.go:265-288 | the client makes its message if and only if the redirect URI ends in the callback path |
| AuthCosigning.HonestInitAccepted | client/cos.go:265-288 | the client's first message is accepted by a cosigner that received its JSON if and only if the issuer is right and the time recent |
| AuthCosigning.HonestClientAccepts | client/cos.go:222-288 | over every run the cosignature on the session a client opened passes that client's checks |
| Verification.CosignatureVerifies | cosigner/cosignerverifier.go:71-104 | an issued cosignature can be added to its PK Token and verifies until one hour after its issue and not later, if and only if none of its claims is empty or zero |
| Verification.RegisteredNew | verifier/verifier.go:57-79 | registration succeeds if and only if all issuers are new |
| Verification.RegisteredEntries | verifier/verifier.go:57-79 | registration keeps what is there and adds each verifier under its own issuer |
| Verification.Verifier.WithCosignerVerifiers | verifier/verifier.go:57-67 | the loop registers the cosigner verifiers, stopping at a duplicate issuer |
| Verification.Verifier.AddProviderVerifiers | verifier/verifier.go:69-79 | the loop registers the provider verifiers, stopping at a duplicate issuer |
| Verification.Verifier.MissingStrict | verifier/verifier.go:166-194 | whatever order the map is walked in, it finds a strict verifier other than the one excepted if and only if there is one |
| Verification.Verifier.VerifyPkToken | verifier/verifier.go:123-205 | the verdict is a function of settings, token and clock, independent of map order |
| Verification.New | verifier/verifier.go:103-118 | the loop applies every option in order and fails with the first that fails |
| Verification.ConfiguredCosigners | verifier/verifier.go:57-67 | whatever the options, the cosigners are those of all options together |
| Verification.UncosignedVerified | verifier/verifier.go:123-205 | under every configuration a token without a cosignature is accepted exactly when all else accepts it and no cosigner is strict |
| Verification.CosignedVerified | verifier/verifier.go:123-205 | under every configuration a cosigned token is accepted exactly when all else accepts it and, unless no cosigner is configured, its cosigner is, verifies it, and no other is strict |
| Verification.StrictPairAcceptsNothing | verifier/verifier.go:164-196 | once two strict cosigners are configured, by whatever options, nothing is accepted |
| PkAcceptance.CosignerExactly | cosigner/cosignerverifier.go:71-104 | for every token, a cosigner verifier accepts if and only if the COS token shows all claims with its issuer, has not expired, and the key under the shown key ID, of the shown algorithm, verifies its signature |
| PkAcceptance.ChecksExactly | verifier/verifier.go:198-205 | the checks accept if and only if each does, and else answer with the first that does not |
| PkAcceptance.PkTokenExactly | verifier/verifier.go:123-215 | under every configuration, a PK Token is accepted if and only if the client key verifies the client's token, the provider of the named issuer accepts the ID Token for the client's hash and any required refreshed token, the cosigners are content and every check accepts |
| PkAcceptance.StrictCosignerSigned | verifier/verifier.go:164-196 | with a strict cosigner configured an accepted PK Token carries a current signature that verifies under a key of that cosigner |
| PkAcceptance.StrictCosignerTookPart | verifier/verifier.go:164-196 | where nothing verifies but what was signed, the holder of that cosigner's key signed the token |
| PkAcceptance.OneClientHash | verifier/verifier.go:123-205 | two accepted PK Tokens over one ID Token have the same client hash, whatever else differs |
| EndToEnd.CosignatureServesClient | client/cos.go:222-260 | over every run the cosignature on the session a client opened passes its checks, can be added to its token, and verifies until one hour after its issue and not later unless one of its claims is empty or zero |
| EndToEnd.CosignedTokenVerified | verifier/verifier.go:123-205 | under every configuration with the cosigner and with any checks, the cosigned token is accepted if and only if the hour is not over, no claim is empty or zero, no other cosigner is strict, and provider and checks accept |
| EndToEnd.SessionIsCosigned | cosigner/authcosigner.go:49-111 | for every honest client with a recent first message some run opens the session, issues a code and answers its redemption with a cosignature |
| EndToEnd.GqPkTokenVerdict | verifier/verifier.go:123-205 | with any checks, a PK Token whose ID Token was replaced by its GQ token is accepted if and only if the original is without the GQ-only restriction, it names an issuer, no draw was zero, and the checks accept the new token |
| EndToEnd.AcceptedPkTokenSurvives | verifier/verifier.go:83-205 | once an accepted PK Token over an RS256 ID Token has its GQ token in the provider's slot, its verdict at the same time is that of the checks; GQOnly refuses the old token and accepts the new one |
| Policies.Policy.AddAllowedPrincipal | opkssh/policy/policy.go:56-92 | the nested loops give every entry of the email the principal, or append one entry |
| Policies.AllowedGrants | opkssh/policy/policy.go:51-92 | afterwards exactly the old pairs and the new one are granted |
| Policies.AllowedIdempotent | opkssh/policy/policy.go:51-92 | adding twice is adding once |
| Policies.AllowedUnchanged | opkssh/policy/policy.go:51-92 | nothing changes if and only if the email has an entry and all its entries hold the principal |
| Policies.LoadUserPolicy | opkssh/policy/fileloader.go:122-158 | the loop keeps the entries that give the user access, cut down to that |
| Policies.ValidEntriesGrant | opkssh/policy/fileloader.go:138-153 | what is kept grants only the user, exactly where the file did |
| Policies.Load | opkssh/policy/multifileloader.go:44-82 | the merged policy grants what the root policy grants, and to the user what the user's file grants that user |
| Policies.CheckPolicy | opkssh/policy/enforcer.go:39-69 | access is granted if and only if the root policy grants it, or the user's file does and the principal is that user |

## Left out

- HTTP servers, browser redirects, channels and contexts, discovery of key sets, WebAuthn, X.509 and SSH libraries.
- JSON and YAML text, jwx internals, and the insides of hash, MAC and signature functions: see the assumptions.
- Constant-time behaviour, locked memory, the quality of randomness and how probable it is that the blinding loop ends.
- `UpdateAuthState` and `LookupAuthState` of the store: the former can clear the flags and has no caller here, the
  latter only reads.
- `ByJKT`, `SameIdentity`, `RequireOlder` and the verification of refreshed ID Tokens, which enters as a function.
- Provider verifiers other than the default one and checks other than GQOnly enter the PK Token verifier as function
  values.
- GqTokens.SignJwt: extra claims under names that jwx refuses to set to a string are not told from others.
- GqVerdicts.GqSigningPreservesVerdict: nothing is claimed of tokens with an alg other than RS256 and GQ256, for which
  the code checks no signature of the provider.
- Providers.AudienceExact: does not cover audiences that hold a comma, for which joining and splitting do not invert.
- AuthCosigning.ValidateExact: is stated for ASCII issuers, key IDs, redirect URIs and nonces, because JSON does not
  carry arbitrary bytes; the same holds for the other client statements.
- PkTokens.PkToken.AddSignature: tokens are values, so the aliasing of byte slices between tokens is not modelled.
- The text of errors, log lines and the joined list of policy paths.
