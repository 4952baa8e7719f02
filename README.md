# Blind-signature voting: a Dafny model

This project models the protocol engine of `Vote_With_Blind_Signature.py`, an
anonymous e-voting scheme built on Chaum's RSA blind signature. A central
election commission (`CIK`) holds an RSA key, a roster of eligible voter ids,
a tally of votes per candidate and a ledger from secret marks to candidates.
A voter blinds a random mark with a random factor r, has the commission sign
the blinded mark once, removes r from the signature to obtain a credential,
and later casts (and may revise) a vote by sending `mark;credential;vote;mode`
encrypted in 40-character blocks. The commission decrypts the blocks, parses
the record, checks the credential against the mark and updates the tally and
the ledger.

The model is organised as the program is:

- `Arith`: exponentiation, remainders, gcd and the modular inverse that
  `number.inverse` supplies, with the lemmas the blind signature rests on.
- `Rsa`: the commission's key and the key relation taken as a hypothesis
  (raising to e·d is the identity on residues modulo n).
- `Text`: Python's `str` and `int` on integers, `str.split` on one character
  and the concatenation of a list of strings.
- `Oaep`: RSAES-OAEP (section 7.1 of RFC 8017) as a sealed box whose
  decryption returns the plaintext.
- `Roster`: the roster update of `get_data_from_voter` as a function, and
  what it does over any series of requests.
- `Sums`, `Ballot`: the ballot box of `verify_and_vote` as a function of the
  tally and the ledger, and what one call does to them.
- `Commission`: the class `Cik`, whose roster, tally and ledger change in
  place; its methods are proved against `Roster` and `Ballot`.
- `VoterAgent`: the voter's blinding, unblinding and block encryption.
- `Protocol`: the properties that join the two sides: an unblinded credential
  verifies, and a payload survives chunking, decryption and parsing.

The source increments the tally for a known candidate even when the
credential does not verify; only the ledger write depends on the check. The
model keeps this behaviour and proves its consequences
(`Ballot.ForgedCredentialStillCounted`,
`Ballot.ForgedCredentialBreaksTallyMatchingLedger`).

Four behaviours of the code that the model keeps, some of them surprising:

- the credential is `inverse(r, n) * signature` without a final reduction
  modulo n (line 145), and it still verifies;
- an eligible unbound id is bound to the presented key before the liveness
  signature is checked (line 38), so a failed check still uses the id up, and
  a second request for an id is answered `False` like any other rejection;
- a revision (`mode == 2`) whose mark has no ledger entry raises `KeyError`
  (line 89) before anything changes; every mode other than 2 is an initial
  vote;
- a record whose credential field is `None` is answered "not on the voter
  list" (lines 78, 99-100) and changes nothing.

## Model

| member | source | states |
|---|---|---|
| Arith.Inverse | Vote_With_Blind_Signature.py:145 | `number.inverse(r, n)`: there is a result exactly when r mod n is coprime to n, and then it lies in [0, n) and r times it is 1 modulo n |
| Arith.InverseNeedsCoprime | Vote_With_Blind_Signature.py:145 | any u with a·u ≡ 1 (mod n) forces gcd(a mod n, n) = 1, so `Inverse` fails only when no inverse exists |
| Arith.UnblindArith | Vote_With_Blind_Signature.py:145 | if r·inv ≡ 1 and s^e ≡ r^e·m (mod n) with m a residue, then (inv·s)^e mod n = m |
| Rsa.SignThenCheck | Vote_With_Blind_Signature.py:53 | under the key relation, raising a residue to d and then to e modulo n gives it back |
| VoterAgent.HideMark | Vote_With_Blind_Signature.py:132-135 | returns the voter id and a blinded mark in [0, n) equal to r^e·mark mod n |
| VoterAgent.GetUnblindDs | Vote_With_Blind_Signature.py:142-146 | a credential exists exactly when r is invertible modulo n, and then it is exactly inverse(r, n) · signature, not reduced modulo n, with r·ds ≡ signature (mod n) |
| VoterAgent.EncryptData | Vote_With_Blind_Signature.py:148-166 | the payload is cut into ceil(len/40) blocks, each of 1 to 40 characters, all but the last of exactly 40, whose plaintexts concatenated in order are the payload `mark;ds;vote;mode` |
| Commission.Cik.constructor | Vote_With_Blind_Signature.py:20-24 | ids 1-8 eligible and unbound, candidates 1-6 at zero, empty ledger; the invariant holds |
| Commission.Cik.GetDataFromVoter | Vote_With_Blind_Signature.py:27-49 | the new roster and the answer are those of `Roster.Admit` on the old roster with the outcome of the liveness check; the invariant is kept |
| Roster.Admit | Vote_With_Blind_Signature.py:37-49 | accepted exactly when the id is on the roster, unbound, and the liveness check passes; an unbound id is bound to the key even when the check fails; no other slot changes; an unknown or bound id leaves the roster unchanged |
| Roster.AtMostOneIssuance | Vote_With_Blind_Signature.py:37-46 | over any series of requests an id is accepted at most once, and never if it is off the roster or already bound |
| Roster.LaterRequestRefused | Vote_With_Blind_Signature.py:37-44 | in any series of requests, every request for an id that an earlier request already asked for is refused, whatever its key and signature |
| Roster.BindingIsPermanent | Vote_With_Blind_Signature.py:37-38 | over any series of requests the roster's ids stay the same, a bound key never changes, and an unbound id that was asked for ends up bound |
| Commission.Cik.Signature | Vote_With_Blind_Signature.py:51-54 | `pow(value, key, mod)` lies in [0, mod) and is value^key mod mod |
| Commission.Cik.GetSign | Vote_With_Blind_Signature.py:56-60 | returns the blinded mark and a signature in [0, n) that raises to e back to the blinded mark whenever that is a residue |
| Commission.Cik.DecodeData | Vote_With_Blind_Signature.py:62-68 | the result is the decrypted blocks concatenated in order |
| Oaep.Encrypt | Vote_With_Blind_Signature.py:161 | decrypting an encrypted block gives back its plaintext |
| Oaep.AppendPiece | Vote_With_Blind_Signature.py:66-67 | appending a block appends its plaintext to the concatenation |
| Commission.Cik.VerifyAndVote | Vote_With_Blind_Signature.py:70-100 | the new tally and ledger and the reported status are those of `Ballot.VoteStep` on the old ones; the invariant (ledger names candidates, candidate set fixed) is kept |
| Text.Split | Vote_With_Blind_Signature.py:76 | `str.split(';')` yields at least one part, no part holds the separator, and joining the parts with it gives the input back |
| Text.SplitJoin | Vote_With_Blind_Signature.py:76 | splitting the join of separator-free parts gives the parts back |
| Text.IntRoundTrip | Vote_With_Blind_Signature.py:79-82 | the model's `str` and `int` give back every integer x: `int(str(x)) == x` (CPython's 4300-digit limit is not modelled; see Left out) |
| Text.ParseInt | Vote_With_Blind_Signature.py:79-82 | succeeds exactly on an optional sign followed by at least one ASCII digit, the forms `str` of an integer produces (Python's `int` accepts more; see Left out) |
| Ballot.Answer | Vote_With_Blind_Signature.py:85 | `pow(ds, e, n) % n` lies in [0, n) |
| Ballot.MissingCredentialChangesNothing | Vote_With_Blind_Signature.py:78-100 | a record whose credential field is `None` reports "not on the list" and leaves tally and ledger unchanged |
| Ballot.UnknownCandidateChangesNothing | Vote_With_Blind_Signature.py:84-98 | a vote for a candidate not on the ballot leaves tally and ledger unchanged |
| Ballot.KnownCandidateCounted | Vote_With_Blind_Signature.py:84-96 | for a known candidate the status records whether the credential verified, the candidate set is unchanged, the ledger is written exactly when it verified, and the count rises by one except for a valid revision to the same candidate |
| Ballot.ForgedCredentialStillCounted | Vote_With_Blind_Signature.py:85-96 | a credential that fails the check leaves the ledger alone and still adds one to the candidate |
| Ballot.InitialVoteRecorded | Vote_With_Blind_Signature.py:87-96 | a verified vote with mode other than 2 maps the mark to the candidate, adds one to it, and changes no other count or ledger entry |
| Ballot.RevisionWithoutBulletinRaises | Vote_With_Blind_Signature.py:88-89 | a verified revision for a mark without a ledger entry raises and changes nothing |
| Ballot.RevisionMovesOneVote | Vote_With_Blind_Signature.py:88-96 | a verified revision takes one from the mark's previous choice, adds one to the new choice and rewrites the ledger entry; revising to the same candidate leaves the tally unchanged |
| Ballot.InitialThenRevision | Vote_With_Blind_Signature.py:87-96 | an initial vote then a revision under the same mark leaves the tally as if only the revised choice had been counted, and the ledger names that choice |
| Ballot.CountedTotal | Vote_With_Blind_Signature.py:84-96 | the sum of all counts rises by one with every counted ballot, forged or not, and stays the same under a verified revision |
| Ballot.StepKeepsLedgerNamesCandidates | Vote_With_Blind_Signature.py:70-100 | a call never adds or removes candidates and every ledger entry keeps naming a candidate, so the old candidate of a revision is always found |
| Ballot.HonestBallotKeepsTallyMatchingLedger | Vote_With_Blind_Signature.py:87-96 | if every count is the number of marks the ledger gives its candidate, an honest ballot keeps it so |
| Ballot.ForgedCredentialBreaksTallyMatchingLedger | Vote_With_Blind_Signature.py:85-96 | a forged credential for a known candidate breaks that agreement |
| Ballot.MarkCollisionBreaksTallyMatchingLedger | Vote_With_Blind_Signature.py:87-96 | a verified initial vote whose mark is already recorded for another candidate overwrites the entry, so that candidate keeps its count without the mark and the tally no longer matches the ledger |
| Commission.InitialBoxTallyMatchesLedger | Vote_With_Blind_Signature.py:23-24 | the starting tally (candidates 1-6 at zero) and the empty ledger agree: every count is the number of ledger marks for its candidate, and the ledger names only candidates |
| Sums.TotalUpdate | Vote_With_Blind_Signature.py:90 | changing one count changes the sum of all counts by the difference |
| Protocol.UnblindedCredentialVerifies | Vote_With_Blind_Signature.py:85 | for a residue mark, an r invertible modulo n and a key satisfying the key relation, the credential unblinded from the commission's signature over the blinded mark exists and passes the check `pow(ds, e, n) % n == mark` |
| Protocol.PayloadRoundTrip | Vote_With_Blind_Signature.py:76-82 | parsing `mark;ds;vote;mode` gives back the four integers, and a missing credential is read as `None` |
| Protocol.SubmittedPayloadIsCast | Vote_With_Blind_Signature.py:76-100 | casting a voter's payload is casting that voter's ballot, or nothing when the credential is missing |
| Protocol.Submit | Vote_With_Blind_Signature.py:197-200 | encrypting, decrypting and casting a payload changes tally and ledger as `Ballot.VoteStep` on that payload, and leaves the roster alone |
| Protocol.EnrolAndVote | Vote_With_Blind_Signature.py:189-200 | the roster becomes what `Roster.Admit` makes of the request (the id bound to the voter's key when it was unbound); a run that stops at a rejected request or a missing inverse leaves tally and ledger unchanged; for an unbound id, a live signature, a residue mark and an invertible r, the initial vote is counted as valid, adds one to the candidate and maps the mark to it |

## Left out

- RSA key generation (`RSA.generate(1024)`, lines 20 and 125): the key is an
  input, and the relation between e and d is a hypothesis instead of Euler's
  theorem.
- RSAES-OAEP internals and key handling (lines 64, 67, 153, 161, 164): a block
  is a sealed plaintext; encryption under a key other than the commission's
  and decryption failures are not modelled.
- The RSASSA-PKCS1-v1_5 liveness signature with SHA-256 and the 256-byte
  encoding of the blinded mark (lines 39-41, 137-138): the commission checks
  it through a fixed total function of key, blinded mark and signature bytes;
  the voter's own signing is not modelled.
- `number.getRandomRange` (lines 126-127, 195): the mark, r and the vote are
  inputs, so their ranges (10000-49999 and 1-5) are not assumed.
- Arith.Inverse: computed by the extended Euclidean algorithm; only its
  contract stands for `number.inverse`, whose exception becomes `None`.
- All `print` output and the interactive driver (lines 168-224), including
  the revision lookup that silently falls back to the first voter (lines
  210-213); `Protocol.Submit` and `Protocol.EnrolAndVote` compose the calls
  the driver makes.
- The `CSK` class (lines 102-110) and `list_from_csk`, which hold data and
  have no logic.
- The global `cik` and `voter` objects used inside methods (lines 64, 85,
  153) are the object's own key in the model.
- Text.ParseInt: Python's `int` also accepts surrounding whitespace,
  underscores between digits and non-ASCII Unicode decimal digits (such as
  Arabic-Indic or full-width digits); these forms never occur in a payload
  built by `str` of integers and are read as failures. CPython 3.11 and later
  also make `str` and `int` raise `ValueError` on integers of more than 4300
  decimal digits (`sys.int_info.default_max_str_digits`), while
  Text.IntToString and Text.ParseInt accept any length; the limit is never
  reached here, since the longest field, ds = inverse(r, n) times the
  signature, is below n squared, about 620 digits for a 1024-bit n.
- Commission.Cik.VerifyAndVote: the `IndexError` and `ValueError` a malformed
  record raises are one `Malformed` status, and every raised exception leaves
  the state unchanged; which exception would be raised first is not
  distinguished.
- `math.ceil(len / 40)` on floating point (line 159) is the integer
  ceiling, which agrees for every length below 40·2^48, far beyond any
  payload.
- Mark collisions between voters are not excluded.
  Ballot.HonestBallotKeepsTallyMatchingLedger assumes an initial vote brings a
  mark new to the ledger; a colliding initial vote overwrites the entry and
  breaks the agreement between tally and ledger
  (`Ballot.MarkCollisionBreaksTallyMatchingLedger`).
