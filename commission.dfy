/**
 * The central election commission (class `CIK`) as an object whose roster,
 * tally and ledger change in place. Its RSA key and the check of a voter's
 * RSASSA-PKCS1-v1_5 signature over a blinded mark are fixed at construction:
 * the key is taken as given rather than generated, and the signature check,
 * whose SHA-256 and padding are not modelled, is a total function of the
 * presented key, the blinded mark and the signature bytes.
 */
module Commission {
  import opened Wrappers
  import opened Arith
  import opened Text
  import opened Rsa
  import opened Roster
  import opened Oaep
  import opened Ballot

  /** Line 21: voter ids 1 to 8 are eligible, none bound to a key yet. */
  const InitialRoster: Slots := map id | 1 <= id <= 8 :: None

  /** Line 23: candidates 1 to 6, each with no votes. */
  const InitialTally: map<int, int> := map c | 1 <= c <= 6 :: 0

  /**
   * The starting ballot box agrees with itself: every count of the initial
   * tally is the number of ledger marks for that candidate (none), and the
   * empty ledger names no candidate outside the tally.
   */
  lemma InitialBoxTallyMatchesLedger()
    ensures TallyMatchesLedger(Box(InitialTally, map[]))
    ensures LedgerNamesCandidates(Box(InitialTally, map[]))
  {
    forall c | c in InitialTally
      ensures InitialTally[c] == |MarksFor(map[], c)|
    {
      assert MarksFor(map[], c) == {};
    }
  }

  class Cik {
    /** `cik_keys`. */
    const keys: RsaKey
    /** `pkcs1_15.new(key).verify(SHA256.new(mark_blind.to_bytes(256, 'big')), signature)` succeeds. */
    const liveness: (PublicKey, int, Bytes) -> bool
    /** `list_voters`. */
    var voters: Slots
    /** `list_candidates`. */
    var candidates: map<int, int>
    /** `list_bulletins`. */
    var bulletins: map<int, int>

    /**
     * The commission's invariant: e and d are inverse exponents, the roster
     * and the candidates are those it started with, and every ledger entry
     * names a candidate.
     */
    ghost predicate Valid()
      reads this
    {
      && KeyRelation(keys)
      && voters.Keys == InitialRoster.Keys
      && candidates.Keys == InitialTally.Keys
      && LedgerNamesCandidates(Box(candidates, bulletins))
    }

    /** `CIK.__init__`, with the key and the signature check as inputs. */
    constructor (keys: RsaKey, liveness: (PublicKey, int, Bytes) -> bool)
      requires KeyRelation(keys)
      ensures Valid()
      ensures this.keys == keys && this.liveness == liveness
      ensures voters == InitialRoster && candidates == InitialTally && bulletins == map[]
    {
      this.keys := keys;
      this.liveness := liveness;
      voters := InitialRoster;
      candidates := InitialTally;
      bulletins := map[];
    }

    /**
     * `get_data_from_voter((id, mark_blind, signature), pub_key_voter)`: an
     * unbound eligible id is bound to the presented key, and only then is the
     * signature over the blinded mark checked.
     */
    method GetDataFromVoter(voterData: (int, int, Bytes), pubKeyVoter: PublicKey) returns (accepted: bool)
      requires Valid()
      modifies this`voters
      ensures Valid()
      ensures Admission(voters, accepted) ==
                Admit(old(voters), voterData.0, pubKeyVoter, liveness(pubKeyVoter, voterData.1, voterData.2))
    {
      var idUser, markBlind, signatureDs := voterData.0, voterData.1, voterData.2;
      if idUser in voters && voters[idUser].None? {
        voters := voters[idUser := Some(pubKeyVoter)];
        if !liveness(pubKeyVoter, markBlind, signatureDs) {
          return false;
        }
        return true;
      } else {
        return false;
      }
    }

    /** `signature(value, key, mod)`: raw RSA, `pow(value, key, mod)`. */
    static function Signature(value: int, key: nat, mod: int): (s: int)
      requires mod > 0
      ensures 0 <= s < mod
      ensures s == Pow(value, key) % mod
    {
      PowMod(value, key, mod)
    }

    /**
     * `get_sign(voter_data)`: the blinded mark and the commission's signature
     * over it; raising the signature to e gives back any blinded mark that is
     * a residue modulo n.
     */
    function GetSign(voterData: (int, int, Bytes)): (out: (int, int))
      requires KeyRelation(keys)
      ensures out.0 == voterData.1 && 0 <= out.1 < keys.n
      ensures 0 <= voterData.1 < keys.n ==> PowMod(out.1, keys.e, keys.n) == voterData.1
    {
      var markBlind := voterData.1;
      var signatureDs := Signature(markBlind, keys.d, keys.n);
      assert 0 <= markBlind < keys.n ==> PowMod(signatureDs, keys.e, keys.n) == markBlind by {
        if 0 <= markBlind < keys.n {
          SignThenCheck(keys, markBlind);
        }
      }
      (markBlind, signatureDs)
    }

    /** `decode_data(list_ds)`: the decrypted blocks concatenated in order. */
    method DecodeData(listDs: seq<Ciphertext>) returns (result: string)
      ensures result == Flatten(Plaintexts(listDs))
    {
      result := "";
      for i := 0 to |listDs|
        invariant result == Flatten(Plaintexts(listDs[..i]))
      {
        AppendPiece(listDs[..i], listDs[i]);
        assert listDs[..i + 1] == listDs[..i] + [listDs[i]];
        result := result + Decrypt(listDs[i]);
      }
      assert listDs[..|listDs|] == listDs;
    }

    /**
     * `verify_and_vote(result)`: the tally and the ledger become what one
     * ballot-box step makes of them, and the invariant is kept. A call that
     * raises in the source leaves both unchanged and reports why.
     */
    method VerifyAndVote(result: string) returns (status: Status)
      requires Valid()
      modifies this`candidates, this`bulletins
      ensures Valid()
      ensures Step(Box(candidates, bulletins), status) ==
                VoteStep(old(Box(candidates, bulletins)), result, keys.Public())
    {
      var splitResult := Split(result, ';');
      if |splitResult| < 2 {
        return Malformed;
      }
      if splitResult[1] != "None" {
        if |splitResult| < 4 {
          return Malformed;
        }
        var mark, ds := ParseInt(splitResult[0]), ParseInt(splitResult[1]);
        var currentVote, mode := ParseInt(splitResult[2]), ParseInt(splitResult[3]);
        if mark.None? || ds.None? || currentVote.None? || mode.None? {
          return Malformed;
        }
        if currentVote.value in candidates {
          var answer := Answer(ds.value, keys.Public());
          if answer == mark.value {
            if mode.value == Revision {
              if mark.value !in bulletins {
                return NoBulletin;
              }
              var oldVote := bulletins[mark.value];
              candidates := candidates[oldVote := candidates[oldVote] - 1];
            }
            bulletins := bulletins[mark.value := currentVote.value];
          }
          candidates := candidates[currentVote.value := candidates[currentVote.value] + 1];
          status := Counted(answer == mark.value);
        } else {
          status := UnknownCandidate;
        }
      } else {
        status := NotOnList;
      }
    }
  }
}
