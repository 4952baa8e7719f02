/**
 * How the pieces fit together: the credential a voter unblinds passes the
 * commission's check, the payload survives chunking and parsing, and one
 * enrolment followed by one submission records an honest vote.
 */
module Protocol {
  import opened Wrappers
  import opened Arith
  import opened Text
  import opened Rsa
  import opened Roster
  import opened Ballot
  import opened VoterAgent
  import opened Commission

  /**
   * Unblinding is correct: for a mark that is a residue modulo n and a
   * blinding factor coprime to n, the credential obtained from the
   * commission's signature over the blinded mark raises to the mark, although
   * the credential itself is not reduced modulo n.
   */
  lemma UnblindedCredentialVerifies(key: RsaKey, v: Voter)
    requires KeyRelation(key) && v.cikKey == key.Public()
    requires 0 <= v.mark < key.n && Gcd(v.r % key.n, key.n) == 1
    ensures var markBlind := HideMark(v).1;
      var ds := GetUnblindDs(v, (markBlind, Cik.Signature(markBlind, key.d, key.n)));
      ds.Some? && Answer(ds.value, key.Public()) == v.mark
  {
    var n, e := key.n, key.e;
    var markBlind := HideMark(v).1;
    var s := Cik.Signature(markBlind, key.d, n);
    assert PowMod(s, e, n) == markBlind by {
      SignThenCheck(key, markBlind);
    }
    var inv := Inverse(v.r, n).value;
    assert (v.r * inv) % n == 1;
    var ds := GetUnblindDs(v, (markBlind, s));
    assert ds == Some(inv * s);
    UnblindArith(n, e, v.r, inv, v.mark, s);
    assert Answer(inv * s, key.Public()) == v.mark % n;
    ModUnique(v.mark, n, 0, v.mark);
  }

  /** No field of the payload holds the separator. */
  lemma FieldsHaveNoSeparator(v: Voter, ds: Option<int>, mode: int)
    ensures forall i :: 0 <= i < |Fields(v, ds, mode)| ==> ';' !in Fields(v, ds, mode)[i]
  {
    assert ';' !in "None";
  }

  /**
   * Splitting the payload on ';' and converting its fields gives back the
   * mark, the credential, the vote and the mode; a missing credential is
   * read back as the text "None".
   */
  lemma PayloadRoundTrip(v: Voter, ds: Option<int>, mode: int)
    ensures ParseBallot(Payload(v, ds, mode)) ==
      match ds
      case None => NoCredential
      case Some(x) => Parsed(Ballot(v.mark, x, v.vote, mode))
  {
    var fields := Fields(v, ds, mode);
    FieldsHaveNoSeparator(v, ds, mode);
    SplitJoin(fields, ';');
    assert Split(Payload(v, ds, mode), ';') == fields;
    IntRoundTrip(v.mark);
    IntRoundTrip(v.vote);
    IntRoundTrip(mode);
    if ds.Some? {
      IntRoundTrip(ds.value);
      assert fields[1] != "None";
    }
  }

  /**
   * Submitting a payload is casting its ballot: a payload with a credential
   * is cast as the voter's ballot, one without changes nothing.
   */
  lemma SubmittedPayloadIsCast(box: Box, v: Voter, ds: Option<int>, mode: int, pub: PublicKey)
    requires pub.n > 0
    ensures VoteStep(box, Payload(v, ds, mode), pub) ==
      match ds
      case None => Step(box, NotOnList)
      case Some(x) => Cast(box, Ballot(v.mark, x, v.vote, mode), pub)
  {
    PayloadRoundTrip(v, ds, mode);
  }

  /**
   * Lines 197-200 and 216-219: the voter encrypts the payload in blocks, the
   * commission decrypts and concatenates them and casts the result.
   */
  method Submit(cik: Cik, v: Voter, ds: Option<int>, mode: int) returns (status: Status)
    requires cik.Valid()
    modifies cik
    ensures cik.Valid()
    ensures cik.voters == old(cik.voters)
    ensures Step(Box(cik.candidates, cik.bulletins), status) ==
              VoteStep(old(Box(cik.candidates, cik.bulletins)), Payload(v, ds, mode), cik.keys.Public())
  {
    var encryptData := EncryptData(v, ds, mode);
    var decodedData := cik.DecodeData(encryptData);
    status := cik.VerifyAndVote(decodedData);
  }

  /**
   * Lines 189-200 for one voter: the roster is updated as the request makes
   * it, a run that stops early leaves tally and ledger alone, and for a fresh
   * eligible id, a live signature, a residue mark and an invertible blinding
   * factor the initial vote is counted and recorded under the mark.
   */
  method EnrolAndVote(cik: Cik, v: Voter, voterKey: PublicKey, signature: Bytes) returns (status: Option<Status>)
    requires cik.Valid() && v.cikKey == cik.keys.Public()
    modifies cik
    ensures cik.Valid()
    ensures var honest := && Unbound(old(cik.voters), v.id)
                          && cik.liveness(voterKey, HideMark(v).1, signature)
                          && 0 <= v.mark < cik.keys.n
                          && Gcd(v.r % cik.keys.n, cik.keys.n) == 1
                          && v.vote in old(cik.candidates);
      honest ==>
        && status == Some(Counted(true))
        && cik.bulletins == old(cik.bulletins)[v.mark := v.vote]
        && cik.candidates == old(cik.candidates)[v.vote := old(cik.candidates)[v.vote] + 1]
    ensures cik.voters == Admit(old(cik.voters), v.id, voterKey, cik.liveness(voterKey, HideMark(v).1, signature)).voters
    ensures status.None? ==> cik.candidates == old(cik.candidates) && cik.bulletins == old(cik.bulletins)
  {
    var dataToCik := HideMark(v);
    var request := (dataToCik.0, dataToCik.1, signature);
    var accepted := cik.GetDataFromVoter(request, voterKey);
    if !accepted {
      return None;
    }
    var dataToVoter := cik.GetSign(request);
    var ds := GetUnblindDs(v, dataToVoter);
    if ds.None? {
      // number.inverse raises: the run stops here.
      return None;
    }
    ghost var box := Box(cik.candidates, cik.bulletins);
    var s := Submit(cik, v, ds, 1);
    SubmittedPayloadIsCast(box, v, ds, 1, cik.keys.Public());
    if 0 <= v.mark < cik.keys.n && v.vote in box.candidates {
      UnblindedCredentialVerifies(cik.keys, v);
    }
    return Some(s);
  }
}
