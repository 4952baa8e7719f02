/**
 * The ballot box of `CIK.verify_and_vote` as a function of its state: the
 * tally (`list_candidates`, candidate id to count) and the ledger
 * (`list_bulletins`, mark to candidate id). The ledger is keyed by mark and
 * never by voter id, which is the protocol's anonymity boundary.
 *
 * The source increments the tally for any known candidate, whether or not
 * the credential verifies; only the ledger write depends on it. This model
 * keeps that behaviour and proves what it does to the tally.
 */
module Ballot {
  import opened Wrappers
  import opened Arith
  import opened Text
  import opened Rsa
  import opened Sums

  /** The `mode` tag of a revision; every other value casts an initial vote. */
  const Revision := 2

  /** The four fields of a decoded payload `mark;ds;vote;mode`. */
  datatype Ballot = Ballot(mark: int, ds: int, vote: int, mode: int)

  /** What `split(";")` and the `int(...)` conversions make of a payload. */
  datatype Parsed =
    | Unparsable            // an IndexError or ValueError escapes the parse
    | NoCredential          // the credential field is the text "None"
    | Parsed(ballot: Ballot)

  datatype Box = Box(candidates: map<int, int>, bulletins: map<int, int>)

  datatype Status =
    | Malformed             // the payload could not be parsed: the call raises
    | NotOnList             // "you are not on the voter list"
    | UnknownCandidate      // "candidate is not on the ballot"
    | NoBulletin            // a revision for a mark with no ledger entry: KeyError
    | NoOldCandidate        // the ledger names a candidate the tally lacks: KeyError
    | Counted(valid: bool)  // the tally was incremented; valid says whether the credential verified

  datatype Step = Step(box: Box, status: Status)

  /** Lines 76-82: split on ';', test field 1 for "None", then convert the four fields. */
  function ParseBallot(result: string): Parsed
  {
    var parts := Split(result, ';');
    if |parts| < 2 then Unparsable
    else if parts[1] == "None" then NoCredential
    else if |parts| < 4 then Unparsable
    else
      match (ParseInt(parts[0]), ParseInt(parts[1]), ParseInt(parts[2]), ParseInt(parts[3]))
      case (Some(mark), Some(ds), Some(vote), Some(mode)) => Parsed(Ballot(mark, ds, vote, mode))
      case _ => Unparsable
  }

  /** Line 85: `pow(ds, e, n) % n`. */
  function Answer(ds: int, pub: PublicKey): (a: int)
    requires pub.n > 0
    ensures 0 <= a < pub.n
  {
    PowMod(ds, pub.e, pub.n) % pub.n
  }

  /** Lines 84-100 once the payload is parsed. */
  function Cast(box: Box, b: Ballot, pub: PublicKey): Step
    requires pub.n > 0
  {
    var c, l := box.candidates, box.bulletins;
    if b.vote !in c then Step(box, UnknownCandidate)
    else if Answer(b.ds, pub) != b.mark then
      Step(Box(c[b.vote := c[b.vote] + 1], l), Counted(false))
    else if b.mode == Revision then
      if b.mark !in l then Step(box, NoBulletin)
      else if l[b.mark] !in c then Step(box, NoOldCandidate)
      else
        var c1 := c[l[b.mark] := c[l[b.mark]] - 1];
        Step(Box(c1[b.vote := c1[b.vote] + 1], l[b.mark := b.vote]), Counted(true))
    else
      Step(Box(c[b.vote := c[b.vote] + 1], l[b.mark := b.vote]), Counted(true))
  }

  /** `verify_and_vote(result)` on the ballot box state. */
  function VoteStep(box: Box, result: string, pub: PublicKey): Step
    requires pub.n > 0
  {
    match ParseBallot(result)
    case Unparsable => Step(box, Malformed)
    case NoCredential => Step(box, NotOnList)
    case Parsed(b) => Cast(box, b, pub)
  }

  // ---------------------------------------------------------------------
  // Invariants of the ballot box

  /** Every ledger entry names a candidate of the tally. */
  ghost predicate LedgerNamesCandidates(box: Box)
  {
    forall m :: m in box.bulletins ==> box.bulletins[m] in box.candidates
  }

  /** The marks the ledger records for candidate c. */
  function MarksFor(ledger: map<int, int>, c: int): set<int>
  {
    set m | m in ledger && ledger[m] == c
  }

  /** The tally is exactly the ledger counted per candidate. */
  ghost predicate TallyMatchesLedger(box: Box)
  {
    forall c :: c in box.candidates ==> box.candidates[c] == |MarksFor(box.bulletins, c)|
  }

  // ---------------------------------------------------------------------
  // One call

  /** A ballot for a candidate that is not on the ballot changes nothing. */
  lemma UnknownCandidateChangesNothing(box: Box, b: Ballot, pub: PublicKey)
    requires pub.n > 0 && b.vote !in box.candidates
    ensures Cast(box, b, pub) == Step(box, UnknownCandidate)
  {
  }

  /** A payload whose credential field is "None" changes nothing. */
  lemma MissingCredentialChangesNothing(box: Box, result: string, pub: PublicKey)
    requires pub.n > 0
    requires |Split(result, ';')| >= 2 && Split(result, ';')[1] == "None"
    ensures VoteStep(box, result, pub) == Step(box, NotOnList)
  {
  }

  /**
   * For a known candidate the count rises by one whether or not the
   * credential verifies (a valid revision first takes one from the previous
   * choice); the ledger is written only when it verifies, and then maps the
   * mark to the new choice. The set of candidates never changes.
   */
  lemma KnownCandidateCounted(box: Box, b: Ballot, pub: PublicKey)
    requires pub.n > 0 && b.vote in box.candidates
    requires LedgerNamesCandidates(box)
    requires b.mode == Revision && Answer(b.ds, pub) == b.mark ==> b.mark in box.bulletins
    ensures var s := Cast(box, b, pub);
      && s.status == Counted(Answer(b.ds, pub) == b.mark)
      && s.box.candidates.Keys == box.candidates.Keys
      && (s.status.valid ==> s.box.bulletins == box.bulletins[b.mark := b.vote])
      && (!s.status.valid ==> s.box.bulletins == box.bulletins)
      && (!s.status.valid || b.mode != Revision || box.bulletins[b.mark] != b.vote ==>
            s.box.candidates[b.vote] == box.candidates[b.vote] + 1)
  {
    if Answer(b.ds, pub) == b.mark && b.mode == Revision {
      assert box.bulletins[b.mark] in box.candidates;
    }
  }

  /** A forged credential leaves the ledger alone but still adds one to the tally. */
  lemma ForgedCredentialStillCounted(box: Box, b: Ballot, pub: PublicKey)
    requires pub.n > 0 && b.vote in box.candidates && Answer(b.ds, pub) != b.mark
    ensures Cast(box, b, pub).box == Box(box.candidates[b.vote := box.candidates[b.vote] + 1], box.bulletins)
  {
  }

  /**
   * A verified initial vote records the mark's choice and adds one to that
   * candidate; no other count and no other ledger entry changes.
   */
  lemma InitialVoteRecorded(box: Box, b: Ballot, pub: PublicKey)
    requires pub.n > 0 && b.vote in box.candidates && Answer(b.ds, pub) == b.mark && b.mode != Revision
    ensures var s := Cast(box, b, pub);
      && s.status == Counted(true)
      && b.mark in s.box.bulletins && s.box.bulletins[b.mark] == b.vote
      && s.box.candidates[b.vote] == box.candidates[b.vote] + 1
      && (forall c :: c in box.candidates && c != b.vote ==> c in s.box.candidates && s.box.candidates[c] == box.candidates[c])
      && (forall m :: m in box.bulletins && m != b.mark ==> m in s.box.bulletins && s.box.bulletins[m] == box.bulletins[m])
  {
  }

  /** A verified revision of a mark with no ledger entry raises before changing anything. */
  lemma RevisionWithoutBulletinRaises(box: Box, b: Ballot, pub: PublicKey)
    requires pub.n > 0 && b.vote in box.candidates && Answer(b.ds, pub) == b.mark
    requires b.mode == Revision && b.mark !in box.bulletins
    ensures Cast(box, b, pub) == Step(box, NoBulletin)
  {
  }

  /**
   * A verified revision moves one vote from the mark's previous choice to the
   * new one and makes the ledger name the new choice; revising to the same
   * candidate leaves the tally as it was.
   */
  lemma RevisionMovesOneVote(box: Box, b: Ballot, pub: PublicKey)
    requires pub.n > 0 && b.vote in box.candidates && Answer(b.ds, pub) == b.mark
    requires b.mode == Revision && b.mark in box.bulletins && box.bulletins[b.mark] in box.candidates
    ensures var s := Cast(box, b, pub); var prev := box.bulletins[b.mark];
      && s.status == Counted(true)
      && s.box.bulletins == box.bulletins[b.mark := b.vote]
      && (prev == b.vote ==> s.box.candidates == box.candidates)
      && (prev != b.vote ==>
            s.box.candidates == box.candidates[prev := box.candidates[prev] - 1][b.vote := box.candidates[b.vote] + 1])
  {
    var c := box.candidates;
    var prev := box.bulletins[b.mark];
    if prev == b.vote {
      var c1 := c[prev := c[prev] - 1];
      assert c1[b.vote := c1[b.vote] + 1] == c;
    }
  }

  /**
   * An initial vote followed by a revision under the same mark and credential
   * counts exactly once, for the revised choice, and the ledger names that
   * choice.
   */
  lemma InitialThenRevision(box: Box, mark: int, ds: int, first: int, second: int, mode: int, pub: PublicKey)
    requires pub.n > 0 && Answer(ds, pub) == mark && mode != Revision
    requires first in box.candidates && second in box.candidates
    ensures var s1 := Cast(box, Ballot(mark, ds, first, mode), pub).box;
      var s2 := Cast(s1, Ballot(mark, ds, second, Revision), pub);
      && s2.status == Counted(true)
      && s2.box.candidates == box.candidates[second := box.candidates[second] + 1]
      && s2.box.bulletins == box.bulletins[mark := second]
  {
    var c := box.candidates;
    var s1 := Cast(box, Ballot(mark, ds, first, mode), pub).box;
    assert s1.candidates == c[first := c[first] + 1];
    var c1 := s1.candidates[first := s1.candidates[first] - 1];
    assert c1 == c;
  }

  /**
   * The sum of all counts rises by one with every counted ballot, forged or
   * not, except a verified revision, which leaves it unchanged.
   */
  lemma CountedTotal(box: Box, b: Ballot, pub: PublicKey, ids: seq<int>)
    requires pub.n > 0 && Enumerates(ids, box.candidates)
    requires Cast(box, b, pub).status.Counted?
    ensures var s := Cast(box, b, pub);
      && Enumerates(ids, s.box.candidates)
      && SumOver(s.box.candidates, ids) ==
           SumOver(box.candidates, ids) + (if s.status.valid && b.mode == Revision then 0 else 1)
  {
    var c := box.candidates;
    if Answer(b.ds, pub) == b.mark && b.mode == Revision {
      var prev := box.bulletins[b.mark];
      var c1 := c[prev := c[prev] - 1];
      TotalUpdate(c, ids, prev, c[prev] - 1);
      TotalUpdate(c1, ids, b.vote, c1[b.vote] + 1);
    } else {
      TotalUpdate(c, ids, b.vote, c[b.vote] + 1);
    }
  }

  /** A call never adds or removes candidates and keeps every ledger entry a candidate. */
  lemma StepKeepsLedgerNamesCandidates(box: Box, result: string, pub: PublicKey)
    requires pub.n > 0 && LedgerNamesCandidates(box)
    ensures var s := VoteStep(box, result, pub);
      && s.box.candidates.Keys == box.candidates.Keys
      && LedgerNamesCandidates(s.box)
      && s.status != NoOldCandidate
  {
  }

  // ---------------------------------------------------------------------
  // The tally and the ledger

  /**
   * The tally stays the ledger counted per candidate under an honest ballot:
   * its credential verifies, an initial vote brings a mark the ledger does
   * not hold yet, and a revision a mark it does hold.
   */
  lemma HonestBallotKeepsTallyMatchingLedger(box: Box, b: Ballot, pub: PublicKey)
    requires pub.n > 0 && LedgerNamesCandidates(box) && TallyMatchesLedger(box)
    requires b.vote in box.candidates && Answer(b.ds, pub) == b.mark
    requires b.mode == Revision <==> b.mark in box.bulletins
    ensures TallyMatchesLedger(Cast(box, b, pub).box)
  {
    var s := Cast(box, b, pub).box;
    var l := box.bulletins;
    var l' := l[b.mark := b.vote];
    assert s.bulletins == l';
    forall c | c in s.candidates
      ensures s.candidates[c] == |MarksFor(l', c)|
    {
      if b.mark in l {
        MarksForUpdateExisting(l, b.mark, b.vote, c);
      } else {
        MarksForUpdateFresh(l, b.mark, b.vote, c);
      }
    }
  }

  /** A forged credential breaks that agreement: its candidate is counted with no ledger entry. */
  lemma ForgedCredentialBreaksTallyMatchingLedger(box: Box, b: Ballot, pub: PublicKey)
    requires pub.n > 0 && TallyMatchesLedger(box)
    requires b.vote in box.candidates && Answer(b.ds, pub) != b.mark
    ensures !TallyMatchesLedger(Cast(box, b, pub).box)
  {
    var s := Cast(box, b, pub).box;
    assert s.candidates[b.vote] == |MarksFor(s.bulletins, b.vote)| + 1;
  }

  /**
   * A verified initial vote whose mark the ledger already records for another
   * candidate also breaks that agreement: the entry is overwritten, so the
   * earlier candidate keeps its count but loses the mark.
   */
  lemma MarkCollisionBreaksTallyMatchingLedger(box: Box, b: Ballot, pub: PublicKey)
    requires pub.n > 0 && TallyMatchesLedger(box)
    requires b.vote in box.candidates && Answer(b.ds, pub) == b.mark && b.mode != Revision
    requires b.mark in box.bulletins && box.bulletins[b.mark] != b.vote
    requires box.bulletins[b.mark] in box.candidates
    ensures !TallyMatchesLedger(Cast(box, b, pub).box)
  {
    var s := Cast(box, b, pub).box;
    var prev := box.bulletins[b.mark];
    MarksForUpdateExisting(box.bulletins, b.mark, b.vote, prev);
    assert s.candidates[prev] == |MarksFor(s.bulletins, prev)| + 1;
  }

  lemma MarksForUpdateFresh(l: map<int, int>, m: int, v: int, c: int)
    requires m !in l
    ensures |MarksFor(l[m := v], c)| == |MarksFor(l, c)| + (if c == v then 1 else 0)
  {
    if c == v {
      assert MarksFor(l[m := v], c) == MarksFor(l, c) + {m};
    } else {
      assert MarksFor(l[m := v], c) == MarksFor(l, c);
    }
  }

  lemma MarksForUpdateExisting(l: map<int, int>, m: int, v: int, c: int)
    requires m in l
    ensures |MarksFor(l[m := v], c)| ==
      |MarksFor(l, c)| - (if c == l[m] then 1 else 0) + (if c == v then 1 else 0)
  {
    var without := MarksFor(l, c) - {m};
    assert |without| == |MarksFor(l, c)| - (if c == l[m] then 1 else 0);
    if c == v {
      assert MarksFor(l[m := v], c) == without + {m};
    } else {
      assert MarksFor(l[m := v], c) == without;
    }
  }
}
