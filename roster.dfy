/**
 * The eligibility roster of `CIK.get_data_from_voter`: a map from each
 * eligible voter id to the verification key bound to it, `None` until the
 * id's first contact. The key is bound before the liveness signature is
 * checked, so a failed check still uses the id up.
 */
module Roster {
  import opened Wrappers
  import opened Rsa

  type Bytes = seq<bv8>

  /** `list_voters`: voter id to the verification key bound to it, if any. */
  type Slots = map<int, Option<PublicKey>>

  /** id is on the roster and has not been bound to a key yet. */
  predicate Unbound(voters: Slots, id: int)
  {
    id in voters && voters[id].None?
  }

  /** The roster after a request, and the request's answer. */
  datatype Admission = Admission(voters: Slots, accepted: bool)

  /**
   * `get_data_from_voter` with the outcome `live` of the RSASSA-PKCS1-v1_5
   * check on the blinded mark. The request is accepted exactly when the id is
   * unbound and the check passes; an unbound id is bound to the presented key
   * either way; any other request leaves the roster as it was.
   */
  function Admit(voters: Slots, id: int, key: PublicKey, live: bool): (a: Admission)
    ensures a.accepted <==> Unbound(voters, id) && live
    ensures a.voters.Keys == voters.Keys
    ensures Unbound(voters, id) ==> a.voters[id] == Some(key)
    ensures forall other :: other in voters && other != id ==> a.voters[other] == voters[other]
    ensures !Unbound(voters, id) ==> a.voters == voters
  {
    if Unbound(voters, id) then Admission(voters[id := Some(key)], live)
    else Admission(voters, false)
  }

  /** One call of `get_data_from_voter(voter_data, pub_key_voter)`. */
  datatype Request = Request(id: int, markBlind: int, signature: Bytes, key: PublicKey)

  /** The roster after a series of requests, and each request's answer in order. */
  function Run(voters: Slots, reqs: seq<Request>, liveness: (PublicKey, int, Bytes) -> bool): (out: (Slots, seq<bool>))
    ensures |out.1| == |reqs|
    decreases |reqs|
  {
    if |reqs| == 0 then (voters, [])
    else
      var q := reqs[0];
      var a := Admit(voters, q.id, q.key, liveness(q.key, q.markBlind, q.signature));
      var rest := Run(a.voters, reqs[1..], liveness);
      (rest.0, [a.accepted] + rest.1)
  }

  /** How many of the requests for id were accepted. */
  function Accepted(reqs: seq<Request>, answers: seq<bool>, id: int): nat
    requires |answers| == |reqs|
    decreases |reqs|
  {
    if |reqs| == 0 then 0
    else (if answers[0] && reqs[0].id == id then 1 else 0) + Accepted(reqs[1..], answers[1..], id)
  }

  /**
   * Each id is served at most once over any series of requests, and not at
   * all when it is off the roster or already bound at the start.
   */
  lemma {:induction false} AtMostOneIssuance(voters: Slots, reqs: seq<Request>,
                                             liveness: (PublicKey, int, Bytes) -> bool, id: int)
    ensures Accepted(reqs, Run(voters, reqs, liveness).1, id) <= if Unbound(voters, id) then 1 else 0
    decreases |reqs|
  {
    if |reqs| > 0 {
      var q := reqs[0];
      var a := Admit(voters, q.id, q.key, liveness(q.key, q.markBlind, q.signature));
      var answers := Run(voters, reqs, liveness).1;
      assert answers[1..] == Run(a.voters, reqs[1..], liveness).1;
      AtMostOneIssuance(a.voters, reqs[1..], liveness, id);
      if q.id == id && Unbound(voters, id) {
        assert !Unbound(a.voters, id);
      }
    }
  }

  /**
   * A bound key never changes and the roster's ids never change; an id that
   * is unbound at the start is bound after any series holding a request for it.
   */
  lemma {:induction false} BindingIsPermanent(voters: Slots, reqs: seq<Request>,
                                              liveness: (PublicKey, int, Bytes) -> bool, id: int)
    ensures var after := Run(voters, reqs, liveness).0;
      && after.Keys == voters.Keys
      && (id in voters && voters[id].Some? ==> after[id] == voters[id])
      && (id in voters && (exists i :: 0 <= i < |reqs| && reqs[i].id == id) ==> after[id].Some?)
    decreases |reqs|
  {
    if |reqs| > 0 {
      var q := reqs[0];
      var a := Admit(voters, q.id, q.key, liveness(q.key, q.markBlind, q.signature));
      BindingIsPermanent(a.voters, reqs[1..], liveness, id);
      if id in voters && (exists i :: 0 <= i < |reqs| && reqs[i].id == id) {
        var i :| 0 <= i < |reqs| && reqs[i].id == id;
        if i > 0 {
          assert reqs[1..][i - 1].id == id;
        }
      }
    }
  }

  /**
   * Once an id is off the roster or bound, every later request for it is
   * refused, whatever its key and signature.
   */
  lemma {:induction false} StaysRefused(voters: Slots, reqs: seq<Request>,
                                        liveness: (PublicKey, int, Bytes) -> bool, id: int, j: int)
    requires !Unbound(voters, id) && 0 <= j < |reqs| && reqs[j].id == id
    ensures !Run(voters, reqs, liveness).1[j]
    decreases |reqs|
  {
    var q := reqs[0];
    var a := Admit(voters, q.id, q.key, liveness(q.key, q.markBlind, q.signature));
    var answers := Run(voters, reqs, liveness).1;
    if j > 0 {
      assert answers[j] == Run(a.voters, reqs[1..], liveness).1[j - 1];
      assert !Unbound(a.voters, id);
      StaysRefused(a.voters, reqs[1..], liveness, id, j - 1);
    }
  }

  /**
   * Only the first request for an id can be accepted: the first one binds
   * the id (or finds it off the roster or bound), so every later request for
   * the same id is refused.
   */
  lemma {:induction false} LaterRequestRefused(voters: Slots, reqs: seq<Request>,
                                               liveness: (PublicKey, int, Bytes) -> bool, i: int, j: int)
    requires 0 <= i < j < |reqs| && reqs[i].id == reqs[j].id
    ensures !Run(voters, reqs, liveness).1[j]
    decreases |reqs|
  {
    var q := reqs[0];
    var a := Admit(voters, q.id, q.key, liveness(q.key, q.markBlind, q.signature));
    var answers := Run(voters, reqs, liveness).1;
    assert answers[j] == Run(a.voters, reqs[1..], liveness).1[j - 1];
    if i == 0 {
      assert !Unbound(a.voters, q.id);
      StaysRefused(a.voters, reqs[1..], liveness, q.id, j - 1);
    } else {
      LaterRequestRefused(a.voters, reqs[1..], liveness, i - 1, j - 1);
    }
  }
}
