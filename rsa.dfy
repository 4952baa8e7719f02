/**
 * The election authority's RSA key as the blind signature uses it: raw
 * exponentiation modulo n, with no hashing or padding of the signed value.
 * Key generation (`RSA.generate(1024)`) is not part of this model; a key is
 * taken as given, together with the relation that makes e and d inverse
 * exponents.
 */
module Rsa {
  import opened Arith

  datatype PublicKey = PublicKey(n: int, e: nat)

  datatype RsaKey = RsaKey(n: int, e: nat, d: nat)
  {
    /** The public half of the key: the modulus and the verification exponent. */
    function Public(): PublicKey
    {
      PublicKey(n, e)
    }
  }

  /**
   * The RSA key relation, taken as a hypothesis instead of Euler's theorem:
   * raising to e * d is the identity on residues modulo n.
   */
  ghost predicate KeyRelation(k: RsaKey)
  {
    k.n > 1 && forall x :: 0 <= x < k.n ==> PowMod(x, k.e * k.d, k.n) == x
  }

  /** Signing with d and then raising to e gives the signed residue back. */
  lemma SignThenCheck(k: RsaKey, x: int)
    requires KeyRelation(k) && 0 <= x < k.n
    ensures PowMod(PowMod(x, k.d, k.n), k.e, k.n) == x
  {
    PowModBase(Pow(x, k.d), k.e, k.n);
    PowPow(x, k.d, k.e);
    assert k.d * k.e == k.e * k.d;
    assert PowMod(x, k.e * k.d, k.n) == x;
  }
}
