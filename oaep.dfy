/**
 * RSAES-OAEP (section 7.1 of RFC 8017) as the cast payload uses it. The
 * cipher itself is not modelled: a block is a sealed plaintext, and
 * decryption with the matching private key gives that plaintext back.
 */
module Oaep {
  import opened Text

  datatype Ciphertext = Sealed(plaintext: string)

  /** `PKCS1_OAEP.new(pub).encrypt(s.encode())`. */
  function Encrypt(s: string): (c: Ciphertext)
    ensures Decrypt(c) == s
  {
    Sealed(s)
  }

  /** `PKCS1_OAEP.new(priv).decrypt(c).decode()`. */
  function Decrypt(c: Ciphertext): string
  {
    c.plaintext
  }

  /** The plaintexts of a list of blocks, in order. */
  function Plaintexts(cs: seq<Ciphertext>): (ps: seq<string>)
    ensures |ps| == |cs| && forall i :: 0 <= i < |cs| ==> ps[i] == Decrypt(cs[i])
  {
    seq(|cs|, i requires 0 <= i < |cs| => Decrypt(cs[i]))
  }

  /** Appending a block appends its plaintext to the concatenation of the plaintexts. */
  lemma AppendPiece(cs: seq<Ciphertext>, c: Ciphertext)
    ensures Flatten(Plaintexts(cs + [c])) == Flatten(Plaintexts(cs)) + Decrypt(c)
  {
    assert Plaintexts(cs + [c])[..|cs|] == Plaintexts(cs);
  }
}
