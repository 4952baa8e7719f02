/**
 * The voter's side of the protocol (class `Voter`): blinding the secret mark,
 * removing the blinding factor from the commission's signature, and building
 * and cutting up the encrypted cast payload. The mark, the blinding factor r
 * and the vote are inputs here (the source draws the first two with
 * `number.getRandomRange` and takes the vote from the driver).
 */
module VoterAgent {
  import opened Wrappers
  import opened Arith
  import opened Text
  import opened Rsa
  import opened Oaep

  /** Plaintext characters per encrypted block. */
  const BlockSize := 40

  /**
   * The fields of a `Voter` that the modelled methods read: the commission's
   * public key, the voter id, the secret mark, the blinding factor and the
   * current vote. The voter's own signing key is not part of this model.
   */
  datatype Voter = Voter(cikKey: PublicKey, id: int, mark: int, r: int, vote: int)

  /**
   * The arithmetic of `hide_mark`: the voter id and the blinded mark
   * `pow(r, e, n) * mark % n`, which is r^e * mark reduced modulo n.
   */
  function HideMark(v: Voter): (data: (int, int))
    requires v.cikKey.n > 0
    ensures data.0 == v.id
    ensures 0 <= data.1 < v.cikKey.n
    ensures data.1 == (Pow(v.r, v.cikKey.e) * v.mark) % v.cikKey.n
  {
    var blind := PowMod(v.r, v.cikKey.e, v.cikKey.n);
    ModMulLeft(Pow(v.r, v.cikKey.e), v.mark, v.cikKey.n);
    (v.id, blind * v.mark % v.cikKey.n)
  }

  /**
   * `get_unblind_ds`: the commission's signature times the inverse of r
   * modulo n, deliberately left unreduced. When r has no inverse the library
   * raises, here `None`. The credential ds satisfies r * ds = signature
   * modulo n.
   */
  function GetUnblindDs(v: Voter, cikData: (int, int)): (ds: Option<int>)
    requires v.cikKey.n > 1
    ensures ds.Some? <==> Gcd(v.r % v.cikKey.n, v.cikKey.n) == 1
    ensures ds.Some? ==> (v.r * ds.value) % v.cikKey.n == cikData.1 % v.cikKey.n
    ensures ds.Some? ==> ds.value == Inverse(v.r, v.cikKey.n).value * cikData.1
  {
    var n := v.cikKey.n;
    match Inverse(v.r, n)
    case None => None
    case Some(inv) =>
      var signatureDs := cikData.1;
      assert (v.r * (inv * signatureDs)) % n == signatureDs % n by {
        assert v.r * (inv * signatureDs) == (v.r * inv) * signatureDs;
        ModMulLeft(v.r * inv, signatureDs, n);
      }
      Some(inv * signatureDs)
  }

  /** Python's `str` of the credential, which is `None` for a voter never served. */
  function CredentialText(ds: Option<int>): string
  {
    match ds
    case None => "None"
    case Some(x) => IntToString(x)
  }

  /** The four fields of the payload: `str(mark)`, `str(ds)`, `str(vote)`, `str(mode)`. */
  function Fields(v: Voter, ds: Option<int>, mode: int): seq<string>
  {
    [IntToString(v.mark), CredentialText(ds), IntToString(v.vote), IntToString(mode)]
  }

  /** Line 156: the plaintext `mark;ds;vote;mode`, the four fields joined with ';'. */
  function Payload(v: Voter, ds: Option<int>, mode: int): string
  {
    Join(Fields(v, ds, mode), ';')
  }

  /** The end of piece i: the block boundary, or the end of the data for the last piece. */
  function PieceEnd(len: nat, i: nat): nat
  {
    if BlockSize * i + BlockSize <= len then BlockSize * i + BlockSize else len
  }

  /**
   * `encrypt_data`: the payload cut into ceil(len / 40) pieces, each
   * encrypted on its own. Every piece but the last holds exactly 40
   * characters, the last between 1 and 40, and the pieces in order make up
   * the payload.
   */
  method EncryptData(v: Voter, ds: Option<int>, mode: int) returns (encryptData: seq<Ciphertext>)
    ensures |encryptData| == (|Payload(v, ds, mode)| + BlockSize - 1) / BlockSize
    ensures forall j :: 0 <= j < |encryptData| ==> 0 < |Decrypt(encryptData[j])| <= BlockSize
    ensures forall j :: 0 <= j < |encryptData| - 1 ==> |Decrypt(encryptData[j])| == BlockSize
    ensures Flatten(Plaintexts(encryptData)) == Payload(v, ds, mode)
  {
    var dataForEncrypt := Payload(v, ds, mode);
    var len := |dataForEncrypt|;
    var count := (len + BlockSize - 1) / BlockSize;
    encryptData := [];
    for i := 0 to count
      invariant |encryptData| == i
      invariant forall j :: 0 <= j < i ==> 0 < |Decrypt(encryptData[j])| <= BlockSize
      invariant forall j :: 0 <= j < i && j < count - 1 ==> |Decrypt(encryptData[j])| == BlockSize
      invariant Flatten(Plaintexts(encryptData)) == dataForEncrypt[..PrefixEnd(len, i)]
    {
      PieceBounds(len, i, count);
      var piece;
      if len >= BlockSize + i * BlockSize {
        piece := dataForEncrypt[BlockSize * i .. BlockSize + i * BlockSize];
      } else {
        var endOfData := dataForEncrypt[BlockSize * i .. len];
        piece := endOfData;
      }
      AppendPiece(encryptData, Encrypt(piece));
      PrefixGrows(dataForEncrypt, BlockSize * i, PieceEnd(len, i));
      encryptData := encryptData + [Encrypt(piece)];
    }
    AllPieces(len, count);
  }

  /** How much of the data the first i pieces cover. */
  function PrefixEnd(len: nat, i: nat): nat
  {
    if BlockSize * i <= len then BlockSize * i else len
  }

  /** Where piece i starts and ends when there are ceil(len / 40) pieces. */
  lemma PieceBounds(len: nat, i: int, count: int)
    requires count == (len + BlockSize - 1) / BlockSize && 0 <= i < count
    ensures PrefixEnd(len, i) == BlockSize * i && PrefixEnd(len, i + 1) == PieceEnd(len, i)
    ensures BlockSize * i < PieceEnd(len, i) <= BlockSize * i + BlockSize
    ensures i < count - 1 ==> PieceEnd(len, i) == BlockSize * i + BlockSize <= len
    ensures i == count - 1 ==> PieceEnd(len, i) == len
    ensures (len >= BlockSize + i * BlockSize) == (PieceEnd(len, i) == BlockSize * i + BlockSize)
  {
  }

  /** ceil(len / 40) pieces cover the whole data. */
  lemma AllPieces(len: nat, count: int)
    requires count == (len + BlockSize - 1) / BlockSize
    ensures count >= 0 && PrefixEnd(len, count) == len
  {
  }

  lemma PrefixGrows(s: string, i: nat, j: nat)
    requires i <= j <= |s|
    ensures s[..j] == s[..i] + s[i..j]
  {
  }
}
