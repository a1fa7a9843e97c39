/** The quorum check, combination and decrypt step of
    `/request-and-reconstruct` (node3/app.py lines 136-169). */
module Reconstruction {
  import opened Wrappers
  import opened Bytes

  /** Shares needed before the node combines them. */
  const Quorum: nat := 2
  /** Where the decrypted partition is written. */
  const OutPath: string := "/secure/data.txt"

  /** The library calls the model does not look into: `sha256(...).digest()`,
      `base64.urlsafe_b64encode` and `Fernet(key).decrypt`, which yields
      `None` where it raises (wrong key, tampered or malformed token). */
  datatype Crypto = Crypto(
    sha256: Bytes -> Bytes,
    urlsafeB64: Bytes -> Bytes,
    decrypt: (Bytes, Bytes) -> Option<Bytes>)

  /** `base64.urlsafe_b64encode(sha256(master).digest())`. */
  function FernetKey(c: Crypto, master: Bytes): Bytes {
    c.urlsafeB64(c.sha256(master))
  }

  /** How `/request-and-reconstruct` ends. */
  datatype Outcome =
    | NotEnoughShares(have: nat)    // {"error": "not enough shares", "have": have}
    | PartitionMissing              // {"error": "secure_partition not found"}
    | DecryptFailed                 // {"error": "decrypt failed", "exc": ...}
    | Decrypted(plaintext: Bytes)   // plaintext written to OutPath

  /** The HTTP status each outcome is answered with. */
  function StatusCode(o: Outcome): (code: int)
    ensures code == 200 <==> o.Decrypted?
    ensures code == 400 <==> o.NotEnoughShares?
    ensures code == 500 <==> o.PartitionMissing? || o.DecryptFailed?
  {
    match o
    case NotEnoughShares(_) => 400
    case PartitionMissing => 500
    case DecryptFailed => 500
    case Decrypted(_) => 200
  }

  /** Fewer than two shares is a 400 naming how many there were; otherwise
      the first two shares are combined, and the partition (`None` when the
      file does not exist) is decrypted under the derived key and written
      out (`outWritable` false when writing the output file raises). */
  function Reconstruct(shares: seq<Bytes>, partition: Option<Bytes>, c: Crypto, outWritable: bool): (o: Outcome)
    ensures o.NotEnoughShares? <==> |shares| < Quorum
    ensures o.NotEnoughShares? ==> o.have == |shares|
    ensures o.PartitionMissing? <==> |shares| >= Quorum && partition.None?
  {
    if |shares| < Quorum then NotEnoughShares(|shares|)
    else
      var master := Xor(shares[0], shares[1]);
      var key := FernetKey(c, master);
      if partition.None? then PartitionMissing
      else match c.decrypt(key, partition.value)
        case None => DecryptFailed
        case Some(data) => if outWritable then Decrypted(data) else DecryptFailed
  }

  /** Decryption succeeds exactly when there is a quorum, a partition that
      decrypts under the key derived from the xor of the first two shares,
      and a writable output; the plaintext is what `decrypt` returned. */
  lemma ReconstructDecrypts(shares: seq<Bytes>, partition: Option<Bytes>, c: Crypto, outWritable: bool)
    ensures Reconstruct(shares, partition, c, outWritable).Decrypted? <==>
              |shares| >= Quorum && partition.Some? && outWritable
              && c.decrypt(FernetKey(c, Xor(shares[0], shares[1])), partition.value).Some?
    ensures Reconstruct(shares, partition, c, outWritable).Decrypted? ==>
              c.decrypt(FernetKey(c, Xor(shares[0], shares[1])), partition.value)
              == Some(Reconstruct(shares, partition, c, outWritable).plaintext)
  {
  }

  /** Only the first two shares matter: any further ones are ignored. */
  lemma ReconstructUsesFirstTwo(shares: seq<Bytes>, partition: Option<Bytes>, c: Crypto, outWritable: bool)
    requires |shares| >= Quorum
    ensures Reconstruct(shares, partition, c, outWritable) == Reconstruct(shares[..2], partition, c, outWritable)
  {
  }

  /** The two shares may arrive in either order. */
  lemma ReconstructEitherOrder(a: Bytes, b: Bytes, rest: seq<Bytes>, partition: Option<Bytes>, c: Crypto, outWritable: bool)
    ensures Reconstruct([a, b] + rest, partition, c, outWritable) == Reconstruct([b, a] + rest, partition, c, outWritable)
  {
    XorCommutes(a, b);
  }

  /** Two shares whose xor is the master, and a partition that decrypts
      under the master's Fernet key, give back the partition's plaintext. */
  lemma ReconstructRecoversMaster(shares: seq<Bytes>, master: Bytes, partition: Bytes, plaintext: Bytes, c: Crypto)
    requires |shares| >= Quorum && Xor(shares[0], shares[1]) == master
    requires c.decrypt(FernetKey(c, master), partition) == Some(plaintext)
    ensures Reconstruct(shares, Some(partition), c, true) == Decrypted(plaintext)
  {
  }
}
