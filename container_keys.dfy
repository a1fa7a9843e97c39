/** `key_generator_for_containers.py`: splits a fresh master into the two
    shares node2 and node3 hold, and writes the three hex files. The two
    random 16-byte shares (`secrets.token_bytes(16)`) arrive as inputs. */
module ContainerKeys {
  import opened Wrappers
  import opened Bytes
  import opened PyText
  import opened Hex
  import opened ShareStore

  /** Length of each share and of the master, in bytes. */
  const ShareLen: nat := 16

  /** The texts written to `node2/share.txt`, `node3/share.txt` and
      `master_key.txt`, and the master itself (never written as bytes). */
  datatype Provisioned = Provisioned(node2Share: string, node3Share: string, masterKey: string, master: Bytes)

  /** The script's straight-line body: `master = xor(s2, s3)`, then the
      lower-case hex of each into its file. */
  function Provision(s2: Bytes, s3: Bytes): (p: Provisioned)
    requires |s2| == ShareLen && |s3| == ShareLen
    ensures |p.master| == ShareLen
    ensures |p.node2Share| == |p.node3Share| == |p.masterKey| == 2 * ShareLen
  {
    var master := Xor(s2, s3);
    Provisioned(Hexlify(s2), Hexlify(s3), Hexlify(master), master)
  }

  /** How `make_secure_partition_with_master.py` (lines 9-10) reads
      `master_key.txt`: strip, then unhexlify (`None` where it raises). */
  function ReadMasterKeyFile(text: string): (master: Option<Bytes>)
    ensures master.Some? <==> IsHex(Strip(text))
  {
    Unhexlify(Strip(text))
  }

  /** `master_key.txt` as written, bare hex with no whitespace, reads back
      as the bytes it encodes. */
  lemma MasterKeyFileRoundTrip(m: Bytes)
    ensures ReadMasterKeyFile(Hexlify(m)) == Some(m)
  {
    HexIsStripped(m);
    StripPadded([], Hexlify(m), []);
    assert [] + Hexlify(m) + [] == Hexlify(m);
    HexRoundTrip(m);
  }

  /** A share file as written, bare hex with no whitespace, reads back
      through node3's `read_share` as the share. */
  lemma ShareFileRoundTrip(b: Bytes)
    requires b != []
    ensures ReadShare(Some(Hexlify(b))) == Some(b)
  {
    ReadHexShareFile(b, [], []);
    assert [] + Hexlify(b) + [] == Hexlify(b);
  }

  /** Each share file reads back as the share written into it, and the
      master-key file as the master. */
  lemma ProvisionedFilesRead(s2: Bytes, s3: Bytes)
    requires |s2| == ShareLen && |s3| == ShareLen
    ensures ReadShare(Some(Provision(s2, s3).node2Share)) == Some(s2)
    ensures ReadShare(Some(Provision(s2, s3).node3Share)) == Some(s3)
    ensures ReadMasterKeyFile(Provision(s2, s3).masterKey) == Some(Xor(s2, s3))
  {
    ShareFileRoundTrip(s2);
    ShareFileRoundTrip(s3);
    MasterKeyFileRoundTrip(Xor(s2, s3));
  }

  /** Either share together with the master gives back the other: the split
      is the xor one node reconstruction inverts. */
  lemma ProvisionSplits(s2: Bytes, s3: Bytes)
    requires |s2| == ShareLen && |s3| == ShareLen
    ensures Xor(Provision(s2, s3).master, s3) == s2
    ensures Xor(Provision(s2, s3).master, s2) == s3
    ensures Xor(s3, s2) == Provision(s2, s3).master
  {
    XorCancels(s2, s3);
    XorCommutes(s2, s3);
    XorCancels(s3, s2);
  }
}
