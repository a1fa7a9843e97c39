/** The deployment end to end: `key_generator_for_containers.py` writes the
    two share files and `master_key.txt`; the partition is encrypted under
    the key derived from `master_key.txt`; one node, holding one share file
    and asking the other node for its share, decrypts the partition. */
module Deployment {
  import opened Wrappers
  import opened Bytes
  import opened ShareStore
  import opened ShareExchange
  import opened Reconstruction
  import opened PyText
  import opened NodeConfig
  import opened ContainerKeys
  import opened Federation

  /** A node that asks one neighbour serving a non-empty share gathers
      exactly that share. */
  lemma GatherOneShare(n: string, b: Bytes)
    requires b != []
    ensures SharesOf(Gather([n], Decoded([ShareReply(Some(b))]))) == [b]
  {
    ShareExchangeRoundTrip(Some(b));
    assert Decoded([ShareReply(Some(b))]) == [Some(b)];
    assert Gather([n], [Some(b)]) == [Received(n, b)];
  }

  /** The shares a node combines when its share file is `own` and its only
      neighbour `n` serves the share file `theirs`. */
  function SharesAtNode(n: string, theirs: string, own: string): seq<Bytes> {
    AllShares(SharesOf(Gather([n], Decoded([ShareReply(ReadShare(Some(theirs)))]))), ReadShare(Some(own)))
  }

  /** node3, asking node2, combines `[s2, s3]`; node2, asking node3,
      combines `[s3, s2]`. Either way the xor of the first two is the master
      written to `master_key.txt`. */
  lemma {:induction false} NodesCombineMaster(s2: Bytes, s3: Bytes, n2: string, n3: string)
    requires |s2| == ShareLen && |s3| == ShareLen
    ensures SharesAtNode(n2, Provision(s2, s3).node2Share, Provision(s2, s3).node3Share) == [s2, s3]
    ensures SharesAtNode(n3, Provision(s2, s3).node3Share, Provision(s2, s3).node2Share) == [s3, s2]
    ensures ReadMasterKeyFile(Provision(s2, s3).masterKey) == Some(Xor(s2, s3))
    ensures Xor(s3, s2) == Xor(s2, s3)
  {
    ProvisionedFilesRead(s2, s3);
    GatherOneShare(n2, s2);
    GatherOneShare(n3, s3);
    XorCommutes(s2, s3);
  }

  /** If the partition was encrypted under the key derived from
      `master_key.txt`, then node3 (asking node2) and node2 (asking node3)
      both decrypt it. */
  lemma {:induction false} NodesDecryptPartition(s2: Bytes, s3: Bytes, n2: string, n3: string,
                                                master: Bytes, partition: Bytes, plaintext: Bytes, c: Crypto)
    requires |s2| == ShareLen && |s3| == ShareLen
    requires ReadMasterKeyFile(Provision(s2, s3).masterKey) == Some(master)
    requires c.decrypt(FernetKey(c, master), partition) == Some(plaintext)
    ensures Reconstruct(SharesAtNode(n2, Provision(s2, s3).node2Share, Provision(s2, s3).node3Share),
                        Some(partition), c, true) == Decrypted(plaintext)
    ensures Reconstruct(SharesAtNode(n3, Provision(s2, s3).node3Share, Provision(s2, s3).node2Share),
                        Some(partition), c, true) == Decrypted(plaintext)
  {
    NodesCombineMaster(s2, s3, n2, n3);
    ReconstructRecoversMaster([s2, s3], master, partition, plaintext, c);
    ReconstructRecoversMaster([s3, s2], master, partition, plaintext, c);
  }

  /** The same run through node3's handler: node3 starts with `NEIGHBORS`
      set to node2's address, node2 with `NEIGHBORS` unset; node3 asks node2
      once, and decrypts the partition. */
  method Node3Reconstructs(s2: Bytes, s3: Bytes, n2: string, master: Bytes,
                           partition: Bytes, plaintext: Bytes, c: Crypto)
    returns (outcome: Outcome, requested: seq<string>)
    requires |s2| == ShareLen && |s3| == ShareLen
    requires ReadMasterKeyFile(Provision(s2, s3).masterKey) == Some(master)
    requires c.decrypt(FernetKey(c, master), partition) == Some(plaintext)
    requires n2 != [] && IsStripped(n2) && ',' !in n2
    ensures outcome == Decrypted(plaintext)
    ensures requested == [SendShareUrl(n2)]
  {
    var p := Provision(s2, s3);
    NeighborsRoundTrip([n2]);
    NoNeighborsWhenBlank(None);
    var node := new Node(LoadConfig(Some("node3"), Some(n2)));
    var node2 := new Node(LoadConfig(Some("node2"), None));
    var reply := node2.SendShare(Some(p.node2Share));
    outcome, requested := node.RequestAndReconstruct(Some(p.node3Share), [reply], Some(partition), c, true);
    NodesDecryptPartition(s2, s3, n2, n2, master, partition, plaintext, c);
    UrlsAsked([n2]);
  }
}
