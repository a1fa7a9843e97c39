/** The node's in-memory federation state (`status_state` in node3/app.py)
    and the three route handlers that change it. Each handler runs as one
    atomic step; its I/O arrives as parameters: the share file's text, each
    neighbour's reply, the partition file's bytes. */
module Federation {
  import opened Wrappers
  import opened Bytes
  import opened Hex
  import opened NodeConfig
  import opened ShareStore
  import opened ShareExchange
  import opened Reconstruction

  /** The JSON body of `/federation-status`. */
  datatype StatusReport = StatusReport(
    node: string, status: string, hasShare: bool,
    shareSent: seq<string>, shareReceived: seq<string>,
    canReconstruct: bool, neighbors: seq<string>)

  class Node {
    const name: string
    const neighbors: seq<string>
    var hasShare: bool
    var shareSent: seq<string>
    var shareReceived: seq<string>
    var canReconstruct: bool

    /** `share_sent` only ever records this node's own name, and
        `share_received` only configured neighbours. */
    ghost predicate Valid()
      reads this
    {
      (forall x :: x in shareSent ==> x == name)
      && (forall x :: x in shareReceived ==> x in neighbors)
    }

    /** Process start: the configuration read from the environment (see
        NodeConfig.LoadConfig), empty federation state. */
    constructor (config: Config)
      ensures Valid()
      ensures name == config.name && neighbors == config.neighbors
      ensures !hasShare && shareSent == [] && shareReceived == [] && !canReconstruct
    {
      name := config.name;
      neighbors := config.neighbors;
      hasShare, shareSent, shareReceived, canReconstruct := false, [], [], false;
    }

    /** `/federation-status` (lines 81-95): recomputes `has_share` from the
        share file and `can_reconstruct` from the quorum formula; the two
        logs are untouched. */
    method FederationStatus(shareFile: Option<string>) returns (report: StatusReport)
      requires Valid()
      modifies this
      ensures Valid()
      ensures hasShare == ReadShare(shareFile).Some?
      ensures canReconstruct == (|shareReceived| + (if hasShare then 1 else 0) >= Quorum)
      ensures shareSent == old(shareSent) && shareReceived == old(shareReceived)
      ensures report == StatusReport(name, "active", hasShare, shareSent, shareReceived, canReconstruct, neighbors)
    {
      var own := ReadShare(shareFile);
      hasShare := Truthy(own);
      canReconstruct := |shareReceived| + (if Truthy(own) then 1 else 0) >= Quorum;
      report := StatusReport(name, "active", hasShare, shareSent, shareReceived, canReconstruct, neighbors);
    }

    /** `/send-share` (lines 98-108): with no share, 404 and no change; with
        one, its hex at status 200 and this node's name appended to
        `share_sent`, nothing else changed. */
    method SendShare(shareFile: Option<string>) returns (reply: Reply)
      requires Valid()
      modifies this
      ensures Valid()
      ensures reply == ShareReply(ReadShare(shareFile))
      ensures shareSent == old(shareSent) + (if ReadShare(shareFile).Some? then [name] else [])
      ensures hasShare == old(hasShare) && shareReceived == old(shareReceived)
      ensures canReconstruct == old(canReconstruct)
    {
      var s := ReadShare(shareFile);
      reply := ShareReply(s);
      if Truthy(s) {
        shareSent := shareSent + [name];
      }
    }

    /** Lines 113-128 of `/request-and-reconstruct`: the gather over the
        configured neighbours (ShareExchange.FetchShares), whose senders are
        appended to `share_received`. */
    method PullShares(replies: seq<Reply>) returns (shares: seq<Bytes>, requested: seq<string>)
      requires Valid()
      requires |replies| == |neighbors|
      modifies this`shareReceived
      ensures Valid()
      ensures requested == Urls(neighbors)
      ensures shares == SharesOf(Gather(neighbors, Decoded(replies)))
      ensures shareReceived == old(shareReceived) + SourcesOf(Gather(neighbors, Decoded(replies)))
    {
      var from;
      shares, from, requested := FetchShares(neighbors, replies);
      GatherFromNeighbors(neighbors, Decoded(replies));
      shareReceived := shareReceived + from;
    }

    /** Lines 131-134: a truthy own share goes last and sets `has_share`. */
    method IncludeOwnShare(shareFile: Option<string>, gathered: seq<Bytes>) returns (shares: seq<Bytes>)
      requires Valid()
      modifies this`hasShare
      ensures Valid()
      ensures shares == AllShares(gathered, ReadShare(shareFile))
      ensures hasShare == (old(hasShare) || ReadShare(shareFile).Some?)
    {
      shares := gathered;
      var own := ReadShare(shareFile);
      if Truthy(own) {
        shares := shares + [own.value];
        hasShare := true;
      }
    }

    /** `/request-and-reconstruct` (lines 111-169), with one reply per
        neighbour. The gathered neighbours stay in `share_received` even
        when the request then fails. `can_reconstruct` is set only when the
        partition was decrypted and written, and then the quorum formula of
        `/federation-status` holds of the new state too. */
    method RequestAndReconstruct(shareFile: Option<string>, replies: seq<Reply>,
                                 partition: Option<Bytes>, crypto: Crypto, outWritable: bool)
      returns (outcome: Outcome, requested: seq<string>)
      requires Valid()
      requires |replies| == |neighbors|
      modifies this
      ensures Valid()
      ensures requested == Urls(neighbors)
      ensures shareReceived == old(shareReceived) + SourcesOf(Gather(neighbors, Decoded(replies)))
      ensures shareSent == old(shareSent)
      ensures hasShare == (old(hasShare) || ReadShare(shareFile).Some?)
      ensures outcome == Reconstruct(AllShares(SharesOf(Gather(neighbors, Decoded(replies))), ReadShare(shareFile)),
                                     partition, crypto, outWritable)
      ensures canReconstruct == (old(canReconstruct) || outcome.Decrypted?)
      ensures outcome.Decrypted? ==> |shareReceived| + (if hasShare then 1 else 0) >= Quorum
    {
      var gathered;
      gathered, requested := PullShares(replies);
      var shares := IncludeOwnShare(shareFile, gathered);
      outcome := Reconstruct(shares, partition, crypto, outWritable);
      if outcome.Decrypted? {
        canReconstruct := true;
      }
    }
  }

  /** A decryption needs a quorum: whenever `/request-and-reconstruct`
      decrypts, the gathered shares plus the own share reach Quorum, so the
      `/federation-status` formula over `share_received` agrees. */
  lemma DecryptedHadQuorum(gathered: seq<Bytes>, own: Option<Bytes>, partition: Option<Bytes>,
                           c: Crypto, outWritable: bool)
    requires Reconstruct(AllShares(gathered, own), partition, c, outWritable).Decrypted?
    ensures |gathered| + (if Truthy(own) then 1 else 0) >= Quorum
  {
  }
}
