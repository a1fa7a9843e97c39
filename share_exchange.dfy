/** The `/send-share` exchange between nodes and the gather loop of
    `/request-and-reconstruct` (node3/app.py lines 98-128), as values: what
    a node answers, what the requester decodes from a neighbour's answer,
    and which shares the gather keeps. */
module ShareExchange {
  import opened Wrappers
  import opened Bytes
  import opened Hex
  import opened ShareStore
  import opened NodeConfig

  /** A neighbour's answer to `GET <n>/send-share`: either an HTTP answer
      with its status code and the JSON body's `"share"` field (`None` when
      the body is not JSON, has no such key, or the value is not a string),
      or `Failed` when `requests.get` raised (refused, timed out). */
  datatype Reply =
    | Answered(status: int, share: Option<string>)
    | Failed

  /** What `/send-share` answers for the node's own share: 200 with the
      lower-case hex when the share is truthy, otherwise 404 `no share`. */
  function ShareReply(own: Option<Bytes>): (r: Reply)
    ensures r.Answered?
    ensures r.status == 200 <==> Truthy(own)
    ensures r.status == 200 ==> r.share == Some(Hexlify(own.value))
    ensures r.status != 200 ==> r.status == 404 && r.share.None?
  {
    if Truthy(own) then Answered(200, Some(Hexlify(own.value))) else Answered(404, None)
  }

  /** Lines 121-123: a 200 answer whose `"share"` field is valid hex yields
      the decoded bytes; a non-200 status, a failed request or a malformed
      payload (which raises and is caught) yields nothing. */
  function DecodeReply(r: Reply): (got: Option<Bytes>)
    ensures got.Some? <==> r.Answered? && r.status == 200 && r.share.Some? && IsHex(r.share.value)
    ensures got.Some? ==> 2 * |got.value| == |r.share.value|
  {
    if r.Answered? && r.status == 200 && r.share.Some? then Unhexlify(r.share.value) else None
  }

  /** What one node serves is what the requesting node decodes. */
  lemma ShareExchangeRoundTrip(own: Option<Bytes>)
    ensures DecodeReply(ShareReply(own)) == (if Truthy(own) then own else None)
  {
    if Truthy(own) {
      HexRoundTrip(own.value);
    }
  }

  /** The decode of every neighbour's reply, in neighbour order. */
  function Decoded(rs: seq<Reply>): (got: seq<Option<Bytes>>)
    ensures |got| == |rs|
  {
    if rs == [] then [] else [DecodeReply(rs[0])] + Decoded(rs[1..])
  }

  /** Each reply is decoded on its own. */
  lemma {:induction false} DecodedAt(rs: seq<Reply>, i: nat)
    requires i < |rs|
    ensures Decoded(rs)[i] == DecodeReply(rs[i])
  {
    if i > 0 {
      DecodedAt(rs[1..], i - 1);
    }
  }

  /** A share the gather kept, and the neighbour it came from. */
  datatype Received = Received(from: string, share: Bytes)

  function Shift(idx: seq<nat>): (r: seq<nat>)
    ensures |r| == |idx| && forall k :: 0 <= k < |idx| ==> r[k] == idx[k] + 1
  {
    seq(|idx|, k requires 0 <= k < |idx| => idx[k] + 1)
  }

  /** The positions that hold a share, in order. */
  function Successes(got: seq<Option<Bytes>>): seq<nat> {
    if got == [] then []
    else (if got[0].Some? then [0] else []) + Shift(Successes(got[1..]))
  }

  /** Every position `Successes` lists holds a share. */
  lemma {:induction false} SuccessesHold(got: seq<Option<Bytes>>)
    ensures forall k :: 0 <= k < |Successes(got)| ==> Successes(got)[k] < |got| && got[Successes(got)[k]].Some?
  {
    if got != [] {
      var tail := Successes(got[1..]);
      SuccessesHold(got[1..]);
      var head: seq<nat> := if got[0].Some? then [0] else [];
      var idx := head + Shift(tail);
      assert Successes(got) == idx;
      forall k | 0 <= k < |idx| ensures idx[k] < |got| && got[idx[k]].Some? {
        if k >= |head| {
          var t := tail[k - |head|];
          assert idx[k] == t + 1;
          assert got[t + 1] == got[1..][t];
        }
      }
    }
  }

  /** `Successes` lists positions in increasing order. */
  lemma {:induction false} SuccessesIncrease(got: seq<Option<Bytes>>)
    ensures forall k, l :: 0 <= k < l < |Successes(got)| ==> Successes(got)[k] < Successes(got)[l]
  {
    if got != [] {
      var tail := Successes(got[1..]);
      SuccessesIncrease(got[1..]);
      var head: seq<nat> := if got[0].Some? then [0] else [];
      var idx := head + Shift(tail);
      assert Successes(got) == idx;
      forall k, l | 0 <= k < l < |idx| ensures idx[k] < idx[l] {
        assert idx[l] == tail[l - |head|] + 1;
        if k >= |head| {
          assert idx[k] == tail[k - |head|] + 1;
        }
      }
    }
  }

  /** Every position holding a share is listed by `Successes`. */
  lemma {:induction false} SuccessesComplete(got: seq<Option<Bytes>>)
    ensures forall i :: 0 <= i < |got| && got[i].Some? ==> i in Successes(got)
  {
    if got != [] {
      var tail := Successes(got[1..]);
      SuccessesComplete(got[1..]);
      var head: seq<nat> := if got[0].Some? then [0] else [];
      var idx := head + Shift(tail);
      assert Successes(got) == idx;
      forall i | 0 <= i < |got| && got[i].Some? ensures i in idx {
        if i == 0 {
          assert idx[0] == 0;
        } else {
          assert got[1..][i - 1] == got[i];
          var k :| 0 <= k < |tail| && tail[k] == i - 1;
          assert idx[|head| + k] == i;
        }
      }
    }
  }

  /** One turn of the gather loop. */
  function Step(n: string, got: Option<Bytes>): seq<Received> {
    match got
    case Some(b) => [Received(n, b)]
    case None => []
  }

  /** The gather loop over NEIGHBORS, given each neighbour's decoded reply. */
  function Gather(ns: seq<string>, got: seq<Option<Bytes>>): (g: seq<Received>)
    requires |ns| == |got|
    ensures |g| <= |ns|
  {
    if ns == [] then [] else Step(ns[0], got[0]) + Gather(ns[1..], got[1..])
  }

  lemma {:induction false} GatherLength(ns: seq<string>, got: seq<Option<Bytes>>)
    requires |ns| == |got|
    ensures |Gather(ns, got)| == |Successes(got)|
  {
    if ns != [] {
      GatherLength(ns[1..], got[1..]);
      assert Gather(ns, got) == Step(ns[0], got[0]) + Gather(ns[1..], got[1..]);
    }
  }

  /** Entry `k` of the gather is the share at the `k`-th success. */
  lemma {:induction false} GatherShares(ns: seq<string>, got: seq<Option<Bytes>>)
    requires |ns| == |got|
    ensures |Gather(ns, got)| == |Successes(got)|
    ensures forall k :: 0 <= k < |Successes(got)| ==>
              Successes(got)[k] < |got| && got[Successes(got)[k]] == Some(Gather(ns, got)[k].share)
  {
    GatherLength(ns, got);
    if ns != [] {
      GatherShares(ns[1..], got[1..]);
      var g, tail := Gather(ns, got), Gather(ns[1..], got[1..]);
      var idx, tailIdx := Successes(got), Successes(got[1..]);
      var head: seq<nat> := if got[0].Some? then [0] else [];
      var shifted := Shift(tailIdx);
      var d := |head|;
      assert g == Step(ns[0], got[0]) + tail;
      assert idx == head + shifted;
      forall k | d <= k < |idx| ensures idx[k] < |got| && got[idx[k]] == Some(g[k].share) {
        var j := tailIdx[k - d];
        assert idx[k] == shifted[k - d] == j + 1;
        assert got[1..][j] == got[j + 1];
        assert g[k] == tail[k - d];
      }
    }
  }

  /** Entry `k` of the gather came from the neighbour at the `k`-th success. */
  lemma {:induction false} GatherSources(ns: seq<string>, got: seq<Option<Bytes>>)
    requires |ns| == |got|
    ensures |Gather(ns, got)| == |Successes(got)|
    ensures forall k :: 0 <= k < |Successes(got)| ==>
              Successes(got)[k] < |ns| && Gather(ns, got)[k].from == ns[Successes(got)[k]]
  {
    GatherLength(ns, got);
    if ns != [] {
      GatherSources(ns[1..], got[1..]);
      var g, tail := Gather(ns, got), Gather(ns[1..], got[1..]);
      var idx, tailIdx := Successes(got), Successes(got[1..]);
      var head: seq<nat> := if got[0].Some? then [0] else [];
      var shifted := Shift(tailIdx);
      var d := |head|;
      assert g == Step(ns[0], got[0]) + tail;
      assert idx == head + shifted;
      forall k | d <= k < |idx| ensures idx[k] < |ns| && g[k].from == ns[idx[k]] {
        var j := tailIdx[k - d];
        assert idx[k] == shifted[k - d] == j + 1;
        assert ns[1..][j] == ns[j + 1];
        assert g[k] == tail[k - d];
      }
    }
  }

  /** The gather keeps exactly the neighbours whose reply decodes (see
      SuccessesHold, SuccessesIncrease, SuccessesComplete), in neighbour
      order, each paired with the share it sent. */
  lemma GatherSelects(ns: seq<string>, got: seq<Option<Bytes>>)
    requires |ns| == |got|
    ensures |Gather(ns, got)| == |Successes(got)|
    ensures forall k :: 0 <= k < |Successes(got)| ==>
              Successes(got)[k] < |ns|
              && got[Successes(got)[k]] == Some(Gather(ns, got)[k].share)
              && Gather(ns, got)[k].from == ns[Successes(got)[k]]
  {
    GatherShares(ns, got);
    GatherSources(ns, got);
  }

  /** The loop's view: the gather over one more neighbour is the gather so
      far plus that neighbour's turn. */
  lemma {:induction false} GatherSnoc(ns: seq<string>, got: seq<Option<Bytes>>, n: string, d: Option<Bytes>)
    requires |ns| == |got|
    ensures Gather(ns + [n], got + [d]) == Gather(ns, got) + Step(n, d)
  {
    if ns == [] {
      assert [n][1..] == [] && [d][1..] == [];
    } else {
      assert (ns + [n])[1..] == ns[1..] + [n];
      assert (got + [d])[1..] == got[1..] + [d];
      GatherSnoc(ns[1..], got[1..], n, d);
    }
  }

  /** The loop's view by position: the gather over the first `i + 1`
      neighbours is the gather over the first `i` plus neighbour `i`'s turn. */
  lemma GatherPrefix(ns: seq<string>, got: seq<Option<Bytes>>, i: nat)
    requires |ns| == |got| && i < |ns|
    ensures Gather(ns[..i + 1], got[..i + 1]) == Gather(ns[..i], got[..i]) + Step(ns[i], got[i])
  {
    assert ns[..i + 1] == ns[..i] + [ns[i]];
    assert got[..i + 1] == got[..i] + [got[i]];
    GatherSnoc(ns[..i], got[..i], ns[i], got[i]);
  }

  lemma SharesOfAppend(g: seq<Received>, h: seq<Received>)
    ensures SharesOf(g + h) == SharesOf(g) + SharesOf(h)
    ensures SourcesOf(g + h) == SourcesOf(g) + SourcesOf(h)
  {
  }

  /** GatherPrefix seen through the shares and the senders: one turn adds
      the decoded share and its neighbour, or nothing. */
  lemma GatherPrefixViews(ns: seq<string>, got: seq<Option<Bytes>>, i: nat)
    requires |ns| == |got| && i < |ns|
    ensures SharesOf(Gather(ns[..i + 1], got[..i + 1]))
            == SharesOf(Gather(ns[..i], got[..i])) + (if got[i].Some? then [got[i].value] else [])
    ensures SourcesOf(Gather(ns[..i + 1], got[..i + 1]))
            == SourcesOf(Gather(ns[..i], got[..i])) + (if got[i].Some? then [ns[i]] else [])
  {
    GatherPrefix(ns, got, i);
    SharesOfAppend(Gather(ns[..i], got[..i]), Step(ns[i], got[i]));
  }

  /** Only configured neighbours are ever recorded as senders. */
  lemma GatherFromNeighbors(ns: seq<string>, got: seq<Option<Bytes>>)
    requires |ns| == |got|
    ensures forall x :: x in SourcesOf(Gather(ns, got)) ==> x in ns
  {
    GatherSelects(ns, got);
    var from := SourcesOf(Gather(ns, got));
    forall x | x in from ensures x in ns {
      var k :| 0 <= k < |from| && from[k] == x;
    }
  }

  /** No neighbour answers usefully (every one refused, timed out, 404 or
      malformed): nothing is gathered. */
  lemma {:induction false} GatherNothing(ns: seq<string>, got: seq<Option<Bytes>>)
    requires |ns| == |got|
    requires forall i :: 0 <= i < |got| ==> got[i].None?
    ensures Gather(ns, got) == []
  {
    if ns != [] {
      GatherNothing(ns[1..], got[1..]);
    }
  }

  /** Every neighbour answers with a share: one share per neighbour, in order. */
  lemma {:induction false} GatherEverything(ns: seq<string>, shares: seq<Bytes>)
    requires |ns| == |shares|
    ensures Gather(ns, seq(|shares|, i requires 0 <= i < |shares| => Some(shares[i])))
            == seq(|ns|, i requires 0 <= i < |ns| => Received(ns[i], shares[i]))
  {
    var got := seq(|shares|, i requires 0 <= i < |shares| => Some(shares[i]));
    if ns != [] {
      GatherEverything(ns[1..], shares[1..]);
      assert got[1..] == seq(|shares[1..]|, i requires 0 <= i < |shares[1..]| => Some(shares[1..][i]));
    }
  }

  function SharesOf(g: seq<Received>): (shares: seq<Bytes>)
    ensures |shares| == |g| && forall k :: 0 <= k < |g| ==> shares[k] == g[k].share
  {
    seq(|g|, k requires 0 <= k < |g| => g[k].share)
  }

  function SourcesOf(g: seq<Received>): (from: seq<string>)
    ensures |from| == |g| && forall k :: 0 <= k < |g| ==> from[k] == g[k].from
  {
    seq(|g|, k requires 0 <= k < |g| => g[k].from)
  }

  /** The shares the node combines (lines 131-133): the gathered ones in
      neighbour order, then its own share if it has one. */
  function AllShares(gathered: seq<Bytes>, own: Option<Bytes>): (all: seq<Bytes>)
    ensures |all| == |gathered| + (if Truthy(own) then 1 else 0)
    ensures all[..|gathered|] == gathered
    ensures Truthy(own) ==> all[|gathered|] == own.value
  {
    gathered + (if Truthy(own) then [own.value] else [])
  }

  /** The URLs the gather asks, in neighbour order (see UrlsAsked). */
  function Urls(ns: seq<string>): seq<string> {
    if ns == [] then [] else Urls(ns[..|ns| - 1]) + [SendShareUrl(ns[|ns| - 1])]
  }

  /** One URL per neighbour, each neighbour's own. */
  lemma {:induction false} UrlsAsked(ns: seq<string>)
    ensures |Urls(ns)| == |ns|
    ensures forall k :: 0 <= k < |ns| ==> Urls(ns)[k] == SendShareUrl(ns[k])
  {
    if ns != [] {
      var init := ns[..|ns| - 1];
      UrlsAsked(init);
      forall k | 0 <= k < |ns| ensures Urls(ns)[k] == SendShareUrl(ns[k]) {
        if k < |init| {
          assert init[k] == ns[k];
        }
      }
    }
  }

  /** The gather loop itself (lines 113-128): asks every neighbour in order
      (`requested` are the URLs asked); each decodable reply adds its share
      to `shares` and its neighbour to `from`; every other reply is skipped. */
  method FetchShares(ns: seq<string>, replies: seq<Reply>)
    returns (shares: seq<Bytes>, from: seq<string>, requested: seq<string>)
    requires |replies| == |ns|
    ensures requested == Urls(ns)
    ensures shares == SharesOf(Gather(ns, Decoded(replies)))
    ensures from == SourcesOf(Gather(ns, Decoded(replies)))
  {
    shares, from, requested := [], [], [];
    ghost var got := Decoded(replies);
    var i := 0;
    while i < |ns|
      invariant 0 <= i <= |ns|
      invariant requested == Urls(ns[..i])
      invariant shares == SharesOf(Gather(ns[..i], got[..i]))
      invariant from == SourcesOf(Gather(ns[..i], got[..i]))
    {
      var n := ns[i];
      assert ns[..i + 1][..i] == ns[..i];
      requested := requested + [SendShareUrl(n)];
      // a non-200 status, a failed request and a malformed payload are
      // all skipped (DecodeReply)
      var decoded := DecodeReply(replies[i]);
      DecodedAt(replies, i);
      if decoded.Some? {
        shares := shares + [decoded.value];
        from := from + [n];
      }
      GatherPrefixViews(ns, got, i);
      i := i + 1;
    }
    assert ns[..i] == ns && got[..i] == got;
  }
}
