/** The node's configuration (node3/app.py lines 15-17): its name and the
    neighbour list read from the environment. */
module NodeConfig {
  import opened Wrappers
  import opened PyText

  /** NODE_NAME when the variable is unset. */
  const DefaultNodeName: string := "Node"

  /** `os.environ.get("NODE_NAME", "Node")`. */
  function NodeName(env: Option<string>): (n: string)
    ensures env.Some? ==> n == env.value
    ensures env.None? ==> n == DefaultNodeName
  {
    match env
    case Some(n) => n
    case None => DefaultNodeName
  }

  /** Every part of a split, stripped. */
  function StripAll(parts: seq<string>): (r: seq<string>)
    ensures |r| == |parts| && forall j :: 0 <= j < |parts| ==> r[j] == Strip(parts[j])
  {
    seq(|parts|, j requires 0 <= j < |parts| => Strip(parts[j]))
  }

  /** The list comprehension `[n.strip() for n in parts if n.strip()]`. */
  function CleanEntries(parts: seq<string>): (entries: seq<string>)
    ensures |entries| <= |parts|
  {
    if parts == [] then []
    else
      var e := Strip(parts[0]);
      (if e == [] then [] else [e]) + CleanEntries(parts[1..])
  }

  /** The entries are exactly the non-blank stripped parts. */
  lemma {:induction false} CleanEntriesMembers(parts: seq<string>)
    ensures forall x :: x in CleanEntries(parts) <==> x in StripAll(parts) && x != []
  {
    if parts != [] {
      var e, rest := Strip(parts[0]), CleanEntries(parts[1..]);
      CleanEntriesMembers(parts[1..]);
      assert CleanEntries(parts) == (if e == [] then [] else [e]) + rest;
      assert StripAll(parts) == [e] + StripAll(parts[1..]);
    }
  }

  /** The comprehension keeps order: its result over two lists of parts
      is its result over the first followed by its result over the second. */
  lemma {:induction false} CleanEntriesAppend(a: seq<string>, b: seq<string>)
    ensures CleanEntries(a + b) == CleanEntries(a) + CleanEntries(b)
  {
    if a == [] {
      assert a + b == b;
    } else {
      var ab := a + b;
      assert ab[0] == a[0] && ab[1..] == a[1..] + b;
      CleanEntriesHead(ab);
      CleanEntriesHead(a);
      CleanEntriesAppend(a[1..], b);
      var h, r, t := CleanEntries([a[0]]), CleanEntries(a[1..]), CleanEntries(b);
      assert CleanEntries(ab) == h + (r + t);
      assert h + (r + t) == (h + r) + t;
    }
  }

  /** The first part's contribution comes first. */
  lemma CleanEntriesHead(parts: seq<string>)
    requires parts != []
    ensures CleanEntries(parts) == CleanEntries([parts[0]]) + CleanEntries(parts[1..])
  {
    assert [parts[0]][1..] == [];
  }

  /** One part becomes its stripped form, or nothing when that is blank. */
  lemma CleanEntriesOne(p: string)
    ensures CleanEntries([p]) == if Strip(p) == [] then [] else [Strip(p)]
  {
    assert [p][1..] == [];
  }

  /** NEIGHBORS: the comma-split of the environment string (a missing
      variable reads as ""), each entry stripped, blank entries dropped. */
  function ParseNeighbors(env: Option<string>): seq<string> {
    CleanEntries(SplitComma(match env case Some(s) => s case None => ""))
  }

  /** Order kept: the first comma-separated part contributes its stripped
      form (when non-blank) ahead of every neighbour the rest of the string
      gives. */
  lemma ParseNeighborsCons(p: string, t: string)
    requires ',' !in p
    ensures ParseNeighbors(Some(p + "," + t)) == CleanEntries([p]) + ParseNeighbors(Some(t))
  {
    SplitAtComma(p, t);
    CleanEntriesAppend([p], SplitComma(t));
  }

  lemma StripKeepsChars(s: string, c: char)
    requires c in Strip(s)
    ensures c in s
  {
    var r := Strip(s);
    StripShape(s);
    var i :| PaddedBy(s, r, i);
    var k :| 0 <= k < |r| && r[k] == c;
    assert s[i + k] == c;
  }

  /** Every neighbour is non-blank, has no surrounding whitespace and no
      comma, and every non-blank entry of the split is kept. */
  lemma NeighborsAreClean(env: string)
    ensures forall n :: n in ParseNeighbors(Some(env)) ==> n != [] && IsStripped(n) && ',' !in n
    ensures forall p :: p in SplitComma(env) && Strip(p) != [] ==> Strip(p) in ParseNeighbors(Some(env))
  {
    var parts := SplitComma(env);
    var ns := CleanEntries(parts);
    CleanEntriesMembers(parts);
    forall n | n in ns ensures n != [] && IsStripped(n) && ',' !in n {
      var j :| 0 <= j < |parts| && n == Strip(parts[j]);
      StripShape(parts[j]);
      if ',' in n {
        StripKeepsChars(parts[j], ',');
      }
    }
    forall p | p in parts && Strip(p) != [] ensures Strip(p) in ns {
      var j :| 0 <= j < |parts| && parts[j] == p;
      assert StripAll(parts)[j] == Strip(p);
    }
  }

  lemma {:induction false} CleanEntriesOfClean(entries: seq<string>)
    requires forall k :: 0 <= k < |entries| ==> entries[k] != [] && IsStripped(entries[k])
    ensures CleanEntries(entries) == entries
  {
    if entries != [] {
      var e := entries[0];
      StripPadded([], e, []);
      assert [] + e + [] == e;
      assert Strip(e) == e;
      CleanEntriesOfClean(entries[1..]);
      assert CleanEntries(entries) == [e] + CleanEntries(entries[1..]);
    }
  }

  /** A comma-separated list of clean addresses parses back to exactly that
      list, in order. */
  lemma NeighborsRoundTrip(entries: seq<string>)
    requires |entries| >= 1
    requires forall k :: 0 <= k < |entries| ==> entries[k] != [] && IsStripped(entries[k]) && ',' !in entries[k]
    ensures ParseNeighbors(Some(JoinComma(entries))) == entries
  {
    SplitJoin(entries);
    CleanEntriesOfClean(entries);
  }

  lemma NeighborsAreCleanAny(env: Option<string>)
    ensures forall n :: n in ParseNeighbors(env) ==> n != [] && IsStripped(n) && ',' !in n
  {
    match env
    case Some(s) => NeighborsAreClean(s);
    case None => NeighborsAreClean("");
  }

  /** An unset or blank NEIGHBORS gives a node with no neighbours. */
  lemma NoNeighborsWhenBlank(env: Option<string>)
    requires env.Some? ==> AllSpace(env.value)
    ensures ParseNeighbors(env) == []
  {
    var s := match env case Some(s) => s case None => "";
    assert !IsSpace(',');
    assert ',' !in s;
    SplitCommaFree(s);
    StripPadded(s, [], []);
    assert s + [] + [] == s;
    assert CleanEntries([s]) == CleanEntries([s][1..]);
  }

  /** NODE_NAME and NEIGHBORS, fixed for the life of the process. */
  datatype Config = Config(name: string, neighbors: seq<string>)

  /** What the node reads from its environment at start-up. */
  function LoadConfig(nodeNameEnv: Option<string>, neighborsEnv: Option<string>): (c: Config)
    ensures forall n :: n in c.neighbors ==> n != [] && IsStripped(n) && ',' !in n
  {
    NeighborsAreCleanAny(neighborsEnv);
    Config(NodeName(nodeNameEnv), ParseNeighbors(neighborsEnv))
  }

  /** The URL the gather asks a neighbour: `n.rstrip("/") + "/send-share"`. */
  function SendShareUrl(n: string): string {
    RStripChar(n, '/') + "/send-share"
  }

  /** A neighbour address with any number of trailing slashes is asked at
      the same URL as the address without them. */
  lemma {:induction false} SendShareUrlSlashes(n: string, k: nat)
    requires n == [] || n[|n| - 1] != '/'
    ensures SendShareUrl(n + seq(k, _ => '/')) == n + "/send-share"
  {
    if k > 0 {
      var s := n + seq(k, _ => '/');
      assert s[|s| - 1] == '/';
      assert s[..|s| - 1] == n + seq(k - 1, _ => '/');
      SendShareUrlSlashes(n, k - 1);
    } else {
      assert n + seq(0, _ => '/') == n;
    }
  }
}
