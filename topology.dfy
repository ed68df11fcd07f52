/**
 * The static topology `CustomTopo`: three switches in a line, two hosts on
 * s1, one on s2 and two on s3 (h1,h2 - s1 - s2 - h3 and s2 - s3 - h4,h5).
 * The topology object is filled in by successive addSwitch / addHost /
 * addLink calls; its contents are then a graph whose links are undirected.
 */
module Topology {
  import opened SeqFacts

  /** A host declaration: its name and its static address (address/prefix length). */
  datatype HostSpec = HostSpec(name: string, ip: string)

  /** An undirected link between two nodes, named by their names. */
  datatype Link = Link(a: string, b: string)

  /** The contents of a topology description. */
  datatype Graph = Graph(switches: seq<string>, hosts: seq<HostSpec>, links: seq<Link>)

  /** The names of the hosts of `g`, in declaration order. */
  function HostNames(g: Graph): (names: seq<string>)
    ensures |names| == |g.hosts|
    ensures forall i :: 0 <= i < |g.hosts| ==> names[i] == g.hosts[i].name
  {
    seq(|g.hosts|, i requires 0 <= i < |g.hosts| => g.hosts[i].name)
  }

  /** Every node of `g`: switches first, then hosts. */
  function Nodes(g: Graph): seq<string>
  {
    g.switches + HostNames(g)
  }

  /** The topology the script declares. */
  const Designed: Graph := Graph(
    ["s1", "s2", "s3"],
    [ HostSpec("h1", "192.168.0.1/28"), HostSpec("h2", "192.168.0.2/28"), HostSpec("h3", "192.168.0.3/28"),
      HostSpec("h4", "192.168.0.4/28"), HostSpec("h5", "192.168.0.5/28") ],
    [ Link("h1", "s1"), Link("h2", "s1"), Link("h3", "s2"), Link("h4", "s3"), Link("h5", "s3"),
      Link("s1", "s2"), Link("s2", "s3") ])

  /** A topology description being built. */
  class CustomTopo {
    var switches: seq<string>
    var hosts: seq<HostSpec>
    var links: seq<Link>

    function Contents(): Graph
      reads this
    {
      Graph(switches, hosts, links)
    }

    /** Creating the topology object runs `Build` on an empty description. */
    constructor ()
      ensures Contents() == Designed
    {
      switches, hosts, links := [], [], [];
      new;
      Build();
    }

    method AddSwitch(name: string) returns (node: string)
      modifies this
      ensures node == name
      ensures switches == old(switches) + [name] && hosts == old(hosts) && links == old(links)
    {
      switches := switches + [name];
      node := name;
    }

    method AddHost(name: string, ip: string) returns (node: string)
      modifies this
      ensures node == name
      ensures hosts == old(hosts) + [HostSpec(name, ip)] && switches == old(switches) && links == old(links)
    {
      hosts := hosts + [HostSpec(name, ip)];
      node := name;
    }

    method AddLink(a: string, b: string)
      modifies this
      ensures links == old(links) + [Link(a, b)] && switches == old(switches) && hosts == old(hosts)
    {
      links := links + [Link(a, b)];
    }

    /** Declares the switches, the hosts with their addresses, and the links, in that order. */
    method Build()
      modifies this
      ensures switches == old(switches) + Designed.switches
      ensures hosts == old(hosts) + Designed.hosts
      ensures links == old(links) + Designed.links
    {
      var s1 := AddSwitch("s1");
      var s2 := AddSwitch("s2");
      var s3 := AddSwitch("s3");

      var h1 := AddHost("h1", "192.168.0.1/28");
      var h2 := AddHost("h2", "192.168.0.2/28");
      var h3 := AddHost("h3", "192.168.0.3/28");
      var h4 := AddHost("h4", "192.168.0.4/28");
      var h5 := AddHost("h5", "192.168.0.5/28");

      AddLink(h1, s1);
      AddLink(h2, s1);
      AddLink(h3, s2);
      AddLink(h4, s3);
      AddLink(h5, s3);

      AddLink(s1, s2);
      AddLink(s2, s3);
    }
  }

  // ---------------------------------------------------------------------
  // Graph properties
  // ---------------------------------------------------------------------

  /** `u` and `v` are joined by a link, in either direction. */
  predicate Adjacent(g: Graph, u: string, v: string)
  {
    Link(u, v) in g.links || Link(v, u) in g.links
  }

  /** `p` is a non-empty walk along links. */
  ghost predicate IsPath(g: Graph, p: seq<string>)
  {
    |p| >= 1 && forall i :: 0 <= i < |p| - 1 ==> Adjacent(g, p[i], p[i + 1])
  }

  ghost predicate Reachable(g: Graph, u: string, v: string)
  {
    exists p :: IsPath(g, p) && p[0] == u && p[|p| - 1] == v
  }

  /** Every node reaches every node. */
  ghost predicate Connected(g: Graph)
  {
    forall u, v :: u in Nodes(g) && v in Nodes(g) ==> Reachable(g, u, v)
  }

  /** Every link joins two different declared nodes. */
  ghost predicate LinksWellFormed(g: Graph)
  {
    forall l :: l in g.links ==> l.a in Nodes(g) && l.b in Nodes(g) && l.a != l.b
  }

  /** `g` without its `k`-th link. */
  function RemoveLink(g: Graph, k: nat): Graph
    requires k < |g.links|
  {
    g.(links := g.links[..k] + g.links[k + 1..])
  }

  /**
   * A tree: distinct node names, well-formed links, connected, and every
   * link is a bridge (removing it disconnects the graph), so there is no cycle.
   */
  ghost predicate IsTree(g: Graph)
  {
    && NoDup(Nodes(g))
    && LinksWellFormed(g)
    && Connected(g)
    && forall k :: 0 <= k < |g.links| ==> !Connected(RemoveLink(g, k))
  }

  /** No link leaves `c`. */
  ghost predicate Closed(g: Graph, c: set<string>)
  {
    forall x, y :: x in c && Adjacent(g, x, y) ==> y in c
  }

  lemma {:induction false} WalkStaysIn(g: Graph, c: set<string>, p: seq<string>, i: nat)
    requires Closed(g, c) && IsPath(g, p) && p[0] in c && i < |p|
    ensures p[i] in c
  {
    if i > 0 {
      WalkStaysIn(g, c, p, i - 1);
      assert Adjacent(g, p[i - 1], p[i]);
    }
  }

  /** A set of nodes that no link leaves separates its members from the other nodes. */
  lemma Separated(g: Graph, c: set<string>, u: string, v: string)
    requires Closed(g, c)
    requires u in Nodes(g) && v in Nodes(g) && u in c && v !in c
    ensures !Connected(g)
  {
    if Connected(g) {
      assert Reachable(g, u, v);
      var p :| IsPath(g, p) && p[0] == u && p[|p| - 1] == v;
      WalkStaysIn(g, c, p, |p| - 1);
    }
  }

  function Reverse(p: seq<string>): (r: seq<string>)
    ensures |r| == |p|
    ensures forall i :: 0 <= i < |p| ==> r[i] == p[|p| - 1 - i]
  {
    seq(|p|, i requires 0 <= i < |p| => p[|p| - 1 - i])
  }

  /** Links are undirected: a walk read backwards is a walk. */
  lemma ReachableSymmetric(g: Graph, u: string, v: string)
    requires Reachable(g, u, v)
    ensures Reachable(g, v, u)
  {
    var p :| IsPath(g, p) && p[0] == u && p[|p| - 1] == v;
    var r := Reverse(p);
    forall i | 0 <= i < |r| - 1
      ensures Adjacent(g, r[i], r[i + 1])
    {
      var j := |p| - 2 - i;
      assert Adjacent(g, p[j], p[j + 1]);
    }
    assert IsPath(g, r) && r[0] == v && r[|r| - 1] == u;
  }

  /** Two walks that meet can be joined. */
  lemma ReachableTransitive(g: Graph, u: string, v: string, w: string)
    requires Reachable(g, u, v) && Reachable(g, v, w)
    ensures Reachable(g, u, w)
  {
    var p :| IsPath(g, p) && p[0] == u && p[|p| - 1] == v;
    var q :| IsPath(g, q) && q[0] == v && q[|q| - 1] == w;
    var r := p + q[1..];
    forall i | 0 <= i < |r| - 1
      ensures Adjacent(g, r[i], r[i + 1])
    {
      if i < |p| - 1 {
        assert r[i] == p[i] && r[i + 1] == p[i + 1];
      } else {
        var j := i - (|p| - 1);
        assert r[i] == q[j] && r[i + 1] == q[j + 1];
      }
    }
    assert IsPath(g, r) && r[0] == u && r[|r| - 1] == w;
  }

  /** One link is a walk. */
  lemma Hop(g: Graph, u: string, v: string)
    requires Adjacent(g, u, v)
    ensures Reachable(g, u, v)
  {
    assert IsPath(g, [u, v]);
  }

  /** Two consecutive links are a walk. */
  lemma Hop2(g: Graph, u: string, v: string, w: string)
    requires Adjacent(g, u, v) && Adjacent(g, v, w)
    ensures Reachable(g, u, w)
  {
    var p := [u, v, w];
    assert IsPath(g, p) && p[0] == u && p[2] == w;
  }

  /** The `k`-th link joins its two ends in both directions. */
  lemma LinkAdjacent(g: Graph, k: nat)
    requires k < |g.links|
    ensures Adjacent(g, g.links[k].a, g.links[k].b) && Adjacent(g, g.links[k].b, g.links[k].a)
  {
  }

  lemma HostNamesOfDesigned()
    ensures HostNames(Designed) == ["h1", "h2", "h3", "h4", "h5"]
  {
  }

  lemma NodesOfDesigned()
    ensures Nodes(Designed) == ["s1", "s2", "s3", "h1", "h2", "h3", "h4", "h5"]
  {
    HostNamesOfDesigned();
  }

  /** Every switch of the designed topology reaches the middle switch s2. */
  lemma SwitchReachesHub(x: string)
    requires x in Designed.switches
    ensures Reachable(Designed, x, "s2")
  {
    var g := Designed;
    if x == "s2" {
      assert IsPath(g, ["s2"]);
    } else if x == "s1" {
      LinkAdjacent(g, 5);
      Hop(g, "s1", "s2");
    } else {
      LinkAdjacent(g, 6);
      Hop(g, "s3", "s2");
    }
  }

  /**
   * The `i`-th host reaches the middle switch s2: the `i`-th link ties it to
   * its switch, which is s2 itself or joined to s2 by one of the last two links.
   */
  lemma HostReachesHub(i: nat)
    requires i < |Designed.hosts|
    ensures Reachable(Designed, Designed.hosts[i].name, "s2")
  {
    var g := Designed;
    LinkAdjacent(g, i);
    if i < 2 {
      LinkAdjacent(g, 5);
      Hop2(g, g.links[i].a, "s1", "s2");
    } else if i == 2 {
      Hop(g, g.links[i].a, "s2");
    } else {
      LinkAdjacent(g, 6);
      Hop2(g, g.links[i].a, "s3", "s2");
    }
  }

  /** Every node of the designed topology reaches the middle switch s2. */
  lemma ReachesHub(x: string)
    requires x in Nodes(Designed)
    ensures Reachable(Designed, x, "s2")
  {
    if x in Designed.switches {
      SwitchReachesHub(x);
    } else {
      var hs := HostNames(Designed);
      assert x in hs;
      var i :| 0 <= i < |hs| && hs[i] == x;
      HostReachesHub(i);
    }
  }

  /** Every node of the designed topology reaches every other one through links. */
  lemma DesignedConnected()
    ensures Connected(Designed)
  {
    forall u, v | u in Nodes(Designed) && v in Nodes(Designed)
      ensures Reachable(Designed, u, v)
    {
      ReachesHub(u);
      ReachesHub(v);
      ReachableSymmetric(Designed, v, "s2");
      ReachableTransitive(Designed, u, "s2", v);
    }
  }

  /**
   * If every link but the `k`-th has both ends inside `c` or both outside,
   * removing the `k`-th link separates `u` (inside) from `v` (outside).
   */
  lemma CutAt(g: Graph, k: nat, c: set<string>, u: string, v: string)
    requires k < |g.links|
    requires forall j :: 0 <= j < |g.links| && j != k ==> (g.links[j].a in c <==> g.links[j].b in c)
    requires u in Nodes(g) && v in Nodes(g) && u in c && v !in c
    ensures !Connected(RemoveLink(g, k))
  {
    var h := RemoveLink(g, k);
    assert Nodes(h) == Nodes(g);
    forall x, y | x in c && Adjacent(h, x, y)
      ensures y in c
    {
      var l := if Link(x, y) in h.links then Link(x, y) else Link(y, x);
      var j :| 0 <= j < |h.links| && h.links[j] == l;
      if j < k {
        assert l == g.links[j];
      } else {
        assert l == g.links[j + 1];
      }
    }
    Separated(h, c, u, v);
  }

  /** Removing the link of a host (links 0 to 4) cuts that host off. */
  lemma HostLinkBridge(k: nat)
    requires k < 5
    ensures !Connected(RemoveLink(Designed, k))
  {
    NodesOfDesigned();
    var g := Designed;
    if k == 0 {
      CutAt(g, k, {"h1"}, "h1", "s1");
    } else if k == 1 {
      CutAt(g, k, {"h2"}, "h2", "s1");
    } else if k == 2 {
      CutAt(g, k, {"h3"}, "h3", "s2");
    } else if k == 3 {
      CutAt(g, k, {"h4"}, "h4", "s3");
    } else {
      CutAt(g, k, {"h5"}, "h5", "s3");
    }
  }

  /** Removing a switch-to-switch link (links 5 and 6) cuts off s1 or s3 with its hosts. */
  lemma TrunkLinkBridge(k: nat)
    requires 5 <= k < 7
    ensures !Connected(RemoveLink(Designed, k))
  {
    NodesOfDesigned();
    var g := Designed;
    if k == 5 {
      CutAt(g, k, {"s1", "h1", "h2"}, "s1", "s2");
    } else {
      CutAt(g, k, {"s3", "h4", "h5"}, "s3", "s2");
    }
  }

  /** Removing the `k`-th link of the designed topology cuts it in two. */
  lemma DesignedBridge(k: nat)
    requires k < |Designed.links|
    ensures !Connected(RemoveLink(Designed, k))
  {
    if k < 5 {
      HostLinkBridge(k);
    } else {
      TrunkLinkBridge(k);
    }
  }

  /** Removing any one of the seven links cuts the designed topology in two. */
  lemma DesignedLinksAreBridges()
    ensures forall k :: 0 <= k < |Designed.links| ==> !Connected(RemoveLink(Designed, k))
  {
    forall k | 0 <= k < |Designed.links|
      ensures !Connected(RemoveLink(Designed, k))
    {
      DesignedBridge(k);
    }
  }

  /** 3 switches, 5 hosts, 7 links; the graph is a tree on its 8 nodes. */
  lemma DesignedIsTree()
    ensures |Designed.switches| == 3 && |Designed.hosts| == 5 && |Designed.links| == 7
    ensures |Nodes(Designed)| == 8
    ensures IsTree(Designed)
  {
    DesignedNodesDistinct();
    DesignedLinksWellFormed();
    DesignedConnected();
    DesignedLinksAreBridges();
    NodesOfDesigned();
  }

  /** Switch names start with 's' and host names with 'h'; within each kind the names differ. */
  lemma DesignedNodesDistinct()
    ensures NoDup(Nodes(Designed))
  {
    var sw, hs := Designed.switches, HostNames(Designed);
    HostNamesOfDesigned();
    assert NoDup(sw) && NoDup(hs);
    assert forall x :: x in sw ==> x[0] == 's';
    assert forall y :: y in hs ==> y[0] == 'h';
    NoDupConcat(sw, hs);
  }

  lemma DesignedLinksWellFormed()
    ensures LinksWellFormed(Designed)
  {
    NodesOfDesigned();
  }

  /** The digit character for `n`. */
  function Digit(n: nat): char
    requires n < 10
  {
    ('0' as int + n) as char
  }

  /** Host h<k> (k = 1..5) carries the static address 192.168.0.<k>/28. */
  lemma DesignedAddresses()
    ensures forall i :: 0 <= i < |Designed.hosts| ==>
      Designed.hosts[i] == HostSpec("h" + [Digit(i + 1)], "192.168.0." + [Digit(i + 1)] + "/28")
  {
  }
}
