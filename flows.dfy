/**
 * Flow provisioning (`add_mac_flows`): reset every switch's flow table to the
 * ARP broadcast rule, enumerate the ordered pairs of distinct hosts, and
 * install a pair of unicast flood rules per host pair on every switch.
 *
 * Flow tables are sets of rules: adding a rule that is already present
 * leaves the table as it was (the switch replaces a flow with an identical
 * match).  Every command sent is also appended, as a value, to a log.
 */
module Flows {
  import opened Ofctl
  import opened SeqFacts
  import Topology

  /** An ordered (source host, destination host) pair. */
  type Pair = (string, string)

  /** The switches the script programs, in order. */
  const Switches: seq<string> := ["s1", "s2", "s3"]

  /** The host tuple the script iterates over, in order. */
  const HostTuple: seq<string> := ["h1", "h2", "h3", "h4", "h5"]

  /** The switches and hosts the provisioning names are exactly those the topology declares, in order. */
  lemma NamesMatchTopology()
    ensures Switches == Topology.Designed.switches
    ensures HostTuple == Topology.HostNames(Topology.Designed)
  {
    Topology.NodesOfDesigned();
    assert Topology.Nodes(Topology.Designed)[3..] == Topology.HostNames(Topology.Designed);
  }

  /** The switch side: one flow table per switch name, and the commands sent so far. */
  class Network {
    var tables: map<string, set<Rule>>
    var log: seq<Command>

    constructor (initial: map<string, set<Rule>>)
      ensures tables == initial && log == []
    {
      tables := initial;
      log := [];
    }

    /** `ovs-ofctl del-flows sw`: the table of `sw` becomes empty. */
    method DelFlows(sw: string)
      requires sw in tables
      modifies this
      ensures tables == old(tables)[sw := {}]
      ensures log == old(log) + [Command.DelFlows(sw)]
    {
      tables := tables[sw := {}];
      log := log + [Command.DelFlows(sw)];
    }

    /** `ovs-ofctl add-flow sw ...`: `r` is in the table of `sw` afterwards, nothing else changes. */
    method AddFlow(sw: string, r: Rule)
      requires sw in tables
      modifies this
      ensures tables == old(tables)[sw := old(tables)[sw] + {r}]
      ensures log == old(log) + [Command.AddFlow(sw, r)]
    {
      tables := tables[sw := tables[sw] + {r}];
      log := log + [Command.AddFlow(sw, r)];
    }
  }

  /** Every name in `sws` is a switch of the network. */
  ghost predicate SwitchesPresent(t: map<string, set<Rule>>, sws: seq<string>)
  {
    forall sw :: sw in sws ==> sw in t
  }

  // ---------------------------------------------------------------------
  // Reset (every switch: delete all flows, then add the ARP flood rule)
  // ---------------------------------------------------------------------

  /** The tables after resetting every switch in `sws`. */
  ghost function Reset(t: map<string, set<Rule>>, sws: seq<string>): map<string, set<Rule>>
  {
    map sw | sw in t :: if sw in sws then {ArpRule} else t[sw]
  }

  /** The commands the reset loop sends for `sws`, in order. */
  ghost function ResetCommands(sws: seq<string>): seq<Command>
  {
    if sws == [] then []
    else
      var sw := sws[|sws| - 1];
      ResetCommands(sws[..|sws| - 1]) + [Command.DelFlows(sw), Command.AddFlow(sw, ArpRule)]
  }

  lemma ResetNothing(t: map<string, set<Rule>>)
    ensures Reset(t, []) == t
  {
    var a := Reset(t, []);
    assert a.Keys == t.Keys;
    forall sw | sw in a ensures a[sw] == t[sw] {
    }
  }

  lemma ResetKeepsSwitches(t: map<string, set<Rule>>, sws: seq<string>)
    requires SwitchesPresent(t, sws)
    ensures SwitchesPresent(Reset(t, sws), sws)
  {
  }

  /**
   * Resetting one more switch of the list: its table is emptied and then
   * given the ARP rule, and its two commands follow the earlier ones.
   */
  lemma ResetStep(t: map<string, set<Rule>>, sws: seq<string>, i: nat, log0: seq<Command>)
    requires i < |sws| && sws[i] in t
    ensures var before, s := Reset(t, sws[..i]), sws[i];
      Reset(t, sws[..i + 1]) == before[s := {}][s := before[s := {}][s] + {ArpRule}]
    ensures log0 + ResetCommands(sws[..i]) + [Command.DelFlows(sws[i])] + [Command.AddFlow(sws[i], ArpRule)]
         == log0 + ResetCommands(sws[..i + 1])
  {
    var s, before := sws[i], Reset(t, sws[..i]);
    var a, b := Reset(t, sws[..i + 1]), before[s := {}][s := before[s := {}][s] + {ArpRule}];
    assert sws[..i + 1] == sws[..i] + [s];
    assert a.Keys == b.Keys;
    forall sw | sw in a ensures a[sw] == b[sw] {
    }
    assert sws[..i + 1][..i] == sws[..i];
    AppendAssoc(log0, ResetCommands(sws[..i]), [Command.DelFlows(s), Command.AddFlow(s, ArpRule)]);
  }

  /** The reset loop: delete all flows, then add the ARP flood rule, on each switch in turn. */
  method ResetFlows(net: Network, sws: seq<string>)
    requires SwitchesPresent(net.tables, sws)
    modifies net
    ensures net.tables == Reset(old(net.tables), sws)
    ensures net.log == old(net.log) + ResetCommands(sws)
  {
    ghost var t0 := net.tables;
    assert sws[..0] == [];
    ResetNothing(t0);
    for i := 0 to |sws|
      invariant net.tables.Keys == t0.Keys
      invariant net.tables == Reset(t0, sws[..i])
      invariant net.log == old(net.log) + ResetCommands(sws[..i])
    {
      var s := sws[i];
      net.DelFlows(s);
      net.AddFlow(s, ArpRule);
      ResetStep(t0, sws, i, old(net.log));
    }
    assert sws[..|sws|] == sws;
  }

  // ---------------------------------------------------------------------
  // Pair enumeration (nested loop over the host tuple)
  // ---------------------------------------------------------------------

  /** The pairs `(src, d)` for `d` in `dsts` with `d != src`, in the order of `dsts`. */
  ghost function RowPairs(src: string, dsts: seq<string>): seq<Pair>
  {
    if dsts == [] then []
    else
      var d := dsts[|dsts| - 1];
      RowPairs(src, dsts[..|dsts| - 1]) + (if src != d then [(src, d)] else [])
  }

  /** One row of `RowPairs` per source, in the order of `srcs`. */
  ghost function PairsOf(srcs: seq<string>, dsts: seq<string>): seq<Pair>
  {
    if srcs == [] then []
    else PairsOf(srcs[..|srcs| - 1], dsts) + RowPairs(srcs[|srcs| - 1], dsts)
  }

  lemma {:induction false} RowPairsMember(src: string, dsts: seq<string>)
    ensures forall p :: p in RowPairs(src, dsts) <==> p.0 == src && p.1 in dsts && p.1 != src
  {
    if dsts != [] {
      var init := dsts[..|dsts| - 1];
      assert dsts == init + [dsts[|dsts| - 1]];
      RowPairsMember(src, init);
    }
  }

  /** The enumeration holds exactly the pairs of distinct names from `srcs` and `dsts`. */
  lemma {:induction false} PairsOfMember(srcs: seq<string>, dsts: seq<string>)
    ensures forall p :: p in PairsOf(srcs, dsts) <==> p.0 in srcs && p.1 in dsts && p.0 != p.1
  {
    if srcs != [] {
      var init := srcs[..|srcs| - 1];
      assert srcs == init + [srcs[|srcs| - 1]];
      PairsOfMember(init, dsts);
      RowPairsMember(srcs[|srcs| - 1], dsts);
    }
  }

  lemma {:induction false} RowPairsShape(src: string, dsts: seq<string>)
    requires NoDup(dsts)
    ensures NoDup(RowPairs(src, dsts))
    ensures |RowPairs(src, dsts)| == if src in dsts then |dsts| - 1 else |dsts|
  {
    if dsts != [] {
      var init, d := dsts[..|dsts| - 1], dsts[|dsts| - 1];
      assert dsts == init + [d];
      assert d !in init;
      RowPairsShape(src, init);
      RowPairsMember(src, init);
      NoDupConcat(RowPairs(src, init), if src != d then [(src, d)] else []);
    }
  }

  lemma MulSucc(n: int, m: int)
    ensures (n + 1) * m == n * m + m
  {
  }

  /** Without repeated destinations, every source of `srcs` drawn from `dsts` contributes `|dsts| - 1` pairs. */
  lemma {:induction false} PairsOfLength(srcs: seq<string>, dsts: seq<string>)
    requires NoDup(dsts)
    requires forall x :: x in srcs ==> x in dsts
    ensures |PairsOf(srcs, dsts)| == |srcs| * (|dsts| - 1)
  {
    if srcs != [] {
      var init, s := srcs[..|srcs| - 1], srcs[|srcs| - 1];
      assert forall x :: x in init ==> x in srcs;
      var whole, prev, row := |PairsOf(srcs, dsts)|, |PairsOf(init, dsts)|, |RowPairs(s, dsts)|;
      assert whole == prev + row;
      RowPairsShape(s, dsts);
      assert row == |dsts| - 1;
      PairsOfLength(init, dsts);
      assert prev == |init| * (|dsts| - 1);
      MulSucc(|init|, |dsts| - 1);
    }
  }

  /** Without repeated names, the enumeration has no repeated pair. */
  lemma {:induction false} PairsOfNoDup(srcs: seq<string>, dsts: seq<string>)
    requires NoDup(srcs) && NoDup(dsts)
    ensures NoDup(PairsOf(srcs, dsts))
  {
    if srcs != [] {
      var init, s := srcs[..|srcs| - 1], srcs[|srcs| - 1];
      assert srcs == init + [s];
      assert s !in init;
      PairsOfNoDup(init, dsts);
      RowPairsShape(s, dsts);
      PairsOfMember(init, dsts);
      RowPairsMember(s, dsts);
      NoDupConcat(PairsOf(init, dsts), RowPairs(s, dsts));
    }
  }

  /** The 20 ordered pairs of the five hosts, by source and then destination in tuple order. */
  const ListedPairs: seq<Pair> :=
      [("h1", "h2"), ("h1", "h3"), ("h1", "h4"), ("h1", "h5")]
    + [("h2", "h1"), ("h2", "h3"), ("h2", "h4"), ("h2", "h5")]
    + [("h3", "h1"), ("h3", "h2"), ("h3", "h4"), ("h3", "h5")]
    + [("h4", "h1"), ("h4", "h2"), ("h4", "h3"), ("h4", "h5")]
    + [("h5", "h1"), ("h5", "h2"), ("h5", "h3"), ("h5", "h4")]

  /** One row of the enumeration: the hosts other than `src`, in tuple order. */
  lemma RowOf(src: string)
    ensures RowPairs(src, HostTuple)
         == (if src != "h1" then [(src, "h1")] else []) + (if src != "h2" then [(src, "h2")] else [])
          + (if src != "h3" then [(src, "h3")] else []) + (if src != "h4" then [(src, "h4")] else [])
          + (if src != "h5" then [(src, "h5")] else [])
  {
    var h := HostTuple;
    assert h[..4] == ["h1", "h2", "h3", "h4"];
    assert h[..4][..3] == ["h1", "h2", "h3"];
    assert h[..4][..3][..2] == ["h1", "h2"];
    assert h[..4][..3][..2][..1] == ["h1"];
    assert h[..4][..3][..2][..1][..0] == [];
    var r1 := if src != "h1" then [(src, "h1")] else [];
    var r2 := if src != "h2" then [(src, "h2")] else [];
    var r3 := if src != "h3" then [(src, "h3")] else [];
    var r4 := if src != "h4" then [(src, "h4")] else [];
    var r5 := if src != "h5" then [(src, "h5")] else [];
    assert RowPairs(src, h[..4][..3][..2][..1]) == r1;
    assert RowPairs(src, h[..4][..3][..2]) == r1 + r2;
    assert RowPairs(src, h[..4][..3]) == r1 + r2 + r3;
    assert RowPairs(src, h[..4]) == r1 + r2 + r3 + r4;
    assert RowPairs(src, h) == r1 + r2 + r3 + r4 + r5;
  }

  /** The enumeration of the host tuple is exactly the listed 20 pairs, in that order. */
  lemma HostPairsListed()
    ensures PairsOf(HostTuple, HostTuple) == ListedPairs
  {
    var h := HostTuple;
    assert h[..4] == ["h1", "h2", "h3", "h4"];
    assert h[..4][..3] == ["h1", "h2", "h3"];
    assert h[..4][..3][..2] == ["h1", "h2"];
    assert h[..4][..3][..2][..1] == ["h1"];
    assert h[..4][..3][..2][..1][..0] == [];
    var r1: seq<Pair> := [("h1", "h2"), ("h1", "h3"), ("h1", "h4"), ("h1", "h5")];
    var r2: seq<Pair> := [("h2", "h1"), ("h2", "h3"), ("h2", "h4"), ("h2", "h5")];
    var r3: seq<Pair> := [("h3", "h1"), ("h3", "h2"), ("h3", "h4"), ("h3", "h5")];
    var r4: seq<Pair> := [("h4", "h1"), ("h4", "h2"), ("h4", "h3"), ("h4", "h5")];
    var r5: seq<Pair> := [("h5", "h1"), ("h5", "h2"), ("h5", "h3"), ("h5", "h4")];
    RowOf("h1"); assert RowPairs("h1", h) == r1;
    RowOf("h2"); assert RowPairs("h2", h) == r2;
    RowOf("h3"); assert RowPairs("h3", h) == r3;
    RowOf("h4"); assert RowPairs("h4", h) == r4;
    RowOf("h5"); assert RowPairs("h5", h) == r5;
    assert PairsOf(h[..4][..3][..2][..1], h) == r1;
    assert PairsOf(h[..4][..3][..2], h) == r1 + r2;
    assert PairsOf(h[..4][..3], h) == r1 + r2 + r3;
    assert PairsOf(h[..4], h) == r1 + r2 + r3 + r4;
    assert PairsOf(h, h) == r1 + r2 + r3 + r4 + r5;
  }

  /** The nested loop that builds `pares`. */
  method OrderedPairs(hosts: seq<string>) returns (pares: seq<Pair>)
    ensures pares == PairsOf(hosts, hosts)
  {
    pares := [];
    for i := 0 to |hosts|
      invariant pares == PairsOf(hosts[..i], hosts)
    {
      for j := 0 to |hosts|
        invariant pares == PairsOf(hosts[..i], hosts) + RowPairs(hosts[i], hosts[..j])
      {
        if hosts[i] != hosts[j] {
          pares := pares + [(hosts[i], hosts[j])];
        }
        assert hosts[..j + 1][..j] == hosts[..j];
      }
      assert hosts[..|hosts|] == hosts;
      assert hosts[..i + 1][..i] == hosts[..i];
    }
    assert hosts[..|hosts|] == hosts;
  }

  // ---------------------------------------------------------------------
  // Unicast rules
  // ---------------------------------------------------------------------

  /** Every host named in `ps` has a MAC address in `macs`. */
  ghost predicate Covers(macs: map<string, string>, ps: seq<Pair>)
  {
    forall p :: p in ps ==> p.0 in macs && p.1 in macs
  }

  /** Every host of `hosts` has a MAC address in `macs`. */
  ghost predicate Resolves(macs: map<string, string>, hosts: seq<string>)
  {
    forall h :: h in hosts ==> h in macs
  }

  /** Distinct hosts of `hosts` have distinct MAC addresses. */
  ghost predicate InjectiveOn(macs: map<string, string>, hosts: seq<string>)
    requires Resolves(macs, hosts)
  {
    forall a, b :: a in hosts && b in hosts && a != b ==> macs[a] != macs[b]
  }

  /** All five hosts have a MAC address. */
  ghost predicate HostsResolved(macs: map<string, string>)
  {
    Resolves(macs, HostTuple)
  }

  /** The rules for `(src, dst)` and for `(dst, src)`, as installed for one pair. */
  ghost function PairRulesOf(macs: map<string, string>, p: Pair): set<Rule>
    requires p.0 in macs && p.1 in macs
  {
    {FloodPair(macs[p.0], macs[p.1]), FloodPair(macs[p.1], macs[p.0])}
  }

  /** The unicast rules installed for the pairs `ps`. */
  ghost function PairRules(macs: map<string, string>, ps: seq<Pair>): set<Rule>
    requires Covers(macs, ps)
  {
    if ps == [] then {}
    else PairRules(macs, ps[..|ps| - 1]) + PairRulesOf(macs, ps[|ps| - 1])
  }

  lemma {:induction false} PairRulesMember(macs: map<string, string>, ps: seq<Pair>, r: Rule)
    requires Covers(macs, ps)
    ensures r in PairRules(macs, ps) <==>
      exists p :: p in ps && (r == FloodPair(macs[p.0], macs[p.1]) || r == FloodPair(macs[p.1], macs[p.0]))
  {
    if ps != [] {
      var init := ps[..|ps| - 1];
      assert ps == init + [ps[|ps| - 1]];
      PairRulesMember(macs, init, r);
    }
  }

  /** Every unicast rule comes with its mirror image, and floods. */
  lemma {:induction false} PairRulesSymmetric(macs: map<string, string>, ps: seq<Pair>)
    requires Covers(macs, ps)
    ensures forall r :: r in PairRules(macs, ps) ==> r.action == Flood && r.pattern.MacPair?
    ensures forall x, y :: FloodPair(x, y) in PairRules(macs, ps) ==> FloodPair(y, x) in PairRules(macs, ps)
  {
    if ps != [] {
      var init := ps[..|ps| - 1];
      assert Covers(macs, init) by {
        forall p | p in init ensures p.0 in macs && p.1 in macs {
          assert p in ps;
        }
      }
      PairRulesSymmetric(macs, init);
    }
  }

  /** The tables after adding the rules `rs` to every switch in `sws`. */
  ghost function AddToAll(t: map<string, set<Rule>>, sws: seq<string>, rs: set<Rule>): map<string, set<Rule>>
  {
    map sw | sw in t :: if sw in sws then t[sw] + rs else t[sw]
  }

  lemma AddToAllNothing(t: map<string, set<Rule>>, sws: seq<string>)
    ensures AddToAll(t, sws, {}) == t
  {
    var a := AddToAll(t, sws, {});
    assert a.Keys == t.Keys;
    forall sw | sw in a ensures a[sw] == t[sw] {
    }
  }

  lemma AddToAllTwice(t: map<string, set<Rule>>, sws: seq<string>, rs: set<Rule>, more: set<Rule>)
    ensures AddToAll(AddToAll(t, sws, rs), sws, more) == AddToAll(t, sws, rs + more)
  {
    var a, b := AddToAll(AddToAll(t, sws, rs), sws, more), AddToAll(t, sws, rs + more);
    assert a.Keys == b.Keys;
    forall sw | sw in a ensures a[sw] == b[sw] {
    }
  }

  /** The two commands for the MAC pair (`mSrc`, `mDst`) on each switch of `sws`, in order. */
  ghost function SwitchPairCommands(mSrc: string, mDst: string, sws: seq<string>): seq<Command>
  {
    if sws == [] then []
    else
      var sw := sws[|sws| - 1];
      SwitchPairCommands(mSrc, mDst, sws[..|sws| - 1])
        + [Command.AddFlow(sw, FloodPair(mSrc, mDst)), Command.AddFlow(sw, FloodPair(mDst, mSrc))]
  }

  /** The commands the install loop sends for the pairs `ps`, in order. */
  ghost function InstallCommands(macs: map<string, string>, ps: seq<Pair>, sws: seq<string>): seq<Command>
    requires Covers(macs, ps)
  {
    if ps == [] then []
    else
      var p := ps[|ps| - 1];
      InstallCommands(macs, ps[..|ps| - 1], sws) + SwitchPairCommands(macs[p.0], macs[p.1], sws)
  }

  lemma AddToNone(t: map<string, set<Rule>>, rs: set<Rule>)
    ensures AddToAll(t, [], rs) == t
  {
    var a := AddToAll(t, [], rs);
    assert a.Keys == t.Keys;
    forall sw | sw in a ensures a[sw] == t[sw] {
    }
  }

  /**
   * One more switch of the list gets the pair's two rules, one after the
   * other, and its two commands follow the earlier ones.
   */
  lemma AddToAllStep(t: map<string, set<Rule>>, sws: seq<string>, j: nat, mSrc: string, mDst: string, log0: seq<Command>)
    requires j < |sws| && sws[j] in t
    ensures var before, sw, f, g := AddToAll(t, sws[..j], {FloodPair(mSrc, mDst), FloodPair(mDst, mSrc)}), sws[j],
                                    FloodPair(mSrc, mDst), FloodPair(mDst, mSrc);
      AddToAll(t, sws[..j + 1], {f, g}) == before[sw := before[sw] + {f}][sw := before[sw := before[sw] + {f}][sw] + {g}]
    ensures log0 + SwitchPairCommands(mSrc, mDst, sws[..j])
              + [Command.AddFlow(sws[j], FloodPair(mSrc, mDst))] + [Command.AddFlow(sws[j], FloodPair(mDst, mSrc))]
         == log0 + SwitchPairCommands(mSrc, mDst, sws[..j + 1])
  {
    var sw, f, g := sws[j], FloodPair(mSrc, mDst), FloodPair(mDst, mSrc);
    var before := AddToAll(t, sws[..j], {f, g});
    var a, b := AddToAll(t, sws[..j + 1], {f, g}), before[sw := before[sw] + {f}][sw := before[sw := before[sw] + {f}][sw] + {g}];
    assert sws[..j + 1] == sws[..j] + [sw];
    assert a.Keys == b.Keys;
    forall x | x in a ensures a[x] == b[x] {
    }
    assert sws[..j + 1][..j] == sws[..j];
    AppendAssoc(log0, SwitchPairCommands(mSrc, mDst, sws[..j]),
                [Command.AddFlow(sw, FloodPair(mSrc, mDst)), Command.AddFlow(sw, FloodPair(mDst, mSrc))]);
  }

  /** The inner loop: both rules of one MAC pair on every switch. */
  method InstallPair(net: Network, mSrc: string, mDst: string, sws: seq<string>)
    requires SwitchesPresent(net.tables, sws)
    modifies net
    ensures net.tables == AddToAll(old(net.tables), sws, {FloodPair(mSrc, mDst), FloodPair(mDst, mSrc)})
    ensures net.log == old(net.log) + SwitchPairCommands(mSrc, mDst, sws)
  {
    ghost var t0, rs := net.tables, {FloodPair(mSrc, mDst), FloodPair(mDst, mSrc)};
    assert sws[..0] == [];
    AddToNone(t0, rs);
    for j := 0 to |sws|
      invariant net.tables.Keys == t0.Keys
      invariant net.tables == AddToAll(t0, sws[..j], rs)
      invariant net.log == old(net.log) + SwitchPairCommands(mSrc, mDst, sws[..j])
    {
      var sw := sws[j];
      net.AddFlow(sw, FloodPair(mSrc, mDst));
      net.AddFlow(sw, FloodPair(mDst, mSrc));
      AddToAllStep(t0, sws, j, mSrc, mDst, old(net.log));
    }
    assert sws[..|sws|] == sws;
  }

  /** One more pair of the enumeration adds its two rules and its commands. */
  lemma InstallStep(macs: map<string, string>, ps: seq<Pair>, sws: seq<string>, k: nat)
    requires k < |ps| && Covers(macs, ps)
    ensures Covers(macs, ps[..k]) && Covers(macs, ps[..k + 1])
    ensures PairRules(macs, ps[..k + 1]) == PairRules(macs, ps[..k]) + PairRulesOf(macs, ps[k])
    ensures InstallCommands(macs, ps[..k + 1], sws)
         == InstallCommands(macs, ps[..k], sws) + SwitchPairCommands(macs[ps[k].0], macs[ps[k].1], sws)
  {
    assert ps[..k + 1][..k] == ps[..k];
    assert forall p :: p in ps[..k + 1] ==> p in ps;
  }

  /** The outer loop: every pair of `pares`, in order. */
  method InstallPairFlows(net: Network, macs: map<string, string>, pares: seq<Pair>, sws: seq<string>)
    requires SwitchesPresent(net.tables, sws)
    requires Covers(macs, pares)
    modifies net
    ensures net.tables == AddToAll(old(net.tables), sws, PairRules(macs, pares))
    ensures net.log == old(net.log) + InstallCommands(macs, pares, sws)
  {
    ghost var t0 := net.tables;
    assert PairRules(macs, pares[..0]) == {};
    AddToAllNothing(t0, sws);
    for k := 0 to |pares|
      invariant Covers(macs, pares[..k])
      invariant net.tables == AddToAll(t0, sws, PairRules(macs, pares[..k]))
      invariant net.log == old(net.log) + InstallCommands(macs, pares[..k], sws)
    {
      var p := pares[k];
      var mSrc, mDst := macs[p.0], macs[p.1];
      ghost var done := PairRules(macs, pares[..k]);
      InstallStep(macs, pares, sws, k);
      InstallPair(net, mSrc, mDst, sws);
      AddToAllTwice(t0, sws, done, {FloodPair(mSrc, mDst), FloodPair(mDst, mSrc)});
      AppendAssoc(old(net.log), InstallCommands(macs, pares[..k], sws), SwitchPairCommands(mSrc, mDst, sws));
    }
    assert pares[..|pares|] == pares;
  }

  // ---------------------------------------------------------------------
  // The whole of add_mac_flows
  // ---------------------------------------------------------------------

  lemma PairsCovered(macs: map<string, string>, hosts: seq<string>)
    requires Resolves(macs, hosts)
    ensures Covers(macs, PairsOf(hosts, hosts))
  {
    PairsOfMember(hosts, hosts);
  }

  lemma HostPairsCovered(macs: map<string, string>)
    requires HostsResolved(macs)
    ensures Covers(macs, PairsOf(HostTuple, HostTuple))
  {
    PairsCovered(macs, HostTuple);
  }

  /** The table every programmed switch ends with. */
  ghost function ProvisionedTable(macs: map<string, string>): set<Rule>
    requires HostsResolved(macs)
  {
    HostPairsCovered(macs);
    {ArpRule} + PairRules(macs, PairsOf(HostTuple, HostTuple))
  }

  /** The tables after `add_mac_flows`: every listed switch holds the provisioned table, the others are untouched. */
  ghost function Provision(t: map<string, set<Rule>>, macs: map<string, string>): map<string, set<Rule>>
    requires HostsResolved(macs)
  {
    map sw | sw in t :: if sw in Switches then ProvisionedTable(macs) else t[sw]
  }

  /** Every command `add_mac_flows` sends, in order. */
  ghost function ProvisionCommands(macs: map<string, string>): seq<Command>
    requires HostsResolved(macs)
  {
    HostPairsCovered(macs);
    ResetCommands(Switches) + InstallCommands(macs, PairsOf(HostTuple, HostTuple), Switches)
  }

  /** Resetting the listed switches and then installing every pair rule gives the provisioned tables. */
  lemma ResetThenInstall(t: map<string, set<Rule>>, macs: map<string, string>)
    requires HostsResolved(macs)
    ensures Covers(macs, PairsOf(HostTuple, HostTuple))
    ensures AddToAll(Reset(t, Switches), Switches, PairRules(macs, PairsOf(HostTuple, HostTuple))) == Provision(t, macs)
  {
    HostPairsCovered(macs);
    var a := AddToAll(Reset(t, Switches), Switches, PairRules(macs, PairsOf(HostTuple, HostTuple)));
    var b := Provision(t, macs);
    assert a.Keys == b.Keys;
    forall sw | sw in a ensures a[sw] == b[sw] {
    }
  }

  /** The body of `add_mac_flows` for a given switch list and host tuple. */
  method ProvisionWith(net: Network, macs: map<string, string>, switches: seq<string>, hosts: seq<string>)
    requires SwitchesPresent(net.tables, switches)
    requires Resolves(macs, hosts)
    modifies net
    ensures Covers(macs, PairsOf(hosts, hosts))
    ensures net.tables == AddToAll(Reset(old(net.tables), switches), switches, PairRules(macs, PairsOf(hosts, hosts)))
    ensures net.log == old(net.log) + (ResetCommands(switches) + InstallCommands(macs, PairsOf(hosts, hosts), switches))
  {
    ResetFlows(net, switches);
    ResetKeepsSwitches(old(net.tables), switches);
    var pares := OrderedPairs(hosts);
    PairsCovered(macs, hosts);
    InstallPairFlows(net, macs, pares, switches);
    AppendAssoc(old(net.log), ResetCommands(switches), InstallCommands(macs, pares, switches));
  }

  /** `add_mac_flows`: reset s1, s2 and s3, then install the rules of every ordered pair of h1..h5. */
  method AddMacFlows(net: Network, macs: map<string, string>)
    requires SwitchesPresent(net.tables, Switches)
    requires HostsResolved(macs)
    modifies net
    ensures net.tables == Provision(old(net.tables), macs)
    ensures net.log == old(net.log) + ProvisionCommands(macs)
  {
    ResetThenInstall(net.tables, macs);
    ProvisionWith(net, macs, Switches, HostTuple);
  }

  // ---------------------------------------------------------------------
  // What every programmed switch ends with
  // ---------------------------------------------------------------------

  /** The forward rule of every pair in `s`. */
  ghost function ForwardSet(macs: map<string, string>, s: set<Pair>): set<Rule>
  {
    set p | p in s && p.0 in macs && p.1 in macs :: FloodPair(macs[p.0], macs[p.1])
  }

  /** Pairs with distinct MAC images give as many forward rules as there are pairs. */
  lemma {:induction false} ForwardSetCard(macs: map<string, string>, s: set<Pair>)
    requires forall p :: p in s ==> p.0 in macs && p.1 in macs
    requires forall p, q :: p in s && q in s && macs[p.0] == macs[q.0] && macs[p.1] == macs[q.1] ==> p == q
    ensures |ForwardSet(macs, s)| == |s|
    decreases |s|
  {
    if s != {} {
      var p :| p in s;
      var rest := s - {p};
      assert ForwardSet(macs, s) == ForwardSet(macs, rest) + {FloodPair(macs[p.0], macs[p.1])};
      assert FloodPair(macs[p.0], macs[p.1]) !in ForwardSet(macs, rest);
      ForwardSetCard(macs, rest);
    }
  }

  /**
   * The unicast rules of the enumeration are the forward rules of its pairs:
   * the backward rule of `(a, b)` is the forward rule of `(b, a)`, which is
   * enumerated too.
   */
  lemma EnumeratedRules(macs: map<string, string>, hosts: seq<string>)
    requires Resolves(macs, hosts)
    ensures Covers(macs, PairsOf(hosts, hosts))
    ensures PairRules(macs, PairsOf(hosts, hosts)) == ForwardSet(macs, Elems(PairsOf(hosts, hosts)))
  {
    var ps := PairsOf(hosts, hosts);
    PairsCovered(macs, hosts);
    PairsOfMember(hosts, hosts);
    forall r ensures r in PairRules(macs, ps) <==> r in ForwardSet(macs, Elems(ps)) {
      PairRulesMember(macs, ps, r);
      if r in PairRules(macs, ps) {
        var p :| p in ps && (r == FloodPair(macs[p.0], macs[p.1]) || r == FloodPair(macs[p.1], macs[p.0]));
        if r == FloodPair(macs[p.1], macs[p.0]) {
          assert (p.1, p.0) in Elems(ps);
        } else {
          assert p in Elems(ps);
        }
      }
    }
  }

  /**
   * With distinct MAC addresses, a switch ends with one ARP rule and one
   * unicast rule per ordered pair of distinct hosts.
   */
  lemma {:induction false} TableCount(macs: map<string, string>, hosts: seq<string>)
    requires NoDup(hosts) && Resolves(macs, hosts) && InjectiveOn(macs, hosts)
    ensures Covers(macs, PairsOf(hosts, hosts))
    ensures |{ArpRule} + PairRules(macs, PairsOf(hosts, hosts))| == |hosts| * (|hosts| - 1) + 1
  {
    var ps := PairsOf(hosts, hosts);
    EnumeratedRules(macs, hosts);
    PairsOfMember(hosts, hosts);
    PairsOfNoDup(hosts, hosts);
    PairsOfLength(hosts, hosts);
    NoDupCard(ps);
    ForwardSetCard(macs, Elems(ps));
    PairRulesSymmetric(macs, ps);
    assert ArpRule !in PairRules(macs, ps);
  }

  /** Under automatic (distinct) MAC assignment each switch holds exactly 21 rules: 20 unicast, 1 ARP. */
  lemma ProvisionedCount(macs: map<string, string>)
    requires HostsResolved(macs) && InjectiveOn(macs, HostTuple)
    ensures |ProvisionedTable(macs)| == 21
  {
    assert NoDup(HostTuple);
    TableCount(macs, HostTuple);
  }

  /**
   * A provisioned table holds the ARP rule and, for every two distinct hosts,
   * the flood rule for their MAC pair, and nothing else.
   */
  lemma ProvisionedMember(macs: map<string, string>, r: Rule)
    requires HostsResolved(macs)
    ensures r in ProvisionedTable(macs) <==>
      r == ArpRule || exists a, b :: a in HostTuple && b in HostTuple && a != b && r == FloodPair(macs[a], macs[b])
  {
    EnumeratedRules(macs, HostTuple);
    PairsOfMember(HostTuple, HostTuple);
    var ps := PairsOf(HostTuple, HostTuple);
    if r in PairRules(macs, ps) {
      var p :| p in ps && r == FloodPair(macs[p.0], macs[p.1]);
      assert p.0 in HostTuple && p.1 in HostTuple && p.0 != p.1;
    }
    if exists a, b :: a in HostTuple && b in HostTuple && a != b && r == FloodPair(macs[a], macs[b]) {
      var a, b :| a in HostTuple && b in HostTuple && a != b && r == FloodPair(macs[a], macs[b]);
      assert (a, b) in Elems(ps);
    }
  }

  /** Symmetry: a provisioned table holds the reverse of every unicast rule it holds, and every rule floods. */
  lemma ProvisionedSymmetric(macs: map<string, string>)
    requires HostsResolved(macs)
    ensures forall r :: r in ProvisionedTable(macs) ==> r.action == Flood
    ensures forall x, y :: FloodPair(x, y) in ProvisionedTable(macs) ==> FloodPair(y, x) in ProvisionedTable(macs)
  {
    HostPairsCovered(macs);
    PairRulesSymmetric(macs, PairsOf(HostTuple, HostTuple));
  }

  /**
   * After provisioning, every listed switch holds the same table whatever it
   * held before, and every other switch keeps its table.
   */
  lemma ProvisionForgets(t: map<string, set<Rule>>, u: map<string, set<Rule>>, macs: map<string, string>)
    requires HostsResolved(macs)
    ensures forall sw :: sw in t && sw in u && sw in Switches ==> Provision(t, macs)[sw] == Provision(u, macs)[sw]
    ensures forall sw :: sw in t && sw !in Switches ==> Provision(t, macs)[sw] == t[sw]
  {
  }

  /** Idempotence: provisioning twice gives the same tables as provisioning once. */
  lemma ProvisionIdempotent(t: map<string, set<Rule>>, macs: map<string, string>)
    requires HostsResolved(macs)
    ensures Provision(Provision(t, macs), macs) == Provision(t, macs)
  {
    var once := Provision(t, macs);
    var twice := Provision(once, macs);
    assert twice.Keys == once.Keys;
    forall sw | sw in twice ensures twice[sw] == once[sw] {
    }
  }

  // ---------------------------------------------------------------------
  // The command stream
  // ---------------------------------------------------------------------

  /** `c` adds a unicast (MAC pair) rule to switch `sw`. */
  ghost predicate IsUnicastOn(c: Command, sw: string)
  {
    c.AddFlow? && c.sw == sw && c.rule.pattern.MacPair?
  }

  /** How many commands of `cmds` add a unicast rule to `sw`. */
  ghost function UnicastCount(cmds: seq<Command>, sw: string): nat
  {
    if cmds == [] then 0
    else UnicastCount(cmds[..|cmds| - 1], sw) + (if IsUnicastOn(cmds[|cmds| - 1], sw) then 1 else 0)
  }

  lemma {:induction false} UnicastCountConcat(a: seq<Command>, b: seq<Command>, sw: string)
    ensures UnicastCount(a + b, sw) == UnicastCount(a, sw) + UnicastCount(b, sw)
    decreases |b|
  {
    if b != [] {
      assert (a + b)[..|a + b| - 1] == a + b[..|b| - 1];
      UnicastCountConcat(a, b[..|b| - 1], sw);
    } else {
      assert a + b == a;
    }
  }

  /** The reset loop sends two commands per switch and no unicast rule. */
  lemma {:induction false} ResetCommandsShape(sws: seq<string>, sw: string)
    ensures |ResetCommands(sws)| == 2 * |sws|
    ensures UnicastCount(ResetCommands(sws), sw) == 0
  {
    if sws != [] {
      var last := sws[|sws| - 1];
      ResetCommandsShape(sws[..|sws| - 1], sw);
      UnicastCountConcat(ResetCommands(sws[..|sws| - 1]), [Command.DelFlows(last), Command.AddFlow(last, ArpRule)], sw);
      var two := [Command.DelFlows(last), Command.AddFlow(last, ArpRule)];
      assert UnicastCount(two, sw) == 0 by {
        assert two[..1][..0] == [] && two[..1] == [Command.DelFlows(last)];
        assert UnicastCount(two[..1], sw) == 0;
      }
    }
  }

  /** One pair sends two unicast commands to each occurrence of `sw` in `sws`. */
  lemma {:induction false} SwitchPairCommandsShape(mSrc: string, mDst: string, sws: seq<string>, sw: string)
    ensures |SwitchPairCommands(mSrc, mDst, sws)| == 2 * |sws|
    ensures UnicastCount(SwitchPairCommands(mSrc, mDst, sws), sw) == 2 * multiset(sws)[sw]
  {
    if sws != [] {
      var init, last := sws[..|sws| - 1], sws[|sws| - 1];
      assert sws == init + [last];
      SwitchPairCommandsShape(mSrc, mDst, init, sw);
      var two := [Command.AddFlow(last, FloodPair(mSrc, mDst)), Command.AddFlow(last, FloodPair(mDst, mSrc))];
      UnicastCountConcat(SwitchPairCommands(mSrc, mDst, init), two, sw);
      assert UnicastCount(two, sw) == if last == sw then 2 else 0 by {
        assert two[..1][..0] == [] && two[..1] == [two[0]];
        assert UnicastCount(two[..1], sw) == if last == sw then 1 else 0;
      }
    }
  }

  /** The install loop sends `2 * |ps|` unicast commands to each occurrence of `sw` in `sws`. */
  lemma {:induction false} InstallCommandsShape(macs: map<string, string>, ps: seq<Pair>, sws: seq<string>, sw: string)
    requires Covers(macs, ps)
    ensures |InstallCommands(macs, ps, sws)| == |ps| * (2 * |sws|)
    ensures UnicastCount(InstallCommands(macs, ps, sws), sw) == |ps| * (2 * multiset(sws)[sw])
  {
    if ps != [] {
      var init, p := ps[..|ps| - 1], ps[|ps| - 1];
      assert Covers(macs, init) by {
        forall q | q in init ensures q.0 in macs && q.1 in macs {
          assert q in ps;
        }
      }
      InstallCommandsShape(macs, init, sws, sw);
      SwitchPairCommandsShape(macs[p.0], macs[p.1], sws, sw);
      UnicastCountConcat(InstallCommands(macs, init, sws), SwitchPairCommands(macs[p.0], macs[p.1], sws), sw);
      MulSucc(|init|, 2 * |sws|);
      MulSucc(|init|, 2 * multiset(sws)[sw]);
    }
  }

  /**
   * `add_mac_flows` sends 126 commands: a delete and an ARP rule per switch,
   * then 40 unicast add-flow commands per switch (two for each of the 20
   * ordered pairs).
   */
  lemma ProvisionCommandCount(macs: map<string, string>)
    requires HostsResolved(macs)
    ensures |ProvisionCommands(macs)| == 126
    ensures forall sw :: sw in Switches ==> UnicastCount(ProvisionCommands(macs), sw) == 40
  {
    HostPairsCovered(macs);
    HostPairsListed();
    var ps := PairsOf(HostTuple, HostTuple);
    assert |ps| == 20;
    forall sw | sw in Switches
      ensures UnicastCount(ProvisionCommands(macs), sw) == 40
    {
      assert multiset(Switches)[sw] == 1;
      ResetCommandsShape(Switches, sw);
      InstallCommandsShape(macs, ps, Switches, sw);
      UnicastCountConcat(ResetCommands(Switches), InstallCommands(macs, ps, Switches), sw);
    }
    ResetCommandsShape(Switches, "s1");
    InstallCommandsShape(macs, ps, Switches, "s1");
  }

  /** The reset loop sends only deletes and ARP rules. */
  lemma {:induction false} ResetCommandsKinds(sws: seq<string>)
    ensures forall c :: c in ResetCommands(sws) ==> c.DelFlows? || c.rule == ArpRule
  {
    if sws != [] {
      ResetCommandsKinds(sws[..|sws| - 1]);
    }
  }

  /** On a switch listed once, one MAC pair's commands add rule `r` once per direction it matches. */
  lemma {:induction false} SwitchPairOccurrences(mSrc: string, mDst: string, sws: seq<string>, sw: string, r: Rule)
    requires NoDup(sws)
    ensures multiset(SwitchPairCommands(mSrc, mDst, sws))[Command.AddFlow(sw, r)]
         == if sw in sws then (if r == FloodPair(mSrc, mDst) then 1 else 0) + (if r == FloodPair(mDst, mSrc) then 1 else 0)
            else 0
  {
    if sws != [] {
      var init, last := sws[..|sws| - 1], sws[|sws| - 1];
      assert sws == init + [last];
      assert forall i :: 0 <= i < |init| ==> init[i] == sws[i];
      assert last !in init;
      SwitchPairOccurrences(mSrc, mDst, init, sw, r);
    }
  }

  lemma FloodPairInjective(macs: map<string, string>, hosts: seq<string>, a: string, b: string, x: string, y: string)
    requires Resolves(macs, hosts) && InjectiveOn(macs, hosts)
    requires a in hosts && b in hosts && x in hosts && y in hosts
    ensures FloodPair(macs[a], macs[b]) == FloodPair(macs[x], macs[y]) <==> a == x && b == y
  {
  }

  /**
   * With distinct MAC addresses, the install loop adds the rule for hosts
   * (`a`, `b`) to a switch once for each occurrence of the pair `(a, b)` (as
   * its forward rule) and once for each occurrence of `(b, a)` (as its
   * backward rule).
   */
  lemma {:induction false} InstallOccurrences(macs: map<string, string>, hosts: seq<string>, ps: seq<Pair>,
                                              sws: seq<string>, sw: string, a: string, b: string)
    requires Resolves(macs, hosts) && InjectiveOn(macs, hosts)
    requires Covers(macs, ps)
    requires forall p :: p in ps ==> p.0 in hosts && p.1 in hosts
    requires a in hosts && b in hosts
    requires NoDup(sws) && sw in sws
    ensures multiset(InstallCommands(macs, ps, sws))[Command.AddFlow(sw, FloodPair(macs[a], macs[b]))]
         == multiset(ps)[(a, b)] + multiset(ps)[(b, a)]
  {
    if ps != [] {
      var init, p := ps[..|ps| - 1], ps[|ps| - 1];
      assert ps == init + [p];
      assert forall q :: q in init ==> q in ps;
      var r, c := FloodPair(macs[a], macs[b]), Command.AddFlow(sw, FloodPair(macs[a], macs[b]));
      var head, tail := InstallCommands(macs, init, sws), SwitchPairCommands(macs[p.0], macs[p.1], sws);
      assert InstallCommands(macs, ps, sws) == head + tail;
      assert multiset(head + tail)[c] == multiset(head)[c] + multiset(tail)[c];
      InstallOccurrences(macs, hosts, init, sws, sw, a, b);
      SwitchPairOccurrences(macs[p.0], macs[p.1], sws, sw, r);
      assert p.0 in hosts && p.1 in hosts;
      FloodPairInjective(macs, hosts, a, b, p.0, p.1);
      FloodPairInjective(macs, hosts, a, b, p.1, p.0);
      CountSnoc(init, p, (a, b));
      CountSnoc(init, p, (b, a));
    }
  }

  /** The generic form of `PairCommandsTwice`, for any repetition-free host and switch lists. */
  lemma EnumeratedCommandsTwice(macs: map<string, string>, hosts: seq<string>, sws: seq<string>,
                                sw: string, a: string, b: string)
    requires NoDup(hosts) && Resolves(macs, hosts) && InjectiveOn(macs, hosts)
    requires NoDup(sws) && sw in sws
    requires a in hosts && b in hosts && a != b
    ensures Covers(macs, PairsOf(hosts, hosts))
    ensures multiset(ResetCommands(sws) + InstallCommands(macs, PairsOf(hosts, hosts), sws))
              [Command.AddFlow(sw, FloodPair(macs[a], macs[b]))] == 2
  {
    var ps := PairsOf(hosts, hosts);
    var c := Command.AddFlow(sw, FloodPair(macs[a], macs[b]));
    PairsCovered(macs, hosts);
    PairsOfMember(hosts, hosts);
    PairsOfNoDup(hosts, hosts);
    NoDupCount(ps, (a, b));
    NoDupCount(ps, (b, a));
    InstallOccurrences(macs, hosts, ps, sws, sw, a, b);
    ResetCommandsKinds(sws);
    assert c !in ResetCommands(sws);
  }

  /**
   * Every ordered pair is added twice: with distinct MAC addresses, the
   * command adding the rule for two distinct hosts is sent exactly twice to
   * each switch, once as the forward rule of one pair and once as the
   * backward rule of the reverse pair.
   */
  lemma PairCommandsTwice(macs: map<string, string>, sw: string, a: string, b: string)
    requires HostsResolved(macs) && InjectiveOn(macs, HostTuple)
    requires sw in Switches && a in HostTuple && b in HostTuple && a != b
    ensures multiset(ProvisionCommands(macs))[Command.AddFlow(sw, FloodPair(macs[a], macs[b]))] == 2
  {
    assert NoDup(HostTuple) && NoDup(Switches);
    EnumeratedCommandsTwice(macs, HostTuple, Switches, sw, a, b);
  }
}
