# Static MAC-pair flow provisioning on a three-switch Mininet topology

This project models the core of `TrabalhoMininet-final.py`, a Mininet script. The script:

- declares a fixed topology (`CustomTopo.build`): switches s1, s2 and s3; hosts h1..h5 with static addresses `192.168.0.k/28`; h1 and h2 on s1, h3 on s2, h4 and h5 on s3, and the links s1–s2 and s2–s3;
- programs the Open vSwitch flow tables (`add_mac_flows`):
  - every switch is reset: `ovs-ofctl del-flows`, then one ARP rule (`dl_type=0x806,actions=flood`);
  - the ordered pairs of distinct hosts are enumerated in a nested loop;
  - for every pair, each switch gets two `dl_src=…,dl_dst=…,actions=flood` rules, one per direction.

The model has four modules:

- `SeqFacts` (`seqfacts.dfy`): facts about repetition-free sequences that the other modules use.
- `Ofctl` (`ofctl.dfy`): the two command shapes as values (`Command`, `Rule`, `Match`, `Action`).
  - `Render` builds the exact text the script concatenates.
  - `Parse` reads that text back, so the round trip shows the text is unambiguous.
- `Flows` (`flows.dfy`): the switch side is a `Network` object.
  - `tables` is a map from switch name to a set of rules. `log` is the sequence of commands sent.
  - `DelFlows` and `AddFlow` update the object in place.
  - The script's loops are methods with loop invariants. Each is proved against a specification function (`Reset`, `PairsOf`, `PairRules`, `Provision`, and the command sequences `ResetCommands`, `InstallCommands` and `ProvisionCommands`).
  - Lemmas state what the result means: which pairs, how many, in what order, which rules every switch ends with, symmetry, idempotence and command counts.
- `Topology` (`topology.dfy`): `CustomTopo` is a class whose `addSwitch`/`addHost`/`addLink` calls append to its fields. `Build` replays the script's calls. Lemmas prove that the resulting graph `Designed`:
  - has 3 switches, 5 hosts and 7 links;
  - is connected;
  - is a tree (every link is a bridge);
  - carries the listed addresses.

The MAC addresses come from Mininet (`h.MAC()`), so they are an input map `macs` from host name to MAC text. The script builds that dictionary from exactly the five hosts (lines 51-52). The model therefore requires that all five hosts are resolved (`HostsResolved`). Only the counting lemmas also require that the addresses are distinct, which Mininet's `autoSetMacs=True` provides. The script indexes `net[s]` only for s1, s2 and s3. `NamesMatchTopology` proves that these and the host tuple are exactly the names the topology declares. `SwitchesPresent` is required of the network for that reason.

A switch's flow table is modelled as a set of rules. Adding a flow whose match and action are already in the table leaves the table as it was, which is how `ovs-ofctl add-flow` treats an identical flow. The command log keeps every command, duplicates included, so the counts of commands sent are stated on the log.

## Model

| member | source | states |
|---|---|---|
| `Ofctl.Render` | TrabalhoMininet-final.py:47-65 | the texts built on lines 47, 48, 64 and 65 say which command they are: a text starts with `ovs-ofctl del-flows ` exactly when it is a delete, and with `ovs-ofctl add-flow ` exactly when it is an add |
| `Ofctl.DelCommandText` | TrabalhoMininet-final.py:47 | the reset command for switch `sw` is exactly `ovs-ofctl del-flows <sw>` |
| `Ofctl.ArpCommandText` | TrabalhoMininet-final.py:48 | the ARP reset command for switch `sw` is exactly `ovs-ofctl add-flow <sw> dl_type=0x806,actions=flood` |
| `Ofctl.PairCommandText` | TrabalhoMininet-final.py:64-65 | a unicast command is exactly `ovs-ofctl add-flow <sw> dl_src=<src>,dl_dst=<dst>,actions=flood` |
| `Ofctl.ParseRender` | TrabalhoMininet-final.py:47-65 | every command the script builds can be read back from its text, provided the switch name has no space and the MACs have no comma; the concatenation loses nothing |
| `Flows.Network.constructor` | TrabalhoMininet-final.py:41 | the network handed to `add_mac_flows` has the given flow tables and no command sent yet |
| `Flows.Network.DelFlows` | TrabalhoMininet-final.py:47 | `del-flows` empties that switch's table, leaves all other tables alone and logs the command |
| `Flows.Network.AddFlow` | TrabalhoMininet-final.py:48 | `add-flow` adds the rule to that switch's table only and logs the command |
| `Flows.ResetFlows` | TrabalhoMininet-final.py:46-48 | after the reset loop, every listed switch holds exactly {ARP flood} and every other switch is unchanged; the log gains delete and ARP for each switch, in order |
| `Flows.ResetCommandsShape` | TrabalhoMininet-final.py:46-48 | the reset loop sends 2 commands per switch and no unicast rule |
| `Flows.ResetCommandsKinds` | TrabalhoMininet-final.py:46-48 | every reset command is a delete or the ARP rule |
| `Flows.OrderedPairs` | TrabalhoMininet-final.py:54-58 | the nested loop builds exactly `PairsOf(hosts, hosts)`: for each source in tuple order, the other hosts in tuple order |
| `Flows.RowPairsMember` | TrabalhoMininet-final.py:56-58 | one inner-loop row holds exactly the pairs (src, d) with d listed and d ≠ src |
| `Flows.PairsOfMember` | TrabalhoMininet-final.py:54-58 | a pair is enumerated if and only if both names are listed and they differ, so there are no self-pairs |
| `Flows.RowPairsShape` | TrabalhoMininet-final.py:56-58 | a row has no repeated pair; it has one pair fewer than there are hosts when the source is one of them |
| `Flows.PairsOfLength` | TrabalhoMininet-final.py:54-58 | with n distinct hosts the loop yields n·(n−1) pairs |
| `Flows.PairsOfNoDup` | TrabalhoMininet-final.py:54-58 | no pair is enumerated twice |
| `Flows.RowOf` | TrabalhoMininet-final.py:56-58 | the row of a source is the other hosts of the tuple, in tuple order |
| `Flows.HostPairsListed` | TrabalhoMininet-final.py:54-58 | for the five hosts, `pares` is exactly the 20 listed pairs, ordered by source and then destination |
| `Flows.PairRulesMember` | TrabalhoMininet-final.py:61-65 | a rule is installed for the pairs if and only if it is the forward or backward MAC rule of one of them |
| `Flows.PairRulesSymmetric` | TrabalhoMininet-final.py:61-65 | every installed unicast rule floods and matches a MAC pair, and its reverse is installed too |
| `Flows.InstallPair` | TrabalhoMininet-final.py:63-65 | the inner loop adds both directional rules of one MAC pair to every listed switch, and nothing else; the log gains the two commands per switch, in order |
| `Flows.InstallPairFlows` | TrabalhoMininet-final.py:61-65 | the outer loop adds `PairRules(macs, pares)` to every listed switch; the log gains the install commands in pair order |
| `Flows.PairsCovered` | TrabalhoMininet-final.py:52-62 | when every host has a MAC, every enumerated pair can be looked up in `macs` |
| `Flows.HostPairsCovered` | TrabalhoMininet-final.py:51-62 | with the five hosts resolved, every enumerated pair has both MACs |
| `Flows.ResetThenInstall` | TrabalhoMininet-final.py:44-65 | resetting the three switches and then adding every pair rule gives `Provision` |
| `Flows.ProvisionWith` | TrabalhoMininet-final.py:44-65 | the body of `add_mac_flows` for any switch list and host tuple: the tables become the reset tables plus the enumerated pair rules on every listed switch; the log gains the reset commands, then the install commands |
| `Flows.AddMacFlows` | TrabalhoMininet-final.py:41-65 | after `add_mac_flows`, s1, s2 and s3 each hold the provisioned table whatever they held before, and other switches are untouched; the log is the reset commands followed by the install commands |
| `Flows.EnumeratedRules` | TrabalhoMininet-final.py:54-65 | the installed unicast rules are the forward rules of the enumerated pairs, because each backward rule is the forward rule of the reversed pair |
| `Flows.TableCount` | TrabalhoMininet-final.py:44-65 | with n distinct hosts and distinct MACs, a switch ends with n·(n−1) + 1 rules |
| `Flows.ProvisionedCount` | TrabalhoMininet-final.py:44-65 | with distinct MACs, every switch ends with exactly 21 rules: 20 unicast and 1 ARP |
| `Flows.ProvisionedMember` | TrabalhoMininet-final.py:44-65 | a provisioned table holds a rule if and only if it is the ARP rule or the flood rule (MAC a, MAC b) for two distinct hosts a, b |
| `Flows.ProvisionedSymmetric` | TrabalhoMininet-final.py:61-65 | every rule of a provisioned table floods, and the reverse of every unicast rule is in it |
| `Flows.ProvisionForgets` | TrabalhoMininet-final.py:44-48 | the programmed switches end with the same table whatever they held before; other switches keep theirs |
| `Flows.ProvisionIdempotent` | TrabalhoMininet-final.py:41-65 | running `add_mac_flows` twice leaves the same tables as running it once: no stale or accumulated rules |
| `Flows.SwitchPairCommandsShape` | TrabalhoMininet-final.py:63-65 | one pair sends two unicast commands per listed switch |
| `Flows.InstallCommandsShape` | TrabalhoMininet-final.py:61-65 | the install loop sends 2·(number of pairs) unicast commands to each listed switch |
| `Flows.ProvisionCommandCount` | TrabalhoMininet-final.py:41-65 | `add_mac_flows` sends 126 commands in all, 40 of them unicast `add-flow`s to each of s1, s2 and s3 |
| `Flows.SwitchPairOccurrences` | TrabalhoMininet-final.py:63-65 | for one MAC pair, a switch listed once receives a given rule once for each direction it matches |
| `Flows.InstallOccurrences` | TrabalhoMininet-final.py:61-65 | with distinct MACs, the rule for hosts (a, b) is sent to a switch once per occurrence of (a, b) and once per occurrence of (b, a) in the pairs |
| `Flows.EnumeratedCommandsTwice` | TrabalhoMininet-final.py:44-65 | with distinct hosts, switches and MACs, each unicast command for two distinct hosts is sent to each switch exactly twice |
| `Flows.PairCommandsTwice` | TrabalhoMininet-final.py:41-65 | every ordered pair is added twice: the command for hosts a ≠ b is sent exactly twice to each of s1, s2 and s3 |
| `Flows.NamesMatchTopology` | TrabalhoMininet-final.py:44-55 | the switch list and the host tuple of `add_mac_flows` are exactly the switches and hosts the topology declares, in order |
| `Topology.CustomTopo.constructor` | TrabalhoMininet-final.py:14-38 | a new topology object holds exactly the designed graph |
| `Topology.CustomTopo.AddSwitch` | TrabalhoMininet-final.py:16-18 | `addSwitch` appends the switch, returns its name and changes nothing else |
| `Topology.CustomTopo.AddHost` | TrabalhoMininet-final.py:22-26 | `addHost` appends the host with its address, returns its name and changes nothing else |
| `Topology.CustomTopo.AddLink` | TrabalhoMininet-final.py:30-38 | `addLink` appends the link and changes nothing else |
| `Topology.CustomTopo.Build` | TrabalhoMininet-final.py:14-38 | `build` appends the three switches, the five addressed hosts and the seven links, in declaration order |
| `Topology.NodesOfDesigned` | TrabalhoMininet-final.py:16-26 | the nodes are s1, s2, s3, h1..h5 |
| `Topology.DesignedNodesDistinct` | TrabalhoMininet-final.py:16-26 | no node name is declared twice |
| `Topology.DesignedLinksWellFormed` | TrabalhoMininet-final.py:30-38 | every link joins two different declared nodes |
| `Topology.ReachableSymmetric` | TrabalhoMininet-final.py:30-38 | links are undirected: reachability is symmetric |
| `Topology.ReachesHub` | TrabalhoMininet-final.py:30-38 | every node reaches s2 |
| `Topology.DesignedConnected` | TrabalhoMininet-final.py:30-38 | every node reaches every node |
| `Topology.DesignedBridge` | TrabalhoMininet-final.py:30-38 | removing any single link disconnects the graph |
| `Topology.DesignedLinksAreBridges` | TrabalhoMininet-final.py:30-38 | every one of the seven links is a bridge |
| `Topology.DesignedIsTree` | TrabalhoMininet-final.py:14-38 | 3 switches, 5 hosts, 7 links, 8 nodes, and the graph is a tree (distinct nodes, well-formed links, connected, no cycle) |
| `Topology.DesignedAddresses` | TrabalhoMininet-final.py:21-27 | host h<k> has address `192.168.0.<k>/28`, for k = 1..5 |

## Left out

- `run()`, the Mininet lifecycle (`net.start`, `pingAll`, `CLI`, `net.stop`) and logging are not modelled. They are I/O and calls into Mininet.
- Open vSwitch itself is not modelled. A command's effect on a table is the set semantics described above, and packet forwarding is not modelled.
- A table is a set keyed by the whole rule (match and action). Open vSwitch identifies a flow by its match and priority, so an `add-flow` that repeats a match with a different action replaces the old flow, while `AddFlow` would keep both. The script never does this: every rule it sends floods, and each listed table is cleared before it is filled.
- `h.MAC()` is a call into Mininet. The MAC addresses are an input map, and their format is not checked.
- `net[sw].cmd` returns the shell output, which the script discards. No command fails in the model, and there is no error path: the script neither raises its own errors nor checks results. A missing switch (`net[s]`) or host MAC (`macs[src]`) would end the script with a Python exception. The model instead requires that they are present (`SwitchesPresent`, `HostsResolved`), which the topology and the dictionary built on line 52 guarantee.
- `Flows.OrderedPairs`: its contract ties `pares` to `PairsOf`. Membership, count and the literal order are lemmas about `PairsOf` (`PairsOfMember`, `PairsOfLength`, `HostPairsListed`) rather than clauses of the method's own `ensures`.
- The per-rule counts (`ProvisionedCount`, `PairCommandsTwice`) assume distinct MAC addresses. With two hosts sharing a MAC, tables would hold fewer rules. The script gets distinct MACs from `autoSetMacs=True`.
- Mininet's internal representation of a topology (node option dictionaries, link options) is reduced to the names, addresses and links the script gives.
