/**
 * The two `ovs-ofctl` command shapes the provisioning script sends to a
 * switch: "delete all flows" and "add a flow (match, action)".  A command
 * is kept as a value; `Render` gives the exact text the script builds, and
 * `Parse` reads that text back, which shows the concatenation is unambiguous.
 */
module Ofctl {

  datatype Option<T> = None | Some(value: T)

  /** What a flow rule matches: ARP frames, or one (source MAC, destination MAC) pair. */
  datatype Match = ArpType | MacPair(src: string, dst: string)

  /**
   * Flow actions. The script only ever sends Flood; Drop is there so that
   * "every installed rule floods" is a property of the tables, not of the type.
   */
  datatype Action = Flood | Drop

  /** One flow-table entry. */
  datatype Rule = Rule(pattern: Match, action: Action)

  /** A command sent to one switch's rule-programming channel. */
  datatype Command = DelFlows(sw: string) | AddFlow(sw: string, rule: Rule)

  /** The ARP broadcast rule installed after every reset. */
  const ArpRule: Rule := Rule(ArpType, Flood)

  /** The unicast rule for frames from MAC `src` to MAC `dst`. */
  function FloodPair(src: string, dst: string): Rule
  {
    Rule(MacPair(src, dst), Flood)
  }

  const DelPrefix: string := "ovs-ofctl del-flows "
  const AddPrefix: string := "ovs-ofctl add-flow "
  const ArpText: string := "dl_type=0x806"
  const SrcKey: string := "dl_src="
  const DstKey: string := "dl_dst="
  const ActionsKey: string := "actions="

  function ActionText(a: Action): string
  {
    match a
    case Flood => "flood"
    case Drop => "drop"
  }

  function MatchText(m: Match): string
  {
    match m
    case ArpType => ArpText
    case MacPair(src, dst) => SrcKey + src + "," + DstKey + dst
  }

  /**
   * The text of a command, as the script concatenates it. The kind of
   * command can be read off the text: only a delete starts with the
   * del-flows prefix, and only an add starts with the add-flow prefix.
   */
  function Render(c: Command): (r: string)
    ensures DelPrefix <= r <==> c.DelFlows?
    ensures AddPrefix <= r <==> c.AddFlow?
  {
    match c
    case DelFlows(sw) =>
      var t := DelPrefix + sw;
      assert DelPrefix <= t && t[10] == 'd' != AddPrefix[10];
      t
    case AddFlow(sw, r) =>
      var t := AddPrefix + sw + " " + MatchText(r.pattern) + "," + ActionsKey + ActionText(r.action);
      assert AddPrefix <= t && t[10] == 'a' != DelPrefix[10];
      t
  }

  /** Regrouping a concatenation of seven strings. */
  lemma Regroup7(a: string, b: string, c: string, d: string, e: string, f: string, g: string)
    ensures a + b + c + d + e + f + g == a + b + (c + d + e + f + g)
  {
  }

  /** Regrouping a concatenation of eleven strings. */
  lemma Regroup11(a: string, b: string, c: string, d: string, e: string, f: string,
                  g: string, h: string, i: string, j: string, k: string)
    ensures a + b + c + (d + e + f + g + h) + i + j + k == a + b + (c + d) + e + (f + g) + h + (i + j + k)
  {
  }

  lemma ArpTail()
    ensures " " + ArpText + "," + ActionsKey + "flood" == " dl_type=0x806,actions=flood"
  {
  }

  lemma PairKeys()
    ensures " " + SrcKey == " dl_src=" && "," + DstKey == ",dl_dst=" && "," + ActionsKey + "flood" == ",actions=flood"
  {
  }

  /** The command text that clears a switch's flow table. */
  lemma DelCommandText(sw: string)
    ensures Render(DelFlows(sw)) == "ovs-ofctl del-flows " + sw
  {
  }

  /** The command text of the ARP reset rule (one line per switch). */
  lemma ArpCommandText(sw: string)
    ensures Render(AddFlow(sw, ArpRule)) == "ovs-ofctl add-flow " + sw + " dl_type=0x806,actions=flood"
  {
    Regroup7(AddPrefix, sw, " ", ArpText, ",", ActionsKey, "flood");
    ArpTail();
  }

  /** The command text of a unicast flood rule. */
  lemma PairCommandText(sw: string, src: string, dst: string)
    ensures Render(AddFlow(sw, FloodPair(src, dst)))
         == "ovs-ofctl add-flow " + sw + " dl_src=" + src + ",dl_dst=" + dst + ",actions=flood"
  {
    Regroup11(AddPrefix, sw, " ", SrcKey, src, ",", DstKey, dst, ",", ActionsKey, "flood");
    PairKeys();
  }

  /**
   * Splits `s` at the first occurrence of `c`: the part before it and the
   * part after it, or None when `c` does not occur.
   */
  function Cut(s: string, c: char): (r: Option<(string, string)>)
    ensures r.Some? ==> s == r.value.0 + [c] + r.value.1 && c !in r.value.0
    ensures r.None? ==> c !in s
  {
    if s == [] then None
    else if s[0] == c then Some(([], s[1..]))
    else
      match Cut(s[1..], c)
      case None => None
      case Some(parts) => Some(([s[0]] + parts.0, parts.1))
  }

  /** Cutting `a + [c] + b` at `c` gives back `a` and `b` when `c` is not in `a`. */
  lemma {:induction false} CutJoin(a: string, c: char, b: string)
    requires c !in a
    ensures Cut(a + [c] + b, c) == Some((a, b))
  {
    var s := a + [c] + b;
    assert s[|a|] == c;
    var r := Cut(s, c);
    assert r.Some?;
    var a', b' := r.value.0, r.value.1;
    assert s == a' + [c] + b' && c !in a';
    assert forall i :: 0 <= i < |a| ==> s[i] == a[i] != c;
    assert forall i :: 0 <= i < |a'| ==> s[i] == a'[i] != c;
    assert s[|a'|] == c;
    assert |a'| == |a|;
    assert a' == s[..|a|] == a;
    assert b' == s[|a| + 1..] == b;
  }

  function ParseAction(t: string): Option<Action>
  {
    if t == "flood" then Some(Flood)
    else if t == "drop" then Some(Drop)
    else None
  }

  /** Parses the "match,actions=..." part that follows the switch name. */
  function ParseFlow(f: string): Option<Rule>
  {
    if ArpText + "," + ActionsKey <= f then
      match ParseAction(f[|ArpText + "," + ActionsKey|..])
      case None => None
      case Some(a) => Some(Rule(ArpType, a))
    else if SrcKey <= f then
      match Cut(f[|SrcKey|..], ',')
      case None => None
      case Some(p) =>
        if DstKey <= p.1 then
          match Cut(p.1[|DstKey|..], ',')
          case None => None
          case Some(q) =>
            if ActionsKey <= q.1 then
              match ParseAction(q.1[|ActionsKey|..])
              case None => None
              case Some(a) => Some(Rule(MacPair(p.0, q.0), a))
            else None
        else None
    else None
  }

  /** Reads a command text back into a command, or None if it is not one the script emits. */
  function Parse(s: string): Option<Command>
  {
    if DelPrefix <= s then Some(DelFlows(s[|DelPrefix|..]))
    else if AddPrefix <= s then
      match Cut(s[|AddPrefix|..], ' ')
      case None => None
      case Some(p) =>
        match ParseFlow(p.1)
        case None => None
        case Some(r) => Some(AddFlow(p.0, r))
    else None
  }

  /**
   * The names that make a command text unambiguous: a switch name without
   * a space, and MAC addresses without a comma.
   */
  predicate WellFormed(c: Command)
  {
    match c
    case DelFlows(_) => true
    case AddFlow(sw, r) =>
      ' ' !in sw &&
      (r.pattern.MacPair? ==> ',' !in r.pattern.src && ',' !in r.pattern.dst)
  }

  lemma ParseActionText(a: Action)
    ensures ParseAction(ActionText(a)) == Some(a)
  {
  }

  /** `p` is a prefix of `p + rest`, and dropping it leaves `rest`. */
  lemma Skip(p: string, rest: string)
    ensures p <= p + rest && (p + rest)[|p|..] == rest
  {
  }

  lemma {:induction false} ParseArpFlow(a: Action)
    ensures ParseFlow(ArpText + "," + ActionsKey + ActionText(a)) == Some(Rule(ArpType, a))
  {
    var head := ArpText + "," + ActionsKey;
    Skip(head, ActionText(a));
    ParseActionText(a);
  }

  /** After a known `key`, the field up to the first `c` is `x` and the remainder `y`. */
  lemma {:induction false} CutAfter(key: string, x: string, c: char, y: string)
    requires c !in x
    ensures key <= key + x + [c] + y
    ensures Cut((key + x + [c] + y)[|key|..], c) == Some((x, y))
  {
    assert (key + x + [c] + y)[|key|..] == x + [c] + y;
    CutJoin(x, c, y);
  }

  /** Regrouping the concatenation that makes up a unicast match and its action. */
  lemma Regroup8(a: string, b: string, c: string, d: string, e: string, f: string, g: string, h: string)
    ensures a + b + c + (d + e + f + (g + h)) == a + b + c + d + e + f + g + h
  {
  }

  lemma {:induction false} ParsePairFlow(src: string, dst: string, a: Action)
    requires ',' !in src && ',' !in dst
    ensures ParseFlow(SrcKey + src + "," + DstKey + dst + "," + ActionsKey + ActionText(a))
         == Some(Rule(MacPair(src, dst), a))
  {
    var rest := ActionsKey + ActionText(a);
    var tail := DstKey + dst + "," + rest;
    var f := SrcKey + src + "," + tail;
    Regroup8(SrcKey, src, ",", DstKey, dst, ",", ActionsKey, ActionText(a));
    assert !(ArpText + "," + ActionsKey <= f) by {
      assert f[3] == SrcKey[3] == 's';
    }
    CutAfter(SrcKey, src, ',', tail);
    CutAfter(DstKey, dst, ',', rest);
    Skip(ActionsKey, ActionText(a));
    ParseActionText(a);
  }

  /** The text after the switch name parses back to the rule, when the MACs have no comma. */
  lemma ParseFlowText(r: Rule)
    requires r.pattern.MacPair? ==> ',' !in r.pattern.src && ',' !in r.pattern.dst
    ensures ParseFlow(MatchText(r.pattern) + "," + ActionsKey + ActionText(r.action)) == Some(r)
  {
    match r.pattern
    case ArpType => ParseArpFlow(r.action);
    case MacPair(src, dst) => ParsePairFlow(src, dst, r.action);
  }

  /** An add-flow text is cut after the switch name, and the rest is parsed as a flow. */
  lemma {:induction false} ParseAdd(sw: string, flow: string, r: Rule)
    requires ' ' !in sw && ParseFlow(flow) == Some(r)
    ensures Parse(AddPrefix + sw + [' '] + flow) == Some(AddFlow(sw, r))
  {
    var s := AddPrefix + sw + [' '] + flow;
    assert !(DelPrefix <= s) by {
      assert s[10] == AddPrefix[10] == 'a';
    }
    CutAfter(AddPrefix, sw, ' ', flow);
  }

  /** Round trip: the text of every well-formed command parses back to that command. */
  lemma {:induction false} ParseRender(c: Command)
    requires WellFormed(c)
    ensures Parse(Render(c)) == Some(c)
  {
    match c
    case DelFlows(sw) =>
      Skip(DelPrefix, sw);
    case AddFlow(sw, r) =>
      var flow := MatchText(r.pattern) + "," + ActionsKey + ActionText(r.action);
      assert Render(c) == AddPrefix + sw + [' '] + flow;
      ParseFlowText(r);
      ParseAdd(sw, flow, r);
  }
}
