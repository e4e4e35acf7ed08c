/**
 * The firewall side of the module: which connections are VPN gateways,
 * the IP forwarding they need, and the custom-rules shell script written
 * for them, as the list of its lines.
 */
module Firewall {
  import opened Wrappers
  import opened Text
  import opened OrderedMaps
  import opened Model

  function LeftSubnet(p: Params): Option<string> {
    Get(p, "leftsubnet")
  }

  /** `leftsubnet != nil && leftsubnet.include?(pattern)` */
  predicate SubnetHas(p: Params, pattern: string) {
    LeftSubnet(p).Some? && Contains(LeftSubnet(p).value, pattern)
  }

  /** A gateway offering Internet access: its `leftsubnet` names a default route. */
  predicate IsGateway(p: Params) {
    SubnetHas(p, "::/0") || SubnetHas(p, "0.0.0.0/0")
  }

  /** Gateways without `rightsourceip` make the generator fail; the model excludes them. */
  predicate GatewaysHavePools(c: Conns) {
    forall i :: 0 <= i < |c| && IsGateway(c[i].1) ==> HasKey(c[i].1, "rightsourceip")
  }

  /**
   * The `select`/`map`: the `rightsourceip` pools of the gateways, in
   * connection order (a gateway without one makes the generator fail;
   * `ScriptLines` rules that out with `GatewaysHavePools`).
   */
  function GatewayPools(c: Conns): (pools: seq<string>)
    ensures |pools| <= |c|
  {
    if c == [] then [] else GatewayPools(c[..|c| - 1]) + PoolOf(c[|c| - 1].1)
  }

  /** What one connection contributes to the pools. */
  function PoolOf(p: Params): (pool: seq<string>)
    ensures |pool| <= 1
    ensures pool != [] <==> IsGateway(p) && HasKey(p, "rightsourceip")
    ensures pool != [] ==> Get(p, "rightsourceip") == Some(pool[0])
  {
    var pool := Get(p, "rightsourceip");
    if IsGateway(p) && pool.Some? then [pool.value] else []
  }

  predicate IsPoolOf(p: Params, x: string) {
    IsGateway(p) && Get(p, "rightsourceip") == Some(x)
  }

  /** The pools are exactly the `rightsourceip` values of the gateways. */
  lemma {:induction false} GatewayPoolsMembers(c: Conns, x: string)
    ensures x in GatewayPools(c) <==> exists i :: 0 <= i < |c| && IsPoolOf(c[i].1, x)
  {
    if c != [] {
      var pre := c[..|c| - 1];
      var p := c[|c| - 1].1;
      GatewayPoolsMembers(pre, x);
      assert forall i :: 0 <= i < |pre| ==> pre[i] == c[i];
      assert x in PoolOf(p) <==> IsPoolOf(p, x);
    }
  }

  /** With every gateway holding a pool, there are pools iff there are gateways. */
  lemma GatewayPoolsNonEmpty(c: Conns)
    requires GatewaysHavePools(c)
    ensures GatewayPools(c) != [] <==> exists i :: 0 <= i < |c| && IsGateway(c[i].1)
  {
    if GatewayPools(c) != [] {
      GatewayPoolsMembers(c, GatewayPools(c)[0]);
    }
    if i :| 0 <= i < |c| && IsGateway(c[i].1) {
      var x := Get(c[i].1, "rightsourceip").value;
      assert IsPoolOf(c[i].1, x);
      GatewayPoolsMembers(c, x);
    }
  }

  /** Gateways of a later connection come after those of an earlier one. */
  lemma {:induction false} GatewayPoolsAppend(a: Conns, b: Conns)
    ensures GatewayPools(a + b) == GatewayPools(a) + GatewayPools(b)
  {
    if b == [] {
      assert a + b == a;
    } else {
      var pre := b[..|b| - 1];
      assert (a + b)[..|a + b| - 1] == a + pre;
      assert (a + b)[|a + b| - 1] == b[|b| - 1];
      GatewayPoolsAppend(a, pre);
    }
  }

  /** The connections a forwarding test of `Write` selects, in order. */
  function SelectBySubnet(c: Conns, pattern: string): (r: Conns)
    ensures |r| <= |c|
    ensures |r| > 0 <==> exists i :: 0 <= i < |c| && SubnetHas(c[i].1, pattern)
  {
    if c == [] then []
    else
      SelectBySubnet(c[..|c| - 1], pattern) + if SubnetHas(c[|c| - 1].1, pattern) then [c[|c| - 1]] else []
  }

  /** IPv4 forwarding is switched on iff some `leftsubnet` contains `0.0.0.0/0`. */
  function Ipv4ForwardNeeded(c: Conns): (b: bool)
    ensures b <==> exists i :: 0 <= i < |c| && SubnetHas(c[i].1, "0.0.0.0/0")
  {
    |SelectBySubnet(c, "0.0.0.0/0")| > 0
  }

  /** IPv6 forwarding is switched on iff some `leftsubnet` contains `::/0`. */
  function Ipv6ForwardNeeded(c: Conns): (b: bool)
    ensures b <==> exists i :: 0 <= i < |c| && SubnetHas(c[i].1, "::/0")
  {
    |SelectBySubnet(c, "::/0")| > 0
  }

  /** Forwarding is needed exactly when the script forwards for some gateway. */
  lemma ForwardingIffGateways(c: Conns)
    requires GatewaysHavePools(c)
    ensures Ipv4ForwardNeeded(c) || Ipv6ForwardNeeded(c) <==> GatewayPools(c) != []
  {
    GatewayPoolsNonEmpty(c);
  }

  // The script. Every template of the generator ends in a newline, so the
  // script is its list of lines, each followed by "\n".

  // The two banner lines of the script. Each is one line of the source; it is
  // written here as two literals so that `BannerFree` can check the short
  // halves one at a time (a single 60-character literal is far costlier).
  const BannerLine1: string := "# The file is automatically generated " + "by YaST VPN module."
  const BannerLine2: string := "# You may run the file using " + "bourne-shell-compatible interpreter."

  /** `func_template`: `"%s() {\n%strue\n}\n%s\n"` with a name and a body. */
  function BlockLines(name: string, body: seq<string>): seq<string> {
    [name + "() {"] + body + ["true", "}", name]
  }

  const AfterChainCreation: string := "fw_custom_after_chain_creation"
  const BeforePortHandling: string := "fw_custom_before_port_handling"
  const BeforeMasq: string := "fw_custom_before_masq"
  const BeforeDenyall: string := "fw_custom_before_denyall"
  const AfterFinished: string := "fw_custom_after_finished"

  /** `dport_accept_template` */
  function DportLine(tool: string, port: string): string {
    tool + " -A INPUT -p udp --dport " + port + " -j ACCEPT"
  }

  /** `p_accept_template` */
  function ProtoLine(tool: string, proto: string): string {
    tool + " -A INPUT -p " + proto + " -j ACCEPT"
  }

  /** IKE and NAT-T ports and ESP, for both families, once there is any connection. */
  function OpenLines(c: Conns): seq<string> {
    if |c| > 0 then
      [DportLine("iptables", "500"), DportLine("iptables", "4500"),
       DportLine("ip6tables", "500"), DportLine("ip6tables", "4500"),
       ProtoLine("iptables", "50"), ProtoLine("ip6tables", "50")]
    else []
  }

  /** What `Read` looks for in the custom-rules file. */
  const MssMarker: string := "--set-mss 1024"

  function MssLine(tool: string): string {
    tool + " -A FORWARD -p tcp --tcp-flags SYN,RST SYN -j TCPMSS " + MssMarker
  }

  /** An address pool with a colon is IPv6. */
  function Tool(cidr: string): (tool: string)
    ensures tool == "iptables" || tool == "ip6tables"
    ensures tool == "ip6tables" <==> Contains(cidr, ":")
  {
    if Contains(cidr, ":") then "ip6tables" else "iptables"
  }

  /** `forward_template` */
  function ForwardLine(tool: string, cidr: string): string {
    tool + " -A FORWARD -s " + cidr + " -j ACCEPT"
  }

  /** `masq_template` */
  function MasqLine(tool: string, cidr: string): string {
    tool + " -t nat -A POSTROUTING -s " + cidr + " -j MASQUERADE"
  }

  /** The forwarding and masquerading rules of each pool, in pool order. */
  function PoolLines(pools: seq<string>): (ls: seq<string>)
    ensures |ls| == 2 * |pools|
  {
    if pools == [] then []
    else
      var cidr := pools[|pools| - 1];
      PoolLines(pools[..|pools| - 1]) + [ForwardLine(Tool(cidr), cidr), MasqLine(Tool(cidr), cidr)]
  }

  /** `inet_access`: the MSS rules first when enabled, then the pool rules. */
  function InetAccessLines(mss: bool, pools: seq<string>): seq<string> {
    (if mss then [MssLine("iptables"), MssLine("ip6tables")] else []) + PoolLines(pools)
  }

  /** The lines of the generated script: the banner and the five hook functions. */
  function ScriptLines(c: Conns, mss: bool): seq<string>
    requires GatewaysHavePools(c)
  {
    [BannerLine1, BannerLine2]
      + BlockLines(AfterChainCreation, OpenLines(c))
      + BlockLines(BeforePortHandling, [])
      + BlockLines(BeforeMasq, InetAccessLines(mss, GatewayPools(c)))
      + BlockLines(BeforeDenyall, [])
      + BlockLines(AfterFinished, [])
  }

  function FirewallScript(c: Conns, mss: bool): string
    requires GatewaysHavePools(c)
  {
    JoinLines(ScriptLines(c, mss))
  }

  /** `Read`: the MSS workaround counts as enabled iff the rules file exists and holds the marker. */
  function RecoverMss(customRules: Option<string>): (enabled: bool)
    ensures enabled <==> customRules.Some? && exists i :: SliceIs(customRules.value, MssMarker, i)
  {
    if customRules.Some? then
      ContainsSlice(customRules.value, MssMarker);
      Contains(customRules.value, MssMarker)
    else false
  }

  // The script as the generator builds it: string templates with holes.

  /** `func_template % [name, body, name]` */
  function FuncTemplate(name: string, body: string): string {
    name + "() {\n" + body + "true\n}\n" + name + "\n"
  }

  lemma JoinThree(a: string, b: string, c: string)
    ensures JoinLines([a, b, c]) == a + "\n" + b + "\n" + c + "\n"
  {
    JoinAppend([a] + [b], [c]);
    JoinAppend([a], [b]);
    JoinOne(a);
    JoinOne(b);
    JoinOne(c);
    assert [a] + [b] + [c] == [a, b, c];
  }

  lemma JoinAround(head: string, body: seq<string>, tail: seq<string>)
    ensures JoinLines([head] + body + tail) == head + "\n" + JoinLines(body) + JoinLines(tail)
  {
    JoinAppend([head] + body, tail);
    JoinAppend([head], body);
    JoinOne(head);
  }

  /** One hook function, as lines, is the function template around its body. */
  lemma JoinBlock(name: string, body: seq<string>)
    ensures JoinLines(BlockLines(name, body)) == FuncTemplate(name, JoinLines(body))
  {
    JoinAround(name + "() {", body, ["true", "}", name]);
    JoinThree("true", "}", name);
  }

  lemma JoinScript(banner: seq<string>, open: seq<string>, inet: seq<string>)
    ensures JoinLines(banner + BlockLines(AfterChainCreation, open) + BlockLines(BeforePortHandling, [])
        + BlockLines(BeforeMasq, inet) + BlockLines(BeforeDenyall, []) + BlockLines(AfterFinished, []))
      == JoinLines(banner) + FuncTemplate(AfterChainCreation, JoinLines(open)) + FuncTemplate(BeforePortHandling, "")
        + FuncTemplate(BeforeMasq, JoinLines(inet)) + FuncTemplate(BeforeDenyall, "") + FuncTemplate(AfterFinished, "")
  {
    var b0, b1, b2 := BlockLines(AfterChainCreation, open), BlockLines(BeforePortHandling, []), BlockLines(BeforeMasq, inet);
    var b3, b4 := BlockLines(BeforeDenyall, []), BlockLines(AfterFinished, []);
    JoinAppend(banner + b0 + b1 + b2 + b3, b4);
    JoinAppend(banner + b0 + b1 + b2, b3);
    JoinAppend(banner + b0 + b1, b2);
    JoinAppend(banner + b0, b1);
    JoinAppend(banner, b0);
    JoinBlock(AfterChainCreation, open);
    JoinBlock(BeforePortHandling, []);
    JoinBlock(BeforeMasq, inet);
    JoinBlock(BeforeDenyall, []);
    JoinBlock(AfterFinished, []);
  }

  /**
   * The skeleton: the two-line banner, then the five hook functions in
   * their fixed order, the second, fourth and fifth with empty bodies.
   */
  lemma ScriptText(c: Conns, mss: bool)
    requires GatewaysHavePools(c)
    ensures FirewallScript(c, mss) ==
      BannerLine1 + "\n" + BannerLine2 + "\n"
      + FuncTemplate(AfterChainCreation, JoinLines(OpenLines(c)))
      + FuncTemplate(BeforePortHandling, "")
      + FuncTemplate(BeforeMasq, JoinLines(InetAccessLines(mss, GatewayPools(c))))
      + FuncTemplate(BeforeDenyall, "")
      + FuncTemplate(AfterFinished, "")
  {
    JoinScript([BannerLine1, BannerLine2], OpenLines(c), InetAccessLines(mss, GatewayPools(c)));
    assert JoinLines([BannerLine1, BannerLine2]) == BannerLine1 + "\n" + BannerLine2 + "\n" by {
      assert [BannerLine1, BannerLine2][..1] == [BannerLine1] && [BannerLine1][..0] == [];
    }
  }

  /** The first body is the six port rules iff there is any connection, and empty otherwise. */
  lemma OpenRules(c: Conns)
    ensures JoinLines(OpenLines(c)) != [] <==> |c| > 0
    ensures |c| > 0 ==>
      |OpenLines(c)| == 6 && OpenLines(c)[0] == DportLine("iptables", "500")
      && OpenLines(c)[1] == DportLine("iptables", "4500") && OpenLines(c)[2] == DportLine("ip6tables", "500")
      && OpenLines(c)[3] == DportLine("ip6tables", "4500") && OpenLines(c)[4] == ProtoLine("iptables", "50")
      && OpenLines(c)[5] == ProtoLine("ip6tables", "50")
  {
  }

  /** Pool `k` gets its FORWARD rule at line `2k` and its MASQUERADE rule right after. */
  lemma {:induction false} PoolLinesOrder(pools: seq<string>, k: nat)
    requires k < |pools|
    ensures PoolLines(pools)[2 * k] == ForwardLine(Tool(pools[k]), pools[k])
    ensures PoolLines(pools)[2 * k + 1] == MasqLine(Tool(pools[k]), pools[k])
  {
    var pre := pools[..|pools| - 1];
    if k < |pre| {
      PoolLinesOrder(pre, k);
      assert pre[k] == pools[k];
    }
  }

  /** The MSS rules, when enabled, are the first two lines of the masquerading body. */
  lemma InetAccessOrder(mss: bool, pools: seq<string>)
    ensures var ls := InetAccessLines(mss, pools);
      if mss then |ls| == 2 + 2 * |pools| && ls[0] == MssLine("iptables") && ls[1] == MssLine("ip6tables") && ls[2..] == PoolLines(pools)
      else ls == PoolLines(pools)
  {
  }

  // Recovering the MSS flag from the written script.

  predicate MarkerFree(ls: seq<string>) {
    forall k :: 0 <= k < |ls| ==> !Contains(ls[k], MssMarker)
  }

  lemma MarkerFacts()
    ensures |MssMarker| == 14 && MssMarker[0] == '-' && MssMarker[1] == '-' && MssMarker[10] == '1'
    ensures '\n' !in MssMarker
  {
  }

  lemma NoOneFree(l: string)
    requires '1' !in l
    ensures !Contains(l, MssMarker)
  {
    MarkerFacts();
    CharsOfContains(l, MssMarker, 10);
  }

  lemma MarkerFreeAppend(a: seq<string>, b: seq<string>)
    requires MarkerFree(a) && MarkerFree(b)
    ensures MarkerFree(a + b)
  {
    assert forall k :: 0 <= k < |a + b| ==> (a + b)[k] == if k < |a| then a[k] else b[k - |a|];
  }

  lemma BannerFree()
    ensures MarkerFree([BannerLine1, BannerLine2])
  {
    assert '1' !in "# The file is automatically generated " && '1' !in "by YaST VPN module.";
    assert '1' !in "# You may run the file using " && '1' !in "bourne-shell-compatible interpreter.";
    NoOneFree(BannerLine1);
    NoOneFree(BannerLine2);
  }

  lemma BlockFree(name: string, body: seq<string>)
    requires '1' !in name && MarkerFree(body)
    ensures MarkerFree(BlockLines(name, body))
  {
    NoOneFree(name + "() {");
    NoOneFree("true");
    NoOneFree("}");
    NoOneFree(name);
    MarkerFreeAppend([name + "() {"], body);
    MarkerFreeAppend([name + "() {"] + body, ["true", "}", name]);
  }

  lemma NamesFree()
    ensures '1' !in AfterChainCreation && '1' !in BeforePortHandling && '1' !in BeforeMasq
    ensures '1' !in BeforeDenyall && '1' !in AfterFinished
  {
  }

  lemma OpenFree(c: Conns)
    ensures MarkerFree(OpenLines(c))
  {
    if |c| > 0 {
      assert '1' !in "iptables" && '1' !in "ip6tables" && '1' !in " -A INPUT -p udp --dport " && '1' !in " -j ACCEPT";
      assert '1' !in "500" && '1' !in "4500" && '1' !in " -A INPUT -p " && '1' !in "50";
      NoOneFree(DportLine("iptables", "500"));
      NoOneFree(DportLine("iptables", "4500"));
      NoOneFree(DportLine("ip6tables", "500"));
      NoOneFree(DportLine("ip6tables", "4500"));
      NoOneFree(ProtoLine("iptables", "50"));
      NoOneFree(ProtoLine("ip6tables", "50"));
    }
  }

  /** The fixed text around a pool has no double hyphen, so neither has the rule. */
  lemma RuleNoDoubleDash(tool: string, pre: string, cidr: string, post: string)
    requires NoDoubleDash(tool) && NoDoubleDash(pre) && NoDoubleDash(cidr) && NoDoubleDash(post)
    requires pre != [] && pre[0] == ' ' && pre[|pre| - 1] == ' ' && post != [] && post[0] == ' '
    ensures NoDoubleDash(tool + pre + cidr + post)
  {
    NoDoubleDashJoin(tool, pre);
    NoDoubleDashJoin(tool + pre, cidr);
    NoDoubleDashJoin(tool + pre + cidr, post);
  }

  lemma PoolRulesFree(cidr: string)
    requires !Contains(cidr, "--")
    ensures !Contains(ForwardLine(Tool(cidr), cidr), MssMarker) && !Contains(MasqLine(Tool(cidr), cidr), MssMarker)
  {
    var tool := Tool(cidr);
    assert '-' !in tool;
    NoDoubleDashOf(cidr);
    assert NoDoubleDash(" -A FORWARD -s ") && NoDoubleDash(" -t nat -A POSTROUTING -s ");
    assert NoDoubleDash(" -j ACCEPT") && NoDoubleDash(" -j MASQUERADE");
    RuleNoDoubleDash(tool, " -A FORWARD -s ", cidr, " -j ACCEPT");
    RuleNoDoubleDash(tool, " -t nat -A POSTROUTING -s ", cidr, " -j MASQUERADE");
    MarkerFacts();
    DashesOfContains(ForwardLine(tool, cidr), MssMarker);
    DashesOfContains(MasqLine(tool, cidr), MssMarker);
  }

  lemma {:induction false} PoolLinesFree(pools: seq<string>)
    requires forall k :: 0 <= k < |pools| ==> !Contains(pools[k], "--")
    ensures MarkerFree(PoolLines(pools))
  {
    if pools != [] {
      var pre := pools[..|pools| - 1];
      var cidr := pools[|pools| - 1];
      assert forall k :: 0 <= k < |pre| ==> pre[k] == pools[k];
      PoolLinesFree(pre);
      PoolRulesFree(cidr);
      MarkerFreeAppend(PoolLines(pre), [ForwardLine(Tool(cidr), cidr), MasqLine(Tool(cidr), cidr)]);
    }
  }

  lemma ScriptFree(c: Conns)
    requires GatewaysHavePools(c) && forall k :: 0 <= k < |GatewayPools(c)| ==> !Contains(GatewayPools(c)[k], "--")
    ensures MarkerFree(ScriptLines(c, false))
  {
    NamesFree();
    BannerFree();
    OpenFree(c);
    PoolLinesFree(GatewayPools(c));
    assert InetAccessLines(false, GatewayPools(c)) == PoolLines(GatewayPools(c));
    var b0, b1, b2 := BlockLines(AfterChainCreation, OpenLines(c)), BlockLines(BeforePortHandling, []), BlockLines(BeforeMasq, PoolLines(GatewayPools(c)));
    var b3, b4 := BlockLines(BeforeDenyall, []), BlockLines(AfterFinished, []);
    BlockFree(AfterChainCreation, OpenLines(c));
    BlockFree(BeforePortHandling, []);
    BlockFree(BeforeMasq, PoolLines(GatewayPools(c)));
    BlockFree(BeforeDenyall, []);
    BlockFree(AfterFinished, []);
    MarkerFreeAppend([BannerLine1, BannerLine2], b0);
    MarkerFreeAppend([BannerLine1, BannerLine2] + b0, b1);
    MarkerFreeAppend([BannerLine1, BannerLine2] + b0 + b1, b2);
    MarkerFreeAppend([BannerLine1, BannerLine2] + b0 + b1 + b2, b3);
    MarkerFreeAppend([BannerLine1, BannerLine2] + b0 + b1 + b2 + b3, b4);
  }

  /** With the workaround on, the first MSS rule is a line of the script. */
  lemma MssLineInScript(c: Conns)
    requires GatewaysHavePools(c)
    ensures var k := 11 + |OpenLines(c)|; k < |ScriptLines(c, true)| && ScriptLines(c, true)[k] == MssLine("iptables")
  {
  }

  /**
   * `Read` reads back what the generator wrote: the workaround is
   * recovered from the script exactly when it was enabled, provided no
   * address pool contains a double hyphen.
   */
  lemma MssRoundTrip(c: Conns, mss: bool)
    requires GatewaysHavePools(c) && forall k :: 0 <= k < |GatewayPools(c)| ==> !Contains(GatewayPools(c)[k], "--")
    ensures RecoverMss(Some(FirewallScript(c, mss))) == mss
  {
    MarkerFacts();
    if mss {
      var prefix := "iptables" + " -A FORWARD -p tcp --tcp-flags SYN,RST SYN -j TCPMSS ";
      assert OccursAt(MssMarker, MssMarker, 0);
      ContainsAt(MssMarker, MssMarker, 0);
      ContainsInMiddle(prefix, MssMarker, "", MssMarker);
      assert prefix + MssMarker + "" == MssLine("iptables");
      MssLineInScript(c);
      InJoin(ScriptLines(c, true), 11 + |OpenLines(c)|, MssMarker);
    } else {
      ScriptFree(c);
      NotInJoin(ScriptLines(c, false), MssMarker);
    }
  }

  lemma NoRulesFile()
    ensures !RecoverMss(None)
  {
  }

  // The string pieces GenFirewallScript appends, against the lines above.

  lemma JoinSix(a: string, b: string, c: string, d: string, e: string, f: string)
    ensures JoinLines([a, b, c, d, e, f]) == a + "\n" + b + "\n" + c + "\n" + d + "\n" + e + "\n" + f + "\n"
  {
    JoinAppend([a, b, c], [d, e, f]);
    JoinThree(a, b, c);
    JoinThree(d, e, f);
    assert [a, b, c] + [d, e, f] == [a, b, c, d, e, f];
  }

  /** The `open_prot` text: the six port rules, one per line, when there is a connection. */
  lemma OpenText(c: Conns)
    ensures JoinLines(OpenLines(c)) == if |c| > 0 then
      DportLine("iptables", "500") + "\n" + DportLine("iptables", "4500") + "\n"
      + DportLine("ip6tables", "500") + "\n" + DportLine("ip6tables", "4500") + "\n"
      + ProtoLine("iptables", "50") + "\n" + ProtoLine("ip6tables", "50") + "\n"
    else ""
  {
    if |c| > 0 {
      JoinSix(DportLine("iptables", "500"), DportLine("iptables", "4500"), DportLine("ip6tables", "500"),
        DportLine("ip6tables", "4500"), ProtoLine("iptables", "50"), ProtoLine("ip6tables", "50"));
    }
  }

  /** The `inet_access` text before the pool loop. */
  lemma InetAccessStart(mss: bool)
    ensures JoinLines(InetAccessLines(mss, [])) == if mss then MssLine("iptables") + "\n" + MssLine("ip6tables") + "\n" else ""
  {
    if mss {
      JoinAppend([MssLine("iptables")], [MssLine("ip6tables")]);
      JoinOne(MssLine("iptables"));
      JoinOne(MssLine("ip6tables"));
      assert [MssLine("iptables")] + [MssLine("ip6tables")] == InetAccessLines(mss, []);
    }
  }

  lemma JoinPair(ls: seq<string>, a: string, b: string)
    ensures JoinLines(ls + [a, b]) == JoinLines(ls) + a + "\n" + b + "\n"
  {
    JoinAppend(ls + [a], [b]);
    JoinAppend(ls, [a]);
    JoinOne(a);
    JoinOne(b);
    assert ls + [a] + [b] == ls + [a, b];
  }

  lemma PoolLinesSnoc(pools: seq<string>, k: nat)
    requires k < |pools|
    ensures PoolLines(pools[..k + 1]) == PoolLines(pools[..k]) + [ForwardLine(Tool(pools[k]), pools[k]), MasqLine(Tool(pools[k]), pools[k])]
  {
    assert pools[..k + 1][..k] == pools[..k];
  }

  /** One turn of the pool loop appends the pool's two rules. */
  lemma InetAccessStep(mss: bool, pools: seq<string>, k: nat)
    requires k < |pools|
    ensures var cidr := pools[k];
      JoinLines(InetAccessLines(mss, pools[..k + 1]))
      == JoinLines(InetAccessLines(mss, pools[..k])) + ForwardLine(Tool(cidr), cidr) + "\n" + MasqLine(Tool(cidr), cidr) + "\n"
  {
    var cidr := pools[k];
    var f, m := ForwardLine(Tool(cidr), cidr), MasqLine(Tool(cidr), cidr);
    PoolLinesSnoc(pools, k);
    var before := InetAccessLines(mss, pools[..k]);
    assert InetAccessLines(mss, pools[..k + 1]) == before + [f, m];
    JoinPair(before, f, m);
  }
}
