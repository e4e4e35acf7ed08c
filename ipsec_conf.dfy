/**
 * The IPSecConf module object: the parsed connections and secrets, the
 * labels of what it could not parse, and the three flags, updated in place
 * by Read, Import, Reset and SetModified.
 */
module IPSecConf {
  import opened Wrappers
  import opened Text
  import opened OrderedMaps
  import opened Model
  import opened Ini
  import opened Parsing
  import opened Firewall

  /**
   * The AutoYaST map of Import and Export. A key that is absent is `None`;
   * `!!params["enable_ipsec"]` reads an absent flag as false.
   */
  datatype Transfer = Transfer(enableIpsec: Option<bool>, tcpMss1024: Option<bool>,
                               ipsecConns: Option<Conns>, ipsecSecrets: Option<Buckets>)

  /** The map's collections are Ruby Hashes: no key twice, at either level. */
  predicate IsHashTransfer(t: Transfer) {
    (t.ipsecConns.Some? ==> ValidConns(t.ipsecConns.value))
    && (t.ipsecSecrets.Some? ==> UniqueKeys(t.ipsecSecrets.value))
  }

  /** The part of the state that Import sets and Export hands out. */
  datatype Settings = Settings(enableIpsec: bool, tcpMss1024: bool, conns: Conns, secrets: Buckets)

  /**
   * What Import makes of a map: absent flags are false, an absent
   * `ipsec_conns` or `ipsec_secrets` is the empty hash (so an import without
   * secrets has no buckets at all, not the four empty ones).
   */
  function Imported(t: Transfer): (s: Settings)
    ensures s.enableIpsec <==> t.enableIpsec == Some(true)
    ensures s.tcpMss1024 <==> t.tcpMss1024 == Some(true)
    ensures t.ipsecConns.None? ==> s.conns == []
    ensures t.ipsecSecrets.None? ==> s.secrets == []
    ensures t.ipsecConns.Some? ==> s.conns == t.ipsecConns.value
    ensures t.ipsecSecrets.Some? ==> s.secrets == t.ipsecSecrets.value
  {
    Settings(t.enableIpsec.GetOr(false), t.tcpMss1024.GetOr(false), t.ipsecConns.GetOr([]), t.ipsecSecrets.GetOr([]))
  }

  class IPSecConfModule {
    var conns: Conns
    var unsupportedConf: seq<string>
    var secrets: Buckets
    var unsupportedSecrets: seq<string>
    var enableIpsec: bool
    var tcpMss1024: bool
    var modified: bool

    /** The state `initialize` and `Reset` produce. */
    predicate IsPristine()
      reads this
    {
      conns == [] && unsupportedConf == [] && secrets == EmptyBuckets() && unsupportedSecrets == []
      && !enableIpsec && !tcpMss1024 && !modified
    }

    /** The connections, their parameters and the buckets are Hashes. */
    predicate Valid()
      reads this
    {
      ValidConns(conns) && UniqueKeys(secrets)
    }

    function CurrentSettings(): Settings
      reads this
    {
      Settings(enableIpsec, tcpMss1024, conns, secrets)
    }

    constructor()
      ensures IsPristine() && Valid()
    {
      conns := [];
      unsupportedConf := [];
      secrets := EmptyBuckets();
      unsupportedSecrets := [];
      enableIpsec := false;
      tcpMss1024 := false;
      modified := false;
    }

    /**
     * Read, given what it reads: the sections of ipsec.conf, the entries
     * of ipsec.secrets, the custom firewall rules file (`None` when it is
     * missing) and whether the strongswan service is enabled.
     */
    method Read(confRecs: seq<IniNode>, secretRecs: seq<IniNode>, customRules: Option<string>, daemonEnabled: bool)
      requires AllWellFormedConf(confRecs) && AllWellFormedSecrets(secretRecs)
      modifies this
      ensures ConfParse(conns, unsupportedConf) == ParseConnections(confRecs)
      ensures SecretParse(secrets, unsupportedSecrets) == ParseSecrets(secretRecs)
      ensures enableIpsec == daemonEnabled
      ensures tcpMss1024 == RecoverMss(customRules)
      ensures !modified
      ensures Valid()
    {
      var ipsecConns, unsupported := ReadConnections(confRecs);
      var ipsecSecrets, unsupportedKeys := ReadSecrets(secretRecs);
      StdKeysUnique(ipsecSecrets);
      var enable := daemonEnabled;
      var mss := customRules.Some? && Contains(customRules.value, MssMarker);
      Store(ipsecConns, unsupported, ipsecSecrets, unsupportedKeys, enable, mss);
    }

    /** The assignments that end Read; the modified flag is cleared. */
    method Store(c: Conns, uc: seq<string>, s: Buckets, us: seq<string>, enable: bool, mss: bool)
      modifies this
      ensures conns == c && unsupportedConf == uc && secrets == s && unsupportedSecrets == us
      ensures enableIpsec == enable && tcpMss1024 == mss && !modified
    {
      conns, unsupportedConf, secrets, unsupportedSecrets := c, uc, s, us;
      enableIpsec, tcpMss1024, modified := enable, mss, false;
    }

    /** The ipsec.conf loop of Read. */
    static method ReadConnections(confRecs: seq<IniNode>) returns (ipsecConns: Conns, unsupported: seq<string>)
      requires AllWellFormedConf(confRecs)
      ensures ConfParse(ipsecConns, unsupported) == ParseConnections(confRecs)
    {
      ipsecConns := [];
      unsupported := [];
      for i := 0 to |confRecs|
        invariant AllWellFormedConf(confRecs[..i])
        invariant ConfParse(ipsecConns, unsupported) == ParseConnections(confRecs[..i])
      {
        var kv := confRecs[i];
        ConnPrefixStep(confRecs, i);
        var sectNameTokens := Split2(Strip(kv.name));
        if |sectNameTokens| == 2 && sectNameTokens[0] == "conn" && sectNameTokens[1] != "%default" {
          var sectName := Strip(sectNameTokens[1]);
          ipsecConns := Put(ipsecConns, sectName, FromPairs(ParamPairs(kv.value.children)));
        } else {
          unsupported := unsupported + [Strip(kv.name)];
        }
      }
      assert confRecs[..|confRecs|] == confRecs;
    }

    /** The ipsec.secrets loop of Read. */
    static method ReadSecrets(secretRecs: seq<IniNode>) returns (ipsecSecrets: Buckets, unsupported: seq<string>)
      requires AllWellFormedSecrets(secretRecs)
      ensures SecretParse(ipsecSecrets, unsupported) == ParseSecrets(secretRecs)
    {
      ipsecSecrets := EmptyBuckets();
      unsupported := [];
      for j := 0 to |secretRecs|
        invariant AllWellFormedSecrets(secretRecs[..j])
        invariant SecretParse(ipsecSecrets, unsupported) == ParseSecrets(secretRecs[..j])
      {
        var kv := secretRecs[j];
        SecretPrefixStep(secretRecs, j);
        var leftSide := Strip(kv.name);
        var rightSideTokens := Split2(Strip(kv.value.text));
        if |rightSideTokens| == 2 && HasKey(ipsecSecrets, Downcase(rightSideTokens[0])) {
          SecretTypesAreWords();
          KeysMembership(ipsecSecrets, Downcase(rightSideTokens[0]));
          DowncaseWordIsStripped(rightSideTokens[0]);
          StripStripped(rightSideTokens[0]);
          var keyType := Downcase(Strip(rightSideTokens[0]));
          var keyContent := DeleteQuotes(Strip(rightSideTokens[1]));
          ipsecSecrets := Put(ipsecSecrets, keyType, Get(ipsecSecrets, keyType).value + [Secret(leftSide, keyContent)]);
        } else {
          unsupported := unsupported + [Strip(leftSide + " " + rightSideTokens[0])];
        }
      }
      assert secretRecs[..|secretRecs|] == secretRecs;
    }

    /**
     * The firewall script for the current connections, built piece by
     * piece from the templates; it is the script of the line model.
     */
    /** The body of `fw_custom_after_chain_creation`: IKE ports and ESP, once there is a connection. */
    static method OpenProtocols(c: Conns) returns (openProt: string)
      ensures openProt == JoinLines(OpenLines(c))
    {
      openProt := "";
      if |c| > 0 {
        openProt := DportLine("iptables", "500") + "\n" + DportLine("iptables", "4500") + "\n"
          + DportLine("ip6tables", "500") + "\n" + DportLine("ip6tables", "4500") + "\n";
        openProt := openProt + ProtoLine("iptables", "50") + "\n" + ProtoLine("ip6tables", "50") + "\n";
      }
      OpenText(c);
    }

    /** The body of `fw_custom_before_masq`: the MSS rules, then one rule pair per pool. */
    static method InetAccess(mss: bool, pools: seq<string>) returns (inetAccess: string)
      ensures inetAccess == JoinLines(InetAccessLines(mss, pools))
    {
      inetAccess := "";
      if mss {
        inetAccess := inetAccess + MssLine("iptables") + "\n" + MssLine("ip6tables") + "\n";
      }
      InetAccessStart(mss);
      for k := 0 to |pools|
        invariant inetAccess == JoinLines(InetAccessLines(mss, pools[..k]))
      {
        var cidr := pools[k];
        InetAccessStep(mss, pools, k);
        if Contains(cidr, ":") {
          inetAccess := inetAccess + ForwardLine("ip6tables", cidr) + "\n" + MasqLine("ip6tables", cidr) + "\n";
        } else {
          inetAccess := inetAccess + ForwardLine("iptables", cidr) + "\n" + MasqLine("iptables", cidr) + "\n";
        }
      }
      assert pools[..|pools|] == pools;
    }

    method GenFirewallScript() returns (script: string)
      requires GatewaysHavePools(conns)
      ensures script == FirewallScript(conns, tcpMss1024)
    {
      var inetAccessNetworks := GatewayPools(conns);
      script := BannerLine1 + "\n" + BannerLine2 + "\n";
      var openProt := OpenProtocols(conns);
      script := script + FuncTemplate(AfterChainCreation, openProt);
      script := script + FuncTemplate(BeforePortHandling, "");
      var inetAccess := InetAccess(tcpMss1024, inetAccessNetworks);
      script := script + FuncTemplate(BeforeMasq, inetAccess);
      script := script + FuncTemplate(BeforeDenyall, "");
      script := script + FuncTemplate(AfterFinished, "");
      ScriptText(conns, tcpMss1024);
    }

    /**
     * Import: no map means failure and no change; otherwise the four
     * settings come from the map and the modified flag is raised.
     */
    method Import(params: Option<Transfer>) returns (ok: bool)
      requires params.Some? ==> IsHashTransfer(params.value)
      modifies this
      ensures ok <==> params.Some?
      ensures !ok ==> unchanged(this)
      ensures ok ==> CurrentSettings() == Imported(params.value) && modified && Valid()
      ensures unsupportedConf == old(unsupportedConf) && unsupportedSecrets == old(unsupportedSecrets)
    {
      if params.None? {
        return false;
      }
      var t := params.value;
      enableIpsec := t.enableIpsec == Some(true);
      tcpMss1024 := t.tcpMss1024 == Some(true);
      conns := t.ipsecConns.GetOr([]);
      secrets := t.ipsecSecrets.GetOr([]);
      modified := true;
      return true;
    }

    /** Export: a map that, imported again, gives back the current settings. */
    function Export(): (t: Transfer)
      reads this
      ensures t.enableIpsec.Some? && t.tcpMss1024.Some? && t.ipsecConns.Some? && t.ipsecSecrets.Some?
      ensures Imported(t) == CurrentSettings()
      ensures Valid() ==> IsHashTransfer(t)
    {
      Transfer(Some(enableIpsec), Some(tcpMss1024), Some(conns), Some(secrets))
    }

    method SetModified()
      modifies this
      ensures modified
      ensures CurrentSettings() == old(CurrentSettings())
      ensures unsupportedConf == old(unsupportedConf) && unsupportedSecrets == old(unsupportedSecrets)
    {
      modified := true;
    }

    method GetModified() returns (m: bool)
      ensures m == modified
    {
      m := modified;
    }

    /** Reset: back to the state of a fresh module object. */
    method Reset()
      modifies this
      ensures IsPristine() && Valid()
    {
      conns := [];
      unsupportedConf := [];
      secrets := EmptyBuckets();
      unsupportedSecrets := [];
      enableIpsec := false;
      tcpMss1024 := false;
      modified := false;
    }
  }

  /** After Reset, Export hands out the empty configuration with both flags off. */
  lemma PristineExport(m: IPSecConfModule)
    requires m.IsPristine()
    ensures m.Export() == Transfer(Some(false), Some(false), Some([]), Some(EmptyBuckets()))
  {
  }
}
