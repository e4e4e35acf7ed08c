# IPSecConf (yast-vpn) in Dafny

This project models the `IPSecConf` module of the YaST VPN client, `src/modules/IPSecConf.rb`. The module keeps the state of a strongSwan setup:

- the `conn` sections of `ipsec.conf`, as an ordered map from connection name to ordered parameters;
- the entries of `ipsec.secrets`, in four buckets (`psk`, `rsa`, `eap`, `xauth`);
- the labels of the sections and secrets it does not support;
- three flags: the daemon switch, the TCP MSS 1024 workaround and the AutoYaST modified flag.

It reads that state from INI agent records, writes it back as INI node trees, and generates the firewall custom-rules script for VPN gateways. It also decides which kinds of IP forwarding `Write` switches on, and it imports and exports the state as an AutoYaST map.

Modules:

- `Wrappers`: `Option`.
- `Text`: the Ruby string primitives the module uses.
  - `strip`, `split(/\s+/, 2)`, ASCII `downcase`/`upcase`, `delete '"'` and `include?`.
  - A line-joining helper for the script.
- `OrderedMaps`: Ruby's insertion-ordered `Hash`, as a sequence of pairs with distinct keys.
  - `h[k] = v` keeps the key's position and takes the new value.
  - `Hash[pairs]` keeps each key's first position and its last value.
- `Model`: connections, secrets and buckets.
- `Ini`: the INI node record, `mkININode`, `makeIPSecConfINI` and `makeIPSecSecretsINI`.
- `Parsing`: the two loops of `Read`, each given as a fold of its loop body.
  - Partition lemmas relate each fold to reference definitions: which records become connections or typed secrets and which become labels.
- `RoundTrip`: the serialisers followed by the parsers give the connections and the four buckets back.
- `Firewall`: gateway selection, the forwarding predicates, and the script as a list of lines. It also shows that the MSS flag can be read back from the script.
- `IPSecConf`: the class `IPSecConfModule`, with the fields of `initialize`.
  - `Read` and its two loops as imperative methods proved equal to the folds.
  - `GenFirewallScript` as an imperative method that builds the script from its string templates, proved equal to the line model.
  - `Import`, `Export`, `SetModified`, `GetModified`, `Reset`.

Inputs that the Ruby code gets from the system are parameters here:

- the parsed `ipsec.conf` records and the `ipsec.secrets` records;
- the contents of `/etc/YaST2/vpn_firewall_rules` (`None` when the file is missing);
- whether the strongswan service is enabled.

## Model

| member | source | states |
|---|---|---|
| IPSecConf.IPSecConfModule.constructor | src/modules/IPSecConf.rb:33-46 | a new module object has no connections, no unsupported labels, the four empty buckets `psk`, `rsa`, `eap`, `xauth` in that order, and all three flags false |
| IPSecConf.IPSecConfModule.Read | src/modules/IPSecConf.rb:53-99 | connections and unsupported sections are the ipsec.conf fold; buckets and unsupported secrets are the ipsec.secrets fold; the daemon flag is the service state; the MSS flag is the marker test on the rules file; the modified flag is cleared; connections, their parameters and the buckets have distinct keys |
| IPSecConf.IPSecConfModule.ReadConnections | src/modules/IPSecConf.rb:59-73 | the imperative ipsec.conf loop, started from `{}` and `[]`, ends with exactly the connections and labels of `Parsing.ParseConnections` |
| IPSecConf.IPSecConfModule.ReadSecrets | src/modules/IPSecConf.rb:77-91 | the imperative ipsec.secrets loop, started from the four empty buckets, ends with exactly the buckets and labels of `Parsing.ParseSecrets` |
| IPSecConf.IPSecConfModule.Store | src/modules/IPSecConf.rb:95-98 | the end of Read: every field takes the value computed for it, and the modified flag is false |
| IPSecConf.IPSecConfModule.GenFirewallScript | src/modules/IPSecConf.rb:142-187 | the string built from the templates, piece by piece, is exactly the line model `Firewall.FirewallScript` of the current connections and MSS flag |
| IPSecConf.IPSecConfModule.OpenProtocols | src/modules/IPSecConf.rb:155-163 | the `open_prot` text is exactly the line model `Firewall.OpenLines`: the four IKE port rules and the two ESP rules once there is a connection, nothing otherwise |
| IPSecConf.IPSecConfModule.InetAccess | src/modules/IPSecConf.rb:167-181 | the `inet_access` text built by the `each` loop is exactly the line model `Firewall.InetAccessLines`: the MSS rules when the flag is set, then a FORWARD and MASQUERADE pair per pool, in pool order |
| IPSecConf.IPSecConfModule.Import | src/modules/IPSecConf.rb:290-301 | it succeeds iff a map is given; with no map nothing changes; otherwise the four settings are those of `Imported`, the modified flag is set and the Hash invariant `Valid` holds; the unsupported labels are never touched |
| IPSecConf.Imported | src/modules/IPSecConf.rb:295-298 | a flag is true iff its key holds `true` (absent is false); absent connections or secrets become the empty Hash, present ones are taken as given |
| IPSecConf.IPSecConfModule.Export | src/modules/IPSecConf.rb:304-312 | all four keys are present, importing the exported map gives back exactly the current settings, and a valid state exports Hashes |
| IPSecConf.IPSecConfModule.SetModified | src/modules/IPSecConf.rb:338-341 | sets the modified flag and changes no setting and no label |
| IPSecConf.IPSecConfModule.GetModified | src/modules/IPSecConf.rb:344-347 | returns the modified flag |
| IPSecConf.IPSecConfModule.Reset | src/modules/IPSecConf.rb:350-363 | back to the state of `initialize`, which satisfies the Hash invariant |
| IPSecConf.PristineExport | src/modules/IPSecConf.rb:350-363 | after `Reset`, Export gives both flags false, no connections and the four empty buckets |
| Parsing.ParseConnections | src/modules/IPSecConf.rb:61-73 | the ipsec.conf fold keeps every connection key unique, and so every connection's parameter keys |
| Parsing.ConnStepValid | src/modules/IPSecConf.rb:64-72 | one iteration keeps the connection names and each connection's parameter names distinct |
| Parsing.ParseConnectionsPartition | src/modules/IPSecConf.rb:61-73 | the connections are `Hash[...]` of the (stripped second token, stripped parameter pairs) of exactly the `conn NAME` sections with NAME not `%default`; the unsupported list is the stripped names of all other sections, in input order |
| Parsing.ConnPartitionCount | src/modules/IPSecConf.rb:61-73 | every section is either a connection or a label, never both and never neither |
| Parsing.SecretTokens | src/modules/IPSecConf.rb:82 | a secret value that is not blank splits into one or two tokens |
| Parsing.SecretStep | src/modules/IPSecConf.rb:81-90 | one iteration keeps the bucket keys exactly `psk`, `rsa`, `eap`, `xauth` |
| Parsing.AddSecret | src/modules/IPSecConf.rb:86 | `@ipsec_secrets[key_type] += [secret]` keeps the keys, appends the secret to that bucket and leaves every other bucket as it was |
| Parsing.ParseSecrets | src/modules/IPSecConf.rb:77-91 | the fold over the secrets ends with the same four bucket keys it starts with |
| Parsing.SecretKind | src/modules/IPSecConf.rb:83 | a recognised secret is classified as one of the four types |
| Parsing.TypeIndex | src/modules/IPSecConf.rb:83 | a type word is found among the four types iff it is one of them, at its position |
| Parsing.ParseSecretsClassified | src/modules/IPSecConf.rb:80-91 | bucket `i` holds, in record order, `{id: stripped name, secret: rest stripped with every '"' deleted}` of each record whose value splits into two tokens with the lower-cased first one being the `i`-th type; every other record adds `(id + " " + token0).strip` to the unsupported list |
| Parsing.SecretPartitionCount | src/modules/IPSecConf.rb:80-91 | the four bucket sizes and the unsupported count add up to the number of records: no record lands in two places or is lost |
| Parsing.SecretStepTyped | src/modules/IPSecConf.rb:83-87 | a recognised record appends its secret to the bucket of its type and adds no label |
| Parsing.SecretStepUntyped | src/modules/IPSecConf.rb:88-89 | an unrecognised record leaves the buckets alone and appends its label |
| Ini.MkIniNode | src/modules/IPSecConf.rb:374-382 | the comment is always empty, a missing name gives `""` and a missing value `[]`; a root node is a `section` of type -1 with file -1; a `section` node has type 0 and file -1; any other node keeps its kind, has type 0 and no file |
| Ini.ParamNodes | src/modules/IPSecConf.rb:388-390 | one `value` node per parameter, in stored order, named by the key and holding the value |
| Ini.MakeIPSecConfINI | src/modules/IPSecConf.rb:385-392 | a root node (`kind` section, `type` -1, `file` -1, empty name and comment) holding, per connection in map order, a section named `"conn " + name` with `type` 0 and `file` -1 whose children are the parameter value nodes in order |
| Ini.BucketNodes | src/modules/IPSecConf.rb:398-405 | one `value` node per secret of a bucket, named by its id and holding `TYPE + " " + material` |
| Ini.SecretQuoting | src/modules/IPSecConf.rb:402 | RSA material is written as it is; any other material is written inside exactly one pair of double quotes |
| Ini.MakeIPSecSecretsINI | src/modules/IPSecConf.rb:395-407 | a root node whose children are the secret nodes, bucket by bucket; every child is a value node with no file, so the secrets file has no sections |
| RoundTrip.SecretNodesStd | src/modules/IPSecConf.rb:396-406 | for Read's four buckets the written nodes are the `psk`, then `rsa`, then `eap`, then `xauth` secrets |
| RoundTrip.SecretMaterialParses | src/modules/IPSecConf.rb:402 | quoted material, and unquoted RSA material, comes back unchanged from `strip` and `delete '"'` |
| RoundTrip.SecretNodeParses | src/modules/IPSecConf.rb:399-404 | one written secret is read back into the bucket of its type, unchanged |
| RoundTrip.ConnSectionParses | src/modules/IPSecConf.rb:388-390 | one written section is read as a connection with the same name and the same parameters |
| RoundTrip.ConnRoundTrip | src/modules/IPSecConf.rb:385-392 | reading back what `makeIPSecConfINI` writes gives the same connections and no unsupported sections, for stripped non-empty names other than `%default` and stripped parameters |
| RoundTrip.SecretRoundTrip | src/modules/IPSecConf.rb:395-407 | reading back what `makeIPSecSecretsINI` writes for the four buckets gives the same buckets and no unsupported secrets, for stripped ids, material without `"`, and RSA material that is a stripped non-empty text |
| Firewall.GatewayPools | src/modules/IPSecConf.rb:144-147 | at most one pool per connection |
| Firewall.PoolOf | src/modules/IPSecConf.rb:144-147 | one connection gives at most one pool: its `rightsourceip`, exactly when it is a gateway that has one |
| Firewall.GatewayPoolsMembers | src/modules/IPSecConf.rb:144-147 | a text is a pool iff it is the `rightsourceip` of some connection whose `leftsubnet` contains `::/0` or `0.0.0.0/0` |
| Firewall.GatewayPoolsNonEmpty | src/modules/IPSecConf.rb:144-147 | when every gateway has a pool, there are pools iff there is a gateway |
| Firewall.GatewayPoolsAppend | src/modules/IPSecConf.rb:144-147 | pools come in connection order |
| Firewall.SelectBySubnet | src/modules/IPSecConf.rb:225-237 | the selection is non-empty iff some connection has a `leftsubnet` containing the pattern |
| Firewall.Ipv4ForwardNeeded | src/modules/IPSecConf.rb:225-228 | IPv4 forwarding is needed iff some connection's `leftsubnet` is present and contains `0.0.0.0/0` |
| Firewall.Ipv6ForwardNeeded | src/modules/IPSecConf.rb:234-237 | IPv6 forwarding is needed iff some connection's `leftsubnet` is present and contains `::/0` |
| Firewall.ForwardingIffGateways | src/modules/IPSecConf.rb:225-241 | some forwarding is switched on iff the script has a pool to forward for |
| Firewall.ScriptText | src/modules/IPSecConf.rb:149-186 | the script is the two banner lines, then the five hook functions `name() {\n<body>true\n}\nname\n` in the fixed order, the second, fourth and fifth with empty bodies |
| Firewall.JoinBlock | src/modules/IPSecConf.rb:151 | a hook function as lines is `func_template` around its body |
| Firewall.OpenRules | src/modules/IPSecConf.rb:155-163 | the first body is non-empty iff there is any connection, and then it is the six rules in order: iptables udp 500, 4500, ip6tables udp 500, 4500, iptables proto 50, ip6tables proto 50 |
| Firewall.InetAccessOrder | src/modules/IPSecConf.rb:166-181 | with the MSS flag the masquerading body starts with the iptables then the ip6tables MSS rule, followed by the pool rules; without it, it is the pool rules |
| Firewall.Tool | src/modules/IPSecConf.rb:176-180 | the tool is `iptables` or `ip6tables`, and it is `ip6tables` iff the pool contains `:` |
| Firewall.PoolLinesOrder | src/modules/IPSecConf.rb:175-181 | pool `k` gets its FORWARD rule at line `2k` and its MASQUERADE rule right after |
| Firewall.MssLineInScript | src/modules/IPSecConf.rb:168-171 | with the flag set, the iptables MSS rule is a line of the script: the first line of the `fw_custom_before_masq` body |
| Firewall.ScriptFree | src/modules/IPSecConf.rb:149-185 | without the flag, no line of the script contains `--set-mss 1024`, given pools without `--` |
| Firewall.MssRoundTrip | src/modules/IPSecConf.rb:97 | reading the generated script with the marker test gives back the MSS flag that generated it |
| Firewall.RecoverMss | src/modules/IPSecConf.rb:97 | the workaround counts as enabled iff the rules file exists and `--set-mss 1024` is a slice of its text at some position |
| Firewall.NoRulesFile | src/modules/IPSecConf.rb:97 | a missing rules file means the workaround is off |
| OrderedMaps.Put | src/modules/IPSecConf.rb:66 | `h[k] = v`: a present key keeps its place, a new one is appended; keys stay distinct; `k` now maps to `v` |
| OrderedMaps.PutOther | src/modules/IPSecConf.rb:66 | storing under one key leaves every other key's value alone |
| OrderedMaps.Get | src/modules/IPSecConf.rb:83 | a value is found iff the key is present, and it is stored with the key |
| OrderedMaps.FromPairsHasKey | src/modules/IPSecConf.rb:66-68 | `Hash[pairs]` has exactly the keys of the pairs |
| OrderedMaps.FromPairsLastWins | src/modules/IPSecConf.rb:66-68 | `Hash[pairs]` maps each key to the value of its last pair |
| OrderedMaps.FromPairsKeyOrder | src/modules/IPSecConf.rb:66-68 | `Hash[pairs]` lists the keys in order of first occurrence, without repeats |
| OrderedMaps.FromPairsOfUnique | src/modules/IPSecConf.rb:66-68 | pairs with distinct keys are their own Hash |
| Text.Strip | src/modules/IPSecConf.rb:62 | the result of `strip` starts and ends with a character `strip` keeps, and is no longer than the input |
| Text.StripIsTrim | src/modules/IPSecConf.rb:62 | `strip` keeps a slice of its input with only strip-space around it |
| Text.StripStripped | src/modules/IPSecConf.rb:65 | a stripped text comes back from `strip` unchanged |
| Text.Split2 | src/modules/IPSecConf.rb:62 | `split(/\s+/, 2)`: no token for the empty text; one token iff the text has no `\s`; otherwise the text before its first `\s` run and the text after it |
| Text.SplitKeyword | src/modules/IPSecConf.rb:62 | a word, a space and a rest that starts with no `\s` split into exactly the word and the rest |
| Text.DowncaseLaws | src/modules/IPSecConf.rb:83-84 | after `downcase` no capital letter is left, only capitals change, a text without capitals is unchanged, and `downcase` is idempotent |
| Text.UpcaseLaws | src/modules/IPSecConf.rb:402 | after `upcase` no small letter is left, only small letters change, a text without small letters is unchanged, and `upcase` is idempotent |
| Text.DowncaseUpcase | src/modules/IPSecConf.rb:83 | a lower-case word comes back from `upcase` then `downcase` |
| Text.DeleteQuotes | src/modules/IPSecConf.rb:85 | the result has no `"` and holds exactly the other characters of the input; a text without `"` is unchanged |
| Text.DeleteQuotesAppend | src/modules/IPSecConf.rb:85 | deleting quotes distributes over concatenation |
| Text.ContainsSlice | src/modules/IPSecConf.rb:146 | `include?` holds iff the pattern is a slice of the text at some position |
| Text.Unquote | src/modules/IPSecConf.rb:402 | deleting the quotes of `'"' + c + '"'` gives back `c` when `c` has none |

## Left out

- `@orig_conf`, `@orig_secrets`, `GetDeserialisedIPSecConf` and `GetDeserialisedIPSecSecrets` (lines 35, 37, 56-57, 102-109): the raw records are `Read`'s parameters and are not kept. The plain getters of lines 112-139 only return fields, and the fields of the class are public here.
- The system calls are not modelled: file I/O via `SCR`, the `Service` and `Package` calls, `SuSEFirewall`, `Report`, logging, translations and `Summary` (lines 56-57, 95-96, 190-287, 315-335). What they return is a parameter of `Read`. In particular `log_no_secrets` (lines 78, 87, 92) only feeds the log.
- `Write` is not modelled as a whole: its order of effects and its success result belong to the system calls. Only its two forwarding tests are modelled (`Firewall.Ipv4ForwardNeeded`, `Firewall.Ipv6ForwardNeeded`).
- The Ruby code raises an exception in these cases, and the model rules them out with preconditions:
  - a gateway without `rightsourceip` (lines 147, 176): `GatewaysHavePools`;
  - a secret whose value is blank (line 89): `IsWellFormedSecret`;
  - a `conn` section whose value is not a list of key/value nodes (line 67): `IsWellFormedConf`.
- Import: the AutoYaST map has typed fields. A flag is `None`, `Some(true)` or `Some(false)`, so Ruby's truthiness of other values (`!!"yes"`) is not modelled. A collection key that is present but `nil` is not modelled either.
- Text.Downcase: only ASCII letters change case; Ruby's Unicode case mapping of other letters is not modelled.
- Text.Upcase: only ASCII letters change case. Ruby maps some other letters to ASCII capitals (`"ſ".upcase == "S"`), so an imported bucket key such as `"rſa"` would be written unquoted by Ruby and quoted by the model.
- IPSecConf.IPSecConfModule.Import and IPSecConf.IPSecConfModule.Export: Ruby hands the caller's Hash objects in and the module's own Hash objects out, so later changes through either reference are shared. The model has value semantics and does not capture that aliasing.
- Firewall.GatewayPools: a gateway without `rightsourceip` contributes no pool here, where Ruby puts `nil` into the list and then raises at line 176. Every use of the pools requires `GatewaysHavePools`, so that branch is never reached.
- Text.Strip: NUL counts as strip-space at both ends, as in current Ruby; older Ruby kept a leading NUL.
- IPSecConf.IPSecConfModule.Read: the field stores are collected in `Store` at the end, after both loops have run on local values; the Ruby method assigns the fields as it goes. The Ruby loops read the fields they are building (`@ipsec_conns[...] =` at line 66, `@unsupported_conf +=` at line 71, `@ipsec_secrets.has_key?` and `+=` at lines 83 and 86, `@unsupported_secrets +=` at line 89); in the model those reads go to the loops' local variables, which stand for the fields. Nothing outside the two loops reads the fields before they are complete, so the final state is the same.
- Firewall.MssRoundTrip: proved only for address pools that do not contain `--`, because such a pool could contain the marker and turn the flag on.
- Firewall.ScriptFree: stated under the same condition on the pools.
- The ports and protocol numbers of the script are written as the decimal texts `"500"`, `"4500"` and `"50"` that `%d` produces.
