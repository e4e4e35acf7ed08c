/**
 * The two parsing loops of `Read`: ipsec.conf sections become connections or
 * unsupported labels, ipsec.secrets entries become typed secrets or
 * unsupported labels. Each loop is given as the function of one iteration,
 * folded over the records; the imperative loops in IPSecConf are proved equal
 * to these folds.
 */
module Parsing {
  import opened Wrappers
  import opened Text
  import opened OrderedMaps
  import opened Model
  import opened Ini

  // ---------------------------------------------------------------- ipsec.conf

  /** `kv["name"].strip.split(/\s+/, 2)` */
  function SectionTokens(n: IniNode): seq<string> {
    Split2(Strip(n.name))
  }

  /** The section is `conn NAME` with a NAME other than `%default`. */
  predicate IsConnSection(n: IniNode) {
    var t := SectionTokens(n);
    |t| == 2 && t[0] == "conn" && t[1] != "%default"
  }

  /** The connection's key: the second token, stripped. */
  function ConnName(n: IniNode): string
    requires IsConnSection(n)
  {
    Strip(SectionTokens(n)[1])
  }

  /** What the loop needs of a conn section: a list of key/value nodes. */
  predicate IsWellFormedConf(n: IniNode) {
    IsConnSection(n) ==> n.value.Nodes? && forall j :: 0 <= j < |n.value.children| ==> n.value.children[j].value.Scalar?
  }

  predicate AllWellFormedConf(recs: seq<IniNode>) {
    forall i :: 0 <= i < |recs| ==> IsWellFormedConf(recs[i])
  }

  /** `params.map { |paramkv| [paramkv["name"].strip, paramkv["value"].strip] }` */
  function ParamPairs(entries: seq<IniNode>): (ps: Params)
    requires forall j :: 0 <= j < |entries| ==> entries[j].value.Scalar?
    ensures |ps| == |entries|
    ensures forall j :: 0 <= j < |entries| ==> ps[j] == (Strip(entries[j].name), Strip(entries[j].value.text))
  {
    seq(|entries|, j requires 0 <= j < |entries| => (Strip(entries[j].name), Strip(entries[j].value.text)))
  }

  /** `Hash[...]` of the stripped parameter pairs. */
  function ConnParams(n: IniNode): Params
    requires IsConnSection(n) && IsWellFormedConf(n)
  {
    FromPairs(ParamPairs(n.value.children))
  }

  datatype ConfParse = ConfParse(conns: Conns, unsupported: seq<string>)

  /** One iteration of the ipsec.conf loop. */
  function ConnStep(st: ConfParse, n: IniNode): ConfParse
    requires IsWellFormedConf(n)
  {
    if IsConnSection(n) then ConfParse(Put(st.conns, ConnName(n), ConnParams(n)), st.unsupported)
    else ConfParse(st.conns, st.unsupported + [Strip(n.name)])
  }

  /** The whole ipsec.conf loop, starting from `{}` and `[]`. */
  function ParseConnections(recs: seq<IniNode>): (r: ConfParse)
    requires AllWellFormedConf(recs)
    ensures ValidConns(r.conns)
  {
    if recs == [] then ConfParse([], [])
    else
      var st := ParseConnections(recs[..|recs| - 1]);
      ConnStepValid(st, recs[|recs| - 1]);
      ConnStep(st, recs[|recs| - 1])
  }

  /** A step keeps every key unique: the connections' and each one's parameters. */
  lemma ConnStepValid(st: ConfParse, n: IniNode)
    requires ValidConns(st.conns) && IsWellFormedConf(n)
    ensures ValidConns(ConnStep(st, n).conns)
  {
    if IsConnSection(n) {
      PutEntries(st.conns, ConnName(n), ConnParams(n));
    }
  }

  /** Extending the prefix by one record is one more loop iteration. */
  lemma ConnPrefixStep(recs: seq<IniNode>, i: nat)
    requires i < |recs| && AllWellFormedConf(recs[..i]) && IsWellFormedConf(recs[i])
    ensures AllWellFormedConf(recs[..i + 1])
    ensures ParseConnections(recs[..i + 1]) == ConnStep(ParseConnections(recs[..i]), recs[i])
  {
    WellFormedConfSnoc(recs[..i], recs[i]);
    var pre := recs[..i] + [recs[i]];
    assert pre == recs[..i + 1];
    assert pre[..i] == recs[..i];
    ParseConnectionsLast(pre);
  }

  /** The definition of ParseConnections, unfolded once. */
  lemma ParseConnectionsLast(s: seq<IniNode>)
    requires s != [] && AllWellFormedConf(s)
    ensures AllWellFormedConf(s[..|s| - 1]) && IsWellFormedConf(s[|s| - 1])
    ensures ParseConnections(s) == ConnStep(ParseConnections(s[..|s| - 1]), s[|s| - 1])
  {
  }

  lemma WellFormedConfSnoc(recs: seq<IniNode>, n: IniNode)
    requires AllWellFormedConf(recs) && IsWellFormedConf(n)
    ensures AllWellFormedConf(recs + [n])
  {
    var ext := recs + [n];
    forall k | 0 <= k < |ext|
      ensures IsWellFormedConf(ext[k])
    {
      if k < |recs| {
        assert ext[k] == recs[k];
      }
    }
  }

  /** Reference: the (name, parameters) of each conn section, in record order. */
  function ConnPairs(recs: seq<IniNode>): Conns
    requires AllWellFormedConf(recs)
  {
    if recs == [] then []
    else
      var n := recs[|recs| - 1];
      ConnPairs(recs[..|recs| - 1]) + if IsConnSection(n) then [(ConnName(n), ConnParams(n))] else []
  }

  /** Reference: the stripped names of all other sections, in record order. */
  function ConnLabels(recs: seq<IniNode>): seq<string> {
    if recs == [] then []
    else
      var n := recs[|recs| - 1];
      ConnLabels(recs[..|recs| - 1]) + if IsConnSection(n) then [] else [Strip(n.name)]
  }

  /** A conn section at the end adds its pair and no label. */
  lemma ConnPairsLast(recs: seq<IniNode>)
    requires recs != [] && AllWellFormedConf(recs) && IsConnSection(recs[|recs| - 1])
    ensures var n := recs[|recs| - 1]; var pre := recs[..|recs| - 1];
      AllWellFormedConf(pre) &&
      ConnPairs(recs) == ConnPairs(pre) + [(ConnName(n), ConnParams(n))] && ConnLabels(recs) == ConnLabels(pre)
  {
    var pre := recs[..|recs| - 1];
    assert ConnLabels(pre) + [] == ConnLabels(pre);
  }

  /**
   * Partition: the connections are `Hash[ConnPairs]` (a repeated name keeps
   * its first position and its last parameters) and the unsupported list is
   * every other section's stripped name, in order.
   */
  lemma {:induction false} ParseConnectionsPartition(recs: seq<IniNode>)
    requires AllWellFormedConf(recs)
    ensures ParseConnections(recs) == ConfParse(FromPairs(ConnPairs(recs)), ConnLabels(recs))
  {
    if recs != [] {
      var pre := recs[..|recs| - 1];
      var n := recs[|recs| - 1];
      ParseConnectionsPartition(pre);
      var st := ParseConnections(pre);
      assert ParseConnections(recs) == ConnStep(st, n);
      var ps := ConnPairs(recs);
      if IsConnSection(n) {
        var x := (ConnName(n), ConnParams(n));
        assert ps == ConnPairs(pre) + [x];
        assert ps[..|ps| - 1] == ConnPairs(pre);
        assert FromPairs(ps) == Put(FromPairs(ConnPairs(pre)), x.0, x.1);
        assert ConnLabels(recs) == ConnLabels(pre);
        assert ConnStep(st, n) == ConfParse(Put(st.conns, x.0, x.1), st.unsupported);
      } else {
        assert ps == ConnPairs(pre);
        assert ConnLabels(recs) == ConnLabels(pre) + [Strip(n.name)];
        assert ConnStep(st, n) == ConfParse(st.conns, st.unsupported + [Strip(n.name)]);
      }
    }
  }

  /** Every section is either a connection or a label. */
  lemma {:induction false} ConnPartitionCount(recs: seq<IniNode>)
    requires AllWellFormedConf(recs)
    ensures |ConnPairs(recs)| + |ConnLabels(recs)| == |recs|
  {
    if recs != [] {
      ConnPartitionCount(recs[..|recs| - 1]);
    }
  }

  // ------------------------------------------------------------- ipsec.secrets

  /** What the loop needs of a secret: a text value that is not blank. */
  predicate IsWellFormedSecret(n: IniNode) {
    n.value.Scalar? && Strip(n.value.text) != ""
  }

  predicate AllWellFormedSecrets(recs: seq<IniNode>) {
    forall i :: 0 <= i < |recs| ==> IsWellFormedSecret(recs[i])
  }

  /** `kv["value"].strip.split(/\s+/, 2)`: never empty for a well-formed secret. */
  function SecretTokens(n: IniNode): (t: seq<string>)
    requires IsWellFormedSecret(n)
    ensures 1 <= |t| <= 2
  {
    Split2(Strip(n.value.text))
  }

  lemma SecretTypesAreWords()
    ensures forall k :: k in SecretTypes ==> IsLowerWord(k)
  {
    assert IsLowerWord("psk") && IsLowerWord("rsa") && IsLowerWord("eap") && IsLowerWord("xauth");
  }

  /** Buckets keyed by the four types, in order, have distinct keys. */
  lemma StdKeysUnique(b: Buckets)
    requires Keys(b) == SecretTypes
    ensures UniqueKeys(b)
  {
    forall i, j | 0 <= i < j < |b|
      ensures b[i].0 != b[j].0
    {
      assert b[i].0 == SecretTypes[i] && b[j].0 == SecretTypes[j];
    }
  }

  datatype SecretParse = SecretParse(buckets: Buckets, unsupported: seq<string>)

  /** One iteration of the ipsec.secrets loop, over buckets keyed by the four types. */
  function SecretStep(st: SecretParse, n: IniNode): (r: SecretParse)
    requires Keys(st.buckets) == SecretTypes && IsWellFormedSecret(n)
    ensures Keys(r.buckets) == SecretTypes
  {
    var left := Strip(n.name);
    var t := SecretTokens(n);
    KeysMembership(st.buckets, Downcase(t[0]));
    if |t| == 2 && HasKey(st.buckets, Downcase(t[0])) then
      SecretTypesAreWords();
      DowncaseWordIsStripped(t[0]);
      StripStripped(t[0]);
      var keyType := Downcase(Strip(t[0]));
      var content := DeleteQuotes(Strip(t[1]));
      SecretParse(AddSecret(st.buckets, keyType, Secret(left, content)), st.unsupported)
    else
      SecretParse(st.buckets, st.unsupported + [Strip(left + " " + t[0])])
  }

  /** `@ipsec_secrets[key_type] += [secret]` */
  function AddSecret(b: Buckets, keyType: string, s: Secret): (r: Buckets)
    requires HasKey(b, keyType)
    ensures Keys(r) == Keys(b)
    ensures Get(r, keyType) == Some(Get(b, keyType).value + [s])
    ensures forall k :: k != keyType ==> Get(r, k) == Get(b, k)
  {
    forall k | k != keyType ensures Get(Put(b, keyType, Get(b, keyType).value + [s]), k) == Get(b, k) {
      PutOther(b, keyType, Get(b, keyType).value + [s], k);
    }
    Put(b, keyType, Get(b, keyType).value + [s])
  }

  /** The whole ipsec.secrets loop, starting from the four empty buckets. */
  function ParseSecrets(recs: seq<IniNode>): (r: SecretParse)
    requires AllWellFormedSecrets(recs)
    ensures Keys(r.buckets) == SecretTypes
  {
    if recs == [] then SecretParse(EmptyBuckets(), [])
    else SecretStep(ParseSecrets(recs[..|recs| - 1]), recs[|recs| - 1])
  }

  /** Extending the prefix by one record is one more loop iteration. */
  lemma SecretPrefixStep(recs: seq<IniNode>, j: nat)
    requires j < |recs| && AllWellFormedSecrets(recs[..j]) && IsWellFormedSecret(recs[j])
    ensures AllWellFormedSecrets(recs[..j + 1])
    ensures ParseSecrets(recs[..j + 1]) == SecretStep(ParseSecrets(recs[..j]), recs[j])
  {
    var pre := recs[..j + 1];
    assert pre[..j] == recs[..j] && pre[j] == recs[j];
    assert forall k :: 0 <= k < |pre| ==> pre[k] == recs[k];
  }

  /** The position of `w` in `ws`, or `|ws|` when it is not there. */
  function Position(ws: seq<string>, w: string): (i: nat)
    ensures i <= |ws|
    ensures i < |ws| <==> w in ws
    ensures i < |ws| ==> ws[i] == w
  {
    if ws == [] then 0
    else if ws[0] == w then 0
    else 1 + Position(ws[1..], w)
  }

  /** The position of a type word among the four types, or 4 when it is none of them. */
  function TypeIndex(w: string): (i: nat)
    ensures i <= |SecretTypes|
    ensures i < |SecretTypes| <==> w in SecretTypes
    ensures i < |SecretTypes| ==> SecretTypes[i] == w
  {
    Position(SecretTypes, w)
  }

  /** The index of the bucket a secret is recognised for, if any. */
  function SecretKind(n: IniNode): (r: Option<nat>)
    requires IsWellFormedSecret(n)
    ensures r.Some? ==> r.value < |SecretTypes|
  {
    var t := SecretTokens(n);
    var i := TypeIndex(Downcase(t[0]));
    if |t| == 2 && i < |SecretTypes| then Some(i) else None
  }

  /** `{id: stripped name, secret: stripped rest with every '"' deleted}` */
  function SecretOf(n: IniNode): Secret
    requires IsWellFormedSecret(n) && SecretKind(n).Some?
  {
    Secret(Strip(n.name), DeleteQuotes(Strip(SecretTokens(n)[1])))
  }

  /** `(id + " " + token0).strip` */
  function SecretLabel(n: IniNode): string
    requires IsWellFormedSecret(n)
  {
    Strip(Strip(n.name) + " " + SecretTokens(n)[0])
  }

  /** Reference: the secrets recognised as the `i`-th type, in record order. */
  function Bucket(recs: seq<IniNode>, i: nat): seq<Secret>
    requires AllWellFormedSecrets(recs)
  {
    if recs == [] then []
    else
      var n := recs[|recs| - 1];
      Bucket(recs[..|recs| - 1], i) + if SecretKind(n) == Some(i) then [SecretOf(n)] else []
  }

  /** Reference: the labels of the unrecognised secrets, in record order. */
  function SecretLabels(recs: seq<IniNode>): seq<string>
    requires AllWellFormedSecrets(recs)
  {
    if recs == [] then []
    else
      var n := recs[|recs| - 1];
      SecretLabels(recs[..|recs| - 1]) + if SecretKind(n).None? then [SecretLabel(n)] else []
  }

  /** The four reference buckets, in Read's order. */
  function Classified(recs: seq<IniNode>): Buckets
    requires AllWellFormedSecrets(recs)
  {
    StdBuckets(Bucket(recs, 0), Bucket(recs, 1), Bucket(recs, 2), Bucket(recs, 3))
  }

  /** The `i`-th type names the `i`-th of the four buckets. */
  lemma IndexOfStd(p: seq<Secret>, r: seq<Secret>, e: seq<Secret>, x: seq<Secret>, i: nat)
    requires i < |SecretTypes|
    ensures IndexOf(StdBuckets(p, r, e, x), SecretTypes[i]) == i
  {
    var b := StdBuckets(p, r, e, x);
    assert b[0].0 == "psk" && b[1].0 == "rsa" && b[2].0 == "eap" && b[3].0 == "xauth";
    if i == 0 {
      assert IndexOf(b, "psk") == 0;
    } else if i == 1 {
      assert IndexOf(b, "rsa") == 1;
    } else if i == 2 {
      assert IndexOf(b, "eap") == 2;
    } else {
      assert IndexOf(b, "xauth") == 3;
    }
  }

  /** Appending to the `i`-th of the four buckets by its key. */
  lemma PutStd(p: seq<Secret>, r: seq<Secret>, e: seq<Secret>, x: seq<Secret>, i: nat, s: Secret)
    requires i < |SecretTypes|
    ensures var b := StdBuckets(p, r, e, x);
      HasKey(b, SecretTypes[i]) &&
      AddSecret(b, SecretTypes[i], s) ==
        StdBuckets(if i == 0 then p + [s] else p, if i == 1 then r + [s] else r,
                   if i == 2 then e + [s] else e, if i == 3 then x + [s] else x)
  {
    var b := StdBuckets(p, r, e, x);
    IndexOfStd(p, r, e, x, i);
    var c := b[i := (SecretTypes[i], b[i].1 + [s])];
    assert AddSecret(b, SecretTypes[i], s) == c;
  }

  lemma BucketLast(recs: seq<IniNode>, i: nat)
    requires recs != [] && AllWellFormedSecrets(recs)
    ensures var n := recs[|recs| - 1]; var pre := recs[..|recs| - 1];
      Bucket(recs, i) == if SecretKind(n) == Some(i) then Bucket(pre, i) + [SecretOf(n)] else Bucket(pre, i)
  {
    var pre := recs[..|recs| - 1];
    assert Bucket(pre, i) + [] == Bucket(pre, i);
  }

  lemma LabelsLast(recs: seq<IniNode>)
    requires recs != [] && AllWellFormedSecrets(recs)
    ensures var n := recs[|recs| - 1]; var pre := recs[..|recs| - 1];
      SecretLabels(recs) == if SecretKind(n).None? then SecretLabels(pre) + [SecretLabel(n)] else SecretLabels(pre)
  {
    var pre := recs[..|recs| - 1];
    assert SecretLabels(pre) + [] == SecretLabels(pre);
  }

  /**
   * Classification: a secret lands in the bucket of its lower-cased type word
   * when its value splits into two tokens and that word is one of the four
   * types; every other secret adds its label to the unsupported list.
   */
  lemma {:induction false} ParseSecretsClassified(recs: seq<IniNode>)
    requires AllWellFormedSecrets(recs)
    ensures ParseSecrets(recs) == SecretParse(Classified(recs), SecretLabels(recs))
  {
    if recs != [] {
      var pre := recs[..|recs| - 1];
      var n := recs[|recs| - 1];
      ParseSecretsClassified(pre);
      var st := ParseSecrets(pre);
      BucketLast(recs, 0);
      BucketLast(recs, 1);
      BucketLast(recs, 2);
      BucketLast(recs, 3);
      LabelsLast(recs);
      if SecretKind(n).Some? {
        SecretStepTyped(st, n);
        PutStd(Bucket(pre, 0), Bucket(pre, 1), Bucket(pre, 2), Bucket(pre, 3), SecretKind(n).value, SecretOf(n));
      } else {
        SecretStepUntyped(st, n);
      }
    }
  }

  /** One step of the loop on a recognised secret. */
  lemma SecretStepTyped(st: SecretParse, n: IniNode)
    requires Keys(st.buckets) == SecretTypes && IsWellFormedSecret(n) && SecretKind(n).Some?
    ensures HasKey(st.buckets, SecretTypes[SecretKind(n).value])
    ensures SecretStep(st, n) == SecretParse(AddSecret(st.buckets, SecretTypes[SecretKind(n).value], SecretOf(n)), st.unsupported)
  {
    var t := SecretTokens(n);
    var k := Downcase(t[0]);
    assert k in SecretTypes && SecretTypes[SecretKind(n).value] == k;
    assert Downcase(Strip(t[0])) == k by {
      SecretTypesAreWords();
      DowncaseWordIsStripped(t[0]);
      StripStripped(t[0]);
    }
    assert HasKey(st.buckets, k) by {
      KeysMembership(st.buckets, k);
    }
  }

  /** One step of the loop on an unrecognised secret. */
  lemma SecretStepUntyped(st: SecretParse, n: IniNode)
    requires Keys(st.buckets) == SecretTypes && IsWellFormedSecret(n) && SecretKind(n).None?
    ensures SecretStep(st, n) == SecretParse(st.buckets, st.unsupported + [SecretLabel(n)])
  {
    var t := SecretTokens(n);
    KeysMembership(st.buckets, Downcase(t[0]));
  }

  /** No secret is lost or counted twice: bucket sizes and labels add up to the input. */
  lemma {:induction false} SecretPartitionCount(recs: seq<IniNode>)
    requires AllWellFormedSecrets(recs)
    ensures |Bucket(recs, 0)| + |Bucket(recs, 1)| + |Bucket(recs, 2)| + |Bucket(recs, 3)|
            + |SecretLabels(recs)| == |recs|
  {
    if recs != [] {
      var pre := recs[..|recs| - 1];
      var kind := SecretKind(recs[|recs| - 1]);
      SecretPartitionCount(pre);
      BucketLast(recs, 0);
      BucketLast(recs, 1);
      BucketLast(recs, 2);
      BucketLast(recs, 3);
      LabelsLast(recs);
      CountStep(kind, |Bucket(pre, 0)|, |Bucket(pre, 1)|, |Bucket(pre, 2)|, |Bucket(pre, 3)|, |SecretLabels(pre)|,
                |Bucket(recs, 0)|, |Bucket(recs, 1)|, |Bucket(recs, 2)|, |Bucket(recs, 3)|, |SecretLabels(recs)|);
    }
  }

  /** One record adds one to exactly one of the five counts. */
  lemma CountStep(kind: Option<nat>, a0: nat, a1: nat, a2: nat, a3: nat, l0: nat, b0: nat, b1: nat, b2: nat, b3: nat, l1: nat)
    requires kind.Some? ==> kind.value < 4
    requires b0 == a0 + (if kind == Some(0) then 1 else 0) && b1 == a1 + (if kind == Some(1) then 1 else 0)
    requires b2 == a2 + (if kind == Some(2) then 1 else 0) && b3 == a3 + (if kind == Some(3) then 1 else 0)
    requires l1 == l0 + if kind.None? then 1 else 0
    ensures b0 + b1 + b2 + b3 + l1 == a0 + a1 + a2 + a3 + l0 + 1
  {
  }
}
