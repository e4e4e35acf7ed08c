/**
 * Reading back what the serialisers write: the section list of
 * `makeIPSecConfINI` parses to the same connections, and the value list of
 * `makeIPSecSecretsINI` to the same four buckets, with nothing unsupported.
 */
module RoundTrip {
  import opened Wrappers
  import opened Text
  import opened OrderedMaps
  import opened Model
  import opened Ini
  import opened Parsing

  /** A text that survives `strip` and is not empty. */
  predicate IsToken(s: string) {
    s != [] && IsStripped(s)
  }

  /** Parameters whose keys and values survive `strip`, with distinct keys. */
  predicate IsWritableParams(params: Params) {
    UniqueKeys(params) && forall j :: 0 <= j < |params| ==> IsStripped(params[j].0) && IsStripped(params[j].1)
  }

  /** A connection the ipsec.conf loop reads back as itself. */
  predicate IsWritableConn(name: string, params: Params) {
    IsToken(name) && name != "%default" && IsWritableParams(params)
  }

  /** Connections the ipsec.conf loop can read back unchanged. */
  predicate IsWritableConns(c: Conns) {
    UniqueKeys(c) && forall i :: 0 <= i < |c| ==> IsWritableConn(c[i].0, c[i].1)
  }

  /** The parameter nodes of a connection give back its parameters. */
  lemma ParamPairsOfNodes(params: Params)
    requires IsWritableParams(params)
    ensures var ns := ParamNodes(params);
      (forall j :: 0 <= j < |ns| ==> ns[j].value.Scalar?) && ParamPairs(ns) == params
  {
    var ns := ParamNodes(params);
    forall j | 0 <= j < |params|
      ensures ParamPairs(ns)[j] == params[j]
    {
      StripStripped(params[j].0);
      StripStripped(params[j].1);
    }
  }

  /** One written section is read as a connection with the same name and parameters. */
  lemma ConnSectionParses(name: string, params: Params)
    requires IsWritableConn(name, params)
    ensures var sec := ConnSection(name, params);
      IsConnSection(sec) && IsWellFormedConf(sec) && ConnName(sec) == name && ConnParams(sec) == params
  {
    SectionNameParses(name, params);
    ParamPairsOfNodes(params);
    FromPairsOfUnique(params);
  }

  lemma SectionNameParses(name: string, params: Params)
    requires IsToken(name) && name != "%default"
    ensures var sec := ConnSection(name, params);
      IsConnSection(sec) && ConnName(sec) == name
  {
    var sec := ConnSection(name, params);
    var s := "conn " + name;
    assert Split2(s) == ["conn", name] by {
      assert s == "conn" + " " + name;
      SplitKeyword("conn", name);
    }
    assert Strip(s) == s by {
      assert s[0] == 'c' && s[|s| - 1] == name[|name| - 1];
      StripStripped(s);
    }
    assert sec.name == s;
    StripStripped(name);
  }

  lemma WritableSectionsWellFormed(c: Conns)
    requires IsWritableConns(c)
    ensures AllWellFormedConf(ConnSections(c))
  {
    forall i | 0 <= i < |c|
      ensures IsWellFormedConf(ConnSections(c)[i])
    {
      ConnSectionParses(c[i].0, c[i].1);
    }
  }

  lemma {:induction false} ConnPairsOfSections(c: Conns)
    requires IsWritableConns(c)
    ensures AllWellFormedConf(ConnSections(c))
    ensures ConnPairs(ConnSections(c)) == c && ConnLabels(ConnSections(c)) == []
  {
    WritableSectionsWellFormed(c);
    if c != [] {
      SplitLast(c);
      WritablePrefix(c);
      ConnPairsOfSections(c[..|c| - 1]);
      ConnSectionsLast(c);
    }
  }

  /** The last written section contributes the last connection. */
  lemma ConnSectionsLast(c: Conns)
    requires c != [] && IsWritableConns(c)
    ensures AllWellFormedConf(ConnSections(c[..|c| - 1]))
    ensures ConnPairs(ConnSections(c)) == ConnPairs(ConnSections(c[..|c| - 1])) + [c[|c| - 1]]
    ensures ConnLabels(ConnSections(c)) == ConnLabels(ConnSections(c[..|c| - 1]))
  {
    var last := c[|c| - 1];
    var ss := ConnSections(c);
    assert ss[..|ss| - 1] == ConnSections(c[..|c| - 1]);
    WritableSectionsWellFormed(c);
    ConnSectionParses(last.0, last.1);
    ConnPairsLast(ss);
  }

  lemma WritablePrefix(c: Conns)
    requires c != [] && IsWritableConns(c)
    ensures IsWritableConns(c[..|c| - 1])
  {
    var pre := c[..|c| - 1];
    assert forall i :: 0 <= i < |pre| ==> pre[i] == c[i];
  }

  /** `makeIPSecConfINI` then the ipsec.conf loop gives the connections back, nothing unsupported. */
  lemma ConnRoundTrip(c: Conns)
    requires IsWritableConns(c)
    ensures AllWellFormedConf(MakeIPSecConfINI(c).value.children)
    ensures ParseConnections(MakeIPSecConfINI(c).value.children) == ConfParse(c, [])
  {
    ConnPairsOfSections(c);
    ParseConnectionsPartition(ConnSections(c));
    FromPairsOfUnique(c);
  }

  // ------------------------------------------------------------- ipsec.secrets

  /** What the secrets loop reads back as written: a stripped id, no `"` in the
   *  key material, and RSA material that is itself a non-empty stripped text
   *  (it is written without quotes). */
  predicate IsWritableSecret(keyType: string, s: Secret) {
    IsStripped(s.id) && '"' !in s.secret && (Upcase(keyType) == "RSA" ==> IsToken(s.secret))
  }

  predicate IsWritableBucket(keyType: string, secrets: seq<Secret>) {
    forall j :: 0 <= j < |secrets| ==> IsWritableSecret(keyType, secrets[j])
  }

  predicate IsWritableStd(psk: seq<Secret>, rsa: seq<Secret>, eap: seq<Secret>, xauth: seq<Secret>) {
    IsWritableBucket("psk", psk) && IsWritableBucket("rsa", rsa) && IsWritableBucket("eap", eap) && IsWritableBucket("xauth", xauth)
  }

  /** The material comes back from `strip` and `delete '"'` unchanged. */
  lemma SecretMaterialParses(keyType: string, secret: string)
    requires '"' !in secret && (Upcase(keyType) == "RSA" ==> IsToken(secret))
    ensures var m := SecretMaterial(keyType, secret); IsLineRest(m) && Strip(m) == m && DeleteQuotes(m) == secret
  {
    var m := SecretMaterial(keyType, secret);
    if Upcase(keyType) != "RSA" {
      Unquote(secret);
    }
    StripStripped(m);
  }

  /** The written text is already stripped and splits into the type word and the material. */
  lemma SecretTextSplits(keyType: string, secret: string)
    requires keyType != [] && IsLowerWord(keyType) && IsLineRest(SecretMaterial(keyType, secret))
    ensures var text := SecretText(keyType, secret);
      text != [] && Strip(text) == text && Split2(text) == [Upcase(keyType), SecretMaterial(keyType, secret)]
  {
    UpcaseWord(keyType);
    KeywordLine(Upcase(keyType), SecretMaterial(keyType, secret));
    SecretTextIs(keyType, secret);
  }

  lemma SecretTextIs(keyType: string, secret: string)
    ensures SecretText(keyType, secret) == Upcase(keyType) + " " + SecretMaterial(keyType, secret)
  {
  }

  lemma TypeIndexOf(i: nat)
    requires i < |SecretTypes|
    ensures TypeIndex(SecretTypes[i]) == i && SecretTypes[i] != [] && IsLowerWord(SecretTypes[i])
  {
    SecretTypesAreWords();
  }

  /** One written secret is read back into its own bucket, unchanged. */
  lemma SecretNodeParses(i: nat, s: Secret)
    requires i < |SecretTypes| && IsWritableSecret(SecretTypes[i], s)
    ensures var n := SecretNode(SecretTypes[i], s);
      IsWellFormedSecret(n) && SecretKind(n) == Some(i) && SecretOf(n) == s
  {
    var n := SecretNode(SecretTypes[i], s);
    assert n.name == s.id && n.value == Scalar(SecretText(SecretTypes[i], s.secret));
    TypeIndexOf(i);
    ValueNodeParses(n, SecretTypes[i], i, s);
  }

  lemma ValueNodeParses(n: IniNode, keyType: string, i: nat, s: Secret)
    requires keyType != [] && IsLowerWord(keyType) && i < |SecretTypes| && TypeIndex(keyType) == i
    requires IsWritableSecret(keyType, s) && n.name == s.id && n.value == Scalar(SecretText(keyType, s.secret))
    ensures IsWellFormedSecret(n) && SecretKind(n) == Some(i) && SecretOf(n) == s
  {
    var u, m := Upcase(keyType), SecretMaterial(keyType, s.secret);
    SecretMaterialParses(keyType, s.secret);
    ValueNodeTokens(n, keyType, s.secret);
    DowncaseUpcase(keyType);
    StripStripped(s.id);
    TokensClassify(n, u, m, i, s);
  }

  /** A record whose tokens are a known type word and a material is classified by them. */
  lemma TokensClassify(n: IniNode, u: string, m: string, i: nat, s: Secret)
    requires IsWellFormedSecret(n) && SecretTokens(n) == [u, m] && i < |SecretTypes| && TypeIndex(Downcase(u)) == i
    requires Strip(n.name) == s.id && DeleteQuotes(Strip(m)) == s.secret
    ensures SecretKind(n) == Some(i) && SecretOf(n) == s
  {
  }

  /** A written secret's value is well formed and splits into the type word and the material. */
  lemma ValueNodeTokens(n: IniNode, keyType: string, secret: string)
    requires keyType != [] && IsLowerWord(keyType) && IsLineRest(SecretMaterial(keyType, secret))
    requires n.value == Scalar(SecretText(keyType, secret))
    ensures IsWellFormedSecret(n) && SecretTokens(n) == [Upcase(keyType), SecretMaterial(keyType, secret)]
  {
    SecretTextSplits(keyType, secret);
    ScalarTokens(n, SecretText(keyType, secret), Upcase(keyType), SecretMaterial(keyType, secret));
  }

  lemma ScalarTokens(n: IniNode, text: string, u: string, m: string)
    requires text != [] && Strip(text) == text && Split2(text) == [u, m] && n.value == Scalar(text)
    ensures IsWellFormedSecret(n) && SecretTokens(n) == [u, m]
  {
  }

  /** The nodes of one bucket fill that bucket and nothing else. */
  lemma {:induction false} BucketNodesParse(i: nat, secrets: seq<Secret>, j: nat)
    requires i < |SecretTypes| && IsWritableBucket(SecretTypes[i], secrets)
    ensures var ns := BucketNodes(SecretTypes[i], secrets);
      AllWellFormedSecrets(ns) && Bucket(ns, j) == (if j == i then secrets else []) && SecretLabels(ns) == []
  {
    var keyType := SecretTypes[i];
    if secrets == [] {
      assert BucketNodes(keyType, secrets) == [];
    } else {
      var pre := secrets[..|secrets| - 1];
      var s := secrets[|secrets| - 1];
      SplitLast(secrets);
      assert IsWritableBucket(keyType, pre);
      BucketNodesParse(i, pre, j);
      BucketNodesLast(keyType, secrets);
      SecretNodeParses(i, s);
      BucketSnoc(BucketNodes(keyType, pre), SecretNode(keyType, s), i, j, pre, s);
    }
  }

  lemma BucketNodesLast(keyType: string, secrets: seq<Secret>)
    requires secrets != []
    ensures BucketNodes(keyType, secrets) ==
      BucketNodes(keyType, secrets[..|secrets| - 1]) + [SecretNode(keyType, secrets[|secrets| - 1])]
  {
  }

  /** Appending a record recognised as type `i` appends its secret to bucket `i` only. */
  lemma BucketSnoc(ns: seq<IniNode>, n: IniNode, i: nat, j: nat, pre: seq<Secret>, s: Secret)
    requires AllWellFormedSecrets(ns) && Bucket(ns, j) == (if j == i then pre else []) && SecretLabels(ns) == []
    requires IsWellFormedSecret(n) && SecretKind(n) == Some(i) && SecretOf(n) == s
    ensures var ns' := ns + [n];
      AllWellFormedSecrets(ns') && Bucket(ns', j) == (if j == i then pre + [s] else []) && SecretLabels(ns') == []
  {
    AllWellFormedAppend(ns, [n]);
    AppendLast(ns, [n]);
    BucketLast(ns + [n], j);
    LabelsLast(ns + [n]);
  }

  lemma AllWellFormedAppend(a: seq<IniNode>, b: seq<IniNode>)
    requires AllWellFormedSecrets(a) && AllWellFormedSecrets(b)
    ensures AllWellFormedSecrets(a + b)
  {
    assert forall k :: 0 <= k < |a + b| ==> (a + b)[k] == if k < |a| then a[k] else b[k - |a|];
  }

  lemma AppendLast<T>(a: seq<T>, b: seq<T>)
    requires b != []
    ensures (a + b)[..|a + b| - 1] == a + b[..|b| - 1] && (a + b)[|a + b| - 1] == b[|b| - 1]
  {
  }

  lemma AppendAssoc<T>(x: seq<T>, y: seq<T>, z: seq<T>)
    ensures (x + y) + z == x + (y + z)
  {
  }

  /** The reference buckets of a concatenation are the concatenated buckets. */
  lemma {:induction false} BucketAppend(a: seq<IniNode>, b: seq<IniNode>, j: nat)
    requires AllWellFormedSecrets(a) && AllWellFormedSecrets(b)
    ensures AllWellFormedSecrets(a + b) && Bucket(a + b, j) == Bucket(a, j) + Bucket(b, j)
  {
    AllWellFormedAppend(a, b);
    if b == [] {
      assert a + b == a;
    } else {
      var pre := b[..|b| - 1];
      var n := b[|b| - 1];
      AppendLast(a, b);
      BucketAppend(a, pre, j);
      BucketLast(a + b, j);
      BucketLast(b, j);
      AppendAssoc(Bucket(a, j), Bucket(pre, j), if SecretKind(n) == Some(j) then [SecretOf(n)] else []);
    }
  }

  /** The unsupported labels of a concatenation are the concatenated labels. */
  lemma {:induction false} LabelsAppend(a: seq<IniNode>, b: seq<IniNode>)
    requires AllWellFormedSecrets(a) && AllWellFormedSecrets(b)
    ensures AllWellFormedSecrets(a + b) && SecretLabels(a + b) == SecretLabels(a) + SecretLabels(b)
  {
    AllWellFormedAppend(a, b);
    if b == [] {
      assert a + b == a;
    } else {
      var pre := b[..|b| - 1];
      var n := b[|b| - 1];
      AppendLast(a, b);
      LabelsAppend(a, pre);
      LabelsLast(a + b);
      LabelsLast(b);
      AppendAssoc(SecretLabels(a), SecretLabels(pre), if SecretKind(n).None? then [SecretLabel(n)] else []);
    }
  }

  /** `makeIPSecSecretsINI` on Read's four buckets lists them bucket by bucket. */
  lemma SecretNodesStd(p: seq<Secret>, r: seq<Secret>, e: seq<Secret>, x: seq<Secret>)
    ensures SecretNodes(StdBuckets(p, r, e, x)) ==
      BucketNodes("psk", p) + BucketNodes("rsa", r) + BucketNodes("eap", e) + BucketNodes("xauth", x)
  {
    var b1 := [("psk", p)];
    var b2 := b1 + [("rsa", r)];
    var b3 := b2 + [("eap", e)];
    var b4 := b3 + [("xauth", x)];
    assert b4 == StdBuckets(p, r, e, x);
    SecretNodesLast(b4);
    SecretNodesLast(b3);
    SecretNodesLast(b2);
    SecretNodesLast(b1);
    assert b1[..0] == [];
  }

  lemma SecretNodesLast(b: Buckets)
    requires b != []
    ensures SecretNodes(b) == SecretNodes(b[..|b| - 1]) + BucketNodes(b[|b| - 1].0, b[|b| - 1].1)
  {
  }

  /** Bucket `j` and the labels of four concatenated record lists. */
  lemma FourAppend(a: seq<IniNode>, b: seq<IniNode>, c: seq<IniNode>, d: seq<IniNode>, j: nat)
    requires AllWellFormedSecrets(a) && AllWellFormedSecrets(b) && AllWellFormedSecrets(c) && AllWellFormedSecrets(d)
    ensures AllWellFormedSecrets(a + b + c + d)
    ensures Bucket(a + b + c + d, j) == Bucket(a, j) + Bucket(b, j) + Bucket(c, j) + Bucket(d, j)
    ensures SecretLabels(a + b + c + d) == SecretLabels(a) + SecretLabels(b) + SecretLabels(c) + SecretLabels(d)
  {
    BucketAppend(a, b, j);
    BucketAppend(a + b, c, j);
    BucketAppend(a + b + c, d, j);
    LabelsAppend(a, b);
    LabelsAppend(a + b, c);
    LabelsAppend(a + b + c, d);
  }

  /** Bucket `j` of the written records is the `j`-th of the buckets written. */
  lemma StdBucketsParse(p: seq<Secret>, r: seq<Secret>, e: seq<Secret>, x: seq<Secret>, j: nat)
    requires IsWritableStd(p, r, e, x)
    ensures var recs := SecretNodes(StdBuckets(p, r, e, x));
      AllWellFormedSecrets(recs) && SecretLabels(recs) == [] && Bucket(recs, j) == Pick(p, r, e, x, j)
  {
    SecretNodesStd(p, r, e, x);
    assert SecretTypes[0] == "psk" && SecretTypes[1] == "rsa" && SecretTypes[2] == "eap" && SecretTypes[3] == "xauth";
    BucketNodesParse(0, p, j);
    BucketNodesParse(1, r, j);
    BucketNodesParse(2, e, j);
    BucketNodesParse(3, x, j);
    FourParse(BucketNodes("psk", p), BucketNodes("rsa", r), BucketNodes("eap", e), BucketNodes("xauth", x), p, r, e, x, j);
  }

  /** The `j`-th of four buckets, none past the fourth. */
  function Pick(p: seq<Secret>, r: seq<Secret>, e: seq<Secret>, x: seq<Secret>, j: nat): seq<Secret> {
    if j == 0 then p else if j == 1 then r else if j == 2 then e else if j == 3 then x else []
  }

  lemma FourParse(a: seq<IniNode>, b: seq<IniNode>, c: seq<IniNode>, d: seq<IniNode>,
                  p: seq<Secret>, r: seq<Secret>, e: seq<Secret>, x: seq<Secret>, j: nat)
    requires AllWellFormedSecrets(a) && Bucket(a, j) == (if j == 0 then p else []) && SecretLabels(a) == []
    requires AllWellFormedSecrets(b) && Bucket(b, j) == (if j == 1 then r else []) && SecretLabels(b) == []
    requires AllWellFormedSecrets(c) && Bucket(c, j) == (if j == 2 then e else []) && SecretLabels(c) == []
    requires AllWellFormedSecrets(d) && Bucket(d, j) == (if j == 3 then x else []) && SecretLabels(d) == []
    ensures var recs := a + b + c + d;
      AllWellFormedSecrets(recs) && SecretLabels(recs) == [] && Bucket(recs, j) == Pick(p, r, e, x, j)
  {
    FourAppend(a, b, c, d, j);
    PickSum(Bucket(a, j), Bucket(b, j), Bucket(c, j), Bucket(d, j), p, r, e, x, j);
    assert SecretLabels(a) + SecretLabels(b) + SecretLabels(c) + SecretLabels(d) == [];
  }

  lemma PickSum(a: seq<Secret>, b: seq<Secret>, c: seq<Secret>, d: seq<Secret>,
                p: seq<Secret>, r: seq<Secret>, e: seq<Secret>, x: seq<Secret>, j: nat)
    requires a == (if j == 0 then p else []) && b == (if j == 1 then r else [])
    requires c == (if j == 2 then e else []) && d == (if j == 3 then x else [])
    ensures a + b + c + d == Pick(p, r, e, x, j)
  {
    if j == 0 {
      assert a + b + c + d == p;
    } else if j == 1 {
      assert a + b + c + d == r;
    } else if j == 2 {
      assert a + b + c + d == e;
    } else if j == 3 {
      assert a + b + c + d == x;
    } else {
      assert a + b + c + d == [];
    }
  }

  /**
   * Round trip for the secrets: writing Read's four buckets and reading the
   * records back gives the same buckets and no unsupported entries.
   */
  lemma SecretRoundTrip(p: seq<Secret>, r: seq<Secret>, e: seq<Secret>, x: seq<Secret>)
    requires IsWritableStd(p, r, e, x)
    ensures var recs := MakeIPSecSecretsINI(StdBuckets(p, r, e, x)).value.children;
      AllWellFormedSecrets(recs) && ParseSecrets(recs) == SecretParse(StdBuckets(p, r, e, x), [])
  {
    var recs := SecretNodes(StdBuckets(p, r, e, x));
    StdBucketsParse(p, r, e, x, 0);
    StdBucketsParse(p, r, e, x, 1);
    StdBucketsParse(p, r, e, x, 2);
    StdBucketsParse(p, r, e, x, 3);
    ParseSecretsClassified(recs);
  }
}
