/**
 * The node tree the INI agent reads and writes, and the two serialisers that
 * build it from the model (`mkININode`, `makeIPSecConfINI`,
 * `makeIPSecSecretsINI`).
 */
module Ini {
  import opened Wrappers
  import opened Text
  import opened Model

  /** A node's `value`: a text (for a key/value node) or a list of child nodes. */
  datatype IniValue = Scalar(text: string) | Nodes(children: seq<IniNode>)

  /** One INI node; `file` is present only on sections and on the root. */
  datatype IniNode = IniNode(comment: string, kind: string, nodeType: int, name: string, value: IniValue, file: Option<int>)

  /**
   * `mkININode(kind, name, value, root)`. The root call passes `nil` for
   * `kind`, written `""` here: the root overrides it and `"" == "section"`
   * is as false as `nil == "section"`.
   */
  function MkIniNode(kind: string, name: Option<string>, value: Option<IniValue>, root: bool): (n: IniNode)
    ensures n.comment == ""
    ensures name.None? ==> n.name == ""
    ensures name.Some? ==> n.name == name.value
    ensures value.None? ==> n.value == Nodes([])
    ensures value.Some? ==> n.value == value.value
    ensures root ==> n.kind == "section" && n.nodeType == -1 && n.file == Some(-1)
    ensures !root && kind == "section" ==> n.kind == "section" && n.nodeType == 0 && n.file == Some(-1)
    ensures !root && kind != "section" ==> n.kind == kind && n.nodeType == 0 && n.file == None
  {
    IniNode(
      "",
      if root then "section" else kind,
      if root then -1 else 0,
      name.GetOr(""),
      value.GetOr(Nodes([])),
      if root || kind == "section" then Some(-1) else None)
  }

  /** The shape of the root node both serialisers return. */
  predicate IsRoot(n: IniNode) {
    n.comment == "" && n.kind == "section" && n.nodeType == -1 && n.name == "" && n.file == Some(-1)
    && n.value.Nodes?
  }

  /** A `key = value` node. */
  predicate IsValueNode(n: IniNode, key: string, text: string) {
    n == IniNode("", "value", 0, key, Scalar(text), None)
  }

  /** The value nodes of one connection, in parameter order. */
  function ParamNodes(params: Params): (ns: seq<IniNode>)
    ensures |ns| == |params|
    ensures forall j :: 0 <= j < |params| ==> IsValueNode(ns[j], params[j].0, params[j].1)
  {
    seq(|params|, j requires 0 <= j < |params| => MkIniNode("value", Some(params[j].0), Some(Scalar(params[j].1)), false))
  }

  /** The section node of one connection. */
  function ConnSection(name: string, params: Params): IniNode {
    MkIniNode("section", Some("conn " + name), Some(Nodes(ParamNodes(params))), false)
  }

  /** The sections of all connections, in map order. */
  function ConnSections(conns: Conns): (ss: seq<IniNode>)
    ensures |ss| == |conns|
    ensures forall i :: 0 <= i < |conns| ==> ss[i] == ConnSection(conns[i].0, conns[i].1)
  {
    seq(|conns|, i requires 0 <= i < |conns| => ConnSection(conns[i].0, conns[i].1))
  }

  /** `makeIPSecConfINI`: one `conn NAME` section per connection, in map order. */
  function MakeIPSecConfINI(conns: Conns): (root: IniNode)
    ensures IsRoot(root) && |root.value.children| == |conns|
    ensures forall i :: 0 <= i < |conns| ==>
      var s := root.value.children[i];
      s.comment == "" && s.kind == "section" && s.nodeType == 0 && s.file == Some(-1)
      && s.name == "conn " + conns[i].0 && s.value.Nodes?
      && |s.value.children| == |conns[i].1|
      && forall j :: 0 <= j < |conns[i].1| ==> IsValueNode(s.value.children[j], conns[i].1[j].0, conns[i].1[j].1)
  {
    MkIniNode("", None, Some(Nodes(ConnSections(conns))), true)
  }

  /** The second half of a written secret: RSA key material unquoted, every other secret in double quotes. */
  function SecretMaterial(keyType: string, secret: string): string {
    if Upcase(keyType) == "RSA" then secret else "\"" + secret + "\""
  }

  /**
   * The quoting asymmetry: RSA material is written as it is, any other
   * material inside one pair of double quotes.
   */
  lemma SecretQuoting(keyType: string, secret: string)
    ensures var m := SecretMaterial(keyType, secret);
      (Upcase(keyType) == "RSA" ==> m == secret)
      && (Upcase(keyType) != "RSA" ==>
            |m| == |secret| + 2 && m[0] == '"' && m[|m| - 1] == '"' && m[1..|m| - 1] == secret)
  {
    var m := SecretMaterial(keyType, secret);
    if Upcase(keyType) != "RSA" {
      assert m == "\"" + secret + "\"";
      assert m[1..|m| - 1] == secret;
    }
  }

  /** `"%s %s" % [TYPE, material]` */
  function SecretText(keyType: string, secret: string): string {
    Upcase(keyType) + " " + SecretMaterial(keyType, secret)
  }

  function SecretNode(keyType: string, s: Secret): IniNode {
    MkIniNode("value", Some(s.id), Some(Scalar(SecretText(keyType, s.secret))), false)
  }

  /** The value nodes of one bucket, in bucket order. */
  function BucketNodes(keyType: string, secrets: seq<Secret>): (ns: seq<IniNode>)
    ensures |ns| == |secrets|
    ensures forall j :: 0 <= j < |secrets| ==> IsValueNode(ns[j], secrets[j].id, SecretText(keyType, secrets[j].secret))
  {
    seq(|secrets|, j requires 0 <= j < |secrets| => SecretNode(keyType, secrets[j]))
  }

  /** The `.flatten` of the per-bucket node lists, bucket by bucket. */
  function SecretNodes(b: Buckets): seq<IniNode> {
    if b == [] then [] else SecretNodes(b[..|b| - 1]) + BucketNodes(b[|b| - 1].0, b[|b| - 1].1)
  }

  /** Every written secret is a plain value node: the secrets file has no sections. */
  lemma {:induction false} SecretNodesAreValues(b: Buckets)
    ensures forall k :: 0 <= k < |SecretNodes(b)| ==> SecretNodes(b)[k].kind == "value" && SecretNodes(b)[k].file == None
  {
    if b != [] {
      SecretNodesAreValues(b[..|b| - 1]);
    }
  }

  /** `makeIPSecSecretsINI`: one value node per secret, no sections. */
  function MakeIPSecSecretsINI(b: Buckets): (root: IniNode)
    ensures IsRoot(root) && root.value.children == SecretNodes(b)
    ensures forall k :: 0 <= k < |root.value.children| ==>
      root.value.children[k].kind == "value" && root.value.children[k].file == None
  {
    SecretNodesAreValues(b);
    MkIniNode("", None, Some(Nodes(SecretNodes(b))), true)
  }
}
