/**
 * The structured IPsec configuration: connections with their ordered
 * parameters, and secrets grouped into typed buckets.
 */
module Model {
  import opened OrderedMaps

  /** A connection's parameters, `leftsubnet`, `rightsourceip`, ... in file order. */
  type Params = seq<(string, string)>

  /** Connection name to parameters, in file order. */
  type Conns = seq<(string, Params)>

  /** One entry of ipsec.secrets: who it is for and the key material. */
  datatype Secret = Secret(id: string, secret: string)

  /** Secret type (`psk`, `rsa`, ...) to the secrets of that type, in file order. */
  type Buckets = seq<(string, seq<Secret>)>

  /** The four secret types Read recognises, in the order of its buckets. */
  const SecretTypes: seq<string> := ["psk", "rsa", "eap", "xauth"]

  /** The buckets in Read's order, holding the given secrets. */
  function StdBuckets(psk: seq<Secret>, rsa: seq<Secret>, eap: seq<Secret>, xauth: seq<Secret>): (b: Buckets)
    ensures Keys(b) == SecretTypes
  {
    [("psk", psk), ("rsa", rsa), ("eap", eap), ("xauth", xauth)]
  }

  /** `{"psk" => [], "rsa" => [], "eap" => [], "xauth" => []}` */
  function EmptyBuckets(): Buckets {
    StdBuckets([], [], [], [])
  }

  /** Every Ruby Hash in the model has distinct keys. */
  predicate ValidConns(c: Conns) {
    UniqueKeys(c) && forall i :: 0 <= i < |c| ==> UniqueKeys(c[i].1)
  }
}
