/**
 * The records the reconciliation works on: the variables a deployment holds
 * remotely, the variables sent back in an update request, and the notices the
 * command prints while merging.
 */
module Variables {

  /** A variable as the remote store returns it (`EnvironmentVariablesObject`). */
  datatype StoredVar = StoredVar(key: string, value: string, isSecret: bool, updatedAt: string)

  /** A variable as it is sent in an update request (`EnvironmentVariable`). */
  datatype EnvVar = EnvVar(key: string, value: string, isSecret: bool)

  /** A deployment, reduced to what the variable commands read from it. */
  datatype Deployment = Deployment(id: string, vars: seq<StoredVar>)

  /** What the merge reports for one candidate, in place of the printed messages. */
  datatype Notice =
    | MissingValue(key: string)     // inline key given without a value
    | MissingKey(value: string)     // inline value given without a key
    | EmptyKey(value: string)       // file line `=VALUE`
    | EmptyValue(key: string)       // file line `KEY=`
    | DuplicateInFile(key: string)  // key already taken by an earlier file line
    | KeyExists(key: string)        // existing key while updates are not allowed
    | Updating(key: string)
    | Adding(key: string)

  /** The request record copied from a stored one (the timestamp is not sent). */
  function Copy(v: StoredVar): (r: EnvVar)
  {
    EnvVar(v.key, v.value, v.isSecret)
  }

  /** The stored records as an update request would resend them unchanged. */
  function Copies(vars: seq<StoredVar>): (r: seq<EnvVar>)
    ensures |r| == |vars|
    ensures forall i :: 0 <= i < |vars| ==>
      r[i].key == vars[i].key && r[i].value == vars[i].value && r[i].isSecret == vars[i].isSecret
  {
    seq(|vars|, i requires 0 <= i < |vars| => Copy(vars[i]))
  }

  /** The keys of the stored records, in order. */
  function Keys(vars: seq<StoredVar>): (ks: seq<string>)
    ensures |ks| == |vars|
    ensures forall i :: 0 <= i < |vars| ==> ks[i] == vars[i].key
  {
    seq(|vars|, i requires 0 <= i < |vars| => vars[i].key)
  }

  /**
   * The secrecy of an updated record: the requested flag when it is set,
   * otherwise the record's former flag. A secret therefore stays secret.
   */
  function SecretAfterUpdate(makeSecret: bool, wasSecret: bool): (secret: bool)
    ensures secret == (makeSecret || wasSecret)
    ensures wasSecret ==> secret
  {
    if makeSecret then makeSecret else wasSecret
  }

  /** The record that replaces `prior` when a candidate updates it to `value`. */
  function Updated(prior: StoredVar, value: string, makeSecret: bool): (r: EnvVar)
    ensures r.key == prior.key && r.value == value
    ensures prior.isSecret ==> r.isSecret
    ensures makeSecret ==> r.isSecret
    ensures r.isSecret ==> makeSecret || prior.isSecret
  {
    EnvVar(prior.key, value, SecretAfterUpdate(makeSecret, prior.isSecret))
  }

  /** No key occurs twice (the uniqueness the remote store expects). */
  predicate DistinctKeys(vars: seq<EnvVar>)
  {
    forall i, j :: 0 <= i < j < |vars| ==> vars[i].key != vars[j].key
  }

  /** No string occurs twice. */
  predicate Distinct(xs: seq<string>)
  {
    forall i, j :: 0 <= i < j < |xs| ==> xs[i] != xs[j]
  }
}

/** The linear search `contains` and the function that specifies it. */
module Search {

  /** The first position of `v` in `elems`, or `|elems|` when it is absent. */
  function FirstIndex(elems: seq<string>, v: string): (i: nat)
    ensures i <= |elems|
    ensures i < |elems| ==> elems[i] == v
    ensures forall j :: 0 <= j < i ==> elems[j] != v
    ensures i == |elems| <==> v !in elems
  {
    if elems == [] then 0
    else if elems[0] == v then 0
    else 1 + FirstIndex(elems[1..], v)
  }

  /**
   * `contains`: whether `v` occurs in `elems` and, if it does, the first
   * position where it occurs; `(false, 0)` when it does not.
   */
  method Contains(elems: seq<string>, v: string) returns (exist: bool, num: nat)
    ensures exist <==> v in elems
    ensures exist ==> num < |elems| && elems[num] == v
    ensures exist ==> forall j :: 0 <= j < num ==> elems[j] != v
    ensures exist ==> num == FirstIndex(elems, v)
    ensures !exist ==> num == 0
  {
    for i := 0 to |elems|
      invariant forall j :: 0 <= j < i ==> elems[j] != v
    {
      if elems[i] == v {
        return true, i;
      }
    }
    return false, 0;
  }
}
