/**
 * The grant queries of the deploy web app: the granter's and the grantee's
 * authorization grants, narrowed to the two deposit-deployment authorization
 * types.  The REST response is an input; the request itself is not modelled.
 */
module Grants {

  import opened Options

  const DepositAuthorizationV1beta2: string := "/akash.deployment.v1beta2.DepositDeploymentAuthorization"
  const DepositAuthorizationV1beta3: string := "/akash.deployment.v1beta3.DepositDeploymentAuthorization"

  /** The `authorization` object of a grant; `typeUrl` is its `@type` member. */
  datatype Authorization = Authorization(typeUrl: string, spendLimitDenom: string, spendLimitAmount: string)

  /** One entry of the `grants` list of the REST response. */
  datatype Grant = Grant(granter: string, grantee: string, authorization: Authorization, expiration: string)

  /** The predicate both queries filter by. */
  predicate IsDepositGrant(g: Grant) {
    g.authorization.typeUrl == DepositAuthorizationV1beta2 || g.authorization.typeUrl == DepositAuthorizationV1beta3
  }

  /**
   * `a` can be obtained from `b` by deleting elements: nothing added,
   * relative order kept.  An independent, non-deterministic definition.
   */
  ghost predicate SubsequenceOf<T>(a: seq<T>, b: seq<T>)
    decreases |b|
  {
    if a == [] then true
    else if b == [] then false
    else (a[0] == b[0] && SubsequenceOf(a[1..], b[1..])) || SubsequenceOf(a, b[1..])
  }

  /** The order-preserving `.filter` over the response's grants. */
  function DepositGrants(grants: seq<Grant>): (r: seq<Grant>)
    ensures forall i :: 0 <= i < |r| ==> IsDepositGrant(r[i])
    ensures forall i :: 0 <= i < |grants| && IsDepositGrant(grants[i]) ==> grants[i] in r
    ensures SubsequenceOf(r, grants)
    ensures forall g {:trigger multiset(r)[g]} :: multiset(r)[g] == if IsDepositGrant(g) then multiset(grants)[g] else 0
  {
    if grants == [] then []
    else
      var rest := DepositGrants(grants[1..]);
      assert multiset(grants) == multiset([grants[0]]) + multiset(grants[1..]) by {
        assert grants == [grants[0]] + grants[1..];
      }
      if IsDepositGrant(grants[0]) then
        assert multiset([grants[0]] + rest) == multiset([grants[0]]) + multiset(rest);
        [grants[0]] + rest
      else rest
  }

  /** JavaScript falsiness of the `address` argument: `null`, `undefined` or the empty string. */
  predicate IsFalsyAddress(address: Option<string>) {
    address.None? || address.value == ""
  }

  /**
   * `getGranterGrants`: `None` (the source's `null`) for a falsy address,
   * otherwise the deposit grants of the response, in response order.
   */
  function GranterGrants(address: Option<string>, response: seq<Grant>): (r: Option<seq<Grant>>)
    ensures r.None? <==> IsFalsyAddress(address)
    ensures r.Some? ==> forall i :: 0 <= i < |r.value| ==> IsDepositGrant(r.value[i])
    ensures r.Some? ==> forall i :: 0 <= i < |response| && IsDepositGrant(response[i]) ==> response[i] in r.value
    ensures r.Some? ==> SubsequenceOf(r.value, response)
    ensures r.Some? ==> forall g {:trigger multiset(r.value)[g]} :: multiset(r.value)[g] == if IsDepositGrant(g) then multiset(response)[g] else 0
  {
    if IsFalsyAddress(address) then None else Some(DepositGrants(response))
  }

  /** `getGranteeGrants`: the same early return and the same filter as the granter query. */
  function GranteeGrants(address: Option<string>, response: seq<Grant>): (r: Option<seq<Grant>>)
    ensures r.None? <==> IsFalsyAddress(address)
    ensures r.Some? ==> forall i :: 0 <= i < |r.value| ==> IsDepositGrant(r.value[i])
    ensures r.Some? ==> forall i :: 0 <= i < |response| && IsDepositGrant(response[i]) ==> response[i] in r.value
    ensures r.Some? ==> SubsequenceOf(r.value, response)
    ensures r.Some? ==> forall g {:trigger multiset(r.value)[g]} :: multiset(r.value)[g] == if IsDepositGrant(g) then multiset(response)[g] else 0
  {
    if IsFalsyAddress(address) then None else Some(DepositGrants(response))
  }

  /** Both queries answer the same response identically. */
  lemma GranterGranteeAgree(address: Option<string>, response: seq<Grant>)
    ensures GranterGrants(address, response) == GranteeGrants(address, response)
  {
  }

  /** A general property of the filter: filtering an already filtered list changes nothing. */
  lemma {:induction false} DepositGrantsIdempotent(grants: seq<Grant>)
    ensures DepositGrants(DepositGrants(grants)) == DepositGrants(grants)
  {
    if grants != [] {
      DepositGrantsIdempotent(grants[1..]);
      if IsDepositGrant(grants[0]) {
        var r := DepositGrants(grants);
        assert r[0] == grants[0] && r[1..] == DepositGrants(grants[1..]);
      }
    }
  }

  /** A general property of the filter: it distributes over concatenation. */
  lemma {:induction false} DepositGrantsAppend(a: seq<Grant>, b: seq<Grant>)
    ensures DepositGrants(a + b) == DepositGrants(a) + DepositGrants(b)
  {
    if a == [] {
      assert a + b == b;
    } else {
      var ab := a + b;
      assert ab != [] && ab[0] == a[0] && ab[1..] == a[1..] + b;
      DepositGrantsAppend(a[1..], b);
      if IsDepositGrant(a[0]) {
        calc {
          DepositGrants(ab);
          [a[0]] + DepositGrants(a[1..] + b);
          [a[0]] + (DepositGrants(a[1..]) + DepositGrants(b));
        }
      }
    }
  }
}
