/** Claims carried by a validated token: a claims identity is an ordered list
    of (type, value) claims, and reading a claim means taking the value of the
    FIRST claim whose type equals the requested one. This is exactly what
    `Enumerable.First` with an ordinal `claim.Type == "id"` test does; the claim
    extensions that bind the contexts are modelled by the same exact match. */
module Claims {
  import opened Outcomes

  datatype Claim = Claim(claimType: string, value: string)

  /** A validated identity; the empty identity wraps no claims. */
  datatype ClaimsIdentity = ClaimsIdentity(claims: seq<Claim>)

  /** The decoded token a validator hands back next to the identity. Only a
      JWT carries a claim list the provider can read; any other token type
      casts to `null` under `as JwtSecurityToken`. */
  datatype SecurityToken = JwtToken(claims: seq<Claim>) | OtherSecurityToken

  /** The claim-type names the claim-reading extensions look up. Their values
      are fixed by the token issuer and are parameters of the model. */
  datatype ClaimTypes = ClaimTypes(userId: string, userName: string, tenantId: string, tenantName: string)

  /** The claim type `Refresh` reads the user id from. */
  const IdClaimType: string := "id"

  /** `o` is what a first-match read of claim type `t` yields: `None` exactly
      when no claim has type `t`, otherwise the value of the earliest such claim. */
  ghost predicate IsFirstValue(claims: seq<Claim>, t: string, o: Option<string>) {
    match o
    case None => forall i :: 0 <= i < |claims| ==> claims[i].claimType != t
    case Some(v) =>
      exists i :: 0 <= i < |claims| && claims[i] == Claim(t, v) &&
        forall j :: 0 <= j < i ==> claims[j].claimType != t
  }

  /** Value of the first claim of type `t`, or `None` if there is none. */
  function FindFirstValue(claims: seq<Claim>, t: string): (r: Option<string>)
    ensures IsFirstValue(claims, t, r)
    decreases |claims|
  {
    if |claims| == 0 then None
    else if claims[0].claimType == t then
      assert claims[0] == Claim(t, claims[0].value);
      Some(claims[0].value)
    else
      var rest := FindFirstValue(claims[1..], t);
      assert IsFirstValue(claims[1..], t, rest);
      if rest.None? then
        assert forall i :: 1 <= i < |claims| ==> claims[i] == claims[1..][i - 1];
        rest
      else
        var k :| 0 <= k < |claims[1..]| && claims[1..][k] == Claim(t, rest.value) &&
          forall j :: 0 <= j < k ==> claims[1..][j].claimType != t;
        assert claims[k + 1] == Claim(t, rest.value);
        assert forall j :: 0 <= j < k + 1 ==> claims[j].claimType != t by {
          forall j | 0 <= j < k + 1
            ensures claims[j].claimType != t
          {
            if j > 0 {
              assert claims[j] == claims[1..][j - 1];
            }
          }
        }
        rest
  }

  /** A first-match read has at most one possible result. */
  lemma FirstValueUnique(claims: seq<Claim>, t: string, o1: Option<string>, o2: Option<string>)
    requires IsFirstValue(claims, t, o1) && IsFirstValue(claims, t, o2)
    ensures o1 == o2
  {
  }
}
