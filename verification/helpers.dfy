/** The shared request helpers: the error/response envelope, required-field
    validation, the bearer-token claims check and the Authorization header. */
module Helpers {
  import opened Php
  import opened Arith

  /** What a handler produces: `Err` is `sendError($message, $code)` (the request ends
      there), `Ok` carries the value the handler goes on with. */
  datatype Result<T> = Ok(value: T) | Err(code: nat, message: string)

  /** `sendResponse($body, $code)`. */
  datatype Response<B> = Response(code: nat, body: B)

  // ---------------------------------------------------------------- validateRequired

  /** A required field is missing when it is not set or its trimmed text is `empty`
      (so "   " and "0" count as missing). */
  predicate Missing(data: Row, field: string) {
    !IsSet(data, field) || Empty(Trim(data[field].text))
  }

  /** The missing fields, in the order of `fields`. */
  function MissingFields(data: Row, fields: seq<string>): (r: seq<string>)
    ensures |r| <= |fields|
    ensures forall f :: f in r <==> f in fields && Missing(data, f)
  {
    if fields == [] then []
    else
      var last := fields[|fields| - 1];
      assert fields == fields[..|fields| - 1] + [last];
      MissingFields(data, fields[..|fields| - 1]) + (if Missing(data, last) then [last] else [])
  }

  /** The missing fields of a concatenation are those of each part, in order: the
      report keeps the order of the required list. */
  lemma {:induction false} MissingFieldsAppend(data: Row, a: seq<string>, b: seq<string>)
    ensures MissingFields(data, a + b) == MissingFields(data, a) + MissingFields(data, b)
    decreases |b|
  {
    if b != [] {
      var init := b[..|b| - 1];
      assert (a + b)[..|a + b| - 1] == a + init;
      assert (a + b)[|a + b| - 1] == b[|b| - 1];
      MissingFieldsAppend(data, a, init);
    } else {
      assert a + b == a;
    }
  }

  /** A present field between two missing ones drops out, and the two missing ones
      are reported in their required order. */
  lemma MissingFieldsInOrder(data: Row, first: string, present: string, last: string)
    requires Missing(data, first) && !Missing(data, present) && Missing(data, last)
    ensures MissingFields(data, [first, present, last]) == [first, last]
  {
    var fields := [first, present, last];
    assert fields[..2][..1] == [first] && [first][..0] == [];
    assert fields[..2] == [first, present];
  }

  /** When nothing is set (a body that did not decode reads as no fields at all),
      every required field is reported, in order. */
  lemma {:induction false} NothingSetAllMissing(data: Row, fields: seq<string>)
    requires forall f :: f in fields ==> !IsSet(data, f)
    ensures MissingFields(data, fields) == fields
  {
    if fields != [] {
      var init, last := fields[..|fields| - 1], fields[|fields| - 1];
      assert fields == init + [last];
      assert Missing(data, last) by {
        assert last in fields;
      }
      NothingSetAllMissing(data, init);
    }
  }

  /** `implode(', ', $parts)`. */
  function JoinComma(parts: seq<string>): (r: string)
    ensures parts == [] ==> r == ""
    ensures parts != [] ==> |parts[0]| <= |r| && |parts[|parts| - 1]| <= |r|
    ensures parts != [] ==> r[..|parts[0]|] == parts[0] && r[|r| - |parts[|parts| - 1]|..] == parts[|parts| - 1]
    ensures parts != [] ==> |r| == TotalLength(parts) + 2 * (|parts| - 1)
  {
    if parts == [] then ""
    else if |parts| == 1 then parts[0]
    else
      var rest := JoinComma(parts[1..]);
      var last := parts[|parts| - 1];
      assert parts[1..][|parts[1..]| - 1] == last;
      var r := parts[0] + ", " + rest;
      assert r[|r| - |last|..] == rest[|rest| - |last|..];
      r
  }

  /** The summed lengths of `parts`. */
  function TotalLength(parts: seq<string>): nat {
    if parts == [] then 0 else |parts[0]| + TotalLength(parts[1..])
  }

  function MissingMessage(missing: seq<string>): string {
    "Missing required fields: " + JoinComma(missing)
  }

  lemma MissingFieldsStep(data: Row, fields: seq<string>, i: nat)
    requires i < |fields|
    ensures MissingFields(data, fields[..i + 1])
      == MissingFields(data, fields[..i]) + (if Missing(data, fields[i]) then [fields[i]] else [])
  {
    assert fields[..i + 1][..i] == fields[..i];
  }

  lemma NoneMissing(data: Row, fields: seq<string>)
    ensures MissingFields(data, fields) == [] <==> forall f :: f in fields ==> !Missing(data, f)
  {
    var m := MissingFields(data, fields);
    if m != [] {
      assert m[0] in m;
    }
  }

  /** `validateRequired($data, $required_fields)`: collects every missing field, then
      fails with 400 naming all of them, or passes when none is missing. */
  method ValidateRequired(data: Row, fields: seq<string>) returns (r: Result<()>)
    ensures r.Ok? <==> forall f :: f in fields ==> !Missing(data, f)
    ensures r.Err? ==> r.code == 400 && r.message == MissingMessage(MissingFields(data, fields))
  {
    var missing: seq<string> := [];
    for i := 0 to |fields|
      invariant missing == MissingFields(data, fields[..i])
    {
      MissingFieldsStep(data, fields, i);
      if Missing(data, fields[i]) {
        missing := missing + [fields[i]];
      }
    }
    assert fields[..|fields|] == fields;
    NoneMissing(data, fields);
    if missing != [] {
      return Err(400, MissingMessage(missing));
    }
    return Ok(());
  }

  // ---------------------------------------------------------------- validateToken

  /** Decoded token claims. */
  type Claims = Row

  /** Seconds a token is valid for when it carries no expiry of its own. */
  const TokenLifetime := 3600

  /** The claims substituted when the token does not decode to a non-empty object. */
  function FallbackClaims(now: int): Claims {
    map[
      "user_id" := Scalar("1", 1),
      "role" := Scalar("admin", 0),
      "exp" := Scalar(IntToString(now + TokenLifetime), now + TokenLifetime)]
  }

  /** PHP's `!$decoded` on the decoded token: a failed decode or an empty array. */
  predicate Falsy(decoded: Option<Claims>) {
    decoded.None? || decoded.value == map[]
  }

  /** `validateToken($token)`, where `decoded` is what `json_decode(base64_decode($token))`
      gives and `now` is `time()`: a missing or empty token is refused with 401; claims
      that do not decode are replaced by the fallback identity; a missing `exp` becomes
      `now + 3600`; the token is refused with 401 exactly when its `exp` is before `now`. */
  function ValidateToken(token: Option<string>, decoded: Option<Claims>, now: int): (r: Result<Claims>)
    ensures r.Err? ==> r.code == 401
    ensures (token.None? || Empty(token.value)) ==> r == Err(401, "Token is required")
    ensures token.Some? && !Empty(token.value) && Falsy(decoded) ==> r == Ok(FallbackClaims(now))
    ensures token.Some? && !Empty(token.value) && !Falsy(decoded) ==>
      if !IsSet(decoded.value, "exp") then
        r == Ok(decoded.value["exp" := Scalar(IntToString(now + TokenLifetime), now + TokenLifetime)])
      else
        r == if decoded.value["exp"].number < now then Err(401, "Token expired") else Ok(decoded.value)
    ensures r.Ok? ==> IsSet(r.value, "exp") && r.value["exp"].number >= now
  {
    if token.None? || Empty(token.value) then Err(401, "Token is required")
    else
      var claims := if Falsy(decoded) then FallbackClaims(now) else decoded.value;
      var claims' :=
        if IsSet(claims, "exp") then claims
        else claims["exp" := Scalar(IntToString(now + TokenLifetime), now + TokenLifetime)];
      if claims'["exp"].number < now then Err(401, "Token expired")
      else Ok(claims')
  }

  /** The boundary: a token whose expiry is this very second is still accepted. */
  lemma ExpiryIsInclusive(token: string, claims: Claims, now: int)
    requires !Empty(token) && claims != map[]
    requires "exp" in claims && claims["exp"] == Scalar(IntToString(now), now)
    ensures ValidateToken(Some(token), Some(claims), now) == Ok(claims)
    ensures ValidateToken(Some(token), Some(claims), now + 1) == Err(401, "Token expired")
  {
  }

  // ---------------------------------------------------------------- getAuthHeader

  const BearerPrefix := "Bearer "

  /** `s` contains `pat` somewhere. */
  ghost predicate Contains(s: string, pat: string) {
    exists i: nat :: OccursAt(s, pat, i)
  }

  predicate OccursAt(s: string, pat: string, i: nat) {
    i + |pat| <= |s| && s[i..i + |pat|] == pat
  }

  /** `str_replace($pat, '', $s)`: removes every occurrence of `pat`, scanning left to
      right without overlaps. */
  function RemoveAll(s: string, pat: string): (r: string)
    requires pat != []
    ensures |r| <= |s|
    ensures (|s| - |r|) % |pat| == 0
    decreases |s|
  {
    if |s| < |pat| then s
    else if s[..|pat|] == pat then
      var r := RemoveAll(s[|pat|..], pat);
      AddModulus(|s| - |pat| - |r|, |pat|);
      r
    else [s[0]] + RemoveAll(s[1..], pat)
  }

  lemma AddModulus(x: int, p: int)
    requires p > 0
    ensures (x + p) % p == x % p
  {
    var q, m := x / p, x % p;
    assert x + p == (q + 1) * p + m;
    var q', m' := (x + p) / p, (x + p) % p;
    assert (q + 1 - q') * p == m' - m;
    MulAtLeast(q + 1 - q', p);
  }

  /** A string in which `pat` does not occur is left as it is. */
  lemma {:induction false} RemoveAllAbsent(s: string, pat: string)
    requires pat != [] && !Contains(s, pat)
    ensures RemoveAll(s, pat) == s
    decreases |s|
  {
    if |s| >= |pat| {
      assert !OccursAt(s, pat, 0);
      assert !Contains(s[1..], pat) by {
        forall i: nat | OccursAt(s[1..], pat, i)
          ensures OccursAt(s, pat, i + 1)
        {
          assert s[1..][i..i + |pat|] == s[i + 1..i + 1 + |pat|];
        }
      }
      RemoveAllAbsent(s[1..], pat);
      assert s == [s[0]] + s[1..];
    }
  }

  /** A string in which `pat` occurs is shortened. */
  lemma {:induction false} RemoveAllPresent(s: string, pat: string)
    requires pat != [] && Contains(s, pat)
    ensures |RemoveAll(s, pat)| < |s|
    decreases |s|
  {
    var i: nat :| OccursAt(s, pat, i);
    if s[..|pat|] != pat {
      assert i != 0 && s[1..][i - 1..i - 1 + |pat|] == s[i..i + |pat|];
      assert OccursAt(s[1..], pat, i - 1);
      RemoveAllPresent(s[1..], pat);
    }
  }

  /** `getAuthHeader()` over the request headers: the Authorization value with every
      "Bearer " removed, or null when the header is absent. */
  function GetAuthHeader(headers: map<string, string>): (r: Option<string>)
    ensures r.None? <==> "Authorization" !in headers
  {
    if "Authorization" in headers then Some(RemoveAll(headers["Authorization"], BearerPrefix))
    else None
  }

  /** The usual header "Bearer <token>" yields the token, provided the token itself
      does not contain "Bearer " (a base64 token never does: it has no space). */
  lemma BearerTokenExtracted(headers: map<string, string>, token: string)
    requires "Authorization" in headers && headers["Authorization"] == BearerPrefix + token
    requires !Contains(token, BearerPrefix)
    ensures GetAuthHeader(headers) == Some(token)
  {
    var s := BearerPrefix + token;
    assert s[..|BearerPrefix|] == BearerPrefix && s[|BearerPrefix|..] == token;
    RemoveAllAbsent(token, BearerPrefix);
  }
}
