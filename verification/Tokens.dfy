/** Bearer tokens: which key a token is verified with, and when it verifies. Signature and claim validation are
    foreign; which keys are tried, and in what order, is not. */
module Tokens {
  import opened Basics

  /** The claims of a verified token. */
  datatype Claims = Claims(subject: string, teams: seq<string>, dnsDomains: Option<seq<string>>)

  /** What decoding a token with one key gives; an empty tenant counts as rejected. */
  datatype Outcome = Accepted | BadSignature | Rejected

  /** `kid` is `None` for an unreadable header and `Some("")` for one without a key identifier. */
  datatype Jwt = Jwt(kid: string -> Option<string>, decode: (string, string) -> Outcome, claims: string -> Claims)

  /** Key identifiers with their keys, in order. */
  type KeySet = seq<(string, string)>

  /** Whether trying the keys in order ends in acceptance: a bad signature goes on to the next key, empty keys are
      skipped, anything else decides. */
  predicate AcceptedByAny(jwt: Jwt, token: string, keys: seq<string>) {
    keys != [] &&
    if keys[0] == "" || jwt.decode(token, keys[0]) == BadSignature then AcceptedByAny(jwt, token, keys[1..])
    else jwt.decode(token, keys[0]) == Accepted
  }

  function KeyNamed(keys: KeySet, kid: string): Option<string> {
    if keys == [] then None else if keys[0].0 == kid then Some(keys[0].1) else KeyNamed(keys[1..], kid)
  }

  /** `verify_squawk_jwt` with a single key and a set of keys, either of which may be empty. */
  function Verify(jwt: Jwt, token: string, publicKey: string, publicKeys: KeySet): Option<Claims> {
    if token == "" || jwt.kid(token).None? then None
    else
      var kid := jwt.kid(token).value;
      var named := KeyNamed(publicKeys, kid);
      var keys := if kid != "" then (if named.Some? then [named.value] else [])
                  else if publicKeys != [] then seq(|publicKeys|, i requires 0 <= i < |publicKeys| => publicKeys[i].1)
                  else if publicKey != "" then [publicKey] else [];
      if AcceptedByAny(jwt, token, keys) then Some(jwt.claims(token)) else None
  }

  /** A token carries no key identifier and is accepted with the single key. */
  predicate AcceptedBySingleKey(jwt: Jwt, token: string, publicKey: string) {
    token != "" && jwt.kid(token) == Some("") && publicKey != "" && jwt.decode(token, publicKey) == Accepted
  }

  /** With the single key alone, no token that names a key is verified. */
  lemma {:induction false} SingleKeyVerifiesIff(jwt: Jwt, token: string, publicKey: string)
    ensures Verify(jwt, token, publicKey, []).Some? <==> AcceptedBySingleKey(jwt, token, publicKey)
    ensures Verify(jwt, token, publicKey, []).Some? ==> Verify(jwt, token, publicKey, []).value == jwt.claims(token)
  {
    assert [publicKey][1..] == [];
    assert !AcceptedByAny(jwt, token, []);
  }

  /** Trying keys in order accepts exactly when some key accepts and every earlier one is empty or shows a bad
      signature. */
  lemma {:induction false} AcceptedByAnyIff(jwt: Jwt, token: string, keys: seq<string>)
    ensures AcceptedByAny(jwt, token, keys) <==> exists i :: 0 <= i < |keys| && Decides(jwt, token, keys, i)
    decreases |keys|
  {
    if keys != [] {
      var rest := keys[1..];
      AcceptedByAnyIff(jwt, token, rest);
      if keys[0] == "" || jwt.decode(token, keys[0]) == BadSignature {
        forall i | 0 <= i < |rest| ensures Decides(jwt, token, rest, i) == Decides(jwt, token, keys, i + 1) {
          assert forall j :: 0 <= j < i ==> rest[j] == keys[j + 1];
          assert forall j :: 0 < j < i + 1 ==> keys[j] == rest[j - 1];
        }
        if exists i :: 0 <= i < |rest| && Decides(jwt, token, rest, i) {
          var i :| 0 <= i < |rest| && Decides(jwt, token, rest, i);
          assert Decides(jwt, token, keys, i + 1);
        }
        if exists i :: 0 <= i < |keys| && Decides(jwt, token, keys, i) {
          var i :| 0 <= i < |keys| && Decides(jwt, token, keys, i);
          assert Decides(jwt, token, rest, i - 1);
        }
      } else if jwt.decode(token, keys[0]) == Accepted {
        assert Decides(jwt, token, keys, 0);
      }
    }
  }

  /** Key `i` accepts the token, and no earlier key had its say. */
  predicate Decides(jwt: Jwt, token: string, keys: seq<string>, i: nat)
    requires i < |keys|
  {
    && keys[i] != "" && jwt.decode(token, keys[i]) == Accepted
    && forall j :: 0 <= j < i ==> keys[j] == "" || jwt.decode(token, keys[j]) == BadSignature
  }

  /** Entry `i` is the first with that identifier. */
  predicate FirstNamed(keys: KeySet, kid: string, i: nat)
    requires i < |keys|
  {
    keys[i].0 == kid && forall j :: 0 <= j < i ==> keys[j].0 != kid
  }

  lemma {:induction false} KeyNamedAt(keys: KeySet, kid: string)
    ensures KeyNamed(keys, kid).None? <==> forall i :: 0 <= i < |keys| ==> keys[i].0 != kid
    ensures forall i :: 0 <= i < |keys| && FirstNamed(keys, kid, i) ==> KeyNamed(keys, kid) == Some(keys[i].1)
    decreases |keys|
  {
    if keys != [] && keys[0].0 != kid {
      KeyNamedAt(keys[1..], kid);
      forall i | 0 < i < |keys| && FirstNamed(keys, kid, i) ensures KeyNamed(keys, kid) == Some(keys[i].1) {
        assert FirstNamed(keys[1..], kid, i - 1);
      }
    }
  }

  /** With a key set, a token that names a key verifies exactly when the key of that name accepts it. */
  lemma {:induction false} NamedKeyVerifiesIff(jwt: Jwt, token: string, publicKey: string, publicKeys: KeySet, i: nat)
    requires token != "" && jwt.kid(token).Some? && jwt.kid(token).value != ""
    requires i < |publicKeys| && FirstNamed(publicKeys, jwt.kid(token).value, i)
    ensures Verify(jwt, token, publicKey, publicKeys).Some?
            <==> publicKeys[i].1 != "" && jwt.decode(token, publicKeys[i].1) == Accepted
  {
    KeyNamedAt(publicKeys, jwt.kid(token).value);
    var key := publicKeys[i].1;
    assert [key][1..] == [] && !AcceptedByAny(jwt, token, []);
  }

  /** A token that names an unknown key does not verify. */
  lemma {:induction false} UnknownKeyFails(jwt: Jwt, token: string, publicKey: string, publicKeys: KeySet)
    requires jwt.kid(token).Some? && jwt.kid(token).value != ""
    requires forall i :: 0 <= i < |publicKeys| ==> publicKeys[i].0 != jwt.kid(token).value
    ensures Verify(jwt, token, publicKey, publicKeys).None?
  {
    KeyNamedAt(publicKeys, jwt.kid(token).value);
  }

  /** A token that names none verifies exactly when some key of the set accepts it and no earlier one decides. */
  lemma {:induction false} AnyKeyVerifiesIff(jwt: Jwt, token: string, publicKey: string, publicKeys: KeySet)
    requires token != "" && jwt.kid(token) == Some("") && publicKeys != []
    ensures var keys := seq(|publicKeys|, i requires 0 <= i < |publicKeys| => publicKeys[i].1);
            Verify(jwt, token, publicKey, publicKeys).Some? <==> exists i :: 0 <= i < |keys| && Decides(jwt, token, keys, i)
  {
    AcceptedByAnyIff(jwt, token, seq(|publicKeys|, i requires 0 <= i < |publicKeys| => publicKeys[i].1));
  }
}
