/** Resolved secrets, the needles they contribute and the scope of a request. */
module SecretPolicy {
  import opened Bytes
  import HostPattern

  datatype Kind = Value | Placeholder

  /** One secret after resolution: what to look for and what to put in its place. */
  datatype Secret = Secret(
    name: string,
    clients: seq<string>,
    allowedHosts: seq<string>,
    value: bytes,
    placeholder: bytes,
    representations: seq<bytes>,
    placeholderRepresentations: seq<bytes>,
    marker: bytes)

  /** A byte string to look for, the secret it belongs to and what it stands for. */
  datatype Needle = Needle(text: bytes, secret: nat, kind: Kind)

  predicate InScope(s: Secret, client: string, host: string) {
    client in s.clients && HostPattern.Matches(s.allowedHosts, host)
  }

  /** A secret is in scope exactly for its own clients at hosts whose labels fit one of its allowed patterns. */
  lemma InScopeIs(s: Secret, client: string, host: string)
    requires forall p :: p in s.allowedHosts ==> HostPattern.Canonical(p)
    ensures InScope(s, client, host) <==>
            client in s.clients && exists p :: p in s.allowedHosts && HostPattern.HostFits(p, host)
  {
    HostPattern.MatchesIs(s.allowedHosts, host);
  }

  method ScopeFor(secrets: seq<Secret>, client: string, host: string) returns (scope: seq<bool>)
    ensures |scope| == |secrets|
    ensures forall i :: 0 <= i < |secrets| ==> scope[i] == InScope(secrets[i], client, host)
  {
    scope := [];
    for i := 0 to |secrets|
      invariant |scope| == i
      invariant forall k :: 0 <= k < i ==> scope[k] == InScope(secrets[k], client, host)
    {
      scope := scope + [InScope(secrets[i], client, host)];
    }
  }

  function Tagged(texts: seq<bytes>, secret: nat, kind: Kind): (needles: seq<Needle>)
    ensures |needles| == |texts|
    ensures forall i :: 0 <= i < |texts| ==> needles[i] == Needle(texts[i], secret, kind)
  {
    if texts == [] then []
    else Tagged(texts[..|texts| - 1], secret, kind) + [Needle(texts[|texts| - 1], secret, kind)]
  }

  /** The needles of one secret in the order the trie receives them. */
  function NeedlesOf(s: Secret, index: nat): seq<Needle> {
    Tagged(s.representations, index, Value) + Tagged(s.placeholderRepresentations, index, Placeholder)
  }

  /** The needles of the first count secrets, secret by secret. */
  function Needles(secrets: seq<Secret>, count: nat): seq<Needle>
    requires count <= |secrets|
  {
    if count == 0 then [] else Needles(secrets, count - 1) + NeedlesOf(secrets[count - 1], count - 1)
  }

  /**
   * The needle is a representation of the value or of the placeholder of the secret it
   * names, one of the first count.
   */
  predicate Belongs(n: Needle, secrets: seq<Secret>, count: nat)
    requires count <= |secrets|
  {
    && n.secret < count
    && n.text in (if n.kind.Value? then secrets[n.secret].representations
                  else secrets[n.secret].placeholderRepresentations)
  }

  lemma NeedlesOfBelong(secrets: seq<Secret>, index: nat, n: Needle)
    requires index < |secrets| && n in NeedlesOf(secrets[index], index)
    ensures Belongs(n, secrets, index + 1)
  {
    var values := Tagged(secrets[index].representations, index, Value);
    var placeholders := Tagged(secrets[index].placeholderRepresentations, index, Placeholder);
    hide Tagged;
    if n in values {
      var i :| 0 <= i < |values| && values[i] == n;
    } else {
      var i :| 0 <= i < |placeholders| && placeholders[i] == n;
    }
  }

  lemma {:induction false} NeedlesBelong(secrets: seq<Secret>, count: nat)
    requires count <= |secrets|
    ensures forall n :: n in Needles(secrets, count) ==> Belongs(n, secrets, count)
  {
    hide NeedlesOf;
    if count > 0 {
      NeedlesBelong(secrets, count - 1);
      forall n | n in Needles(secrets, count) ensures Belongs(n, secrets, count) {
        if n in NeedlesOf(secrets[count - 1], count - 1) {
          NeedlesOfBelong(secrets, count - 1, n);
        } else {
          assert n in Needles(secrets, count - 1);
        }
      }
    }
  }

  /** Which needles a rewriting may use: a set of kinds and, for a request, a scope. */
  datatype Selection = Selection(kinds: set<Kind>, scope: Option<seq<bool>>)

  /** Whether a secret may be replaced under this selection. */
  predicate Permits(select: Selection, secret: nat) {
    select.scope.None? || (secret < |select.scope.value| && select.scope.value[secret])
  }

  predicate Accepts(select: Selection, secret: nat, kind: Kind) {
    kind in select.kinds && Permits(select, secret)
  }
}
