/** The static secret broker: one shared trie, single-pass scrubbing and sanitizing. */
module Scrubber {
  import opened Bytes
  import opened SecretPolicy
  import opened NeedleTrie
  import opened MatchReference
  import opened MatcherRefinement
  import MaskedValue

  /** Builds the trie of every representation and masked prefix, secret by secret. */
  method NewNeedleTrie(secrets: seq<Secret>) returns (trie: Trie)
    ensures fresh(trie) && fresh(trie.root) && fresh(trie.repr) && trie.Valid() && trie.Lean()
    ensures trie.needles == Needles(secrets, |secrets|)
    ensures trie.masks == MaskLog(secrets, |secrets|)
  {
    hide Trie.Valid, Trie.Lean, Tagged;
    trie := new Trie();
    for index := 0 to |secrets|
      invariant fresh(trie) && fresh(trie.root) && fresh(trie.repr) && trie.Valid() && trie.Lean()
      invariant trie.needles == Needles(secrets, index)
      invariant trie.masks == MaskLog(secrets, index)
    {
      var item := secrets[index];
      AddAll(trie, item.representations, index, Value);
      AddAll(trie, item.placeholderRepresentations, index, Placeholder);
      assert trie.needles == Needles(secrets, index) + NeedlesOf(item, index);
      if |item.value| >= MASKED_PREFIX_LENGTH * 2 {
        trie.AddMaskedPrefix(item.value[..MASKED_PREFIX_LENGTH], index);
      }
    }
  }

  method AddAll(trie: Trie, texts: seq<bytes>, index: nat, kind: Kind)
    requires trie.Valid()
    modifies trie, trie.root, trie.repr
    ensures trie.Valid() && fresh(trie.repr - old(trie.repr)) && (old(trie.Lean()) ==> trie.Lean())
    ensures trie.needles == old(trie.needles) + Tagged(texts, index, kind)
    ensures trie.masks == old(trie.masks)
  {
    hide Trie.Valid, Trie.Lean;
    for i := 0 to |texts|
      invariant trie.Valid() && fresh(trie.repr - old(trie.repr)) && (old(trie.Lean()) ==> trie.Lean())
      invariant trie.needles == old(trie.needles) + Tagged(texts[..i], index, kind)
      invariant trie.masks == old(trie.masks)
    {
      trie.Add(texts[i], index, kind);
      assert texts[..i + 1][..i] == texts[..i];
    }
    assert texts[..|texts|] == texts;
  }

  /** One byte moves from the part still to scan to the part still to copy. */
  lemma CopyOne(out: bytes, data: bytes, copied: nat, offset: nat, needles: seq<ReferenceNeedle>, masked: seq<Secret>)
    requires copied <= offset < |data| && Step(needles, masked, data[offset..]).None?
    ensures var rest, next := Rewrite(needles, masked, data[offset..]), Rewrite(needles, masked, data[offset + 1..]);
            && out + data[copied..offset] + rest.data == out + data[copied..offset + 1] + next.data
            && rest.names == next.names
  {
    assert data[offset..][1..] == data[offset + 1..];
    assert data[copied..offset + 1] == data[copied..offset] + [data[offset]];
    Regroup(out, data[copied..offset], [data[offset]], Rewrite(needles, masked, data[offset + 1..]).data);
  }

  /** A replacement is emitted and what was still to copy before it. */
  lemma ReplaceOne(out: bytes, data: bytes, copied: nat, offset: nat, needles: seq<ReferenceNeedle>,
                   masked: seq<Secret>)
    requires copied <= offset < |data| && Step(needles, masked, data[offset..]).Some?
    ensures var rest, step := Rewrite(needles, masked, data[offset..]), Step(needles, masked, data[offset..]).value;
            var after := offset + step.length;
            && after <= |data|
            && var next := Rewrite(needles, masked, data[after..]);
            && out + data[copied..offset] + rest.data ==
                 out + data[copied..offset] + step.to + data[after..after] + next.data
            && rest.names == {step.name} + next.names
  {
    var step := Step(needles, masked, data[offset..]).value;
    var after := offset + step.length;
    assert data[offset..][step.length..] == data[after..];
    assert data[after..after] == [];
    Regroup(out, data[copied..offset], step.to, Rewrite(needles, masked, data[after..]).data);
  }

  lemma RewriteNothing(needles: seq<ReferenceNeedle>, masked: seq<Secret>)
    ensures Rewrite(needles, masked, []) == Rewritten([], {})
  {
  }

  lemma Regroup(a: bytes, b: bytes, c: bytes, d: bytes)
    ensures a + b + (c + d) == a + (b + c) + d == a + b + c + [] + d
  {
  }

  class Broker {
    const secrets: seq<Secret>
    const trie: Trie

    /** The trie holds the needles and masked prefixes of exactly these secrets. */
    ghost predicate Valid()
      reads trie, trie.root, trie.repr
    {
      && trie.Valid()
      && trie.needles == Needles(secrets, |secrets|)
      && trie.masks == MaskLog(secrets, |secrets|)
    }

    constructor (secrets: seq<Secret>)
      ensures this.secrets == secrets && Valid()
      ensures fresh(trie) && fresh(trie.root) && fresh(trie.repr)
    {
      var built := NewNeedleTrie(secrets);
      this.secrets, this.trie := secrets, built;
    }

    /** The first permitted candidate whose masked rendering starts data. */
    method MaskedAt(data: bytes, candidates: seq<nat>, select: Selection) returns (length: nat, secret: nat)
      requires Indices(candidates, |secrets|)
      ensures Found(length, secret) == MaskedHit(candidates, secrets, select, data)
    {
      for i := 0 to |candidates|
        invariant MaskedHit(candidates, secrets, select, data) == MaskedHit(candidates[i..], secrets, select, data)
      {
        var candidate := candidates[i];
        if Permits(select, candidate) {
          length := MaskedValue.MaskedSecretLength(data, secrets[candidate].value);
          if length > 0 {
            return length, candidate;
          }
        }
      }
      return 0, 0;
    }

    /** What the scan does at the start of data when scrubbing: a length to replace and whose, or zero. */
    method ScrubStep(data: bytes, select: Selection, ghost client: string, ghost host: string)
      returns (length: nat, secret: nat)
      requires Valid() && data != [] && SelectionFor(select, secrets, Scrubbing(client, host))
      ensures StepIs(length, secret, data, Scrubbing(client, host))
    {
      hide Trie.Valid, MaskLog, Needles, FirstMasked, FirstPrefix, StableSort, ScrubNeedles, MaskedHit, MasksAt;
      hide LongestUpTo;
      var masked;
      length, secret, masked := trie.Longest(data, select);
      LongestAgrees(secrets, select, Scrubbing(client, host), data);
      if length == 0 {
        assert secrets[..|secrets|] == secrets;
        if |data| >= MASKED_PREFIX_LENGTH {
          MaskedAgrees(secrets, |secrets|, select, client, host, data);
        } else {
          NothingMaskedInShort(ScopedSecrets(secrets, client, host), data);
          NoCandidates(select, data);
        }
        length, secret := MaskedAt(data, masked, select);
      }
    }

    lemma NoCandidates(select: Selection, data: bytes)
      ensures MaskedHit([], secrets, select, data) == Found(0, 0)
    {
    }

    /**
     * The reference's step at the start of data replaces length bytes for that secret, or
     * nothing if length is zero.
     */
    ghost predicate StepIs(length: nat, secret: nat, data: bytes, purpose: Purpose) {
      var masked := if purpose.Scrubbing? then ScopedSecrets(secrets, purpose.client, purpose.host) else [];
      var step := Step(StableSort(NeedleList(secrets, purpose)), masked, data);
      && (length == 0 <==> step.None?)
      && (length > 0 ==>
            && secret < |secrets|
            && step.value == Replacement(length, secrets[secret].name, Target(secrets[secret], purpose)))
    }

    /**
     * Replaces the values of the secrets in scope by their placeholders in one
     * pass; the result and the set of names are those of the naive reference.
     */
    method Scrub(data: bytes, client: string, host: string) returns (out: bytes, names: set<string>)
      requires Valid()
      ensures Rewritten(out, names) == ReferenceScrub(secrets, data, client, host)
    {
      hide Valid, Step, StableSort, ScrubNeedles, ScopedSecrets, Rewrite;
      if |data| == 0 {
        RewriteNothing(StableSort(ScrubNeedles(secrets, client, host)), ScopedSecrets(secrets, client, host));
        return data, {};
      }
      var scope := ScopeFor(secrets, client, host);
      var select := Selection({Value}, Some(scope));
      ghost var sorted, masked := StableSort(ScrubNeedles(secrets, client, host)), ScopedSecrets(secrets, client, host);
      ghost var all := Rewrite(sorted, masked, data);
      out, names := [], {};
      var offset, copied := 0, 0;
      while offset < |data|
        invariant 0 <= copied <= offset <= |data|
        invariant all.data == out + data[copied..offset] + Rewrite(sorted, masked, data[offset..]).data
        invariant all.names == names + Rewrite(sorted, masked, data[offset..]).names
      {
        var length, secret := ScrubStep(data[offset..], select, client, host);
        if length == 0 {
          CopyOne(out, data, copied, offset, sorted, masked);
          offset := offset + 1;
        } else {
          ReplaceOne(out, data, copied, offset, sorted, masked);
          out := out + data[copied..offset] + secrets[secret].placeholder;
          names := names + {secrets[secret].name};
          offset := offset + length;
          copied := offset;
        }
      }
      out := out + data[copied..];
      RewriteNothing(sorted, masked);
    }

    /** What the scan does at the start of data when sanitizing. */
    method SanitizeStep(data: bytes, select: Selection) returns (length: nat, secret: nat)
      requires Valid() && data != [] && SelectionFor(select, secrets, Sanitizing)
      ensures StepIs(length, secret, data, Sanitizing)
    {
      hide Trie.Valid, Needles, FirstPrefix, StableSort, SanitizeNeedles, LongestUpTo;
      var masked;
      length, secret, masked := trie.Longest(data, select);
      LongestAgrees(secrets, select, Sanitizing, data);
    }

    /** Replaces every value and placeholder by its marker, as the naive reference does. */
    method Sanitize(data: bytes) returns (out: bytes)
      requires Valid()
      ensures out == ReferenceSanitize(secrets, data)
    {
      hide Valid, Step, StableSort, SanitizeNeedles, Rewrite;
      if |data| == 0 {
        RewriteNothing(StableSort(SanitizeNeedles(secrets)), []);
        return [];
      }
      var select := Selection({Value, Placeholder}, None);
      ghost var sorted := StableSort(SanitizeNeedles(secrets));
      out := [];
      var offset, copied := 0, 0;
      while offset < |data|
        invariant 0 <= copied <= offset <= |data|
        invariant ReferenceSanitize(secrets, data) ==
                    out + data[copied..offset] + Rewrite(sorted, [], data[offset..]).data
      {
        var length, secret := SanitizeStep(data[offset..], select);
        if length == 0 {
          CopyOne(out, data, copied, offset, sorted, []);
          offset := offset + 1;
        } else {
          ReplaceOne(out, data, copied, offset, sorted, []);
          out := out + data[copied..offset] + secrets[secret].marker;
          offset := offset + length;
          copied := offset;
        }
      }
      out := out + data[copied..];
      RewriteNothing(sorted, []);
    }
  }
}
