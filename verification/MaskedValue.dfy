/**
 * Detection of a masked rendering of a secret value: a visible prefix, a run of
 * mask characters and a visible suffix.
 */
module MaskedValue {
  import opened Bytes
  import Utf8

  const MIN_VISIBLE := 4
  const MAX_PREFIX := 16
  const MAX_SUFFIX := 8
  const MIN_MASKS := 3

  /** The characters services use to mask a value: * x X # and the bullet. */
  predicate MaskRune(rune: int) {
    rune == '*' as int || rune == 'x' as int || rune == 'X' as int || rune == 0x2022 || rune == '#' as int
  }

  datatype Run = Run(end: nat, masks: nat)

  /** The maximal run of mask characters of data from offset on. */
  function MaskRun(data: bytes, offset: nat): (r: Run)
    requires offset <= |data|
    ensures offset <= r.end <= |data|
    decreases |data| - offset
  {
    var d := Utf8.DecodeRune(data[offset..]);
    if offset == |data| || !MaskRune(d.rune) then Run(offset, 0)
    else
      var rest := MaskRun(data, offset + d.size);
      Run(rest.end, rest.masks + 1)
  }

  /** data starts with the value's first prefix bytes and a run of enough masks. */
  predicate PrefixFits(data: bytes, value: bytes, prefix: nat) {
    && MIN_VISIBLE <= prefix <= Min(MAX_PREFIX, |value| - MIN_VISIBLE)
    && value[..prefix] <= data
    && MaskRun(data, prefix).masks >= MIN_MASKS
  }

  /** rest starts with the value's last suffix bytes. */
  predicate SuffixFits(rest: bytes, value: bytes, suffix: nat) {
    MIN_VISIBLE <= suffix <= |value| && value[|value| - suffix..] <= rest
  }

  /** data continues, after that run, with the value's last suffix bytes; the two parts do not overlap. */
  predicate Rendering(data: bytes, value: bytes, prefix: nat, suffix: nat) {
    && PrefixFits(data, value, prefix)
    && suffix <= Min(MAX_SUFFIX, |value| - prefix)
    && SuffixFits(data[MaskRun(data, prefix).end..], value, suffix)
  }

  ghost predicate IsMasked(data: bytes, value: bytes) {
    exists prefix, suffix :: Rendering(data, value, prefix, suffix)
  }

  /** The value's longest suffix, of at most the given length, that rest starts with; zero if none. */
  function SuffixSearch(rest: bytes, value: bytes, suffix: nat): (s: nat)
    requires suffix <= |value|
    decreases suffix
  {
    if suffix < MIN_VISIBLE then 0
    else if SuffixFits(rest, value, suffix) then suffix
    else SuffixSearch(rest, value, suffix - 1)
  }

  /** The length of the rendering with the longest prefix of at most the given length, or zero. */
  function PrefixSearch(data: bytes, value: bytes, prefix: nat): nat
    requires prefix <= Min(MAX_PREFIX, |value| - MIN_VISIBLE)
    decreases prefix
  {
    if prefix < MIN_VISIBLE then 0
    else if !PrefixFits(data, value, prefix) then PrefixSearch(data, value, prefix - 1)
    else
      var end := MaskRun(data, prefix).end;
      var suffix := SuffixSearch(data[end..], value, Min(MAX_SUFFIX, |value| - prefix));
      if suffix > 0 then end + suffix else PrefixSearch(data, value, prefix - 1)
  }

  /** The length of the masked rendering of value at the start of data, or zero. */
  function MaskedLength(data: bytes, value: bytes): nat {
    if |value| < 2 * MIN_VISIBLE then 0 else PrefixSearch(data, value, Min(MAX_PREFIX, |value| - MIN_VISIBLE))
  }

  // --- the loops that compute it ---

  method MaskRunFrom(data: bytes, start: nat) returns (offset: nat, masks: nat)
    requires start <= |data|
    ensures Run(offset, masks) == MaskRun(data, start)
  {
    hide Utf8.DecodeRune, MaskRune;
    offset, masks := start, 0;
    while offset < |data|
      invariant start <= offset <= |data|
      invariant MaskRun(data, start) == Run(MaskRun(data, offset).end, masks + MaskRun(data, offset).masks)
    {
      var d := Utf8.DecodeRune(data[offset..]);
      if !MaskRune(d.rune) {
        break;
      }
      offset := offset + d.size;
      masks := masks + 1;
    }
  }

  method SuffixAt(rest: bytes, value: bytes, longest: nat) returns (suffix: nat)
    requires longest <= |value|
    ensures suffix == SuffixSearch(rest, value, longest)
  {
    suffix := longest;
    while suffix >= MIN_VISIBLE
      invariant suffix <= longest
      invariant SuffixSearch(rest, value, longest) == SuffixSearch(rest, value, suffix)
    {
      if SuffixFits(rest, value, suffix) {
        return;
      }
      suffix := suffix - 1;
    }
    suffix := 0;
  }

  method MaskedSecretLength(data: bytes, value: bytes) returns (length: nat)
    ensures length == MaskedLength(data, value)
  {
    hide MaskRun, SuffixSearch, SuffixFits;
    if |value| < MIN_VISIBLE * 2 {
      return 0;
    }
    var prefix := Min(MAX_PREFIX, |value| - MIN_VISIBLE);
    while prefix >= MIN_VISIBLE
      invariant MIN_VISIBLE - 1 <= prefix <= Min(MAX_PREFIX, |value| - MIN_VISIBLE)
      invariant MaskedLength(data, value) == PrefixSearch(data, value, prefix)
    {
      if value[..prefix] <= data {
        var offset, masks := MaskRunFrom(data, prefix);
        if masks >= MIN_MASKS {
          var suffix := SuffixAt(data[offset..], value, Min(MAX_SUFFIX, |value| - prefix));
          if suffix > 0 {
            return offset + suffix;
          }
        }
      }
      prefix := prefix - 1;
    }
    return 0;
  }

  // --- what the search means ---

  lemma {:induction false} SuffixSearchMeaning(rest: bytes, value: bytes, suffix: nat)
    requires suffix <= |value|
    ensures var s := SuffixSearch(rest, value, suffix);
            && (s > 0 ==> s <= suffix && SuffixFits(rest, value, s))
            && forall t :: s < t <= suffix ==> !SuffixFits(rest, value, t)
  {
    if suffix >= MIN_VISIBLE && !SuffixFits(rest, value, suffix) {
      SuffixSearchMeaning(rest, value, suffix - 1);
    }
  }

  /** (p, s) is the rendering with the longest prefix, and of those the longest suffix. */
  ghost predicate Preferred(data: bytes, value: bytes, p: nat, s: nat) {
    && Rendering(data, value, p, s)
    && (forall t :: s < t ==> !Rendering(data, value, p, t))
    && (forall q, t :: p < q ==> !Rendering(data, value, q, t))
  }

  lemma {:induction false} PrefixSearchMeaning(data: bytes, value: bytes, prefix: nat) returns (p: nat, s: nat)
    requires prefix <= Min(MAX_PREFIX, |value| - MIN_VISIBLE)
    requires forall q, t :: prefix < q ==> !Rendering(data, value, q, t)
    ensures PrefixSearch(data, value, prefix) == 0 ==> !IsMasked(data, value)
    ensures PrefixSearch(data, value, prefix) > 0 ==>
      Preferred(data, value, p, s) && PrefixSearch(data, value, prefix) == MaskRun(data, p).end + s
    decreases prefix
  {
    hide MaskRun, SuffixSearch;
    p, s := 0, 0;
    if prefix >= MIN_VISIBLE {
      if PrefixFits(data, value, prefix) {
        var longest := Min(MAX_SUFFIX, |value| - prefix);
        var rest := data[MaskRun(data, prefix).end..];
        SuffixSearchMeaning(rest, value, longest);
        p, s := prefix, SuffixSearch(rest, value, longest);
        if s > 0 {
          return;
        }
      }
      p, s := PrefixSearchMeaning(data, value, prefix - 1);
    }
  }

  /**
   * The detector answers a positive length exactly when data starts with a masked
   * rendering, and the length is that of the preferred one.
   */
  lemma MaskedLengthMeaning(data: bytes, value: bytes)
    ensures MaskedLength(data, value) > 0 <==> IsMasked(data, value)
    ensures forall p, s :: Preferred(data, value, p, s) ==> MaskedLength(data, value) == MaskRun(data, p).end + s
    ensures IsMasked(data, value) ==> exists p, s :: Preferred(data, value, p, s)
  {
    if |value| >= 2 * MIN_VISIBLE {
      var p, s := PrefixSearchMeaning(data, value, Min(MAX_PREFIX, |value| - MIN_VISIBLE));
      forall q, t | Preferred(data, value, q, t)
        ensures MaskedLength(data, value) == MaskRun(data, q).end + t
      {
        assert MaskedLength(data, value) > 0;
        assert q == p && t == s;
      }
    }
  }

  /**
   * A rendering lies within data and starts with the value's first four bytes, so
   * looking only at values that share those bytes with data loses no rendering.
   */
  lemma PrefilterLosesNothing(data: bytes, value: bytes)
    requires MaskedLength(data, value) > 0
    ensures |value| >= 2 * MIN_VISIBLE && value[..MIN_VISIBLE] <= data
    ensures MaskedLength(data, value) <= |data|
  {
    MaskedLengthMeaning(data, value);
    var p: nat, s: nat :| Preferred(data, value, p, s);
    assert Rendering(data, value, p, s);
    assert PrefixFits(data, value, p);
    var head := value[..p];
    assert head <= data;
    forall i | 0 <= i < MIN_VISIBLE ensures value[i] == data[i] {
      assert head[i] == value[i] && head[i] == data[i];
    }
  }

  /** A run of masks contains no line feed: it ends at or before the first one. */
  lemma {:induction false} MaskRunStops(data: bytes, offset: nat, stop: nat)
    requires offset <= stop < |data| && data[stop] == LF
    ensures MaskRun(data, offset).end <= stop
    decreases stop - offset
  {
    var d := Utf8.DecodeRune(data[offset..]);
    if MaskRune(d.rune) {
      MaskRuneBytes(data, offset);
      assert offset + d.size <= stop;
      MaskRunStops(data, offset + d.size, stop);
    }
  }

  /** A mask character is one of four ASCII bytes or the three bytes E2 80 A2. */
  lemma MaskRuneBytes(data: bytes, offset: nat)
    requires offset < |data|
    ensures var d := Utf8.DecodeRune(data[offset..]);
            MaskRune(d.rune) <==>
            || (d.size == 1 && data[offset] in {42, 120, 88, 35})
            || (d.size == 3 && offset + 3 <= |data| && data[offset] == 0xE2 && data[offset + 1] == 0x80
                && data[offset + 2] == 0xA2)
  {
    var rest := data[offset..];
    assert rest[0] == data[offset];
    if 3 <= |rest| {
      assert rest[1] == data[offset + 1] && rest[2] == data[offset + 2];
    }
  }

  /** Data beyond a line feed does not change the run before it. */
  lemma {:induction false} MaskRunExtends(data: bytes, more: bytes, offset: nat)
    requires offset < |data| && data[|data| - 1] == LF
    ensures MaskRun(data + more, offset) == MaskRun(data, offset)
    ensures MaskRun(data, offset).end < |data|
    decreases |data| - offset
  {
    MaskRunStops(data, offset, |data| - 1);
    MaskRuneBytes(data, offset);
    MaskRuneBytes(data + more, offset);
    var d := Utf8.DecodeRune(data[offset..]);
    assert MaskRune(d.rune) <==> MaskRune(Utf8.DecodeRune((data + more)[offset..]).rune);
    if MaskRune(d.rune) {
      assert offset + d.size < |data|;
      MaskRunExtends(data, more, offset + d.size);
    }
  }

  // --- a rendering, byte by byte ---

  const BULLET: bytes := [0xE2, 0x80, 0xA2]

  /** The bytes begin with a mask character: an asterisk, an x in either case, a hash or a bullet. */
  predicate StartsMask(b: bytes) {
    (b != [] && b[0] in {42, 120, 88, 35}) || BULLET <= b
  }

  /** The bytes are this many mask characters. */
  predicate Masks(b: bytes, n: nat) {
    if n == 0 then b == []
    else StartsMask(b) && Masks(b[if BULLET <= b then 3 else 1..], n - 1)
  }

  lemma MaskAt(data: bytes, offset: nat)
    requires offset < |data|
    ensures var d := Utf8.DecodeRune(data[offset..]);
            && (MaskRune(d.rune) <==> StartsMask(data[offset..]))
            && (MaskRune(d.rune) ==> d.size == if BULLET <= data[offset..] then 3 else 1)
  {
    var rest := data[offset..];
    MaskRuneBytes(data, offset);
    assert rest[0] == data[offset];
    if 3 <= |rest| {
      assert rest[1] == data[offset + 1] && rest[2] == data[offset + 2];
      assert rest[..3] == [rest[0], rest[1], rest[2]];
    }
  }

  /** Mask characters that are followed by none are the run. */
  lemma {:induction false} MaskRunExactly(data: bytes, offset: nat, masks: bytes, n: nat)
    requires offset + |masks| <= |data| && data[offset..offset + |masks|] == masks
    requires Masks(masks, n) && !StartsMask(data[offset + |masks|..])
    ensures MaskRun(data, offset) == Run(offset + |masks|, n)
    decreases n
  {
    hide Utf8.DecodeRune, MaskRune;
    if n == 0 {
      if offset < |data| {
        MaskAt(data, offset);
      }
    } else {
      var size := if BULLET <= masks then 3 else 1;
      var rest := data[offset..];
      assert forall k :: 0 <= k < |masks| ==> rest[k] == masks[k];
      FirstMask(rest, masks);
      MaskAt(data, offset);
      assert data[offset + size..offset + |masks|] == masks[size..];
      MaskRunExactly(data, offset + size, masks[size..], n - 1);
    }
  }

  /** A mask character is the same with more bytes behind it. */
  lemma FirstMask(data: bytes, masks: bytes)
    requires StartsMask(masks) && |masks| <= |data| && forall k :: 0 <= k < |masks| ==> data[k] == masks[k]
    ensures StartsMask(data) && (BULLET <= data <==> BULLET <= masks)
  {
    if BULLET <= data {
      assert data[..3] == BULLET && data[0] == 0xE2;
    }
    if BULLET <= masks {
      assert masks[..3] == BULLET && data[..3] == masks[..3];
    }
  }

  /** The run is mask characters, and none follows it. */
  lemma {:induction false} MaskRunIs(data: bytes, offset: nat)
    requires offset <= |data|
    ensures var r := MaskRun(data, offset);
            Masks(data[offset..r.end], r.masks) && !StartsMask(data[r.end..])
    decreases |data| - offset
  {
    hide Utf8.DecodeRune, MaskRune;
    var r := MaskRun(data, offset);
    if offset == |data| {
      assert data[offset..] == [];
    } else {
      MaskAt(data, offset);
      var d := Utf8.DecodeRune(data[offset..]);
      if MaskRune(d.rune) {
        MaskRunIs(data, offset + d.size);
        var run := data[offset..r.end];
        assert run[d.size..] == data[offset + d.size..r.end];
        assert forall k :: 0 <= k < |run| ==> data[offset..][k] == run[k];
        RunStarts(data[offset..], run, d.size);
      }
    }
  }

  lemma RunStarts(data: bytes, run: bytes, size: nat)
    requires StartsMask(data) && size == (if BULLET <= data then 3 else 1) && size <= |run| <= |data|
    requires forall k :: 0 <= k < |run| ==> data[k] == run[k]
    ensures StartsMask(run) && size == if BULLET <= run then 3 else 1
  {
    assert |run| >= 3 ==> run[..3] == data[..3];
  }

  /** The data is these parts, the masks being at least three, and no further one follows them. */
  predicate Shows(data: bytes, head: bytes, masks: bytes, n: nat, tail: bytes, rest: bytes) {
    data == head + masks + tail + rest && n >= 3 && Masks(masks, n) && !StartsMask(tail + rest)
  }

  ghost predicate ShowsBoth(data: bytes, head: bytes, tail: bytes) {
    exists masks, n, rest :: Shows(data, head, masks, n, tail, rest)
  }

  /**
   * A rendering shows 4 to 16 bytes of the value's start and 4 to 8 of its end, which do
   * not overlap, and between them at least three mask characters, all there are.
   */
  lemma RenderingIs(data: bytes, value: bytes, prefix: nat, suffix: nat)
    ensures Rendering(data, value, prefix, suffix) <==>
            && 4 <= prefix <= 16 && 4 <= suffix <= 8 && prefix + suffix <= |value|
            && ShowsBoth(data, value[..prefix], value[|value| - suffix..])
  {
    hide MaskRun;
    if Rendering(data, value, prefix, suffix) {
      var end := MaskRun(data, prefix).end;
      MaskRunIs(data, prefix);
      RenderingShows(data, value, prefix, suffix);
    }
    if 4 <= prefix <= 16 && 4 <= suffix <= 8 && prefix + suffix <= |value| {
      var head, tail := value[..prefix], value[|value| - suffix..];
      forall masks, n, rest | Shows(data, head, masks, n, tail, rest)
        ensures Rendering(data, value, prefix, suffix)
      {
        ShownRuns(data, head, masks, n, tail, rest);
      }
    }
  }

  lemma RenderingShows(data: bytes, value: bytes, prefix: nat, suffix: nat)
    requires Rendering(data, value, prefix, suffix)
    ensures var run := MaskRun(data, prefix);
            Shows(data, value[..prefix], data[prefix..run.end], run.masks, value[|value| - suffix..],
                  data[run.end + suffix..])
  {
    hide MaskRun, Masks, StartsMask;
    MaskRunIs(data, prefix);
    var end, tail := MaskRun(data, prefix).end, value[|value| - suffix..];
    assert data[..prefix] == value[..prefix];
    assert data[end..][..suffix] == tail;
    assert data[end..] == tail + data[end + suffix..];
  }

  lemma ShownRuns(data: bytes, head: bytes, masks: bytes, n: nat, tail: bytes, rest: bytes)
    requires Shows(data, head, masks, n, tail, rest)
    ensures head <= data && MaskRun(data, |head|) == Run(|head| + |masks|, n) && tail <= data[|head| + |masks|..]
  {
    hide MaskRun, Masks, StartsMask;
    assert data == head + masks + (tail + rest);
    assert data[|head| + |masks|..] == tail + rest;
    MaskRunExactly(data, |head|, masks, n);
  }
}
