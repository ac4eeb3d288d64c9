/** Hostname patterns: validation, canonical form and matching. */
module HostPattern {
  import opened Bytes

  const MAX_HOST_LENGTH := 253
  const MAX_LABEL_LENGTH := 63

  /** Unicode white space, as trimming removes it. */
  predicate IsSpace(c: char) {
    || '\t' <= c <= '\r' || c == ' ' || c == '\U{85}' || c == '\U{A0}' || c == '\U{1680}'
    || '\U{2000}' <= c <= '\U{200A}' || c == '\U{2028}' || c == '\U{2029}'
    || c == '\U{202F}' || c == '\U{205F}' || c == '\U{3000}'
  }

  function TrimLeft(s: string): (r: string)
    ensures |r| <= |s| && (r == [] || !IsSpace(r[0]))
  {
    if s != [] && IsSpace(s[0]) then TrimLeft(s[1..]) else s
  }

  function TrimRight(s: string): (r: string)
    ensures |r| <= |s| && r <= s && (r == [] || !IsSpace(r[|r| - 1]))
  {
    if s != [] && IsSpace(s[|s| - 1]) then TrimRight(s[..|s| - 1]) else s
  }

  function TrimSpace(s: string): string {
    TrimRight(TrimLeft(s))
  }

  /**
   * Lower case of one character. Besides the ASCII letters only the two letters
   * outside ASCII whose lower case is an ASCII letter matter to a host name.
   */
  function LowerChar(c: char): char {
    if 'A' <= c <= 'Z' then (c as int + 32) as char
    else if c == '\U{212A}' then 'k'
    else if c == '\U{130}' then 'i'
    else c
  }

  function ToLower(s: string): (r: string)
    ensures |r| == |s|
    ensures forall i :: 0 <= i < |s| ==> r[i] == LowerChar(s[i])
  {
    if s == [] then [] else [LowerChar(s[0])] + ToLower(s[1..])
  }

  /** s without one dot at its end, if it has one. */
  function TrimDot(s: string): (r: string)
    ensures s == r + "." || (s == r && (s == "" || s[|s| - 1] != '.'))
  {
    if s != [] && s[|s| - 1] == '.' then s[..|s| - 1] else s
  }

  predicate LabelChar(c: char) {
    'a' <= c <= 'z' || '0' <= c <= '9' || c == '-'
  }

  predicate ValidLabel(part: string) {
    && 0 < |part| <= MAX_LABEL_LENGTH
    && part[0] != '-' && part[|part| - 1] != '-'
    && forall i :: 0 <= i < |part| ==> LabelChar(part[i])
  }

  /** The pieces of s between occurrences of separator. */
  function Split(s: string, separator: char): (parts: seq<string>)
    ensures |parts| >= 1
  {
    if s == [] then [""]
    else
      var rest := Split(s[1..], separator);
      if s[0] == separator then [""] + rest else [[s[0]] + rest[0]] + rest[1..]
  }

  /** A syntactically valid ASCII hostname. */
  predicate Valid(host: string) {
    |host| <= MAX_HOST_LENGTH && forall i :: 0 <= i < |Split(host, '.')| ==> ValidLabel(Split(host, '.')[i])
  }

  /** Validates and canonicalizes an exact or leftmost-label wildcard pattern. */
  function Normalize(pattern: string): Option<string> {
    var lowered := ToLower(TrimDot(TrimSpace(pattern)));
    var wildcard := "*." <= lowered;
    var host := if wildcard then lowered[2..] else lowered;
    if host == "" || !Valid(host) then None
    else if wildcard then Some("*." + host)
    else Some(host)
  }

  predicate HasSuffix(s: string, suffix: string) {
    |suffix| <= |s| && s[|s| - |suffix|..] == suffix
  }

  predicate MatchesOne(pattern: string, host: string) {
    || pattern == host
    || ("*." <= pattern && HasSuffix(host, "." + pattern[2..]))
  }

  /** Whether host matches one of the patterns; case and one trailing dot of host are ignored. */
  predicate Matches(patterns: seq<string>, host: string) {
    exists i :: 0 <= i < |patterns| && MatchesOne(patterns[i], ToLower(TrimDot(host)))
  }

  // --- canonical forms ---

  lemma {:induction false} SplitChars(s: string, separator: char)
    ensures forall i, j :: 0 <= i < |Split(s, separator)| && 0 <= j < |Split(s, separator)[i]| ==>
              Split(s, separator)[i][j] in s
    ensures forall k :: 0 <= k < |s| ==>
      s[k] == separator || exists i :: 0 <= i < |Split(s, separator)| && s[k] in Split(s, separator)[i]
  {
    if s != [] {
      SplitChars(s[1..], separator);
      var rest, parts := Split(s[1..], separator), Split(s, separator);
      forall k | 0 <= k < |s|
        ensures s[k] == separator || exists i :: 0 <= i < |parts| && s[k] in parts[i]
      {
        if k == 0 {
          if s[0] != separator { assert s[0] in parts[0]; }
        } else if s[k] != separator {
          assert s[1..][k - 1] == s[k];
          var i :| 0 <= i < |rest| && s[k] in rest[i];
          if s[0] == separator { assert parts[i + 1] == rest[i]; }
          else if i == 0 { assert s[k] in parts[0]; }
          else { assert parts[i] == rest[i]; }
        }
      }
    }
  }

  lemma {:induction false} SplitLast(s: string, separator: char)
    ensures s != [] && s[|s| - 1] == separator ==> Split(s, separator)[|Split(s, separator)| - 1] == ""
  {
    if |s| == 1 {
      assert s[1..] == "";
    } else if |s| > 1 && s[|s| - 1] == separator {
      SplitLast(s[1..], separator);
      SplitCount(s[1..], separator);
    }
  }

  lemma {:induction false} SplitCount(s: string, separator: char)
    requires separator in s
    ensures |Split(s, separator)| >= 2
  {
    if s[0] != separator {
      SplitCount(s[1..], separator);
    }
  }

  /** A valid host has only label characters and dots and no dot at either end. */
  lemma ValidHostChars(host: string)
    requires Valid(host)
    ensures host != ""
    ensures forall i :: 0 <= i < |host| ==> host[i] == '.' || LabelChar(host[i])
    ensures host[|host| - 1] != '.'
  {
    SplitChars(host, '.');
    SplitLast(host, '.');
    assert ValidLabel(Split(host, '.')[0]);
    assert ValidLabel(Split(host, '.')[|Split(host, '.')| - 1]);
  }

  lemma {:induction false} TrimmedStays(s: string)
    requires s != "" && !IsSpace(s[0]) && !IsSpace(s[|s| - 1])
    ensures TrimSpace(s) == s
  {
  }

  lemma {:induction false} LowerStays(s: string)
    requires forall i :: 0 <= i < |s| ==> LowerChar(s[i]) == s[i]
    ensures ToLower(s) == s
  {
  }

  /** Trimming and lower-casing change nothing in a pattern of label characters, dots and stars. */
  lemma PlainStays(pattern: string)
    requires pattern != "" && pattern[|pattern| - 1] != '.'
    requires forall i :: 0 <= i < |pattern| ==> pattern[i] == '*' || pattern[i] == '.' || LabelChar(pattern[i])
    ensures ToLower(TrimDot(TrimSpace(pattern))) == pattern
  {
    hide ToLower, TrimSpace;
    TrimmedStays(pattern);
    LowerStays(pattern);
  }

  /** A pattern made of a valid host is its own canonical form. */
  lemma CanonicalStays(host: string, pattern: string)
    requires Valid(host) && (pattern == host || pattern == "*." + host)
    ensures Normalize(pattern) == Some(pattern)
  {
    hide Valid, ToLower, TrimSpace, TrimDot;
    ValidHostChars(host);
    if pattern == host {
      PlainStays(pattern);
      assert !("*." <= pattern) by { assert host[0] != '*'; }
    } else {
      assert pattern[|pattern| - 1] == host[|host| - 1];
      assert forall k :: 0 <= k < |host| ==> pattern[k + 2] == host[k];
      assert forall i :: 2 <= i < |pattern| ==> pattern[i] == host[i - 2];
      PlainStays(pattern);
      assert pattern[2..] == host;
    }
  }

  lemma NormalizedIsNotEmpty(pattern: string)
    requires Normalize(pattern).Some?
    ensures Normalize(pattern).value != ""
  {
  }

  /** Canonical patterns are fixed points: normalizing twice is normalizing once. */
  lemma NormalizeIdempotent(pattern: string)
    requires Normalize(pattern).Some?
    ensures Normalize(Normalize(pattern).value) == Normalize(pattern)
  {
    hide Valid, ToLower, TrimSpace, TrimDot;
    var lowered := ToLower(TrimDot(TrimSpace(pattern)));
    CanonicalStays(if "*." <= lowered then lowered[2..] else lowered, Normalize(pattern).value);
  }

  // --- what matching means, label by label ---

  /** c is the letter, digit, hyphen or dot l, or another case of it. */
  predicate SameLetter(c: char, l: char) {
    || c == l
    || ('a' <= l <= 'z' && c as int + 32 == l as int)
    || (l == 'k' && c == '\U{212A}')
    || (l == 'i' && c == '\U{130}')
  }

  predicate SameLabel(a: string, b: string) {
    |a| == |b| && forall i :: 0 <= i < |a| ==> SameLetter(a[i], b[i])
  }

  /** The last labels of a host are these, up to case. */
  predicate LabelsEnd(host: seq<string>, labels: seq<string>) {
    |labels| <= |host| && forall k :: 0 <= k < |labels| ==> SameLabel(host[|host| - |labels| + k], labels[k])
  }

  /**
   * The labels of the host are those of the pattern; behind a wildcard they are only the
   * last ones, with at least one more in front.
   */
  predicate HostFits(pattern: string, host: string) {
    var labels := Split(TrimDot(host), '.');
    if "*." <= pattern then
      var suffix := Split(pattern[2..], '.');
      |labels| > |suffix| && LabelsEnd(labels, suffix)
    else
      var exact := Split(pattern, '.');
      |labels| == |exact| && LabelsEnd(labels, exact)
  }

  function Join(parts: seq<string>, separator: char): string
    requires parts != []
  {
    if |parts| == 1 then parts[0] else parts[0] + [separator] + Join(parts[1..], separator)
  }

  lemma SplitStep(c: char, rest: string, separator: char)
    ensures var later := Split(rest, separator);
            Split([c] + rest, separator) == if c == separator then [""] + later else [[c] + later[0]] + later[1..]
  {
    assert ([c] + rest)[1..] == rest;
  }

  lemma NothingSplit(separator: char)
    ensures Split("", separator) == [""] && Join([""], separator) == ""
  {
  }

  lemma JoinNext(parts: seq<string>, separator: char)
    requires parts != []
    ensures Join([""] + parts, separator) == [separator] + Join(parts, separator)
  {
    assert ([""] + parts)[1..] == parts;
    assert "" + [separator] == [separator];
  }

  lemma JoinFirst(c: char, parts: seq<string>, separator: char)
    requires parts != []
    ensures Join([[c] + parts[0]] + parts[1..], separator) == [c] + Join(parts, separator)
  {
    if |parts| > 1 {
      assert ([[c] + parts[0]] + parts[1..])[1..] == parts[1..];
    } else {
      assert [[c] + parts[0]] + parts[1..] == [[c] + parts[0]];
    }
  }

  /** Joining the pieces gives the text back, and no piece contains the separator. */
  lemma {:induction false} SplitJoins(s: string, separator: char)
    ensures Join(Split(s, separator), separator) == s
    ensures forall i :: 0 <= i < |Split(s, separator)| ==> separator !in Split(s, separator)[i]
  {
    hide Split, Join;
    if s == "" {
      NothingSplit(separator);
    } else {
      var c, later := s[0], Split(s[1..], separator);
      assert s == [c] + s[1..];
      SplitJoins(s[1..], separator);
      SplitStep(c, s[1..], separator);
      JoinNext(later, separator);
      JoinFirst(c, later, separator);
    }
  }

  lemma {:induction false} SplitConcat(a: string, b: string, separator: char)
    ensures Split(a + [separator] + b, separator) == Split(a, separator) + Split(b, separator)
  {
    var all := a + [separator] + b;
    if a == "" {
      assert all[1..] == b;
    } else {
      assert all[1..] == a[1..] + [separator] + b;
      SplitConcat(a[1..], b, separator);
    }
  }

  lemma {:induction false} JoinConcat(a: seq<string>, b: seq<string>, separator: char)
    requires a != [] && b != []
    ensures Join(a + b, separator) == Join(a, separator) + [separator] + Join(b, separator)
  {
    if |a| == 1 {
      assert (a + b)[1..] == b;
    } else {
      assert (a + b)[1..] == a[1..] + b;
      JoinConcat(a[1..], b, separator);
    }
  }

  lemma SuffixGivesPieces(s: string, suffix: string, separator: char)
    requires HasSuffix(s, [separator] + suffix)
    ensures var parts, last := Split(s, separator), Split(suffix, separator);
            |parts| > |last| && parts[|parts| - |last|..] == last
  {
    hide Split;
    var front := s[..|s| - |suffix| - 1];
    assert s == front + ([separator] + suffix) == front + [separator] + suffix;
    SplitConcat(front, suffix, separator);
  }

  lemma PiecesGiveSuffix(s: string, suffix: string, separator: char)
    requires var parts, last := Split(s, separator), Split(suffix, separator);
             |parts| > |last| && parts[|parts| - |last|..] == last
    ensures HasSuffix(s, [separator] + suffix)
  {
    hide Split, Join;
    var parts, last := Split(s, separator), Split(suffix, separator);
    var front := parts[..|parts| - |last|];
    assert parts == front + last;
    SplitJoins(s, separator);
    SplitJoins(suffix, separator);
    JoinConcat(front, last, separator);
    var f := Join(front, separator);
    assert s == f + [separator] + suffix == f + ([separator] + suffix);
  }

  /** A text ends in the separator and another text exactly if its pieces end in that text's, with more in front. */
  lemma SuffixIsPieces(s: string, suffix: string, separator: char)
    ensures var parts, last := Split(s, separator), Split(suffix, separator);
            HasSuffix(s, [separator] + suffix) <==> |parts| > |last| && parts[|parts| - |last|..] == last
  {
    hide Split, HasSuffix;
    var parts, last := Split(s, separator), Split(suffix, separator);
    if HasSuffix(s, [separator] + suffix) {
      SuffixGivesPieces(s, suffix, separator);
    }
    if |parts| > |last| && parts[|parts| - |last|..] == last {
      PiecesGiveSuffix(s, suffix, separator);
    }
  }

  lemma SplitDetermines(a: string, b: string, separator: char)
    requires Split(a, separator) == Split(b, separator)
    ensures a == b
  {
    SplitJoins(a, separator);
    SplitJoins(b, separator);
  }

  lemma LowerStep(c: char, rest: string)
    ensures ToLower([c] + rest) == [LowerChar(c)] + ToLower(rest)
  {
    assert ([c] + rest)[1..] == rest;
  }

  lemma DotStays(c: char)
    ensures LowerChar(c) == '.' <==> c == '.'
  {
  }

  /** Lower case letter by letter keeps the labels apart. */
  lemma {:induction false} SplitLowers(s: string)
    ensures var parts, lowered := Split(s, '.'), Split(ToLower(s), '.');
            |parts| == |lowered| && forall i :: 0 <= i < |parts| ==> lowered[i] == ToLower(parts[i])
  {
    hide Split, ToLower, LowerChar;
    if s == "" {
      NothingSplits();
    } else {
      var c, rest := s[0], s[1..];
      assert s == [c] + rest;
      SplitLowers(rest);
      DotStays(c);
      LowerStep(c, rest);
      SplitStep(c, rest, '.');
      SplitStep(LowerChar(c), ToLower(rest), '.');
      LowerStep(c, Split(rest, '.')[0]);
      NothingSplits();
    }
  }

  lemma NothingSplits()
    ensures Split("", '.') == [""] && ToLower("") == ""
  {
  }

  lemma LowerIsLetter(c: char, l: char)
    requires LabelChar(l)
    ensures LowerChar(c) == l <==> SameLetter(c, l)
  {
  }

  lemma LowerIsLabel(a: string, piece: string)
    requires ValidLabel(piece)
    ensures ToLower(a) == piece <==> SameLabel(a, piece)
  {
    hide ToLower, LowerChar, SameLetter;
    if |a| == |piece| {
      forall i | 0 <= i < |a| ensures LowerChar(a[i]) == piece[i] <==> SameLetter(a[i], piece[i]) {
        LowerIsLetter(a[i], piece[i]);
      }
    }
  }

  lemma LowerEndsIn(host: seq<string>, lowered: seq<string>, labels: seq<string>)
    requires |host| == |lowered| && forall i :: 0 <= i < |host| ==> lowered[i] == ToLower(host[i])
    requires |labels| <= |host| && forall i :: 0 <= i < |labels| ==> ValidLabel(labels[i])
    ensures lowered[|lowered| - |labels|..] == labels <==> LabelsEnd(host, labels)
  {
    hide ToLower, SameLabel, ValidLabel;
    var n := |host| - |labels|;
    forall k | 0 <= k < |labels| ensures lowered[n..][k] == labels[k] <==> SameLabel(host[n + k], labels[k]) {
      LowerIsLabel(host[n + k], labels[k]);
    }
  }

  /** A pattern in canonical form: a valid host, alone or behind a leftmost wildcard label. */
  ghost predicate Canonical(pattern: string) {
    Valid(if "*." <= pattern then pattern[2..] else pattern)
  }

  /**
   * A pattern normalizes to the canonical one it spells, up to case, once surrounding
   * white space and one dot at the end are dropped; and to nothing if it spells none.
   */
  lemma NormalizeIs(pattern: string, canonical: string)
    ensures Normalize(pattern) == Some(canonical) <==>
            Canonical(canonical) && SameLabel(TrimDot(TrimSpace(pattern)), canonical)
  {
    hide TrimSpace, TrimDot, Valid, ToLower, LowerChar, SameLetter;
    var bare := TrimDot(TrimSpace(pattern));
    var lowered := ToLower(bare);
    if Canonical(canonical) {
      CanonicalLetters(canonical);
      forall i | 0 <= i < |canonical| && |bare| == |canonical|
        ensures LowerChar(bare[i]) == canonical[i] <==> SameLetter(bare[i], canonical[i])
      {
        LowerIsSame(bare[i], canonical[i]);
      }
      if "*." <= canonical {
        ValidHostChars(canonical[2..]);
        assert "*." + canonical[2..] == canonical;
      } else {
        ValidHostChars(canonical);
      }
      assert lowered == canonical <==> SameLabel(bare, canonical);
    }
    if Normalize(pattern) == Some(canonical) {
      if "*." <= lowered {
        assert "*." + lowered[2..] == lowered;
      }
    }
  }

  lemma LowerIsSame(c: char, l: char)
    requires LabelChar(l) || l == '.' || l == '*'
    ensures LowerChar(c) == l <==> SameLetter(c, l)
  {
  }

  lemma CanonicalLetters(pattern: string)
    requires Canonical(pattern)
    ensures forall i :: 0 <= i < |pattern| ==> LabelChar(pattern[i]) || pattern[i] == '.' || pattern[i] == '*'
  {
    hide Valid, LabelChar;
    if "*." <= pattern {
      ValidHostChars(pattern[2..]);
      assert forall i :: 2 <= i < |pattern| ==> pattern[i] == pattern[2..][i - 2];
    } else {
      ValidHostChars(pattern);
    }
  }

  lemma EndsInLabels(suffix: string, bare: string)
    requires Valid(suffix)
    ensures var labels, own := Split(bare, '.'), Split(suffix, '.');
            HasSuffix(ToLower(bare), ['.'] + suffix) <==> |labels| > |own| && LabelsEnd(labels, own)
  {
    hide ToLower, Split, LabelsEnd, ValidLabel, HasSuffix;
    var labels, own, lowered := Split(bare, '.'), Split(suffix, '.'), Split(ToLower(bare), '.');
    SplitLowers(bare);
    SuffixIsPieces(ToLower(bare), suffix, '.');
    if |labels| > |own| {
      LowerEndsIn(labels, lowered, own);
    }
  }

  lemma HasLabels(exact: string, bare: string)
    requires Valid(exact)
    ensures var labels, own := Split(bare, '.'), Split(exact, '.');
            ToLower(bare) == exact <==> |labels| == |own| && LabelsEnd(labels, own)
  {
    hide ToLower, Split, LabelsEnd, ValidLabel;
    var labels, own, lowered := Split(bare, '.'), Split(exact, '.'), Split(ToLower(bare), '.');
    SplitLowers(bare);
    if |labels| == |own| {
      LowerEndsIn(labels, lowered, own);
      assert lowered[0..] == lowered;
      if lowered == own {
        SplitDetermines(ToLower(bare), exact, '.');
      }
    }
  }

  /** One canonical pattern matches exactly the hosts whose labels fit it. */
  lemma MatchesOneIs(pattern: string, host: string)
    requires Canonical(pattern)
    ensures MatchesOne(pattern, ToLower(TrimDot(host))) <==> HostFits(pattern, host)
  {
    hide ToLower, TrimDot, Split, LabelsEnd, Valid, HasSuffix;
    var bare := TrimDot(host);
    if "*." <= pattern {
      EndsInLabels(pattern[2..], bare);
      WildcardItself(pattern, ToLower(bare));
      assert "." + pattern[2..] == ['.'] + pattern[2..];
    } else {
      HasLabels(pattern, bare);
    }
  }

  /** A host that spells a wildcard pattern has its labels too. */
  lemma WildcardItself(pattern: string, host: string)
    requires "*." <= pattern
    ensures pattern == host ==> HasSuffix(host, "." + pattern[2..])
  {
    assert pattern == "*." + pattern[2..];
    assert pattern[1..] == "." + pattern[2..];
  }

  /** A host matches canonical patterns exactly if its labels fit one of them. */
  lemma MatchesIs(patterns: seq<string>, host: string)
    requires forall p :: p in patterns ==> Canonical(p)
    ensures Matches(patterns, host) <==> exists p :: p in patterns && HostFits(p, host)
  {
    hide Canonical, HostFits, MatchesOne, ToLower, TrimDot;
    forall p | p in patterns ensures MatchesOne(p, ToLower(TrimDot(host))) <==> HostFits(p, host) {
      MatchesOneIs(p, host);
    }
    if p :| p in patterns && HostFits(p, host) {
      var i :| 0 <= i < |patterns| && patterns[i] == p;
      assert MatchesOne(patterns[i], ToLower(TrimDot(host)));
    }
  }

  /** Trimming takes white space off both ends and leaves none there. */
  lemma TrimSpaceIs(s: string) returns (left: string, right: string)
    ensures s == left + TrimSpace(s) + right
    ensures forall c :: c in left || c in right ==> IsSpace(c)
    ensures TrimSpace(s) == "" || (!IsSpace(TrimSpace(s)[0]) && !IsSpace(TrimSpace(s)[|TrimSpace(s)| - 1]))
  {
    left := TrimmedLeft(s);
    right := TrimmedRight(TrimLeft(s));
  }

  lemma {:induction false} TrimmedLeft(s: string) returns (left: string)
    ensures s == left + TrimLeft(s) && forall c :: c in left ==> IsSpace(c)
  {
    left := "";
    if s != [] && IsSpace(s[0]) {
      var more := TrimmedLeft(s[1..]);
      left := [s[0]] + more;
    }
  }

  lemma {:induction false} TrimmedRight(s: string) returns (right: string)
    ensures s == TrimRight(s) + right && forall c :: c in right ==> IsSpace(c)
  {
    right := "";
    if s != [] && IsSpace(s[|s| - 1]) {
      var more := TrimmedRight(s[..|s| - 1]);
      right := more + [s[|s| - 1]];
    }
  }

  lemma FixedIsCanonical(pattern: string)
    requires Normalize(pattern) == Some(pattern)
    ensures Canonical(pattern)
  {
    NormalizeIs(pattern, pattern);
  }

  /** Lower case before matching, which lowers again, changes nothing. */
  lemma LowerTwice(s: string)
    ensures ToLower(TrimDot(ToLower(s))) == ToLower(TrimDot(s))
  {
    assert forall i :: 0 <= i < |s| ==> LowerChar(LowerChar(s[i])) == LowerChar(s[i]);
    if s != "" {
      DotStays(s[|s| - 1]);
    }
  }

  /** A caller that drops a dot and lowers before it matches drops a second dot if there is one. */
  lemma MatchesLowered(patterns: seq<string>, host: string)
    requires forall p :: p in patterns ==> Canonical(p)
    ensures Matches(patterns, ToLower(TrimDot(host))) <==> exists p :: p in patterns && HostFits(p, TrimDot(host))
  {
    hide Canonical, HostFits, MatchesOne, ToLower, TrimDot;
    LowerTwice(TrimDot(host));
    MatchesIs(patterns, TrimDot(host));
  }

  /** Pieces without the separator are what their join splits into. */
  lemma {:induction false} JoinSplits(parts: seq<string>, separator: char)
    requires parts != [] && forall i :: 0 <= i < |parts| ==> separator !in parts[i]
    ensures Split(Join(parts, separator), separator) == parts
  {
    PieceSplits(parts[0], separator);
    if |parts| == 1 {
      assert parts == [parts[0]];
    } else {
      JoinSplits(parts[1..], separator);
      SplitConcat(parts[0], Join(parts[1..], separator), separator);
    }
  }

  lemma {:induction false} PieceSplits(s: string, separator: char)
    requires separator !in s
    ensures Split(s, separator) == [s]
  {
    if s != "" {
      PieceSplits(s[1..], separator);
      assert [s[0]] + s[1..] == s;
    }
  }

  /** A text is another one, or continues it behind a separator, exactly if its pieces begin with that one's. */
  lemma PrefixIsPieces(s: string, prefix: string, separator: char)
    ensures var parts, first := Split(s, separator), Split(prefix, separator);
            && (first <= parts <==> s == prefix || prefix + [separator] <= s)
            && (first < parts <==> prefix + [separator] <= s)
  {
    hide Split, Join;
    var parts, first := Split(s, separator), Split(prefix, separator);
    SplitJoins(s, separator);
    SplitJoins(prefix, separator);
    if prefix + [separator] <= s {
      var rest := s[|prefix| + 1..];
      assert s == prefix + [separator] + rest;
      SplitConcat(prefix, rest, separator);
      SplitHasPieces(rest, separator);
    }
    if first < parts {
      var rest := parts[|first|..];
      assert parts == first + rest;
      JoinConcat(first, rest, separator);
    }
    if first <= parts && |first| == |parts| {
      assert first == parts;
    }
  }

  lemma SplitHasPieces(s: string, separator: char)
    ensures Split(s, separator) != []
  {
  }

  // --- equal up to case ---

  /** The same character, or two forms of one letter. */
  predicate SameUpToCase(c: char, d: char) {
    c == d || exists l: char :: 'a' <= l <= 'z' && SameLetter(c, l) && SameLetter(d, l)
  }

  lemma LowerIsUpToCase(c: char, d: char)
    ensures LowerChar(c) == LowerChar(d) <==> SameUpToCase(c, d)
  {
    if LowerChar(c) == LowerChar(d) && c != d {
      assert SameLetter(c, LowerChar(c)) && SameLetter(d, LowerChar(c));
    }
  }

  /** Two texts have the same lower case exactly if they agree up to case. */
  lemma ToLowerIs(a: string, b: string)
    ensures ToLower(a) == ToLower(b) <==> |a| == |b| && forall i :: 0 <= i < |a| ==> SameUpToCase(a[i], b[i])
  {
    hide LowerChar, SameUpToCase;
    if |a| == |b| {
      var x, y := ToLower(a), ToLower(b);
      forall i | 0 <= i < |a| ensures x[i] == y[i] <==> SameUpToCase(a[i], b[i]) {
        LowerIsUpToCase(a[i], b[i]);
      }
    }
  }

  // --- a valid host, character by character ---

  predicate Separator(c: char) {
    c == '.' || c == '-'
  }

  /** If there is a dot, it stands between characters that are neither dots nor hyphens. */
  predicate Stands(host: string, i: nat)
    requires i < |host|
  {
    host[i] == '.' ==> 0 < i < |host| - 1 && !Separator(host[i - 1]) && !Separator(host[i + 1])
  }

  /** Dots and hyphens stand inside a host only, and neither stands next to a dot. */
  predicate Separated(host: string) {
    && host != "" && !Separator(host[0]) && !Separator(host[|host| - 1])
    && forall i: nat :: i < |host| ==> Stands(host, i)
  }

  predicate HostLetters(host: string) {
    forall c :: c in host ==> 'a' <= c <= 'z' || '0' <= c <= '9' || c == '-' || c == '.'
  }

  /** Among any 64 characters in a row there is a dot. */
  predicate DotsOften(host: string) {
    forall i: nat :: i + 64 <= |host| ==> DotWithin(host, i)
  }

  predicate DotWithin(host: string, i: nat)
    requires i + 64 <= |host|
  {
    exists k :: i <= k < i + 64 && host[k] == '.'
  }

  lemma OneLabel(s: string)
    requires '.' !in s
    ensures ValidLabel(s) <==> Separated(s) && HostLetters(s) && DotsOften(s)
  {
    assert |s| >= 64 ==> !DotWithin(s, 0);
    assert forall i :: 0 <= i < |s| ==> s[i] in s;
  }

  lemma StandsInFirst(a: string, b: string, i: nat)
    requires i < |a|
    ensures Stands(a + "." + b, i) <==> Stands(a, i)
  {
    var s := a + "." + b;
    assert s[i] == a[i] && (i > 0 ==> s[i - 1] == a[i - 1]);
    assert s[i + 1] == if i + 1 < |a| then a[i + 1] else '.';
  }

  lemma StandsInSecond(a: string, b: string, i: nat)
    requires i < |b|
    ensures Stands(a + "." + b, |a| + 1 + i) <==> Stands(b, i)
  {
    var s, k := a + "." + b, |a| + 1 + i;
    assert s[k] == b[i] && s[k - 1] == if i > 0 then b[i - 1] else '.';
    assert i + 1 < |b| ==> s[k + 1] == b[i + 1];
  }

  lemma SeparatedParts(a: string, b: string)
    ensures Separated(a + "." + b) <==> Separated(a) && Separated(b)
  {
    hide Stands, Separator;
    var s := a + "." + b;
    forall i: nat | i < |a| ensures Stands(s, i) <==> Stands(a, i) {
      StandsInFirst(a, b, i);
    }
    forall i: nat | i < |b| ensures Stands(s, |a| + 1 + i) <==> Stands(b, i) {
      StandsInSecond(a, b, i);
    }
    Between(a, b);
    if Separated(a) && Separated(b) {
      forall i: nat | i < |s| ensures Stands(s, i) {
        if i > |a| {
          var k: nat := i - |a| - 1;
          assert Stands(b, k) && i == |a| + 1 + k;
        }
      }
    }
  }

  lemma Between(a: string, b: string)
    ensures var s := a + "." + b;
            && Separator('.')
            && s[0] == (if a == "" then '.' else a[0]) && s[|s| - 1] == (if b == "" then '.' else b[|b| - 1])
            && (Stands(s, |a|) <==> a != "" && b != "" && !Separator(a[|a| - 1]) && !Separator(b[0]))
  {
    var s := a + "." + b;
    assert a != "" ==> s[|a| - 1] == a[|a| - 1];
    assert b != "" ==> s[|a| + 1] == b[0];
  }

  lemma OftenParts(a: string, b: string)
    ensures DotsOften(a + "." + b) <==> DotsOften(a) && DotsOften(b)
  {
    var s := a + "." + b;
    assert s[|a|] == '.';
    forall i: nat | i + 64 <= |a| ensures DotWithin(s, i) <==> DotWithin(a, i) {
      assert forall k :: i <= k < i + 64 ==> s[k] == a[k];
    }
    forall i: nat | i + 64 <= |b| ensures DotWithin(s, |a| + 1 + i) <==> DotWithin(b, i) {
      assert forall k :: i <= k < i + 64 ==> s[|a| + 1 + k] == b[k];
    }
    if DotsOften(a) && DotsOften(b) {
      forall i: nat | i + 64 <= |s| ensures DotWithin(s, i) {
        if i > |a| {
          assert DotWithin(b, i - |a| - 1);
        }
      }
    }
  }

  lemma {:induction false} LabelsAre(s: string)
    ensures (forall p :: p in Split(s, '.') ==> ValidLabel(p)) <==> Separated(s) && HostLetters(s) && DotsOften(s)
    decreases |s|
  {
    hide Split, ValidLabel, Separated, DotsOften;
    if '.' !in s {
      PieceSplits(s, '.');
      OneLabel(s);
    } else {
      var i :| 0 <= i < |s| && s[i] == '.';
      var a, b := s[..i], s[i + 1..];
      assert s == a + "." + b;
      SplitConcat(a, b, '.');
      LabelsAre(a);
      LabelsAre(b);
      SeparatedParts(a, b);
      OftenParts(a, b);
      assert forall c :: c in s <==> c in a || c == '.' || c in b;
    }
  }

  /**
   * A host is valid exactly if it has at most 253 lower-case letters, digits, hyphens and
   * dots, no dot or hyphen at either end, none next to a dot, and no 64 of them without a dot.
   */
  lemma ValidIs(host: string)
    ensures Valid(host) <==> |host| <= 253 && Separated(host) && HostLetters(host) && DotsOften(host)
  {
    LabelsAre(host);
  }
}
