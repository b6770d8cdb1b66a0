/** The raw-byte scan that rewrites the value after every access_token= key
    (agentproto/auth_uri_inneedle.go, scanRawAccessTokenValues). */
module RawScan {
  import opened Wrappers
  import opened Bytes
  import opened EscapeGrammar
  import opened EscapeTable
  import opened KeyMatch

  // ----- the first key

  /** Where a key starts and where it ends. */
  datatype Span = Span(start: nat, end: nat)

  predicate IsFirstKey(s: seq<byte>, key: Key, k: Span) {
    && k.start < k.end <= |s| && Match(s[k.start..], key, 0) == Some(k.end - k.start)
    && forall q :: 0 <= q < k.start ==> Match(s[q..], key, 0).None?
  }

  predicate NoKey(s: seq<byte>, key: Key) {
    forall q :: 0 <= q <= |s| ==> Match(s[q..], key, 0).None?
  }

  /** The first position at which a key starts. */
  function FindKey(s: seq<byte>, key: Key): (r: Option<Span>)
    requires key.text != []
    ensures r.Some? ==> r.value.start < r.value.end <= |s|
    decreases |s|
  {
    if |s| == 0 then None
    else if Match(s, key, 0).Some? then Some(Span(0, Match(s, key, 0).value))
    else
      match FindKey(s[1..], key)
      case None => None
      case Some(k) => Some(Span(k.start + 1, k.end + 1))
  }

  lemma {:induction false} FindKeyFacts(s: seq<byte>, key: Key)
    requires key.text != []
    ensures FindKey(s, key).None? ==> NoKey(s, key)
    ensures FindKey(s, key).Some? ==> IsFirstKey(s, key, FindKey(s, key).value)
    decreases |s|
  {
    hide Match;
    if |s| > 0 && Match(s, key, 0).None? {
      FindKeyFacts(s[1..], key);
      forall q | 0 < q <= |s| ensures s[q..] == s[1..][q - 1..] { }
    }
    assert s[0..] == s;
  }

  lemma FindKeyUnique(s: seq<byte>, key: Key, k: Span)
    requires key.text != [] && IsFirstKey(s, key, k)
    ensures FindKey(s, key) == Some(k)
  {
    hide Match, FindKey;
    FindKeyFacts(s, key);
  }

  // ----- the cut

  /** What one scan looks for: the key, and the bytes that end its value. */
  datatype Field = Field(key: Key, terms: seq<byte>)

  /** The input cut into kept bytes ending in a key, the value after each key, and the tail after the last. */
  datatype Parts = Done(tail: seq<byte>) | Piece(keep: seq<byte>, value: seq<byte>, rest: Parts)

  /** How far the value reaches: to the first terminator, or to the end. */
  function ValueLen(s: seq<byte>, terms: seq<byte>): (n: nat)
    ensures n <= |s|
  {
    if |s| == 0 || s[0] in terms then 0 else 1 + ValueLen(s[1..], terms)
  }

  predicate Free(value: seq<byte>, terms: seq<byte>) {
    forall i :: 0 <= i < |value| ==> value[i] !in terms
  }

  /** `value` has no terminator in it, and what follows is a terminator or nothing. */
  predicate IsValue(value: seq<byte>, after: seq<byte>, terms: seq<byte>) {
    Free(value, terms) && (after == [] || after[0] in terms)
  }

  lemma {:induction false} ValueLenUnique(value: seq<byte>, after: seq<byte>, terms: seq<byte>)
    requires IsValue(value, after, terms)
    ensures ValueLen(value + after, terms) == |value|
    decreases |value|
  {
    if |value| > 0 {
      assert (value + after)[1..] == value[1..] + after;
      ValueLenUnique(value[1..], after, terms);
    } else {
      assert value + after == after;
    }
  }

  lemma {:induction false} ValueLenFacts(s: seq<byte>, terms: seq<byte>)
    ensures IsValue(s[..ValueLen(s, terms)], s[ValueLen(s, terms)..], terms)
    decreases |s|
  {
    if |s| > 0 && s[0] !in terms {
      ValueLenFacts(s[1..], terms);
      var n := ValueLen(s[1..], terms);
      assert s[..n + 1] == [s[0]] + s[1..][..n];
      assert s[n + 1..] == s[1..][n..];
    }
  }

  function Split(s: seq<byte>, f: Field): Parts
    requires f.key.text != []
    decreases |s|
  {
    match FindKey(s, f.key)
    case None => Done(s)
    case Some(k) =>
      var m := k.end + ValueLen(s[k.end..], f.terms);
      Piece(s[..k.end], s[k.end..m], Split(s[m..], f))
  }

  function Source(p: Parts): seq<byte> {
    match p
    case Done(tail) => tail
    case Piece(keep, value, rest) => keep + value + Source(rest)
  }

  /** The same cut with every value replaced. */
  function Redacted(p: Parts): Parts {
    match p
    case Done(tail) => p
    case Piece(keep, value, rest) => Piece(keep, REDACTED, Redacted(rest))
  }

  /** What the scan outputs. */
  function Redact(s: seq<byte>, f: Field): seq<byte>
    requires f.key.text != []
  {
    Source(Redacted(Split(s, f)))
  }

  /** What makes a cut the scan's own: each kept stretch ends where its first key ends, each value ends at
      the first terminator, and the tail holds no key. */
  predicate Proper(p: Parts, f: Field)
    requires f.key.text != []
  {
    match p
    case Done(tail) => NoKey(tail, f.key)
    case Piece(keep, value, rest) =>
      && FindKey(Source(p), f.key).Some? && FindKey(Source(p), f.key).value.end == |keep|
      && IsValue(value, Source(rest), f.terms) && Proper(rest, f)
  }

  /** Frugality: the cut loses nothing and is proper, so the output keeps every byte outside the values, in order. */
  lemma {:induction false} SplitProper(s: seq<byte>, f: Field)
    requires f.key.text != []
    ensures Source(Split(s, f)) == s && Proper(Split(s, f), f)
    decreases |s|
  {
    hide Match, FindKey, ValueLen;
    FindKeyFacts(s, f.key);
    if FindKey(s, f.key).Some? {
      var e := FindKey(s, f.key).value.end;
      ValueLenFacts(s[e..], f.terms);
      var m := e + ValueLen(s[e..], f.terms);
      SplitProper(s[m..], f);
      assert s[e..][..m - e] == s[e..m] && s[e..][m - e..] == s[m..];
      assert s[..e] + s[e..m] + s[m..] == s;
    }
  }

  /** A proper cut is the only one: cutting its source again gives it back. */
  lemma {:induction false} SplitUnique(p: Parts, f: Field)
    requires f.key.text != [] && Proper(p, f)
    ensures Split(Source(p), f) == p
  {
    hide Match, FindKey, ValueLen;
    match p
    case Done(tail) =>
      FindKeyFacts(tail, f.key);
    case Piece(keep, value, rest) =>
      var s := Source(p);
      SplitUnique(rest, f);
      ValueLenUnique(value, Source(rest), f.terms);
      assert s[|keep|..] == value + Source(rest);
      assert s[..|keep|] == keep && s[|keep|..|keep| + |value|] == value && s[|keep| + |value|..] == Source(rest);
  }

  // ----- locality: the values do not influence the cut

  /** A first key stays the first key whatever is put after it: no escape at or before the key's end can
      reach past its '='. */
  lemma KeyStable(s: seq<byte>, s': seq<byte>, key: Key, k: Span)
    requires TokenKey(key) && IsFirstKey(s, key, k) && k.end <= |s'| && s[..k.end] == s'[..k.end]
    ensures IsFirstKey(s', key, k)
  {
    hide Match, ReadChar;
    var n := KeyEquals(s[k.start..], key, 0);
    SliceOfSlice(s, k.start, n, k.end - k.start);
    forall q | 0 <= q <= k.start ensures Match(s[q..], key, 0) == Match(s'[q..], key, 0) {
      SameUpToEquals(s, s', key, q, k.start + n, k.end);
    }
  }

  lemma SameUpToEquals(s: seq<byte>, s': seq<byte>, key: Key, q: nat, n: nat, e: nat)
    requires TokenKey(key) && q <= n < e <= |s| && e <= |s'| && s[..e] == s'[..e] && IsEquals(s[n..e], key.escaped)
    ensures Match(s[q..], key, 0) == Match(s'[q..], key, 0)
  {
    hide Match, ReadChar;
    var u, w := s[..e][q..n], s[..e][n..];
    assert w == s[n..e];
    assert s[q..] == u + w + s[e..];
    assert s'[q..] == s'[..e][q..n] + s'[..e][n..] + s'[e..];
    MatchBarrier(u, w, s[e..], s'[e..], key, 0);
  }

  /** Two cuts that differ only in their values. */
  predicate SameKeys(p: Parts, q: Parts) {
    match (p, q)
    case (Done(a), Done(b)) => a == b
    case (Piece(k, _, r), Piece(k', _, r')) => k == k' && SameKeys(r, r')
    case _ => false
  }

  predicate AllFree(p: Parts, terms: seq<byte>) {
    p.Piece? ==> Free(p.value, terms) && AllFree(p.rest, terms)
  }

  /** A proper cut starts with a kept byte, so replacing values cannot change the byte after a value. */
  lemma SameHead(p: Parts, q: Parts, f: Field)
    requires f.key.text != [] && Proper(p, f) && SameKeys(p, q)
    ensures Source(q) == [] <==> Source(p) == []
    ensures Source(p) != [] ==> Source(q)[0] == Source(p)[0]
  {
  }

  /** Non-interference: put any terminator-free bytes in place of the values and the scan cuts at the same
      places, so its output is the same. */
  lemma {:induction false} ValuesDoNotMatter(p: Parts, q: Parts, f: Field)
    requires TokenKey(f.key) && Proper(p, f) && SameKeys(p, q) && AllFree(q, f.terms)
    ensures Proper(q, f) && Redact(Source(q), f) == Redact(Source(p), f)
    decreases p
  {
    hide Match, FindKey;
    if p.Piece? {
      ValuesDoNotMatter(p.rest, q.rest, f);
      SameHead(p.rest, q.rest, f);
      PieceKeyStable(p, q, f);
    }
    SplitUnique(p, f);
    SplitUnique(q, f);
    SameKeysSameOutput(p, q);
  }

  lemma PieceKeyStable(p: Parts, q: Parts, f: Field)
    requires TokenKey(f.key) && p.Piece? && q.Piece? && p.keep == q.keep
    requires FindKey(Source(p), f.key).Some? && FindKey(Source(p), f.key).value.end == |p.keep|
    ensures FindKey(Source(q), f.key) == FindKey(Source(p), f.key)
    ensures IsFirstKey(Source(q), f.key, FindKey(Source(p), f.key).value)
  {
    hide Match, FindKey;
    var s, s' := Source(p), Source(q);
    FindKeyFacts(s, f.key);
    assert s[..|p.keep|] == p.keep == s'[..|p.keep|];
    KeyStable(s, s', f.key, FindKey(s, f.key).value);
    FindKeyUnique(s', f.key, FindKey(s, f.key).value);
  }

  lemma SameKeysSameOutput(p: Parts, q: Parts)
    requires SameKeys(p, q)
    ensures Redacted(p) == Redacted(q)
  {
  }

  lemma RedactedIsSame(p: Parts)
    ensures SameKeys(p, Redacted(p)) && Redacted(Redacted(p)) == Redacted(p)
  {
  }

  lemma RedactedAllFree(p: Parts, terms: seq<byte>)
    requires Free(REDACTED, terms)
    ensures AllFree(Redacted(p), terms)
  {
  }

  // ----- completeness

  /** `x` is REDACTED followed by a terminator or by nothing. */
  predicate Sealed(x: seq<byte>, terms: seq<byte>) {
    REDACTED <= x && (|x| == |REDACTED| || x[|REDACTED|] in terms)
  }

  /** If a key, in any spelling, starts at `q`, its value is sealed. */
  predicate SealedAt(out: seq<byte>, q: nat, f: Field)
    requires q <= |out|
  {
    Match(out[q..], f.key, 0).Some? ==> Sealed(out[q + Match(out[q..], f.key, 0).value..], f.terms)
  }

  /** Completeness, for every terminator set: whatever key can be read in the output, in any mix of literal, cased
      or nested-escaped spelling and at any position, its value is REDACTED. */
  lemma OutputSealed(s: seq<byte>, f: Field)
    requires TokenKey(f.key)
    ensures forall q :: 0 <= q <= |Redact(s, f)| ==> SealedAt(Redact(s, f), q, f)
  {
    hide Match, FindKey, Split, SealedAt;
    SplitProper(s, f);
    forall q | 0 <= q <= |Redact(s, f)| ensures SealedAt(Redact(s, f), q, f) {
      PartsSealed(Split(s, f), f, q);
    }
  }

  lemma {:induction false} PartsSealed(p: Parts, f: Field, q: nat)
    requires TokenKey(f.key) && Proper(p, f) && q <= |Source(Redacted(p))|
    ensures SealedAt(Source(Redacted(p)), q, f)
    decreases p
  {
    hide Match, FindKey;
    if p.Piece? {
      var n := |p.keep| + |REDACTED|;
      if q < |p.keep| {
        KeptSealed(p, f, q);
      } else {
        if n <= q {
          PartsSealed(p.rest, f, q - n);
        }
        AfterKeptSealed(p.keep, Source(Redacted(p.rest)), q, f);
      }
    }
  }

  lemma AfterKeptSealed(keep: seq<byte>, tail: seq<byte>, q: nat, f: Field)
    requires TokenKey(f.key) && |keep| <= q <= |keep| + |REDACTED| + |tail|
    requires |keep| + |REDACTED| <= q ==> SealedAt(tail, q - |keep| - |REDACTED|, f)
    ensures SealedAt(keep + REDACTED + tail, q, f)
  {
    if q < |keep| + |REDACTED| {
      MarkerSealed(keep, tail, q - |keep|, f);
    } else {
      SealedSuffix(keep + REDACTED, tail, q - |keep| - |REDACTED|, f);
    }
  }

  lemma MarkerSealed(a: seq<byte>, t: seq<byte>, i: nat, f: Field)
    requires TokenKey(f.key) && i < |REDACTED|
    ensures SealedAt(a + REDACTED + t, |a| + i, f)
  {
    hide Match;
    assert (a + REDACTED + t)[|a| + i..] == REDACTED[i..] + t;
    NoKeyInRedacted(i, t, f.key);
  }

  lemma SealedSuffix(a: seq<byte>, b: seq<byte>, q: nat, f: Field)
    requires q <= |b| && SealedAt(b, q, f)
    ensures SealedAt(a + b, |a| + q, f)
  {
    hide Match;
    assert (a + b)[|a| + q..] == b[q..];
    if Match(b[q..], f.key, 0).Some? {
      var n := q + Match(b[q..], f.key, 0).value;
      assert (a + b)[|a| + n..] == b[n..];
    }
  }

  lemma KeptSealed(p: Parts, f: Field, q: nat)
    requires TokenKey(f.key) && p.Piece? && Proper(p, f) && q < |p.keep|
    ensures SealedAt(Source(Redacted(p)), q, f)
  {
    hide Match, FindKey, Sealed;
    var out, n := Source(Redacted(p)), |p.keep|;
    PieceKeyStable(p, Redacted(p), f);
    var k := FindKey(Source(p), f.key).value;
    PieceSealed(p, f);
    if k.start <= q && Match(out[q..], f.key, 0).Some? {
      KeyTailEnds(out, f.key, k, q);
    }
  }

  /** A key read from inside a key that REDACTED follows ends with it. */
  lemma KeyTailEnds(out: seq<byte>, key: Key, k: Span, q: nat)
    requires TokenKey(key) && k.start <= q < k.end < |out| && out[k.end] == UPPER_R
    requires Match(out[k.start..], key, 0) == Some(k.end - k.start) && Match(out[q..], key, 0).Some?
    ensures q + Match(out[q..], key, 0).value == k.end
  {
    hide Match;
    var x := out[k.start..];
    assert x[q - k.start..] == out[q..];
    KeyInterior(x, key, 0, k.end - k.start, q - k.start, 0);
  }

  lemma PieceSealed(p: Parts, f: Field)
    requires f.key.text != [] && p.Piece? && Proper(p, f)
    ensures Sealed(Source(Redacted(p))[|p.keep|..], f.terms) && Source(Redacted(p))[|p.keep|] == UPPER_R
  {
    hide Match, FindKey;
    RedactedIsSame(p.rest);
    SameHead(p.rest, Redacted(p.rest), f);
    var out, tail := Source(Redacted(p)), Source(Redacted(p.rest));
    assert out[|p.keep|..] == REDACTED + tail;
  }

  // ----- idempotence

  /** Scanning the output again changes nothing, exactly when there was no key at all or no terminator is a
      byte of REDACTED. */
  lemma IdempotentIff(s: seq<byte>, f: Field)
    requires TokenKey(f.key)
    ensures Redact(Redact(s, f), f) == Redact(s, f) <==> NoKey(s, f.key) || Free(REDACTED, f.terms)
  {
    hide Match, FindKey, Proper;
    var p := Split(s, f);
    SplitProper(s, f);
    FindKeyFacts(s, f.key);
    RedactedIsSame(p);
    if Free(REDACTED, f.terms) {
      RedactedAllFree(p, f.terms);
      ValuesDoNotMatter(p, Redacted(p), f);
    } else if p.Piece? {
      var out := Redact(s, f);
      assert Match(s[FindKey(s, f.key).value.start..], f.key, 0).Some?;
      PieceKeyStable(p, Redacted(p), f);
      OutputSealed(s, f);
      SplitProper(out, f);
      SecondPassGrows(Split(out, f), f);
    }
  }

  // The terminator sets the callers pass.
  const COMPONENT_ENDS: seq<byte> := [47, 59, 63, 35]   // "/;?#", for opaque parts, paths and fragments
  const LITERAL_HOST_END: seq<byte> := [93]             // "]", for a bracketed host
  const USER_END: seq<byte> := [COLON]                  // ":", for user information
  const NO_END: seq<byte> := []                         // for other hosts and for query pairs

  /** They all leave the marker whole. */
  lemma CallersIdempotent(s: seq<byte>, terms: seq<byte>)
    requires terms in {COMPONENT_ENDS, LITERAL_HOST_END, USER_END, NO_END}
    ensures Redact(Redact(s, RawField(terms)), RawField(terms)) == Redact(s, RawField(terms))
  {
    hide Redact, NoKey;
    NeedleIsTokenKey(true);
    assert Free(REDACTED, terms);
    IdempotentIff(s, RawField(terms));
  }

  /** The bound is real for the scan itself: with 'R' as a terminator, "access_token=" grows at every pass. */
  lemma MarkerByteTerminatorGrows()
    ensures Redact(NEEDLE, RawField([UPPER_R])) == NEEDLE + REDACTED
    ensures Redact(NEEDLE + REDACTED, RawField([UPPER_R])) == NEEDLE + REDACTED + REDACTED
  {
    hide Match, FindKey, Redact, ValueLen;
    GrowsOnce([]);
    GrowsOnce(REDACTED);
    assert NEEDLE + [] == NEEDLE && NEEDLE + REDACTED + [] == NEEDLE + REDACTED;
  }

  /** The value before an 'R' is empty, so the marker is put in front of it. */
  lemma GrowsOnce(t: seq<byte>)
    requires t in {[], REDACTED}
    ensures Redact(NEEDLE + t, RawField([UPPER_R])) == NEEDLE + REDACTED + t
  {
    hide FindKey, Redact, ValueLen, Match;
    var f, s := RawField([UPPER_R]), NEEDLE + t;
    NeedleIsTokenKey(true);
    LiteralNeedle(t);
    assert s[0..] == s && s[13..] == t;
    FindKeyUnique(s, f.key, Span(0, 13));
    RedactPiece(s, f);
    ValueLenUnique([], t, f.terms);
    assert [] + t == t && t[0..] == t && s[..13] == NEEDLE;
    FindKeyFacts(t, f.key);
    MarkerHasNoKey(t, f.key);
    NoKeyKept(t, f);
  }

  lemma MarkerHasNoKey(t: seq<byte>, key: Key)
    requires t in {[], REDACTED} && TokenKey(key)
    ensures NoKey(t, key)
  {
    forall q | 0 <= q <= |t| ensures Match(t[q..], key, 0).None? {
      hide Match;
      if q < |t| {
        NoKeyInRedacted(q, [], key);
        assert REDACTED[q..] + [] == t[q..];
      } else {
        EmptyNoMatch(key);
        assert t[q..] == [];
      }
    }
  }

  lemma EmptyNoMatch(key: Key)
    requires key.text != []
    ensures Match([], key, 0).None?
  {
  }

  /** The key written out is a key. */
  lemma LiteralNeedle(t: seq<byte>)
    ensures Match(NEEDLE + t, Key(NEEDLE, true), 0) == Some(|NEEDLE|)
  {
    hide Match, SameLetter;
    var parts := LiteralParts(NEEDLE);
    LiteralPartsConcat(NEEDLE, parts);
    LiteralSpelling(NEEDLE);
    NeedleIsLower();
    assert NEEDLE[0..] == NEEDLE;
    SpellingMatches(parts, t, Key(NEEDLE, true), 0);
  }

  lemma LiteralSpelling(text: seq<byte>)
    ensures Spelling(LiteralParts(text), text, true)
  {
  }

  lemma NoKeyKept(s: seq<byte>, f: Field)
    requires f.key.text != [] && NoKey(s, f.key)
    ensures Redact(s, f) == s
  {
    hide Match, FindKey;
    FindKeyFacts(s, f.key);
  }

  /** With a terminator inside REDACTED a sealed value is cut short of the marker, so replacing it lengthens. */
  lemma {:induction false} SecondPassGrows(p: Parts, f: Field)
    requires f.key.text != [] && Proper(p, f) && !Free(REDACTED, f.terms)
    requires forall q :: 0 <= q <= |Source(p)| ==> SealedAt(Source(p), q, f)
    ensures if p.Piece? then |Source(Redacted(p))| > |Source(p)| else Redacted(p) == p
  {
    hide Match, FindKey, Sealed;
    if p.Piece? {
      var s, a := Source(p), p.keep + p.value;
      FindKeyFacts(s, f.key);
      assert SealedAt(s, FindKey(s, f.key).value.start, f);
      assert s[|p.keep|..] == p.value + Source(p.rest);
      SealedValueShort(p.value, Source(p.rest), f.terms);
      forall q | 0 <= q <= |Source(p.rest)| ensures SealedAt(Source(p.rest), q, f) {
        assert SealedAt(s, |a| + q, f);
        UnsealSuffix(a, Source(p.rest), q, f);
      }
      SecondPassGrows(p.rest, f);
    }
  }

  lemma SealedValueShort(value: seq<byte>, after: seq<byte>, terms: seq<byte>)
    requires Sealed(value + after, terms) && IsValue(value, after, terms) && !Free(REDACTED, terms)
    ensures |value| < |REDACTED|
  {
    var x := value + after;
    var i :| 0 <= i < |REDACTED| && REDACTED[i] in terms;
    assert x[i] == REDACTED[i];
    FreeStops(value, x, i, terms);
  }

  /** A terminator can only come after a value that is free of them. */
  lemma FreeStops(value: seq<byte>, x: seq<byte>, i: nat, terms: seq<byte>)
    requires value <= x && Free(value, terms) && i < |x|
    ensures x[i] in terms ==> |value| <= i
  {
  }

  lemma UnsealSuffix(a: seq<byte>, b: seq<byte>, q: nat, f: Field)
    requires q <= |b| && SealedAt(a + b, |a| + q, f)
    ensures SealedAt(b, q, f)
  {
    hide Match;
    assert (a + b)[|a| + q..] == b[q..];
    if Match(b[q..], f.key, 0).Some? {
      var n := q + Match(b[q..], f.key, 0).value;
      assert (a + b)[|a| + n..] == b[n..];
    }
  }

  /** One step of the cut. */
  lemma {:induction false} SplitPiece(s: seq<byte>, f: Field)
    requires f.key.text != [] && FindKey(s, f.key).Some?
    ensures var e := FindKey(s, f.key).value.end;
            var m := e + ValueLen(s[e..], f.terms);
            Split(s, f) == Piece(s[..e], s[e..m], Split(s[m..], f))
  {
    hide Match, FindKey, ValueLen;
  }

  /** One step of the rewrite. */
  lemma {:induction false} RedactPiece(s: seq<byte>, f: Field)
    requires f.key.text != [] && FindKey(s, f.key).Some?
    ensures var e := FindKey(s, f.key).value.end;
            Redact(s, f) == s[..e] + REDACTED + Redact(s[e + ValueLen(s[e..], f.terms)..], f)
  {
    hide Match, FindKey, ValueLen, Split;
    var e := FindKey(s, f.key).value.end;
    var m := e + ValueLen(s[e..], f.terms);
    var rest := Split(s[m..], f);
    SplitPiece(s, f);
    assert Source(Piece(s[..e], REDACTED, Redacted(rest))) == s[..e] + REDACTED + Source(Redacted(rest));
  }

  // ----- the step count

  /** Needle characters looked at before a match at the front of `s` is decided. */
  function MatchSteps(s: seq<byte>, key: Key, j: nat): nat
    requires j <= |key.text|
    decreases |key.text| - j
  {
    if j == |key.text| || |s| == 0 then 0
    else
      match ReadChar(s, key.escaped)
      case None => 1
      case Some(c) => if Fold(c.value) != key.text[j] then 1 else 1 + MatchSteps(s[c.len..], key, j + 1)
  }

  /** Steps of the forward scan: every match attempt, and every byte of every value. */
  function ScanSteps(s: seq<byte>, f: Field): nat
    requires f.key.text != []
    decreases |s|
  {
    if |s| == 0 then 0
    else
      MatchSteps(s, f.key, 0) +
      match Match(s, f.key, 0)
      case None => ScanSteps(s[1..], f)
      case Some(n) => var v := ValueLen(s[n..], f.terms); v + ScanSteps(s[n + v..], f)
  }

  lemma {:induction false} MatchStepsBound(s: seq<byte>, key: Key, j: nat)
    requires j <= |key.text|
    ensures MatchSteps(s, key, j) <= |key.text| - j
    decreases |key.text| - j
  {
    hide ReadChar;
    if j < |key.text| && ReadChar(s, key.escaped).Some? {
      MatchStepsBound(s[ReadChar(s, key.escaped).value.len..], key, j + 1);
    }
  }

  /** A match takes a step for every key character, and an attempt on any bytes at least one. */
  lemma {:induction false} MatchStepsExact(s: seq<byte>, key: Key, j: nat)
    requires j <= |key.text|
    ensures Match(s, key, j).Some? ==> MatchSteps(s, key, j) == |key.text| - j
    ensures j < |key.text| && s != [] ==> MatchSteps(s, key, j) >= 1
    decreases |key.text| - j
  {
    hide ReadChar;
    if j < |key.text| && ReadChar(s, key.escaped).Some? {
      MatchStepsExact(s[ReadChar(s, key.escaped).value.len..], key, j + 1);
    }
  }

  /** Nothing is scanned for free: every byte outside keys and values costs at least a step, every value byte one, and
      every key one for each of its characters. */
  lemma ScanStepsExact(s: seq<byte>, f: Field)
    requires f.key.text != []
    ensures NoKey(s, f.key) ==> ScanSteps(s, f) >= |s|
    ensures FindKey(s, f.key).Some? ==>
              var k := FindKey(s, f.key).value;
              var v := ValueLen(s[k.end..], f.terms);
              ScanSteps(s, f) >= k.start + |f.key.text| + v + ScanSteps(s[k.end + v..], f)
  {
    hide Match, FindKey, NoKey, ScanSteps, ValueLen;
    if NoKey(s, f.key) {
      QuietSteps(s, f);
    }
    if FindKey(s, f.key).Some? {
      KeySteps(s, f);
    }
  }

  lemma {:induction false} QuietSteps(s: seq<byte>, f: Field)
    requires f.key.text != [] && NoKey(s, f.key)
    ensures ScanSteps(s, f) >= |s|
    decreases |s|
  {
    hide Match, MatchSteps, ValueLen, NoKey;
    if |s| > 0 {
      MatchStepsExact(s, f.key, 0);
      TailNoKey(s, f.key);
      QuietSteps(s[1..], f);
    }
  }

  lemma {:induction false} KeySteps(s: seq<byte>, f: Field)
    requires f.key.text != [] && FindKey(s, f.key).Some?
    ensures var k := FindKey(s, f.key).value;
            var v := ValueLen(s[k.end..], f.terms);
            ScanSteps(s, f) >= k.start + |f.key.text| + v + ScanSteps(s[k.end + v..], f)
    decreases |s|
  {
    hide Match, MatchSteps, ValueLen;
    MatchStepsExact(s, f.key, 0);
    if Match(s, f.key, 0).None? {
      KeySteps(s[1..], f);
      var k := FindKey(s, f.key).value;
      var v := ValueLen(s[k.end..], f.terms);
      assert s[1..][k.end - 1..] == s[k.end..] && s[1..][k.end - 1 + v..] == s[k.end + v..];
    }
  }

  lemma TailNoKey(s: seq<byte>, key: Key)
    requires s != []
    ensures NoKey(s, key) ==> Match(s, key, 0).None? && NoKey(s[1..], key)
  {
    hide Match;
    assert s[0..] == s;
    assert forall q :: 0 <= q <= |s| - 1 ==> s[1..][q..] == s[q + 1..];
  }

  /** Every attempt costs at most one key length, and what a match and its value cost is less than a key length for each
      byte they cover. */
  lemma {:induction false} ScanStepsBound(s: seq<byte>, f: Field)
    requires f.key.text != []
    ensures ScanSteps(s, f) <= |f.key.text| * |s|
    decreases |s|
  {
    hide Match, MatchSteps, ValueLen;
    if |s| > 0 {
      var k := |f.key.text|;
      MatchStepsBound(s, f.key, 0);
      if Match(s, f.key, 0).None? {
        ScanStepsBound(s[1..], f);
        assert k * |s| == k + k * (|s| - 1);
      } else {
        var n := Match(s, f.key, 0).value;
        var v := ValueLen(s[n..], f.terms);
        ScanStepsBound(s[n + v..], f);
        PieceBudget(k, n, v, |s|);
      }
    }
  }

  lemma PieceBudget(k: nat, n: nat, v: nat, len: nat)
    requires 1 <= k && 1 <= n && n + v <= len
    ensures k + v + k * (len - n - v) <= k * len
  {
    assert k * len == k * (len - n - v) + k * n + k * v;
    assert k <= k * n && v <= k * v;
  }

  /** The whole scan is linear for every input: at most fourteen counted steps a byte, one of them for resolving
      escapes. */
  lemma ScanIsLinear(raw: seq<byte>, terminators: seq<byte>)
    ensures Steps(raw) + ScanSteps(raw, RawField(terminators)) <= 14 * |raw|
  {
    hide RawField, ScanSteps, Steps, TokenKey;
    RawKeyIsTokenKey(terminators);
    StepsLinear(raw);
    var f := RawField(terminators);
    ScanStepsBound(raw, f);
    assert |f.key.text| == 13;
  }

  // ----- the code

  /** matchAccessTokenNeedleRaw: the raw position after a key at `cursor`, and the steps it took to decide. */
  method MatchNeedleRaw(raw: seq<byte>, cursor: nat, key: Key, escapes: array?<PercentEscape>)
    returns (keyEnd: nat, steps: nat, ok: bool)
    requires TokenKey(key) && key.escaped && cursor <= |raw|
    requires escapes == null ==> PERCENT !in raw
    requires escapes != null ==>
               escapes.Length == |raw| && forall k :: 0 <= k < |raw| ==> escapes[k] == EscapeAt(raw, k)
    ensures ok <==> Match(raw[cursor..], key, 0).Some?
    ensures ok ==> keyEnd == cursor + Match(raw[cursor..], key, 0).value
    ensures steps == MatchSteps(raw[cursor..], key, 0) && steps <= |key.text|
  {
    hide Match, MatchSteps, EscapeAt;
    MatchStepsBound(raw[cursor..], key, 0);
    var needle := key.text;
    var pos: nat := cursor;
    for j := 0 to |needle|
      invariant cursor <= pos <= |raw|
      invariant Match(raw[cursor..], key, 0) == Grow(Match(raw[pos..], key, j), pos - cursor)
      invariant MatchSteps(raw[cursor..], key, 0) == j + MatchSteps(raw[pos..], key, j)
    {
      if pos >= |raw| {
        MatchOver(raw[pos..], key, j);
        return 0, j, false;
      }
      MatchAt(raw, key, pos, j);
      StepsAt(raw, key, pos, j);
      if Fold(raw[pos]) == needle[j] {
        pos := pos + 1;
      } else if escapes != null && escapes[pos].end != 0 && Fold(escapes[pos].value) == needle[j] {
        pos := escapes[pos].end;
      } else {
        return 0, j + 1, false;
      }
    }
    MatchOver(raw[pos..], key, |needle|);
    return pos, |needle|, true;
  }

  lemma {:induction false} MatchOver(s: seq<byte>, key: Key, j: nat)
    requires j <= |key.text| && (s == [] || j == |key.text|)
    ensures MatchSteps(s, key, j) == 0 && (j < |key.text| ==> Match(s, key, j).None?)
  {
  }

  /** The steps of one iteration of the needle loop. */
  lemma {:induction false} StepsAt(raw: seq<byte>, key: Key, pos: nat, j: nat)
    requires TokenKey(key) && key.escaped && pos < |raw| && j < |key.text|
    ensures MatchSteps(raw[pos..], key, j) ==
            if Fold(raw[pos]) == key.text[j] then 1 + MatchSteps(raw[pos + 1..], key, j + 1)
            else if EscapeAt(raw, pos).end != 0 && Fold(EscapeAt(raw, pos).value) == key.text[j] then
              1 + MatchSteps(raw[EscapeAt(raw, pos).end..], key, j + 1)
            else 1
  {
    hide ReadChar, EscapeAt;
    CharAt(raw, pos);
    var s := raw[pos..];
    assert s[1..] == raw[pos + 1..];
    if raw[pos] == PERCENT && EscapeAt(raw, pos).end != 0 {
      assert s[EscapeAt(raw, pos).end - pos..] == raw[EscapeAt(raw, pos).end..];
    }
  }

  function Grow(r: Option<nat>, n: nat): Option<nat> {
    match r
    case None => None
    case Some(l) => Some(n + l)
  }

  /** One iteration of the needle loop, read through the escape table. */
  lemma {:induction false} MatchAt(raw: seq<byte>, key: Key, pos: nat, j: nat)
    requires TokenKey(key) && key.escaped && pos < |raw| && j < |key.text|
    ensures Match(raw[pos..], key, j) ==
            if Fold(raw[pos]) == key.text[j] then Grow(Match(raw[pos + 1..], key, j + 1), 1)
            else if EscapeAt(raw, pos).end != 0 && Fold(EscapeAt(raw, pos).value) == key.text[j] then
              Grow(Match(raw[EscapeAt(raw, pos).end..], key, j + 1), EscapeAt(raw, pos).end - pos)
            else None
  {
    hide ReadChar, EscapeAt;
    CharAt(raw, pos);
    var s := raw[pos..];
    assert s[1..] == raw[pos + 1..];
    if raw[pos] == PERCENT && EscapeAt(raw, pos).end != 0 {
      assert s[EscapeAt(raw, pos).end - pos..] == raw[EscapeAt(raw, pos).end..];
    }
  }

  lemma CharAt(raw: seq<byte>, pos: nat)
    requires pos < |raw|
    ensures raw[pos] != PERCENT ==> EscapeAt(raw, pos).end == 0
    ensures ReadChar(raw[pos..], true) ==
            if raw[pos] != PERCENT then Some(Read(1, raw[pos]))
            else if EscapeAt(raw, pos).end == 0 then None
            else Some(Read(EscapeAt(raw, pos).end - pos, EscapeAt(raw, pos).value))
  {
    hide ReadChain;
    assert raw[pos..][1..] == raw[pos + 1..];
  }

  /** The scan of raw URI bytes: escapes count as spellings. */
  function RawField(terminators: seq<byte>): (f: Field)
    ensures f.key.text != [] && f.terms == terminators
  {
    Field(Key(NEEDLE, true), terminators)
  }

  /** What the raw scan takes for a key: exactly the bytes that spell "access_token=", each character in either case or
      as any nested escape. */
  lemma KeyAtIff(raw: seq<byte>, q: nat, n: nat)
    requires q + n <= |raw|
    ensures Match(raw[q..], RawField([]).key, 0) == Some(n) <==>
              exists parts :: Spelling(parts, Ascii("access_token="), true) && raw[q..q + n] == Concat(parts)
  {
    hide Match, Spelling, Lower;
    var key := RawField([]).key;
    TextConstants();
    NeedleIsLower();
    assert key.text[0..] == key.text;
    assert raw[q..] == raw[q..q + n] + raw[q + n..];
    if Match(raw[q..], key, 0) == Some(n) {
      var parts := MatchSpells(raw[q..], key, 0);
      assert raw[q..][..n] == raw[q..q + n];
    }
    if exists parts :: Spelling(parts, key.text, true) && raw[q..q + n] == Concat(parts) {
      var parts :| Spelling(parts, key.text, true) && raw[q..q + n] == Concat(parts);
      SpellingMatches(parts, raw[q + n..], key, 0);
    }
  }

  /** The terminator sets, as the callers write them. */
  lemma TerminatorTexts()
    ensures COMPONENT_ENDS == Ascii("/;?#") && LITERAL_HOST_END == Ascii("]") && USER_END == Ascii(":")
    ensures NO_END == Ascii("")
  {
  }

  /** In full, for an escaped '=': whatever the value, it is gone. */
  lemma EscapedEqualsRedacted(value: seq<byte>)
    ensures Redact(Ascii("access_token%3D") + value, RawField([])) == Ascii("access_token%3D") + Ascii("REDACTED")
  {
    hide Match, FindKey, Redact, Spelling;
    var head := Ascii("access_token%3D");
    var raw, f := head + value, RawField([]);
    var parts := LiteralParts(NEEDLE[..12]) + [Ascii("%3D")];
    TextConstants();
    EscapedKeySpelled();
    assert raw[0..] == raw && raw[0..0 + 15] == head && raw[..15] == head;
    KeyAtIff(raw, 0, 15);
    FindKeyUnique(raw, f.key, Span(0, 15));
    RedactPiece(raw, f);
    assert raw[15..] == value && value + [] == value;
    ValueLenUnique(value, [], []);
    assert raw[15 + |value|..] == [];
    FindKeyFacts([], f.key);
    NoKeyInEmpty(f);
    assert head + REDACTED + [] == head + REDACTED;
  }

  function LiteralParts(text: seq<byte>): seq<seq<byte>> {
    seq(|text|, i requires 0 <= i < |text| => [text[i]])
  }

  lemma {:induction false} LiteralPartsConcat(text: seq<byte>, parts: seq<seq<byte>>)
    requires parts == LiteralParts(text)
    ensures Concat(parts) == text
    decreases |text|
  {
    if |text| > 0 {
      LiteralPartsConcat(text[1..], parts[1..]);
      assert text == [text[0]] + text[1..];
    }
  }

  lemma EscapedKeySpelled()
    ensures var parts := LiteralParts(NEEDLE[..12]) + [Ascii("%3D")];
            Spelling(parts, NEEDLE, true) && Concat(parts) == Ascii("access_token%3D")
  {
    hide CharSpelling, LiteralParts;
    var name, equals := NEEDLE[..12], Ascii("%3D");
    var parts := LiteralParts(name) + [equals];
    LiteralPartsConcat(name, LiteralParts(name));
    LiteralSpelling(name);
    EscapedEquals();
    ConcatSnoc(parts);
    assert parts[..12] == LiteralParts(name) && NEEDLE == name + [EQUALS];
    assert name + equals == Ascii("access_token%3D") by {
      assert name == Ascii("access_token");
    }
  }

  lemma EscapedEquals()
    ensures CharSpelling(Ascii("%3D"), EQUALS, true)
  {
    hide SameLetter, ChainByte, SpellChain, ChainOk;
    var tree := Last(Literal(CharByte('3')), Literal(CharByte('D')));
    DigitPair(EQUALS, CharByte('3'), CharByte('D'));
    assert Ascii("%3D") == [PERCENT] + SpellChain(tree);
    Itself(EQUALS);
  }

  lemma Itself(c: byte)
    ensures SameLetter(c, c)
  {
  }

  lemma NoKeyInEmpty(f: Field)
    requires f.key.text != []
    ensures Redact([], f) == []
  {
  }

  lemma RawKeyIsTokenKey(terminators: seq<byte>)
    ensures TokenKey(RawField(terminators).key) && RawField(terminators).key.escaped
    ensures RawField(terminators).key == Key(NEEDLE, true) && |NEEDLE| == 13
  {
    hide TokenKey;
    NeedleIsTokenKey(true);
  }

  /** scanRawAccessTokenValues, with the work it counts. */
  method ScanRawAccessTokenValues(raw: seq<byte>, terminators: seq<byte>)
    returns (result: seq<byte>, found: bool, steps: nat)
    ensures result == Redact(raw, RawField(terminators))
    ensures found <==> !NoKey(raw, Key(NEEDLE, true))
    ensures !found ==> result == raw
    ensures steps == Steps(raw) + ScanSteps(raw, RawField(terminators)) && steps <= 14 * |raw|
  {
    hide Match, EscapeAt, Redact, ValueLen, RawField, TokenKey, NoKey, ScanSteps, MatchSteps, Steps, Scanning;
    RawKeyIsTokenKey(terminators);
    ScanIsLinear(raw, terminators);
    var needle := Key(NEEDLE, true);
    ghost var f := RawField(terminators);
    var escapes, resolveSteps := ResolvePercentEscapes(raw);
    steps := resolveSteps;
    var redacted: seq<byte> := [];
    var copied: nat, cursor: nat := 0, 0;
    ScanBegins(raw, f);
    while cursor < |raw|
      invariant copied <= cursor <= |raw| && Scanning(raw, f, redacted, copied, cursor, steps)
      invariant escapes != null ==>
                  escapes.Length == |raw| && forall k :: 0 <= k < |raw| ==> escapes[k] == EscapeAt(raw, k)
    {
      var keyEnd, matchSteps, ok := MatchNeedleRaw(raw, cursor, needle, escapes);
      ScanMoves(raw, f, redacted, copied, cursor, steps);
      steps := steps + matchSteps;
      if !ok {
        cursor := cursor + 1;
        continue;
      }
      var valueEnd := keyEnd + ValueLen(raw[keyEnd..], terminators);
      steps := steps + (valueEnd - keyEnd);
      redacted := redacted + raw[copied..keyEnd] + REDACTED;
      copied := valueEnd;
      cursor := valueEnd;
    }
    ScanEnds(raw, f, redacted, copied, steps);
    if redacted == [] {
      return raw, false, steps;
    }
    return redacted + raw[copied..], true, steps;
  }

  /** What the scan has done when it stands at `cursor`: the output so far is the rewrite of the first `copied` bytes,
      no key starts between there and the cursor, and the steps taken and to come are those of the whole. */
  ghost predicate Scanning(raw: seq<byte>, f: Field, redacted: seq<byte>, copied: nat, cursor: nat, steps: nat)
    requires f.key.text != [] && copied <= cursor <= |raw|
  {
    && redacted + Redact(raw[copied..], f) == Redact(raw, f)
    && (forall q :: copied <= q < cursor ==> Match(raw[q..], f.key, 0).None?)
    && (redacted == [] ==> copied == 0) && (redacted != [] ==> !NoKey(raw, f.key))
    && steps + ScanSteps(raw[cursor..], f) == Steps(raw) + ScanSteps(raw, f)
  }

  lemma ScanBegins(raw: seq<byte>, f: Field)
    requires f.key.text != []
    ensures Scanning(raw, f, [], 0, 0, Steps(raw))
  {
    hide Match, Redact, ScanSteps, Steps;
    assert raw[0..] == raw;
  }

  /** One iteration: past a byte where no key starts, or past a key and its value. */
  lemma ScanMoves(raw: seq<byte>, f: Field, redacted: seq<byte>, copied: nat, cursor: nat, steps: nat)
    requires f.key.text != [] && copied <= cursor < |raw| && Scanning(raw, f, redacted, copied, cursor, steps)
    ensures var taken := steps + MatchSteps(raw[cursor..], f.key, 0);
            match Match(raw[cursor..], f.key, 0)
            case None => Scanning(raw, f, redacted, copied, cursor + 1, taken)
            case Some(n) =>
              var keyEnd := cursor + n;
              var v := ValueLen(raw[keyEnd..], f.terms);
              Scanning(raw, f, redacted + raw[copied..keyEnd] + REDACTED, keyEnd + v, keyEnd + v, taken + v)
  {
    hide Match, Redact, ScanSteps, MatchSteps, Steps, ValueLen, NoKey;
    ScanStepsAt(raw, f, cursor);
    if Match(raw[cursor..], f.key, 0).Some? {
      ScanStep(raw, f, copied, cursor, cursor + Match(raw[cursor..], f.key, 0).value);
    }
  }

  lemma ScanEnds(raw: seq<byte>, f: Field, redacted: seq<byte>, copied: nat, steps: nat)
    requires f.key.text != [] && copied <= |raw| && Scanning(raw, f, redacted, copied, |raw|, steps)
    ensures redacted + raw[copied..] == Redact(raw, f) && steps == Steps(raw) + ScanSteps(raw, f)
    ensures redacted == [] <==> NoKey(raw, f.key)
    ensures redacted == [] ==> raw == Redact(raw, f)
  {
    hide Match, Redact, ScanSteps, Steps;
    NoKeyFrom(raw, f, copied);
    NoScanSteps(f);
    assert raw[|raw|..] == [] && raw[0..] == raw;
  }

  lemma NoScanSteps(f: Field)
    requires f.key.text != []
    ensures ScanSteps([], f) == 0
  {
  }

  /** The steps of one iteration of the scan. */
  lemma {:induction false} ScanStepsAt(raw: seq<byte>, f: Field, cursor: nat)
    requires f.key.text != [] && cursor < |raw|
    ensures var s := raw[cursor..];
            ScanSteps(s, f) == MatchSteps(s, f.key, 0) +
              match Match(s, f.key, 0)
              case None => ScanSteps(raw[cursor + 1..], f)
              case Some(n) =>
                var v := ValueLen(raw[cursor + n..], f.terms);
                v + ScanSteps(raw[cursor + n + v..], f)
  {
    hide Match, MatchSteps, ValueLen;
    var s := raw[cursor..];
    assert s[1..] == raw[cursor + 1..];
    if Match(s, f.key, 0).Some? {
      var n := Match(s, f.key, 0).value;
      assert s[n..] == raw[cursor + n..];
      var v := ValueLen(s[n..], f.terms);
      assert s[n + v..] == raw[cursor + n + v..];
    }
  }

  /** The scan's cursor is at the first key of what it has not copied yet. */
  lemma {:induction false} FirstKeyFrom(raw: seq<byte>, key: Key, copied: nat, cursor: nat, keyEnd: nat)
    requires key.text != [] && copied <= cursor < keyEnd <= |raw|
    requires Match(raw[cursor..], key, 0) == Some(keyEnd - cursor)
    requires forall q :: copied <= q < cursor ==> Match(raw[q..], key, 0).None?
    ensures FindKey(raw[copied..], key) == Some(Span(cursor - copied, keyEnd - copied))
    decreases cursor - copied
  {
    hide Match;
    if copied < cursor {
      FirstKeyFrom(raw, key, copied + 1, cursor, keyEnd);
      assert raw[copied..][1..] == raw[copied + 1..];
    }
  }

  /** One key of the scan. */
  lemma ScanStep(raw: seq<byte>, f: Field, copied: nat, cursor: nat, keyEnd: nat)
    requires f.key.text != [] && copied <= cursor < keyEnd <= |raw|
    requires Match(raw[cursor..], f.key, 0) == Some(keyEnd - cursor)
    requires forall q :: copied <= q < cursor ==> Match(raw[q..], f.key, 0).None?
    ensures !NoKey(raw, f.key)
    ensures Redact(raw[copied..], f)
         == raw[copied..keyEnd] + REDACTED + Redact(raw[keyEnd + ValueLen(raw[keyEnd..], f.terms)..], f)
  {
    hide Match, FindKey, Redact, ValueLen;
    FirstKeyFrom(raw, f.key, copied, cursor, keyEnd);
    RedactFrom(raw, f, copied, keyEnd);
  }

  lemma RedactFrom(raw: seq<byte>, f: Field, copied: nat, keyEnd: nat)
    requires f.key.text != [] && copied < keyEnd <= |raw|
    requires FindKey(raw[copied..], f.key).Some? && FindKey(raw[copied..], f.key).value.end == keyEnd - copied
    ensures Redact(raw[copied..], f)
         == raw[copied..keyEnd] + REDACTED + Redact(raw[keyEnd + ValueLen(raw[keyEnd..], f.terms)..], f)
  {
    hide Match, FindKey, ValueLen, Redact;
    var s, e := raw[copied..], keyEnd - copied;
    RedactPiece(s, f);
    SliceOfSlice(raw, copied, 0, e);
    SliceOfSlice(raw, copied, e, |s|);
    SliceOfSlice(raw, copied, e + ValueLen(s[e..], f.terms), |s|);
  }

  lemma NoKeyFrom(raw: seq<byte>, f: Field, copied: nat)
    requires f.key.text != [] && copied <= |raw|
    requires forall q :: copied <= q < |raw| ==> Match(raw[q..], f.key, 0).None?
    ensures Redact(raw[copied..], f) == raw[copied..]
    ensures copied == 0 ==> NoKey(raw, f.key)
  {
    hide Match, FindKey;
    var s := raw[copied..];
    FindKeyFacts(s, f.key);
    forall q | 0 <= q <= |s| ensures s[q..] == raw[copied + q..] { }
  }
}
