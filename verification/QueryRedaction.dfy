/** Redaction of a raw query (agentproto/auth_uri_redaction.go, redactAccessTokenRawQuery and the pair rewrite),
    over the real nested decoder: no reader of an output field, decoding it or not, finds a token. */
module QueryRedaction {
  import opened Wrappers
  import opened Bytes
  import opened EscapeGrammar
  import opened EscapeTable
  import opened PercentDecoder
  import opened KeyMatch
  import opened RawScan
  import opened TextRedaction

  // ----- the pair rewrite

  const PARAM_LEN := 12
  const LONG_S: seq<byte> := [197, 191]        // U+017F
  const KELVIN: seq<byte> := [226, 132, 170]   // U+212A

  /** strings.EqualFold(text, "access_token"): ASCII case folding, plus the two runes that fold into ASCII
      letters of the name, U+017F to 's' and U+212A to 'k'. */
  predicate FoldsToParam(text: seq<byte>, j: nat := 0)
    requires j <= PARAM_LEN
    decreases |text|
  {
    if j == PARAM_LEN then text == []
    else if |text| >= 1 && Fold(text[0]) == NEEDLE[j] then FoldsToParam(text[1..], j + 1)
    else if NEEDLE[j] == LOWER_S && LONG_S <= text then FoldsToParam(text[2..], j + 1)
    else NEEDLE[j] == LOWER_K && KELVIN <= text && FoldsToParam(text[3..], j + 1)
  }

  /** On ASCII text this is plain case-insensitive equality. */
  lemma {:induction false} FoldsToParamAscii(text: seq<byte>, j: nat)
    requires j <= PARAM_LEN && forall i :: 0 <= i < |text| ==> text[i] < 128
    ensures FoldsToParam(text, j) <==> |text| == PARAM_LEN - j && FoldsAt(text, 0, NEEDLE[j..PARAM_LEN])
    decreases |text|
  {
    if j < PARAM_LEN && |text| > 0 {
      FoldsToParamAscii(text[1..], j + 1);
      var a, b := NEEDLE[j..PARAM_LEN], NEEDLE[j + 1..PARAM_LEN];
      assert a == [NEEDLE[j]] + b;
      assert FoldsAt(text, 0, a) ==> Fold(text[0 + 0]) == a[0];
      assert FoldsAt(text, 0, a) ==> FoldsAt(text[1..], 0, b) by {
        assert forall i :: 0 <= i < |b| ==> b[i] == a[i + 1] && (i + 1 < |text| ==> text[1..][i] == text[i + 1]);
      }
      if FoldsAt(text[1..], 0, b) && Fold(text[0]) == NEEDLE[j] {
        forall i | 0 <= i < |a| ensures 0 + i < |text| && Fold(text[0 + i]) == a[i] {
          if i > 0 {
            assert Fold(text[1..][0 + (i - 1)]) == b[i - 1];
          }
        }
      }
    }
  }

  /** One spelling of the character `c` of the name: the byte in either case, or a rune that folds to it. */
  predicate ParamChar(w: seq<byte>, c: byte) {
    || (|w| == 1 && SameLetter(w[0], c))
    || (c == CharByte('s') && w == [0xC5, 0xBF])         // U+017F in UTF-8
    || (c == CharByte('k') && w == [0xE2, 0x84, 0xAA])   // U+212A in UTF-8
  }

  predicate ParamSpelling(parts: seq<seq<byte>>, text: seq<byte>) {
    |parts| == |text| && forall i :: 0 <= i < |text| ==> ParamChar(parts[i], text[i])
  }

  /** The parameter test holds of exactly the spellings of the name. */
  lemma FoldsToParamIff(text: seq<byte>)
    ensures FoldsToParam(text) <==> exists parts :: ParamSpelling(parts, Ascii("access_token")) && text == Concat(parts)
  {
    hide FoldsToParam, ParamSpelling;
    assert NEEDLE[0..PARAM_LEN] == Ascii("access_token");
    if FoldsToParam(text) {
      var parts := ParamSpells(text, 0);
    }
    if exists parts :: ParamSpelling(parts, NEEDLE[0..PARAM_LEN]) && text == Concat(parts) {
      var parts :| ParamSpelling(parts, NEEDLE[0..PARAM_LEN]) && text == Concat(parts);
      SpelledParam(parts, 0);
    }
  }

  lemma {:induction false} ParamSpells(text: seq<byte>, j: nat) returns (parts: seq<seq<byte>>)
    requires j <= PARAM_LEN && FoldsToParam(text, j)
    ensures ParamSpelling(parts, NEEDLE[j..PARAM_LEN]) && text == Concat(parts)
    decreases |text|
  {
    hide SameLetter, IsUpper;
    if j == PARAM_LEN {
      parts := [];
    } else {
      var n := if Fold(text[0]) == NEEDLE[j] then 1 else if NEEDLE[j] == LOWER_S then 2 else 3;
      FoldIff(text[0], NEEDLE[j]);
      var rest := ParamSpells(text[n..], j + 1);
      parts := [text[..n]] + rest;
      assert parts[1..] == rest && NEEDLE[j..PARAM_LEN] == [NEEDLE[j]] + NEEDLE[j + 1..PARAM_LEN];
      assert ParamChar(text[..n], NEEDLE[j]);
    }
  }

  lemma {:induction false} SpelledParam(parts: seq<seq<byte>>, j: nat)
    requires j <= PARAM_LEN && ParamSpelling(parts, NEEDLE[j..PARAM_LEN])
    ensures FoldsToParam(Concat(parts), j)
    decreases |parts|
  {
    hide SameLetter, IsUpper;
    if |parts| > 0 {
      var text, w := Concat(parts), parts[0];
      assert ParamChar(w, NEEDLE[j]) by {
        assert NEEDLE[j..PARAM_LEN][0] == NEEDLE[j];
      }
      NeedleIsLower();
      FoldIff(w[0], NEEDLE[j]);
      assert NEEDLE[j..PARAM_LEN][1..] == NEEDLE[j + 1..PARAM_LEN];
      SpelledParam(parts[1..], j + 1);
      assert text == w + Concat(parts[1..]) && text[|w|..] == Concat(parts[1..]);
      assert w <= text;
    }
  }

  /** The index of the first '=', or the length when there is none. */
  function KeyLen(pair: seq<byte>): (n: nat)
    ensures n <= |pair| && (n < |pair| ==> pair[n] == EQUALS) && EQUALS !in pair[..n]
  {
    if |pair| == 0 || pair[0] == EQUALS then 0
    else
      var n := KeyLen(pair[1..]);
      assert pair[..n + 1] == [pair[0]] + pair[1..][..n];
      n + 1
  }

  /** percentDecodedBoundary: the raw offset where a decoded offset begins. */
  function Boundary(view: seq<Decoded>, offset: nat, rawLength: nat): nat {
    if offset >= |view| then rawLength else view[offset].start
  }

  /** redactPercentEncodedAccessTokenText: everything after the first key of the decoded view. */
  function DecodedPass(raw: seq<byte>, plus: bool): seq<byte> {
    var view := Decode(raw, plus);
    match FindKey(Text(view), LiteralKey())
    case None => raw
    case Some(k) =>
      DecodeView(raw, plus);
      raw[..Boundary(view, k.end, |raw|)] + REDACTED
  }

  predicate ParamKey(pair: seq<byte>) {
    FoldsToParam(Text(Decode(pair[..KeyLen(pair)], true)))
  }

  /** redactAccessTokenQueryPair. */
  function PairRewrite(pair: seq<byte>): seq<byte> {
    if ParamKey(pair) then pair[..KeyLen(pair)] + [EQUALS] + REDACTED
    else Redact(DecodedPass(pair, true), RawField([]))
  }

  // ----- '=' as a checkpoint of the decoder

  /** Once a spelled '=' has been read, the decoder has '=' on top and never touches what is below. */
  lemma EqualsCheckpoint(s: seq<byte>, n: nat, e: nat, plus: bool)
    requires n < e <= |s| && IsEquals(s[n..e], true)
    ensures Decode(s[..e], plus) == Decode(s[..n], plus) + [Decoded(EQUALS, n, e)]
    ensures Decode(s[..e], plus) <= Decode(s, plus)
  {
    hide Feed, IsEquals;
    var u, w, t := s[..n], s[n..e], s[e..];
    var st := Decode(u, plus);
    assert s[..e] == u + w && s == s[..e] + t;
    FeedAppend([], u, w, 0, plus);
    FeedAppend([], s[..e], t, 0, plus);
    FeedEquals(st, w, n, plus);
    FeedShielded(st + [Decoded(EQUALS, n, e)], st + [Decoded(EQUALS, n, e)], t, e, plus);
  }

  lemma FeedEquals(st: seq<Decoded>, w: seq<byte>, at: nat, plus: bool)
    requires IsEquals(w, true)
    ensures Feed(st, w, at, plus) == st + [Decoded(EQUALS, at, at + |w|)]
  {
    hide ReadChain;
    if w[0] == PERCENT {
      FeedEscape(st, w, at, plus);
    } else {
      assert w[1..] == [];
    }
  }

  /** An '=' in the decoded view comes from a spelled '=' of the raw bytes, and cutting the raw bytes after it
      cuts the view after it. */
  lemma ViewCheckpoint(raw: seq<byte>, plus: bool, i: nat)
    requires i < |Decode(raw, plus)| && Decode(raw, plus)[i].value == EQUALS
    ensures var b := Boundary(Decode(raw, plus), i + 1, |raw|);
            b <= |raw| && Decode(raw[..b], plus) == Decode(raw, plus)[..i + 1]
  {
    hide Feed;
    DecodeView(raw, plus);
    var view := Decode(raw, plus);
    var e := view[i];
    assert Derived(raw, plus, e);
    assert Boundary(view, i + 1, |raw|) == e.end by {
      assert i + 1 < |view| ==> view[i + 1 - 1].end == view[i + 1].start;
    }
    DerivedEquals(raw, plus, e);
    EqualsCheckpoint(raw, e.start, e.end, plus);
    SameStartSameIndex(view, |raw|, i, |Decode(raw[..e.start], plus)|);
  }

  lemma DerivedEquals(raw: seq<byte>, plus: bool, e: Decoded)
    requires Derived(raw, plus, e) && e.value == EQUALS
    ensures IsEquals(raw[e.start..e.end], true)
  {
    if EscapeAt(raw, e.start) == PercentEscape(e.end, e.value) {
      ResolvedWord(raw, e.start, e.end);
    }
  }

  lemma SameStartSameIndex(view: seq<Decoded>, len: nat, i: nat, j: nat)
    requires Tiles(view, 0, len) && i < |view| && j < |view| && view[i].start == view[j].start
    ensures i == j
  {
    StartsIncrease(view, len, i, j);
    StartsIncrease(view, len, j, i);
  }

  lemma {:induction false} StartsIncrease(view: seq<Decoded>, len: nat, i: nat, j: nat)
    requires Tiles(view, 0, len) && i < |view| && j < |view|
    ensures i < j ==> view[i].start < view[j].start
    decreases j
  {
    if i < j {
      assert view[j - 1].end == view[j].start;
      StartsIncrease(view, len, i, j - 1);
    }
  }

  /** The marker passes through the decoder unchanged after a fully decoded prefix. */
  lemma MarkerDecodes(a: seq<byte>, plus: bool)
    ensures Text(Decode(a + REDACTED, plus)) == Text(Decode(a, plus)) + REDACTED
    ensures Decode(a, plus) <= Decode(a + REDACTED, plus)
  {
    hide Feed;
    var st := Decode(a, plus);
    DecodeView(a, plus);
    FeedAppend([], a, REDACTED, 0, plus);
    var t := Text(st) + REDACTED;
    forall k | 0 <= k && k + 3 <= |t| ensures !EscapeIn(t, k) {
      if k + 3 <= |st| {
        assert !Reducible(st, k);
      } else if k < |st| {
        assert t[|st|] == UPPER_R;
      } else {
        assert t[k] == REDACTED[k - |st|];
      }
    }
    FeedStableText(st, REDACTED, |a|, plus);
  }

  // ----- what an output field promises

  /** Every key a non-decoding reader can match, in any spelling, has exactly REDACTED as its value. */
  predicate RawSealed(out: seq<byte>) {
    forall q :: 0 <= q <= |out| ==> SealedAt(out, q, RawField([]))
  }

  /** Every key in the fully decoded view has exactly REDACTED as its value. */
  predicate ViewSealed(out: seq<byte>) {
    TextSealed(Text(Decode(out, true)))
  }

  predicate TextSealed(text: seq<byte>) {
    forall q :: 0 <= q <= |text| && FoldsAt(text, q, NEEDLE) ==> text[q + |NEEDLE|..] == REDACTED
  }

  /** An occurrence ends in '='. */
  lemma OccurrenceEnds(text: seq<byte>, q: nat)
    requires FoldsAt(text, q, NEEDLE)
    ensures text[q + 12] == EQUALS
  {
    assert Fold(text[q + 12]) == NEEDLE[12];
  }

  /** A text that ends in '=' and the marker, whose part before that '=' already keeps the promise within a longer
      text that has the same '=', keeps the promise. */
  lemma MarkedTextSealed(before: seq<byte>, longer: seq<byte>)
    requires TextSealed(longer) && before + [EQUALS] <= longer
    ensures TextSealed(before + [EQUALS] + REDACTED)
  {
    var n, text := |before|, before + [EQUALS] + REDACTED;
    assert forall j :: 0 <= j < n + 1 ==> text[j] == (before + [EQUALS])[j] && text[j] == longer[j];
    forall q | 0 <= q <= |text| && FoldsAt(text, q, NEEDLE) ensures text[q + |NEEDLE|..] == REDACTED {
      OccurrenceEnds(text, q);
      NoEqualsInMarker(before, q + 12);
      assert q + 12 == n by {
        if q + 12 < n {
          assert FoldsAt(longer, q, NEEDLE);
          LaterNotEquals(longer, q, n);
        }
      }
    }
  }

  lemma NoEqualsInMarker(before: seq<byte>, i: nat)
    requires i < |before + [EQUALS] + REDACTED|
    ensures i > |before| ==> (before + [EQUALS] + REDACTED)[i] != EQUALS && (before + [EQUALS] + REDACTED)[i] != PERCENT
  {
    if i > |before| {
      assert (before + [EQUALS] + REDACTED)[i] == REDACTED[i - |before| - 1];
    }
  }

  lemma LaterNotEquals(text: seq<byte>, q: nat, n: nat)
    requires TextSealed(text) && FoldsAt(text, q, NEEDLE) && q + 12 < n < |text|
    ensures text[n] != EQUALS
  {
    assert text[n] == text[q + |NEEDLE|..][n - q - 13];
  }

  lemma {:induction false} ParamBytes(text: seq<byte>, j: nat)
    requires j <= PARAM_LEN && FoldsToParam(text, j)
    ensures EQUALS !in text && UPPER_D !in text
    decreases |text|
  {
    if j < PARAM_LEN {
      if |text| >= 1 && Fold(text[0]) == NEEDLE[j] {
        ParamBytes(text[1..], j + 1);
        NeedleBytes(j);
        assert text == [text[0]] + text[1..];
      } else if NEEDLE[j] == LOWER_S && LONG_S <= text {
        ParamBytes(text[2..], j + 1);
        assert text == LONG_S + text[2..];
      } else {
        ParamBytes(text[3..], j + 1);
        assert text == KELVIN + text[3..];
      }
    }
  }

  lemma NeedleBytes(j: nat)
    requires j < PARAM_LEN
    ensures NEEDLE[j] != EQUALS && NEEDLE[j] != LOWER_D
  {
  }

  // ----- the pair rewrite keeps the promise

  /** The decoded pass seals the view. */
  lemma DecodedPassSealed(raw: seq<byte>)
    ensures ViewSealed(DecodedPass(raw, true))
  {
    hide FindKey, Feed, Match;
    NeedleIsTokenKey(false);
    var view := Decode(raw, true);
    var text := Text(view);
    FindKeyFacts(text, LiteralKey());
    match FindKey(text, LiteralKey())
    case None =>
      forall q | 0 <= q <= |text| ensures !FoldsAt(text, q, NEEDLE) {
        OccurrenceMatches(text, q);
      }
    case Some(k) =>
      FirstKeyIsOccurrence(text, k);
      OccurrenceEnds(text, k.start);
      ViewCheckpoint(raw, true, k.end - 1);
      DecodeView(raw, true);
      var b := Boundary(view, k.end, |raw|);
      MarkerDecodes(raw[..b], true);
      assert Text(Decode(raw[..b], true)) == text[..k.end];
      CutTextSealed(text, k);
  }

  lemma FirstKeyIsOccurrence(text: seq<byte>, k: Span)
    requires IsFirstKey(text, LiteralKey(), k)
    ensures FoldsAt(text, k.start, NEEDLE) && k.end == k.start + |NEEDLE|
    ensures forall q: nat :: q < k.start ==> !FoldsAt(text, q, NEEDLE)
  {
    hide Match;
    OccurrenceMatches(text, k.start);
    forall q: nat | q < k.start ensures !FoldsAt(text, q, NEEDLE) {
      OccurrenceMatches(text, q);
    }
  }

  /** Cutting a text after its first key and adding the marker seals it. */
  lemma CutTextSealed(text: seq<byte>, k: Span)
    requires FoldsAt(text, k.start, NEEDLE) && k.end == k.start + |NEEDLE|
    requires forall q: nat :: q < k.start ==> !FoldsAt(text, q, NEEDLE)
    ensures TextSealed(text[..k.end] + REDACTED)
  {
    var before := text[..k.end - 1];
    OccurrenceEnds(text, k.start);
    assert text[..k.end] == before + [EQUALS];
    var out := text[..k.end] + REDACTED;
    forall q | 0 <= q <= |out| && FoldsAt(out, q, NEEDLE) ensures out[q + |NEEDLE|..] == REDACTED {
      OccurrenceEnds(out, q);
      NoEqualsInMarker(before, q + 12);
      assert FoldsAt(text, q, NEEDLE) by {
        assert forall j :: 0 <= j < k.end ==> out[j] == text[j];
      }
    }
  }

  /** The raw scan after it seals the raw bytes and keeps the view sealed. */
  lemma RawScanKeepsView(d: seq<byte>)
    requires ViewSealed(d)
    ensures ViewSealed(Redact(d, RawField([]))) && RawSealed(Redact(d, RawField([])))
  {
    hide FindKey, Match, Decode, TextSealed, SealedAt;
    var f := RawField([]);
    NeedleIsTokenKey(true);
    OutputSealed(d, f);
    FindKeyFacts(d, f.key);
    if FindKey(d, f.key).Some? {
      var k := FindKey(d, f.key).value;
      RedactToEnd(d);
      var n := KeyEquals(d[k.start..], f.key, 0);
      SliceOfSlice(d, k.start, n, k.end - k.start);
      n := k.start + n;
      EqualsCheckpoint(d, n, k.end, true);
      MarkerDecodes(d[..k.end], true);
      var before := Text(Decode(d[..n], true));
      assert Text(Decode(d[..k.end], true)) == before + [EQUALS];
      assert before + [EQUALS] <= Text(Decode(d, true));
      MarkedTextSealed(before, Text(Decode(d, true)));
    }
  }

  /** Without terminators the value runs to the end, so only the first key matters. */
  lemma RedactToEnd(d: seq<byte>)
    requires FindKey(d, RawField([]).key).Some?
    ensures Redact(d, RawField([])) == d[..FindKey(d, RawField([]).key).value.end] + REDACTED
  {
    hide FindKey, Match, ValueLen;
    var f := RawField([]);
    var e := FindKey(d, f.key).value.end;
    RedactPiece(d, f);
    ValueLenUnique(d[e..], [], []);
    assert d[e..] + [] == d[e..];
    assert d[|d|..] == [];
    FindKeyFacts([], f.key);
    EmptyRedact();
  }

  lemma EmptyRedact()
    ensures Redact([], RawField([])) == []
  {
  }

  /** A pair whose decoded key is access_token loses its whole value, and nothing else in it reads as a key. */
  lemma ParamPairSealed(pair: seq<byte>)
    requires ParamKey(pair)
    ensures ViewSealed(PairRewrite(pair)) && RawSealed(PairRewrite(pair))
  {
    hide Match, Decode, FoldsToParam, TextSealed, SealedAt;
    var key, out := pair[..KeyLen(pair)], PairRewrite(pair);
    ParamBytes(Text(Decode(key, true)), 0);
    ParamPairView(key);
    forall q | 0 <= q <= |out| ensures SealedAt(out, q, RawField([])) {
      ParamPairRaw(key, q);
    }
  }

  lemma ParamPairView(key: seq<byte>)
    requires EQUALS !in Text(Decode(key, true))
    ensures ViewSealed(key + [EQUALS] + REDACTED)
  {
    hide Decode, TextSealed, ReadChain;
    var view, cut, n := Text(Decode(key, true)), key + [EQUALS], |key|;
    assert cut[n..n + 1] == [EQUALS] && cut[..n] == key && cut[..n + 1] == cut;
    assert [EQUALS][1..] == [];
    EqualsCheckpoint(cut, n, n + 1, true);
    MarkerDecodes(cut, true);
    assert Text(Decode(cut, true)) == view + [EQUALS];
    OneEqualsSealed(view);
  }

  /** In a text whose only '=' stands right before the marker, the marker follows every key. */
  lemma OneEqualsSealed(view: seq<byte>)
    requires EQUALS !in view
    ensures TextSealed(view + [EQUALS] + REDACTED)
  {
    var text := view + [EQUALS] + REDACTED;
    forall q | 0 <= q <= |text| && FoldsAt(text, q, NEEDLE) ensures text[q + |NEEDLE|..] == REDACTED {
      OccurrenceEnds(text, q);
      OneEquals(view, q + 12);
    }
  }

  lemma OneEquals(view: seq<byte>, i: nat)
    requires EQUALS !in view && i < |view + [EQUALS] + REDACTED|
    ensures (view + [EQUALS] + REDACTED)[i] == EQUALS ==> i == |view|
  {
    NoEqualsInMarker(view, i);
    if i < |view| {
      assert (view + [EQUALS] + REDACTED)[i] == view[i];
    }
  }

  /** A raw key in such a pair ends at its '='. */
  lemma ParamPairRaw(key: seq<byte>, q: nat)
    requires EQUALS !in key && EQUALS !in Text(Decode(key, true)) && q <= |key| + 1 + |REDACTED|
    ensures SealedAt(key + [EQUALS] + REDACTED, q, RawField([]))
  {
    hide Match, IsEquals;
    var out, k := key + [EQUALS] + REDACTED, RawField([]).key;
    NeedleIsTokenKey(true);
    if Match(out[q..], k, 0).Some? {
      var l := Match(out[q..], k, 0).value;
      var n := KeyEquals(out[q..], k, 0);
      SliceOfSlice(out, q, n, l);
      EqualsTokenPlace(key, q + n, q + l);
      assert out[|key| + 1..] == REDACTED;
    }
  }

  /** The only spelled '=' is the literal one after the key. */
  lemma EqualsTokenPlace(key: seq<byte>, n: nat, e: nat)
    requires EQUALS !in key && EQUALS !in Text(Decode(key, true))
    requires n < e <= |key + [EQUALS] + REDACTED| && IsEquals((key + [EQUALS] + REDACTED)[n..e], true)
    ensures e == |key| + 1
  {
    var out := key + [EQUALS] + REDACTED;
    var w := out[n..e];
    OneEquals(key, n);
    NoEqualsInMarker(key, n);
    assert e > |key| by {
      if e <= |key| {
        assert w == key[n..e];
        TokenShows(key, n, e);
      }
    }
    assert w[0] == EQUALS by {
      if w[0] == PERCENT {
        EqualsTokenHex(w, |key| - n);
      }
    }
  }

  /** A spelled '=' shows as '=' in the view. */
  lemma TokenShows(key: seq<byte>, n: nat, e: nat)
    requires n < e <= |key| && IsEquals(key[n..e], true)
    ensures EQUALS in Text(Decode(key, true))
  {
    hide Feed, IsEquals;
    EqualsCheckpoint(key, n, e, true);
    var i := |Decode(key[..n], true)|;
    assert Decode(key[..e], true)[i].value == EQUALS;
    assert Text(Decode(key, true))[i] == EQUALS;
  }

  /** Inside an escaped '=' there are only hex digits and '%'. */
  lemma EqualsTokenHex(w: seq<byte>, i: nat)
    requires IsEquals(w, true) && w[0] == PERCENT && i < |w|
    ensures w[i] == PERCENT || HexValue(w[i]).Some?
  {
    if i > 0 {
      ChainInterior(w[1..]);
      assert w[1..][i - 1..] == w[i..];
    }
  }

  /** Completeness of the pair rewrite: neither reading of an output field shows anything after a key but REDACTED. */
  lemma PairSealed(pair: seq<byte>)
    ensures ViewSealed(PairRewrite(pair)) && RawSealed(PairRewrite(pair))
  {
    hide ParamKey, DecodedPass, ViewSealed, RawSealed, Redact;
    if ParamKey(pair) {
      ParamPairSealed(pair);
    } else {
      DecodedPassSealed(pair);
      RawScanKeepsView(DecodedPass(pair, true));
    }
  }

  // ----- the shape of a rewritten pair

  /** A spelled '=' in bytes that end in the marker ends before the marker. */
  lemma TokenBeforeMarker(a: seq<byte>, n: nat, e: nat)
    requires n < e <= |a + REDACTED| && IsEquals((a + REDACTED)[n..e], true)
    ensures e <= |a|
  {
    var w := (a + REDACTED)[n..e];
    assert n < |a| by {
      if n >= |a| {
        MarkerByte(a, n);
      }
    }
    assert e <= |a| by {
      if e > |a| && w[0] == PERCENT {
        EqualsTokenHex(w, |a| - n);
      }
    }
  }

  lemma MarkerByte(a: seq<byte>, i: nat)
    requires |a| <= i < |a + REDACTED|
    ensures (a + REDACTED)[i] != EQUALS && (a + REDACTED)[i] != PERCENT
  {
    assert (a + REDACTED)[i] == REDACTED[i - |a|];
  }

  /** Whether the pair rewrite reports a finding. */
  predicate PairFound(pair: seq<byte>) {
    || ParamKey(pair)
    || FindKey(Text(Decode(pair, true)), LiteralKey()).Some?
    || FindKey(DecodedPass(pair, true), RawField([]).key).Some?
  }

  /** The raw bytes of `a` end in a spelled key. */
  predicate RawEnds(a: seq<byte>) {
    exists q :: 0 <= q <= |a| && Match(a[q..], RawField([]).key, 0) == Some(|a| - q)
  }

  /** The decoded view of `a` ends in a key. */
  predicate ViewEnds(a: seq<byte>) {
    var t := Text(Decode(a, true));
    |t| >= |NEEDLE| && FoldsAt(t, |t| - |NEEDLE|, NEEDLE)
  }

  predicate EndsInKey(a: seq<byte>) {
    RawEnds(a) || ViewEnds(a)
  }

  /** `n` is the first place of `pair` at which either reading has seen a key. */
  predicate IsFirstCut(pair: seq<byte>, n: nat) {
    n <= |pair| && EndsInKey(pair[..n]) && forall m :: 0 <= m < n ==> !EndsInKey(pair[..m])
  }

  /** The last byte of a view that ends in a key is a spelled '=' at the end of the raw bytes. */
  lemma ViewEndsInEquals(a: seq<byte>) returns (i: nat)
    requires ViewEnds(a)
    ensures i < |a| && IsEquals(a[i..|a|], true)
  {
    hide Decode, IsEquals, Derived;
    var view := Decode(a, true);
    OccurrenceEnds(Text(view), |view| - |NEEDLE|);
    LastEntry(a);
    DerivedEquals(a, true, view[|view| - 1]);
    i := view[|view| - 1].start;
  }

  lemma LastEntry(a: seq<byte>)
    requires Decode(a, true) != []
    ensures var e := Decode(a, true)[|Decode(a, true)| - 1];
            e.start < e.end == |a| && Derived(a, true, e)
  {
    hide Decode, Derived;
    DecodeView(a, true);
  }

  lemma RawEndsInEquals(a: seq<byte>) returns (i: nat)
    requires RawEnds(a)
    ensures i < |a| && IsEquals(a[i..|a|], true)
  {
    hide Match, IsEquals;
    NeedleIsTokenKey(true);
    var q :| 0 <= q <= |a| && Match(a[q..], RawField([]).key, 0) == Some(|a| - q);
    var n := KeyEquals(a[q..], RawField([]).key, 0);
    SliceOfSlice(a, q, n, |a| - q);
    i := q + n;
  }

  /** A prefix whose view ends in a key shows that key in the whole view, so the decoded cut comes no later. */
  lemma ViewEndsCut(pair: seq<byte>, m: nat)
    requires m <= |pair| && ViewEnds(pair[..m])
    ensures var k := FindKey(Text(Decode(pair, true)), LiteralKey());
            k.Some? && Boundary(Decode(pair, true), k.value.end, |pair|) <= m
  {
    hide Decode, FindKey, Match, IsEquals, LiteralKey, Tiles;
    var a, view := pair[..m], Decode(pair, true);
    var i := ViewEndsInEquals(a);
    assert pair[i..m] == a[i..|a|];
    EqualsCheckpoint(pair, i, m, true);
    var n := |Decode(a, true)|;
    assert Text(Decode(a, true)) <= Text(view);
    KeySeenBy(Text(view), Text(Decode(a, true)));
    DecodeView(pair, true);
    DecodeView(a, true);
    PrefixBoundary(view, |pair|, Decode(a, true), m);
    BoundaryMonotone(view, |pair|, FindKey(Text(view), LiteralKey()).value.end, n);
  }

  /** Where a decoded prefix of the raw bytes ends, the view's boundary is. */
  lemma PrefixBoundary(view: seq<Decoded>, len: nat, prefix: seq<Decoded>, m: nat)
    requires Tiles(view, 0, len) && Tiles(prefix, 0, m) && prefix <= view && prefix != []
    ensures Boundary(view, |prefix|, len) == m
  {
    var n := |prefix|;
    assert view[n - 1] == prefix[n - 1];
    assert n < |view| ==> view[n - 1].end == view[n].start;
  }

  /** A text whose prefix ends in a key has its first key end no later. */
  lemma KeySeenBy(text: seq<byte>, prefix: seq<byte>)
    requires prefix <= text && |prefix| >= |NEEDLE| && FoldsAt(prefix, |prefix| - |NEEDLE|, NEEDLE)
    ensures FindKey(text, LiteralKey()).Some? && FindKey(text, LiteralKey()).value.end <= |prefix|
  {
    hide FindKey, Match;
    var q := |prefix| - |NEEDLE|;
    assert FoldsAt(text, q, NEEDLE);
    OccurrenceMatches(text, q);
    FindKeyFacts(text, LiteralKey());
    FirstKeyIsOccurrence(text, FindKey(text, LiteralKey()).value);
  }

  lemma BoundaryMonotone(view: seq<Decoded>, len: nat, i: nat, j: nat)
    requires Tiles(view, 0, len) && i <= j
    ensures Boundary(view, i, len) <= Boundary(view, j, len)
  {
    if j < |view| {
      StartsIncrease(view, len, i, j);
    } else {
      BoundaryInside(view, len, i);
    }
  }

  /** A key that ends a prefix is a key of any bytes with that prefix. */
  lemma KeyKept(a: seq<byte>, d: seq<byte>, q: nat)
    requires a <= d && q <= |a| && Match(a[q..], RawField([]).key, 0) == Some(|a| - q)
    ensures Match(d[q..], RawField([]).key, 0) == Some(|a| - q)
  {
    hide Match, IsEquals;
    var key := RawField([]).key;
    NeedleIsTokenKey(true);
    var n := KeyEquals(a[q..], key, 0);
    SliceOfSlice(a, q, n, |a| - q);
    assert a[..|a|] == a == d[..|a|];
    SameUpToEquals(a, d, key, q, q + n, |a|);
  }

  /** The first key to start is the first to end. */
  lemma RawEndsCut(a: seq<byte>, d: seq<byte>)
    requires a <= d && RawEnds(a)
    ensures FindKey(d, RawField([]).key).Some? && FindKey(d, RawField([]).key).value.end <= |a|
  {
    hide Match, FindKey;
    var key := RawField([]).key;
    NeedleIsTokenKey(true);
    var q :| 0 <= q <= |a| && Match(a[q..], key, 0) == Some(|a| - q);
    KeyKept(a, d, q);
    FindKeyFacts(d, key);
    var k := FindKey(d, key).value;
    if |a| < k.end {
      var x := d[..k.end] + REDACTED;
      assert d[..k.end] == x[..k.end];
      KeyStable(d, x, key, k);
      assert a <= x;
      KeyKept(a, x, q);
      KeyTailEnds(x, key, k, q);
    }
  }

  /** The decoded cut ends in a key. */
  lemma DecodedCutEnds(pair: seq<byte>, k: Span)
    requires FindKey(Text(Decode(pair, true)), LiteralKey()) == Some(k)
    ensures var b := Boundary(Decode(pair, true), k.end, |pair|); b <= |pair| && ViewEnds(pair[..b])
  {
    hide Match, FindKey, Feed;
    var view := Decode(pair, true);
    var text := Text(view);
    FindKeyFacts(text, LiteralKey());
    FirstKeyIsOccurrence(text, k);
    OccurrenceEnds(text, k.start);
    ViewCheckpoint(pair, true, k.end - 1);
    var t := Text(view[..k.end]);
    assert forall i :: 0 <= i < k.end ==> t[i] == text[i];
    assert FoldsAt(t, |t| - |NEEDLE|, NEEDLE);
  }

  /** The raw cut of the decoded pass ends in a key of the pair. */
  lemma RawCutEnds(d: seq<byte>, k: Span)
    requires FindKey(d, RawField([]).key) == Some(k)
    ensures k.end <= |d| && RawEnds(d[..k.end])
  {
    hide Match, FindKey, RawField, TokenKey, IsFirstKey, RawEnds;
    RawKeyIsTokenKey([]);
    FindKeyFacts(d, RawField([]).key);
    var a := d[..k.end];
    assert a[..k.end] == a;
    KeyStable(d, a, RawField([]).key, k);
    FirstKeyEnds(a, k);
  }

  lemma FirstKeyEnds(a: seq<byte>, k: Span)
    requires IsFirstKey(a, RawField([]).key, k) && k.end == |a|
    ensures RawEnds(a)
  {
    hide Match, RawField;
    assert Match(a[k.start..], RawField([]).key, 0) == Some(|a| - k.start);
  }

  /** Where the decoded pass stops: at its cut, or at the end when the view has no key. */
  lemma DecodedStop(pair: seq<byte>) returns (n: nat)
    ensures n <= |pair| && forall m :: 0 <= m < n ==> !ViewEnds(pair[..m])
    ensures var found := FindKey(Text(Decode(pair, true)), LiteralKey()).Some?;
            if found then ViewEnds(pair[..n]) && DecodedPass(pair, true) == pair[..n] + REDACTED
            else n == |pair| && DecodedPass(pair, true) == pair && !ViewEnds(pair)
  {
    hide FindKey, Decode, ViewEnds, LiteralKey;
    DecodedPassIs(pair, true);
    var k := FindKey(Text(Decode(pair, true)), LiteralKey());
    n := |pair|;
    if k.Some? {
      n := Boundary(Decode(pair, true), k.value.end, |pair|);
      DecodedCutEnds(pair, k.value);
    }
    forall m | 0 <= m <= |pair| && ViewEnds(pair[..m]) ensures k.Some? && n <= m {
      ViewEndsCut(pair, m);
    }
    assert pair[..|pair|] == pair;
  }

  /** Exactly what the pair rewrite does to a pair with another key: it keeps the pair up to the first place at which a
      raw reader or a decoding reader has seen a key, and puts the marker there; without such a place it keeps all. */
  lemma PairCut(pair: seq<byte>) returns (n: nat)
    requires !ParamKey(pair)
    ensures n <= |pair|
    ensures PairFound(pair) ==> IsFirstCut(pair, n) && PairRewrite(pair) == pair[..n] + REDACTED
    ensures !PairFound(pair) ==> PairRewrite(pair) == pair && forall m :: 0 <= m <= |pair| ==> !EndsInKey(pair[..m])
  {
    hide FindKey, Decode, ViewEnds, RawEnds, LiteralKey, RawField, DecodedPass, ParamKey, Redact;
    var key, d := RawField([]).key, DecodedPass(pair, true);
    n := DecodedStop(pair);
    var stop := n;
    forall m | 0 <= m <= stop && RawEnds(pair[..m]) ensures FindKey(d, key).Some? && FindKey(d, key).value.end <= m {
      RawEndsCut(pair[..m], d);
    }
    if FindKey(d, key).Some? {
      var k := FindKey(d, key).value;
      RawCutEnds(d, k);
      RedactToEnd(d);
      KeyEndsBeforeStop(pair, stop, k);
      n := k.end;
      assert d[..n] == pair[..n];
    } else {
      NoKeyRedact(d);
    }
    assert pair[..|pair|] == pair;
  }

  lemma NoKeyRedact(d: seq<byte>)
    requires FindKey(d, RawField([]).key).None?
    ensures Redact(d, RawField([])) == d
  {
    hide Match, FindKey;
    NeedleIsTokenKey(true);
    FindKeyFacts(d, RawField([]).key);
    NoKeyKept(d, RawField([]));
  }

  /** The raw scan finds its key before the marker the decoded pass left. */
  lemma KeyEndsBeforeStop(pair: seq<byte>, stop: nat, k: Span)
    requires stop <= |pair| && FindKey(DecodedPass(pair, true), RawField([]).key) == Some(k)
    requires (stop == |pair| && DecodedPass(pair, true) == pair) || DecodedPass(pair, true) == pair[..stop] + REDACTED
    ensures k.end <= stop
  {
    hide Match, FindKey, DecodedPass;
    NeedleIsTokenKey(true);
    FindKeyFacts(DecodedPass(pair, true), RawField([]).key);
    if DecodedPass(pair, true) == pair[..stop] + REDACTED {
      KeyEndsBeforeMarker(pair[..stop], k);
    }
  }

  /** Nothing behind the cut can influence the rewrite of a pair: whatever stands there, the output is the same. */
  lemma PairValuesDoNotMatter(pair: seq<byte>, pair': seq<byte>, n: nat)
    requires if ParamKey(pair) then n == KeyLen(pair) + 1 else IsFirstCut(pair, n)
    requires n <= |pair| && n <= |pair'| && pair[..n] == pair'[..n]
    ensures PairRewrite(pair') == PairRewrite(pair)
  {
    hide ParamKey, IsFirstCut, PairRewrite;
    if ParamKey(pair) {
      ParamPairSame(pair, pair', n - 1);
    } else {
      CutPairSame(pair, pair', n);
    }
  }

  lemma ParamPairSame(pair: seq<byte>, pair': seq<byte>, e: nat)
    requires ParamKey(pair) && e == KeyLen(pair) < |pair| && e < |pair'| && pair[..e + 1] == pair'[..e + 1]
    ensures PairRewrite(pair') == PairRewrite(pair)
  {
    hide FoldsToParam, Decode, KeyLen, Redact, DecodedPass, Text;
    assert pair'[..e] == pair'[..e + 1][..e] && pair[..e] == pair[..e + 1][..e];
    assert EQUALS !in pair'[..e];
    assert pair'[e] == pair'[..e + 1][e] && pair[e] == pair[..e + 1][e];
    KeyLenUnique(pair', e);
    assert ParamKey(pair');
  }

  lemma CutPairSame(pair: seq<byte>, pair': seq<byte>, n: nat)
    requires !ParamKey(pair) && IsFirstCut(pair, n) && n <= |pair'| && pair[..n] == pair'[..n]
    ensures PairRewrite(pair') == PairRewrite(pair)
  {
    hide EndsInKey, PairFound, ParamKey, PairRewrite, IsFirstCut;
    assert EndsInKey(pair[..n]) by { CutEnds(pair, n); }
    OtherKeyKept(pair, pair', n);
    SameFirstCut(pair, pair', n);
    CutAt(pair, n);
    CutAt(pair', n);
  }

  lemma CutEnds(pair: seq<byte>, n: nat)
    requires IsFirstCut(pair, n)
    ensures n <= |pair| && EndsInKey(pair[..n])
  {
  }

  lemma SameFirstCut(pair: seq<byte>, pair': seq<byte>, n: nat)
    requires IsFirstCut(pair, n) && n <= |pair'| && pair[..n] == pair'[..n]
    ensures IsFirstCut(pair', n)
  {
    hide EndsInKey;
    forall m | 0 <= m < n ensures !EndsInKey(pair'[..m]) {
      assert pair'[..m] == pair'[..n][..m] && pair[..m] == pair[..n][..m];
    }
  }

  /** The rewrite of a pair that has a first cut. */
  lemma CutAt(pair: seq<byte>, n: nat)
    requires !ParamKey(pair) && IsFirstCut(pair, n)
    ensures PairFound(pair) && PairRewrite(pair) == pair[..n] + REDACTED
  {
    hide EndsInKey, PairFound, ParamKey, PairRewrite;
    var c := PairCut(pair);
  }

  /** A pair that shares the bytes up to the cut has another key too: its key is the same, or holds the '=' of the
      key at the cut. */
  lemma OtherKeyKept(pair: seq<byte>, pair': seq<byte>, n: nat)
    requires !ParamKey(pair) && n <= |pair| && EndsInKey(pair[..n]) && n <= |pair'| && pair[..n] == pair'[..n]
    ensures !ParamKey(pair')
  {
    hide FoldsToParam, Decode, RawEnds, ViewEnds, IsEquals;
    var e := KeyLen(pair');
    if e < n {
      assert pair[..e] == pair[..n][..e] && pair'[..e] == pair'[..n][..e];
      assert pair[e] == pair[..n][e] && pair'[e] == pair'[..n][e];
      KeyLenUnique(pair, e);
    } else {
      var key := pair'[..e];
      var i := EndsInEquals(pair[..n]);
      assert key[i..n] == pair[..n][i..|pair[..n]|];
      TokenShows(key, i, n);
      if FoldsToParam(Text(Decode(key, true))) {
        ParamBytes(Text(Decode(key, true)), 0);
      }
    }
  }

  lemma EndsInEquals(a: seq<byte>) returns (i: nat)
    requires EndsInKey(a)
    ensures i < |a| && IsEquals(a[i..|a|], true)
  {
    hide RawEnds, ViewEnds, IsEquals;
    if RawEnds(a) {
      i := RawEndsInEquals(a);
    } else {
      i := ViewEndsInEquals(a);
    }
  }

  lemma BoundaryInside(view: seq<Decoded>, len: nat, offset: nat)
    requires Tiles(view, 0, len)
    ensures Boundary(view, offset, len) <= len
  {
    if offset < |view| {
      StartsIncrease(view, len, offset, |view| - 1);
    }
  }

  lemma KeyEndsBeforeMarker(a: seq<byte>, k: Span)
    requires IsFirstKey(a + REDACTED, RawField([]).key, k)
    ensures k.end <= |a|
  {
    hide Match, IsEquals;
    var d := a + REDACTED;
    NeedleIsTokenKey(true);
    var n := KeyEquals(d[k.start..], RawField([]).key, 0);
    SliceOfSlice(d, k.start, n, k.end - k.start);
    TokenBeforeMarker(a, k.start + n, k.end);
  }

  // ----- idempotence of the pair rewrite

  lemma {:induction false} KeyLenUnique(s: seq<byte>, n: nat)
    requires n <= |s| && (n < |s| ==> s[n] == EQUALS) && EQUALS !in s[..n]
    ensures KeyLen(s) == n
    decreases n
  {
    if n > 0 {
      assert s[0] == s[..n][0] && s[1..][..n - 1] == s[..n][1..];
      KeyLenUnique(s[1..], n - 1);
    }
  }

  /** Cutting a pair to a prefix and the marker does not turn its key into access_token. */
  lemma KeyStaysOther(pair: seq<byte>, n: nat)
    requires n <= |pair| && !ParamKey(pair)
    ensures !ParamKey(pair[..n] + REDACTED)
  {
    hide FoldsToParam, Decode;
    var out, e := pair[..n] + REDACTED, KeyLen(pair);
    if e < n {
      assert out[..e] == pair[..e];
      KeyLenUnique(out, e);
    } else {
      assert EQUALS !in pair[..n] by {
        assert forall i :: 0 <= i < n ==> pair[..n][i] == pair[..e][i];
      }
      KeyLenUnique(out, |out|);
      assert out[..|out|] == out;
      MarkerDecodes(pair[..n], true);
      var text := Text(Decode(out, true));
      assert text[|text| - 1] == UPPER_D;
      if FoldsToParam(text) {
        ParamBytes(text, 0);
      }
    }
  }

  /** A sealed view leaves a pair that ends in the marker as it is. */
  lemma DecodedPassKeeps(a: seq<byte>)
    requires ViewSealed(a + REDACTED)
    ensures DecodedPass(a + REDACTED, true) == a + REDACTED
  {
    hide Match, FindKey, Feed;
    var out := a + REDACTED;
    var view := Decode(out, true);
    var text := Text(view);
    FindKeyFacts(text, LiteralKey());
    if FindKey(text, LiteralKey()).Some? {
      var k := FindKey(text, LiteralKey()).value;
      FirstKeyIsOccurrence(text, k);
      assert text[k.end..] == REDACTED;
      MarkerDecodes(a, true);
      DecodeView(a, true);
      DecodeView(out, true);
      var st := Decode(a, true);
      assert |st| == k.end && st[k.end - 1] == view[k.end - 1];
      assert view[k.end - 1].end == view[k.end].start;
      assert out[..|a|] == a;
    }
  }

  /** Rewriting a rewritten pair changes nothing. */
  lemma PairIdempotent(pair: seq<byte>)
    ensures PairRewrite(PairRewrite(pair)) == PairRewrite(pair)
  {
    hide Decode, FindKey, FoldsToParam, Redact, ViewSealed, RawSealed, DecodedPass;
    var out := PairRewrite(pair);
    if ParamKey(pair) {
      var n := KeyLen(pair);
      assert out[..n] == pair[..n] && out[n] == EQUALS;
      KeyLenUnique(out, n);
    } else {
      PairSealed(pair);
      var n := PairCut(pair);
      if PairFound(pair) {
        KeyStaysOther(pair, n);
        DecodedPassKeeps(pair[..n]);
        assert Free(REDACTED, []);
        NeedleIsTokenKey(true);
        IdempotentIff(DecodedPass(pair, true), RawField([]));
      }
    }
  }

  /** A field of the output whose key is the parameter has exactly the marker as its value, and is one whose key was. */
  lemma ParamFieldMarked(pair: seq<byte>)
    ensures var out := PairRewrite(pair);
            && (ParamKey(out) <==> ParamKey(pair))
            && (ParamKey(out) ==> out == pair[..KeyLen(pair)] + Ascii("=REDACTED") && KeyLen(out) == KeyLen(pair))
  {
    hide ParamKey, PairFound, IsFirstCut;
    if ParamKey(pair) {
      hide DecodedPass, Redact;
      MarkedParam(pair);
    } else {
      hide PairRewrite;
      var n := PairCut(pair);
      if PairFound(pair) {
        KeyStaysOther(pair, n);
      }
    }
  }

  lemma MarkedParam(pair: seq<byte>)
    requires ParamKey(pair)
    ensures var out := pair[..KeyLen(pair)] + [EQUALS] + REDACTED;
            && ParamKey(out) && KeyLen(out) == KeyLen(pair)
            && out == pair[..KeyLen(pair)] + Ascii("=REDACTED")
  {
    hide ParamKey;
    var n := KeyLen(pair);
    var out := pair[..n] + [EQUALS] + REDACTED;
    assert [EQUALS] + REDACTED == Ascii("=REDACTED") by {
      TextConstants();
    }
    assert out[..n] == pair[..n] && out[n] == EQUALS;
    KeyLenUnique(out, n);
    SameKeySame(pair, out);
  }

  lemma SameKeySame(pair: seq<byte>, out: seq<byte>)
    requires pair[..KeyLen(pair)] == out[..KeyLen(out)]
    ensures ParamKey(out) <==> ParamKey(pair)
  {
    hide FoldsToParam, Decode;
  }

  // ----- the query

  /** Fields are separated by '&' and ';'. */
  lemma SeparatorIff(b: byte)
    ensures IsSeparator(b) <==> b == CharByte('&') || b == CharByte(';')
  {
  }

  predicate IsSeparator(b: byte) {
    b == AMPERSAND || b == SEMICOLON
  }

  predicate NoSeparator(s: seq<byte>) {
    forall i :: 0 <= i < |s| ==> !IsSeparator(s[i])
  }

  /** A query as its fields and the separators between them. */
  datatype Fields = Final(field: seq<byte>) | Next(field: seq<byte>, separator: byte, rest: Fields)

  function FieldLen(s: seq<byte>): (n: nat)
    ensures n <= |s| && NoSeparator(s[..n]) && (n < |s| ==> IsSeparator(s[n]))
  {
    if |s| == 0 || IsSeparator(s[0]) then 0
    else
      var n := FieldLen(s[1..]);
      assert s[..n + 1] == [s[0]] + s[1..][..n];
      n + 1
  }

  function SplitQuery(raw: seq<byte>): Fields
    decreases |raw|
  {
    var n := FieldLen(raw);
    if n == |raw| then Final(raw) else Next(raw[..n], raw[n], SplitQuery(raw[n + 1..]))
  }

  function JoinQuery(f: Fields): seq<byte> {
    match f
    case Final(field) => field
    case Next(field, separator, rest) => field + [separator] + JoinQuery(rest)
  }

  function RewriteFields(f: Fields): Fields {
    match f
    case Final(field) => Final(PairRewrite(field))
    case Next(field, separator, rest) => Next(PairRewrite(field), separator, RewriteFields(rest))
  }

  /** redactAccessTokenRawQuery. */
  function RewriteQuery(raw: seq<byte>): seq<byte> {
    JoinQuery(RewriteFields(SplitQuery(raw)))
  }

  predicate FieldsOk(f: Fields) {
    NoSeparator(f.field) && (f.Next? ==> IsSeparator(f.separator) && FieldsOk(f.rest))
  }

  predicate AnyFound(f: Fields) {
    PairFound(f.field) || (f.Next? && AnyFound(f.rest))
  }

  lemma {:induction false} SplitQueryOk(raw: seq<byte>)
    ensures FieldsOk(SplitQuery(raw)) && JoinQuery(SplitQuery(raw)) == raw
    decreases |raw|
  {
    var n := FieldLen(raw);
    if n < |raw| {
      SplitQueryOk(raw[n + 1..]);
      assert raw[..n] + [raw[n]] + raw[n + 1..] == raw;
    } else {
      assert raw[..n] == raw;
    }
  }

  lemma {:induction false} FieldLenUnique(s: seq<byte>, n: nat)
    requires n <= |s| && NoSeparator(s[..n]) && (n < |s| ==> IsSeparator(s[n]))
    ensures FieldLen(s) == n
    decreases n
  {
    if n > 0 {
      assert s[0] == s[..n][0] && s[1..][..n - 1] == s[..n][1..];
      FieldLenUnique(s[1..], n - 1);
    }
  }

  lemma {:induction false} JoinSplit(f: Fields)
    requires FieldsOk(f)
    ensures SplitQuery(JoinQuery(f)) == f
  {
    var s, n := JoinQuery(f), |f.field|;
    assert s[..n] == f.field;
    FieldLenUnique(s, n);
    if f.Next? {
      JoinSplit(f.rest);
      assert s[n + 1..] == JoinQuery(f.rest);
    }
  }

  lemma PairNoSeparator(pair: seq<byte>)
    requires NoSeparator(pair)
    ensures NoSeparator(PairRewrite(pair))
  {
    hide Redact, DecodedPass, PairFound, ParamKey, EndsInKey;
    if ParamKey(pair) {
      MarkedNoSeparator(pair, KeyLen(pair));
    } else {
      hide PairRewrite;
      var n := PairCut(pair);
      MarkedNoSeparator(pair, n);
    }
  }

  lemma MarkedNoSeparator(pair: seq<byte>, n: nat)
    requires NoSeparator(pair) && n <= |pair|
    ensures NoSeparator(pair[..n] + REDACTED) && NoSeparator(pair[..n] + [EQUALS] + REDACTED)
  {
    assert forall i :: 0 <= i < |REDACTED| ==> !IsSeparator(REDACTED[i]);
  }

  lemma {:induction false} RewriteFieldsOk(f: Fields)
    requires FieldsOk(f)
    ensures FieldsOk(RewriteFields(f))
  {
    hide PairRewrite;
    PairNoSeparator(f.field);
    if f.Next? {
      RewriteFieldsOk(f.rest);
    }
  }

  lemma {:induction false} RewriteFieldsIdempotent(f: Fields)
    ensures RewriteFields(RewriteFields(f)) == RewriteFields(f)
  {
    hide PairRewrite;
    PairIdempotent(f.field);
    if f.Next? {
      RewriteFieldsIdempotent(f.rest);
    }
  }

  lemma {:induction false} NothingFound(f: Fields)
    requires !AnyFound(f)
    ensures RewriteFields(f) == f
  {
    hide PairRewrite, PairFound;
    PairKept(f.field);
    if f.Next? {
      NothingFound(f.rest);
    }
  }

  lemma PairKept(pair: seq<byte>)
    requires !PairFound(pair)
    ensures PairRewrite(pair) == pair
  {
    var n := PairCut(pair);
  }

  /** Every field of the output keeps the promise under both readings. */
  predicate AllSealed(f: Fields) {
    ViewSealed(f.field) && RawSealed(f.field) && (f.Next? ==> AllSealed(f.rest))
  }

  lemma {:induction false} RewriteFieldsSealed(f: Fields)
    ensures AllSealed(RewriteFields(f))
  {
    hide PairRewrite, ViewSealed, RawSealed;
    PairSealed(f.field);
    if f.Next? {
      RewriteFieldsSealed(f.rest);
    }
  }

  /** Query redaction: the output splits into the same number of fields with the same separators, field by field the
      rewrite of the input field; no field leaks under either reading; a second pass changes nothing; and the
      query is untouched when nothing was found. */
  lemma QuerySafe(raw: seq<byte>)
    ensures SplitQuery(RewriteQuery(raw)) == RewriteFields(SplitQuery(raw))
    ensures AllSealed(SplitQuery(RewriteQuery(raw)))
    ensures RewriteQuery(RewriteQuery(raw)) == RewriteQuery(raw)
    ensures !AnyFound(SplitQuery(raw)) ==> RewriteQuery(raw) == raw
  {
    hide PairRewrite, PairFound, SplitQuery, RewriteFields, JoinQuery, FieldsOk, AllSealed, AnyFound;
    var f := SplitQuery(raw);
    SplitQueryOk(raw);
    RewriteFieldsOk(f);
    JoinSplit(RewriteFields(f));
    RewriteFieldsSealed(f);
    RewriteFieldsIdempotent(f);
    if !AnyFound(f) {
      NothingFound(f);
    }
  }

  // ----- the code

  /** redactPercentEncodedAccessTokenText. */
  method RedactPercentEncodedText(raw: seq<byte>, plusAsSpace: bool) returns (redacted: seq<byte>, found: bool)
    ensures redacted == DecodedPass(raw, plusAsSpace)
    ensures found == FindKey(Text(Decode(raw, plusAsSpace)), LiteralKey()).Some?
  {
    hide Match, FindKey, Decode, FoldsAt, Ordered, ReplaceFrom, Tiles, LiteralKey, DecodedPass;
    var view, malformed := PercentDecode(raw, plusAsSpace);
    var text := Text(view);
    var i := IndexFoldASCII(text, NEEDLE);
    FirstOccurrence(text, i);
    DecodedPassIs(raw, plusAsSpace);
    if i < 0 {
      return raw, false;
    }
    var start := Boundary(view, i + |NEEDLE|, |raw|);
    var end := Boundary(view, |text|, |raw|);
    OneSpan(raw, start);
    redacted := ReplaceAccessTokenTextSpans(raw, [Span(start, end)]);
    return redacted, true;
  }

  lemma DecodedPassIs(raw: seq<byte>, plus: bool)
    ensures var k, view := FindKey(Text(Decode(raw, plus)), LiteralKey()), Decode(raw, plus);
            if k.None? then DecodedPass(raw, plus) == raw
            else Boundary(view, k.value.end, |raw|) <= |raw| &&
                 DecodedPass(raw, plus) == raw[..Boundary(view, k.value.end, |raw|)] + REDACTED
  {
    hide FindKey, Decode, LiteralKey;
    DecodeView(raw, plus);
    forall n: nat ensures Boundary(Decode(raw, plus), n, |raw|) <= |raw| {
      BoundaryInside(Decode(raw, plus), |raw|, n);
    }
  }

  lemma OneSpan(raw: seq<byte>, start: nat)
    requires start <= |raw|
    ensures Ordered([Span(start, |raw|)], 0, |raw|)
    ensures ReplaceFrom(raw, [Span(start, |raw|)], 0) == raw[..start] + REDACTED
  {
    assert [Span(start, |raw|)][1..] == [];
    assert raw[|raw|..] == [] && raw[0..start] == raw[..start];
  }

  method RedactAccessTokenQueryPair(pair: seq<byte>) returns (redacted: seq<byte>, found: bool)
    ensures redacted == PairRewrite(pair) && found == PairFound(pair)
  {
    hide Match, FindKey, Decode, DecodedPass, FoldsToParam;
    NeedleIsTokenKey(true);
    var keyEnd := KeyLen(pair);
    var keyView, malformed := PercentDecode(pair[..keyEnd], true);
    if FoldsToParam(Text(keyView)) {
      if keyEnd == |pair| {
        assert pair[..keyEnd] == pair;
        return pair + [EQUALS] + REDACTED, true;
      }
      assert pair[..keyEnd + 1] == pair[..keyEnd] + [EQUALS];
      return pair[..keyEnd + 1] + REDACTED, true;
    }
    var decoded, decodedFound := RedactPercentEncodedText(pair, true);
    var raw, rawFound, steps := ScanRawAccessTokenValues(decoded, []);
    FindKeyFacts(decoded, RawField([]).key);
    if rawFound {
      return raw, true;
    }
    if decodedFound {
      return decoded, true;
    }
    var n := PairCut(pair);
    return pair, false;
  }

  /** One field of the loop. */
  lemma QueryStep(raw: seq<byte>, start: nat, end: nat)
    requires start <= |raw| && end == start + FieldLen(raw[start..])
    ensures JoinQuery(RewriteFields(SplitQuery(raw[start..]))) == PairRewrite(raw[start..end]) +
            if end == |raw| then [] else [raw[end]] + JoinQuery(RewriteFields(SplitQuery(raw[end + 1..])))
    ensures AnyFound(SplitQuery(raw[start..])) ==
            (PairFound(raw[start..end]) || (end < |raw| && AnyFound(SplitQuery(raw[end + 1..]))))
  {
    hide PairRewrite, PairFound, FieldLen;
    var s, n := raw[start..], end - start;
    assert s[..n] == raw[start..end];
    if end < |raw| {
      assert s[n + 1..] == raw[end + 1..];
      assert SplitQuery(s) == Next(s[..n], s[n], SplitQuery(s[n + 1..]));
    } else {
      assert s == raw[start..end];
      assert SplitQuery(s) == Final(s);
    }
  }

  method RedactAccessTokenRawQuery(raw: seq<byte>) returns (redacted: seq<byte>, found: bool)
    ensures redacted == RewriteQuery(raw) && found == AnyFound(SplitQuery(raw))
  {
    hide PairRewrite, PairFound, SplitQuery, JoinQuery, RewriteFields, AnyFound, FieldLen;
    redacted, found := [], false;
    var start: nat := 0;
    assert raw[0..] == raw;
    while true
      invariant start <= |raw|
      invariant redacted + JoinQuery(RewriteFields(SplitQuery(raw[start..]))) == RewriteQuery(raw)
      invariant (found || AnyFound(SplitQuery(raw[start..]))) == AnyFound(SplitQuery(raw))
      decreases |raw| - start
    {
      var end := start + FieldLen(raw[start..]);
      var pair, pairFound := RedactAccessTokenQueryPair(raw[start..end]);
      QueryStep(raw, start, end);
      redacted := redacted + pair;
      found := found || pairFound;
      if end == |raw| {
        return;
      }
      redacted := redacted + [raw[end]];
      start := end + 1;
    }
  }
}
