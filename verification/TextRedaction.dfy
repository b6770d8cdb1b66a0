/** Redaction of access_token= in unstructured text (agentproto/auth.go, RedactAccessTokenText, and the span
    functions of agentproto/auth_uri_redaction.go): the same cut as the raw scan, with literal keys only. */
module TextRedaction {
  import opened Wrappers
  import opened Bytes
  import opened KeyMatch
  import opened RawScan

  /** The bytes that end a value in prose: space, tab, CR, LF, '#', '"' and apostrophe. */
  const VALUE_ENDS: seq<byte> := [32, 9, 13, 10, 35, 34, 39]

  function LiteralKey(): (key: Key)
    ensures key.text != []
  {
    Key(NEEDLE, false)
  }

  function TextField(): Field {
    Field(LiteralKey(), VALUE_ENDS)
  }

  /** `text` has `key`, in either case, at `i`. */
  predicate FoldsAt(text: seq<byte>, i: nat, key: seq<byte>) {
    i + |key| <= |text| && forall j :: 0 <= j < |key| ==> Fold(text[i + j]) == key[j]
  }

  /** Where escapes do not count, a match is a plain case-insensitive occurrence. */
  lemma {:induction false} LiteralMatch(s: seq<byte>, key: Key, j: nat)
    requires !key.escaped && j <= |key.text|
    ensures Match(s, key, j) == if FoldsAt(s, 0, key.text[j..]) then Some(|key.text| - j) else None
    decreases |key.text| - j
  {
    if j < |key.text| && |s| > 0 {
      LiteralMatch(s[1..], key, j + 1);
      var a, b := key.text[j..], key.text[j + 1..];
      assert FoldsAt(s, 0, a) ==> FoldsAt(s[1..], 0, b) by {
        assert forall i :: 0 <= i < |b| ==> b[i] == a[i + 1] && (i + 1 < |s| ==> s[1..][i] == s[i + 1]);
      }
      if FoldsAt(s[1..], 0, b) && Fold(s[0]) == key.text[j] {
        forall i | 0 <= i < |a| ensures Fold(s[0 + i]) == a[i] {
          if i > 0 {
            assert Fold(s[1..][0 + (i - 1)]) == b[i - 1];
          }
        }
      }
    }
  }

  /** indexFoldASCII: the first case-insensitive occurrence of a lower-case needle, or -1. */
  method IndexFoldASCII(text: seq<byte>, needle: seq<byte>) returns (index: int)
    ensures -1 <= index < |text| + 1
    ensures index >= 0 ==> FoldsAt(text, index, needle)
    ensures forall q: nat :: q < (if index >= 0 then index else |text| + 1) ==> !FoldsAt(text, q, needle)
  {
    var i := 0;
    while i + |needle| <= |text|
      invariant 0 <= i
      invariant i <= |text| + 1
      invariant forall q: nat :: q < i ==> !FoldsAt(text, q, needle)
    {
      var matches := true;
      for j := 0 to |needle|
        invariant matches
        invariant forall k :: 0 <= k < j ==> Fold(text[i + k]) == needle[k]
      {
        if Fold(text[i + j]) != needle[j] {
          matches := false;
          break;
        }
      }
      if matches {
        return i;
      }
      i := i + 1;
    }
    return -1;
  }

  /** A first occurrence is the first key of the cut. */
  lemma FirstOccurrence(text: seq<byte>, index: int)
    requires index >= 0 ==> FoldsAt(text, index, NEEDLE)
    requires forall q: nat :: q < (if index >= 0 then index else |text| + 1) ==> !FoldsAt(text, q, NEEDLE)
    ensures FindKey(text, LiteralKey()) == if index < 0 then None else Some(Span(index, index + |NEEDLE|))
  {
    hide Match, FindKey;
    var key := LiteralKey();
    forall q: nat | q <= |text|
      ensures Match(text[q..], key, 0) == if FoldsAt(text, q, NEEDLE) then Some(|NEEDLE|) else None
    {
      OccurrenceMatches(text, q);
    }
    FindKeyFacts(text, key);
    if index >= 0 {
      FindKeyUnique(text, key, Span(index, index + |NEEDLE|));
    }
  }

  lemma OccurrenceMatches(text: seq<byte>, q: nat)
    requires q <= |text|
    ensures Match(text[q..], LiteralKey(), 0) == if FoldsAt(text, q, NEEDLE) then Some(|NEEDLE|) else None
  {
    hide Match;
    LiteralMatch(text[q..], LiteralKey(), 0);
    assert NEEDLE[0..] == NEEDLE;
    assert forall j :: 0 <= j < |text| - q ==> text[q..][j] == text[q + j];
    assert FoldsAt(text[q..], 0, NEEDLE) ==> FoldsAt(text, q, NEEDLE);
    assert FoldsAt(text, q, NEEDLE) ==> FoldsAt(text[q..], 0, NEEDLE);
  }

  /** An occurrence is "access_token=" with each letter in either case, and a value ends at white space, '#' or a
      quote. */
  lemma OccurrenceIff(text: seq<byte>, q: nat)
    ensures FoldsAt(text, q, NEEDLE) <==>
              && q + 13 <= |text|
              && forall i :: 0 <= i < 13 ==> SameLetter(text[q + i], Ascii("access_token=")[i])
    ensures VALUE_ENDS == Ascii(" \t\r\n#\"'")
  {
    hide SameLetter, IsUpper;
    TextConstants();
    NeedleIsLower();
    if q + 13 <= |text| {
      forall i | 0 <= i < 13 ensures Fold(text[q + i]) == NEEDLE[i] <==> SameLetter(text[q + i], NEEDLE[i]) {
        FoldIff(text[q + i], NEEDLE[i]);
      }
    }
  }

  // ----- spans

  /** The value spans of a cut whose source starts at offset `at`. */
  function ValueSpans(p: Parts, at: nat): seq<Span> {
    match p
    case Done(_) => []
    case Piece(keep, value, rest) =>
      var start := at + |keep|;
      [Span(start, start + |value|)] + ValueSpans(rest, start + |value|)
  }

  /** Spans in order, disjoint, and inside [from, len). */
  predicate Ordered(spans: seq<Span>, from: nat, len: nat) {
    if |spans| == 0 then from <= len
    else from <= spans[0].start <= spans[0].end && Ordered(spans[1..], spans[0].end, len)
  }

  function ReplaceFrom(text: seq<byte>, spans: seq<Span>, cursor: nat): seq<byte>
    requires Ordered(spans, cursor, |text|)
    decreases |spans|
  {
    OrderedBounds(spans, cursor, |text|);
    if |spans| == 0 then text[cursor..]
    else
      OrderedBounds(spans[1..], spans[0].end, |text|);
      text[cursor..spans[0].start] + REDACTED + ReplaceFrom(text, spans[1..], spans[0].end)
  }

  lemma {:induction false} OrderedBounds(spans: seq<Span>, from: nat, len: nat)
    requires Ordered(spans, from, len)
    ensures from <= len
    decreases |spans|
  {
    if |spans| > 0 {
      OrderedBounds(spans[1..], spans[0].end, len);
    }
  }

  /** The spans of a cut are ordered and disjoint, and replacing them is replacing the values. */
  lemma {:induction false} SpansOfCut(text: seq<byte>, p: Parts, at: nat)
    requires at <= |text| && text[at..] == Source(p)
    ensures Ordered(ValueSpans(p, at), at, |text|)
    ensures ReplaceFrom(text, ValueSpans(p, at), at) == Source(Redacted(p))
  {
    hide Ordered, ReplaceFrom;
    if p.Piece? {
      var start := at + |p.keep|;
      var end := start + |p.value|;
      PieceAt(text, p.keep, p.value, Source(p.rest), at);
      SpansOfCut(text, p.rest, end);
      FirstSpan(text, Span(start, end), ValueSpans(p.rest, end), at);
    } else {
      NoSpan(text, at);
    }
  }

  lemma PieceAt(text: seq<byte>, keep: seq<byte>, value: seq<byte>, rest: seq<byte>, at: nat)
    requires at <= |text| && text[at..] == keep + value + rest
    ensures at + |keep| + |value| <= |text|
    ensures text[at..at + |keep|] == keep && text[at + |keep| + |value|..] == rest
  {
    var s := text[at..];
    assert s[..|keep|] == keep && s[|keep| + |value|..] == rest;
  }

  lemma FirstSpan(text: seq<byte>, span: Span, rest: seq<Span>, at: nat)
    requires at <= span.start <= span.end <= |text| && Ordered(rest, span.end, |text|)
    ensures Ordered([span] + rest, at, |text|)
    ensures ReplaceFrom(text, [span] + rest, at)
         == text[at..span.start] + REDACTED + ReplaceFrom(text, rest, span.end)
  {
    assert ([span] + rest)[1..] == rest;
  }

  lemma NoSpan(text: seq<byte>, at: nat)
    requires at <= |text|
    ensures Ordered([], at, |text|) && ReplaceFrom(text, [], at) == text[at..]
  {
  }

  /** accessTokenTextValueSpans. */
  method AccessTokenTextValueSpans(text: seq<byte>) returns (spans: seq<Span>)
    ensures spans == ValueSpans(Split(text, TextField()), 0)
  {
    hide Match, FindKey, FoldsAt, Split, ValueSpans, ValueLen;
    NeedleIsTokenKey(false);
    ghost var f := TextField();
    spans := [];
    var offset: nat := 0;
    assert text[0..] == text;
    while offset < |text|
      invariant offset <= |text|
      invariant spans + ValueSpans(Split(text[offset..], f), offset) == ValueSpans(Split(text, f), 0)
      decreases |text| - offset
    {
      var i := IndexFoldASCII(text[offset..], NEEDLE);
      FirstOccurrence(text[offset..], i);
      if i < 0 {
        NoCut(text[offset..], f, offset);
        return;
      }
      var start := offset + i + |NEEDLE|;
      var end := ValueEnd(text, start);
      CutStep(text, f, offset, start, end);
      spans := spans + [Span(start, end)];
      offset := end;
    }
    assert text[offset..] == [];
    EmptyHasNoKey(f.key);
    NoCut([], f, offset);
  }

  lemma NoCut(s: seq<byte>, f: Field, at: nat)
    requires f.key.text != [] && FindKey(s, f.key).None?
    ensures ValueSpans(Split(s, f), at) == []
  {
    hide FindKey;
  }

  lemma EmptyHasNoKey(key: Key)
    requires key.text != []
    ensures FindKey([], key).None?
  {
  }

  /** The inner loop: from `start` to the first byte that ends a value. */
  method ValueEnd(text: seq<byte>, start: nat) returns (end: nat)
    requires start <= |text|
    ensures start <= end <= |text| && end == start + ValueLen(text[start..], VALUE_ENDS)
  {
    end := start;
    while end < |text| && text[end] !in VALUE_ENDS
      invariant start <= end <= |text|
      invariant end + ValueLen(text[end..], VALUE_ENDS) == start + ValueLen(text[start..], VALUE_ENDS)
    {
      assert text[end..][1..] == text[end + 1..];
      end := end + 1;
    }
  }

  lemma {:induction false} CutStep(text: seq<byte>, f: Field, offset: nat, start: nat, end: nat)
    requires f.key.text != [] && offset <= start <= end <= |text|
    requires FindKey(text[offset..], f.key).Some? && FindKey(text[offset..], f.key).value.end == start - offset
    requires end == start + ValueLen(text[start..], f.terms)
    ensures ValueSpans(Split(text[offset..], f), offset)
         == [Span(start, end)] + ValueSpans(Split(text[end..], f), end)
  {
    hide Match, FindKey, ValueLen, Split;
    var s, e := text[offset..], start - offset;
    SliceOfSlice(text, offset, e, |s|);
    SliceOfSlice(text, offset, end - offset, |s|);
    SplitPiece(s, f);
  }

  /** replaceAccessTokenTextSpans. */
  method ReplaceAccessTokenTextSpans(text: seq<byte>, spans: seq<Span>) returns (redacted: seq<byte>)
    requires Ordered(spans, 0, |text|)
    ensures redacted == ReplaceFrom(text, spans, 0)
  {
    redacted := [];
    var cursor: nat := 0;
    for i := 0 to |spans|
      invariant Ordered(spans[i..], cursor, |text|)
      invariant redacted + ReplaceFrom(text, spans[i..], cursor) == ReplaceFrom(text, spans, 0)
    {
      var span := spans[i];
      assert spans[i..][1..] == spans[i + 1..];
      OrderedBounds(spans[i + 1..], span.end, |text|);
      redacted := redacted + text[cursor..span.start] + REDACTED;
      cursor := span.end;
    }
    OrderedBounds([], cursor, |text|);
    redacted := redacted + text[cursor..];
  }

  method RedactAccessTokenText(text: seq<byte>) returns (redacted: seq<byte>)
    ensures redacted == Redact(text, TextField())
  {
    hide Match, FindKey, ReplaceFrom;
    NeedleIsTokenKey(false);
    var spans := AccessTokenTextValueSpans(text);
    SplitProper(text, TextField());
    assert text[0..] == text;
    SpansOfCut(text, Split(text, TextField()), 0);
    if |spans| == 0 {
      return text;
    }
    redacted := ReplaceAccessTokenTextSpans(text, spans);
  }

  /** Text redaction is complete and idempotent: every case-insensitive key in the output, including any that would
      straddle a splice, is followed by REDACTED and then a value-end byte or the end. */
  lemma TextRedactionSafe(text: seq<byte>)
    ensures var out := Redact(text, TextField());
            && Redact(out, TextField()) == out
            && forall q :: 0 <= q <= |out| && FoldsAt(out, q, NEEDLE) ==> Sealed(out[q + |NEEDLE|..], VALUE_ENDS)
  {
    hide Match, FindKey, Sealed, Redact;
    NeedleIsTokenKey(false);
    var out := Redact(text, TextField());
    IdempotentIff(text, TextField());
    OutputSealed(text, TextField());
    forall q | 0 <= q <= |out| && FoldsAt(out, q, NEEDLE) ensures Sealed(out[q + |NEEDLE|..], VALUE_ENDS) {
      OccurrenceMatches(out, q);
      assert SealedAt(out, q, TextField());
    }
  }
}
