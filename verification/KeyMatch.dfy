/** Reading an access_token= key out of raw bytes, each character literal in either case or spelled as a resolved
    escape (agentproto/auth_uri_inneedle.go, matchAccessTokenNeedleRaw), and what such a key can and cannot see. */
module KeyMatch {
  import opened Wrappers
  import opened Bytes
  import opened EscapeGrammar

  /** A key to look for, and whether its characters may be spelled as percent escapes. */
  datatype Key = Key(text: seq<byte>, escaped: bool)

  /** What the redaction proofs need of a key: lower-case "acc" at the front, '=' last and only last, and no 'r'. */
  predicate TokenKey(key: Key) {
    && |key.text| >= 3 && key.text[0] == LOWER_A && key.text[1] == LOWER_C && key.text[2] == LOWER_C
    && forall j :: 0 <= j < |key.text| ==>
         && (key.text[j] == EQUALS <==> j == |key.text| - 1)
         && key.text[j] != PERCENT && key.text[j] != LOWER_R
  }

  lemma NeedleIsTokenKey(escaped: bool)
    ensures TokenKey(Key(NEEDLE, escaped)) && |NEEDLE| == 13
  {
    assert NEEDLE[3] == 101 && NEEDLE[4] == 115 && NEEDLE[5] == 115 && NEEDLE[6] == 95 && NEEDLE[7] == 116;
    assert NEEDLE[8] == 111 && NEEDLE[9] == 107 && NEEDLE[10] == 101 && NEEDLE[11] == 110;
  }

  /** One key character at the front of `s`: a literal byte or, where escapes count, a resolved escape. */
  function ReadChar(s: seq<byte>, esc: bool): (r: Option<Read>)
    ensures r.Some? ==> 1 <= r.value.len <= |s| && r.value.value < 256
  {
    if |s| == 0 then None
    else if !esc || s[0] != PERCENT then Some(Read(1, s[0]))
    else
      match ReadChain(s[1..])
      case None => None
      case Some(r) => Some(Read(1 + r.len, r.value))
  }

  /** The length of the spelling of key.text[j..] that `s` starts with. */
  function Match(s: seq<byte>, key: Key, j: nat): (r: Option<nat>)
    requires j <= |key.text|
    ensures r.Some? ==> |key.text| - j <= r.value <= |s|
    ensures j == |key.text| ==> r == Some(0)
    decreases |s|, |key.text| - j
  {
    if j == |key.text| then Some(0)
    else
      match ReadChar(s, key.escaped)
      case None => None
      case Some(c) =>
        if Fold(c.value) != key.text[j] then None
        else
          match Match(s[c.len..], key, j + 1)
          case None => None
          case Some(n) => Some(c.len + n)
  }

  /** One character of a match. */
  lemma {:induction false} MatchUnfold(s: seq<byte>, key: Key, j: nat) returns (c: nat)
    requires j < |key.text| && Match(s, key, j).Some?
    ensures ReadChar(s, key.escaped).Some? && ReadChar(s, key.escaped).value.len == c
    ensures Fold(ReadChar(s, key.escaped).value.value) == key.text[j]
    ensures Match(s[c..], key, j + 1).Some? && Match(s, key, j).value == c + Match(s[c..], key, j + 1).value
  {
    hide ReadChar;
    c := ReadChar(s, key.escaped).value.len;
  }

  // ----- exactly the spellings of a key match

  /** One spelling of the key character `c`: the byte, in either case, or a nested escape of such a byte. */
  ghost predicate CharSpelling(w: seq<byte>, c: byte, esc: bool) {
    || (|w| == 1 && SameLetter(w[0], c))
    || (esc && exists t :: ChainOk(t) && w == [PERCENT] + SpellChain(t) && SameLetter(ChainByte(t), c))
  }

  /** Character by character, `parts` spells `text`. */
  ghost predicate Spelling(parts: seq<seq<byte>>, text: seq<byte>, esc: bool) {
    |parts| == |text| && forall i :: 0 <= i < |text| ==> CharSpelling(parts[i], text[i], esc)
  }

  /** A key that can be looked for: no upper-case letter, which folding would never yield, and no '%'. */
  predicate Lower(text: seq<byte>) {
    forall j :: 0 <= j < |text| ==> !IsUpper(text[j]) && text[j] != PERCENT
  }

  lemma NeedleIsLower()
    ensures Lower(NEEDLE)
  {
    hide IsUpper;
    forall j | 0 <= j < |NEEDLE| ensures !IsUpper(NEEDLE[j]) {
      Alphabet(NEEDLE[j]);
    }
  }

  lemma CharReads(w: seq<byte>, t: seq<byte>, c: byte, esc: bool)
    requires CharSpelling(w, c, esc) && !IsUpper(c) && c != PERCENT
    ensures var r := ReadChar(w + t, esc); r.Some? && r.value.len == |w| && Fold(r.value.value) == c
  {
    hide ReadChain, SpellChain, ChainByte, ChainOk, IsUpper, SameLetter;
    if |w| == 1 && SameLetter(w[0], c) {
      FoldIff(w[0], c);
    } else {
      var tree :| ChainOk(tree) && w == [PERCENT] + SpellChain(tree) && SameLetter(ChainByte(tree), c);
      FoldIff(ChainByte(tree), c);
      ChainComplete(tree, t);
      assert (w + t)[1..] == SpellChain(tree) + t;
    }
  }

  lemma CharSpells(s: seq<byte>, c: byte, esc: bool)
    requires ReadChar(s, esc).Some? && Fold(ReadChar(s, esc).value.value) == c
    ensures CharSpelling(s[..ReadChar(s, esc).value.len], c, esc)
  {
    hide ReadChain, SpellChain, ChainByte, ChainOk, SameLetter;
    FoldIff(ReadChar(s, esc).value.value, c);
    if esc && s[0] == PERCENT {
      var tree := ChainSound(s[1..]);
      assert s[..ReadChar(s, esc).value.len] == [PERCENT] + SpellChain(tree);
    }
  }

  /** Every spelling of the key is matched, whatever follows it. */
  lemma {:induction false} SpellingMatches(parts: seq<seq<byte>>, t: seq<byte>, key: Key, j: nat)
    requires j <= |key.text| && Lower(key.text) && Spelling(parts, key.text[j..], key.escaped)
    ensures Match(Concat(parts) + t, key, j) == Some(|Concat(parts)|)
    decreases |parts|
  {
    hide ReadChar, CharSpelling, IsUpper;
    if |parts| > 0 {
      var s, rest := Concat(parts) + t, Concat(parts[1..]) + t;
      assert s == parts[0] + rest && s[|parts[0]|..] == rest;
      assert CharSpelling(parts[0], key.text[j], key.escaped);
      CharReads(parts[0], rest, key.text[j], key.escaped);
      assert key.text[j..][1..] == key.text[j + 1..];
      SpellingMatches(parts[1..], t, key, j + 1);
    }
  }

  /** And whatever is matched is a spelling. */
  lemma {:induction false} MatchSpells(s: seq<byte>, key: Key, j: nat) returns (parts: seq<seq<byte>>)
    requires j <= |key.text| && Match(s, key, j).Some?
    ensures Spelling(parts, key.text[j..], key.escaped) && Concat(parts) == s[..Match(s, key, j).value]
    decreases |key.text| - j
  {
    hide ReadChar, CharSpelling, Match;
    if j == |key.text| {
      parts := [];
    } else {
      var c := MatchUnfold(s, key, j);
      CharSpells(s, key.text[j], key.escaped);
      var rest := MatchSpells(s[c..], key, j + 1);
      parts := [s[..c]] + rest;
      var n := Match(s, key, j).value;
      assert s[..n] == s[..c] + s[c..][..n - c];
      assert parts[1..] == rest && key.text[j..] == [key.text[j]] + key.text[j + 1..];
    }
  }

  /** `w` is one spelling of '='. */
  predicate IsEquals(w: seq<byte>, esc: bool) {
    ReadChar(w, esc) == Some(Read(|w|, EQUALS))
  }

  lemma CharLocal(s: seq<byte>, t: seq<byte>, esc: bool)
    requires ReadChar(s, esc).Some?
    ensures ReadChar(s[..ReadChar(s, esc).value.len] + t, esc) == ReadChar(s, esc)
  {
    hide ReadChain;
    var n := ReadChar(s, esc).value.len;
    var x := s[..n] + t;
    assert x[0] == s[0];
    if esc && s[0] == PERCENT {
      ChainLocal(s[1..], t);
      assert x[1..] == s[1..][..n - 1] + t;
    }
  }

  lemma EqualsLocal(w: seq<byte>, t: seq<byte>, esc: bool)
    requires IsEquals(w, esc)
    ensures ReadChar(w + t, esc) == Some(Read(|w|, EQUALS)) && (esc ==> ReadDigit(w + t).None?)
  {
    CharLocal(w, t, esc);
    assert w[..|w|] == w;
  }

  // ----- no escape reaches across a spelled '='

  /** Reading before a spelled '=' cannot see what follows it. */
  lemma {:induction false} DigitBarrier(u: seq<byte>, w: seq<byte>, t: seq<byte>, t': seq<byte>)
    requires IsEquals(w, true)
    ensures ReadDigit(u + w + t) == ReadDigit(u + w + t')
    ensures ReadDigit(u + w + t).Some? ==> ReadDigit(u + w + t).value.len <= |u|
    decreases |u|, 0
  {
    hide ReadChain, IsEquals;
    var s, s' := u + w + t, u + w + t';
    if |u| == 0 {
      EqualsLocal(w, t, true);
      EqualsLocal(w, t', true);
      assert s == w + t && s' == w + t';
    } else if u[0] == PERCENT {
      assert s[1..] == u[1..] + w + t && s'[1..] == u[1..] + w + t';
      ChainBarrier(u[1..], w, t, t');
    }
  }

  lemma {:induction false} PairBarrier(u: seq<byte>, w: seq<byte>, t: seq<byte>, t': seq<byte>)
    requires IsEquals(w, true)
    ensures ReadPair(u + w + t) == ReadPair(u + w + t')
    ensures ReadPair(u + w + t).Some? ==> ReadPair(u + w + t).value.len <= |u|
    decreases |u|, 1
  {
    hide ReadDigit, IsEquals;
    var s, s' := u + w + t, u + w + t';
    DigitBarrier(u, w, t, t');
    if ReadDigit(s).Some? {
      var n := ReadDigit(s).value.len;
      assert s[n..] == u[n..] + w + t && s'[n..] == u[n..] + w + t';
      DigitBarrier(u[n..], w, t, t');
    }
  }

  lemma {:induction false} ChainBarrier(u: seq<byte>, w: seq<byte>, t: seq<byte>, t': seq<byte>)
    requires IsEquals(w, true)
    ensures ReadChain(u + w + t) == ReadChain(u + w + t')
    ensures ReadChain(u + w + t).Some? ==> ReadChain(u + w + t).value.len <= |u|
    decreases |u|, 2
  {
    hide ReadPair, IsEquals;
    var s, s' := u + w + t, u + w + t';
    PairBarrier(u, w, t, t');
    if ReadPair(s).Some? && ReadPair(s).value.value == PERCENT {
      var n := ReadPair(s).value.len;
      assert s[n..] == u[n..] + w + t && s'[n..] == u[n..] + w + t';
      ChainBarrier(u[n..], w, t, t');
    }
  }

  lemma CharBarrier(u: seq<byte>, w: seq<byte>, t: seq<byte>, t': seq<byte>, esc: bool)
    requires IsEquals(w, esc) && |u| > 0
    ensures ReadChar(u + w + t, esc) == ReadChar(u + w + t', esc)
    ensures ReadChar(u + w + t, esc).Some? ==> ReadChar(u + w + t, esc).value.len <= |u|
  {
    hide ReadChain;
    var s, s' := u + w + t, u + w + t';
    assert s[1..] == u[1..] + w + t && s'[1..] == u[1..] + w + t';
    if esc {
      ChainBarrier(u[1..], w, t, t');
    }
  }

  lemma MatchEquals(w: seq<byte>, t: seq<byte>, key: Key, j: nat)
    requires IsEquals(w, key.escaped) && TokenKey(key) && j < |key.text|
    ensures Match(w + t, key, j) == if j == |key.text| - 1 then Some(|w|) else None
  {
    hide ReadChar;
    EqualsLocal(w, t, key.escaped);
  }

  /** Equal first characters and equal continuations make equal matches. */
  lemma {:induction false} MatchStep(s: seq<byte>, s': seq<byte>, key: Key, j: nat)
    requires j < |key.text| && ReadChar(s, key.escaped) == ReadChar(s', key.escaped)
    requires ReadChar(s, key.escaped).Some? ==>
               var n := ReadChar(s, key.escaped).value.len;
               Match(s[n..], key, j + 1) == Match(s'[n..], key, j + 1)
    ensures Match(s, key, j) == Match(s', key, j)
  {
    hide ReadChar;
  }

  /** A key that starts no later than a spelled '=' is decided by the bytes up to that '='. */
  lemma {:induction false} MatchBarrier(u: seq<byte>, w: seq<byte>, t: seq<byte>, t': seq<byte>, key: Key, j: nat)
    requires IsEquals(w, key.escaped) && TokenKey(key) && j <= |key.text|
    ensures Match(u + w + t, key, j) == Match(u + w + t', key, j)
    decreases |key.text| - j
  {
    hide ReadChar, Match;
    var s, s' := u + w + t, u + w + t';
    if j == |key.text| {
    } else if |u| == 0 {
      MatchEquals(w, t, key, j);
      MatchEquals(w, t', key, j);
      assert s == w + t && s' == w + t';
    } else {
      CharBarrier(u, w, t, t', key.escaped);
      if ReadChar(s, key.escaped).Some? {
        var n := ReadChar(s, key.escaped).value.len;
        assert s[n..] == u[n..] + w + t && s'[n..] == u[n..] + w + t';
        MatchBarrier(u[n..], w, t, t', key, j + 1);
      }
      MatchStep(s, s', key, j);
    }
  }

  /** A spelled key ends in a spelled '=', which starts at `n`. */
  lemma {:induction false} KeyEquals(s: seq<byte>, key: Key, j: nat) returns (n: nat)
    requires TokenKey(key) && j < |key.text| && Match(s, key, j).Some?
    ensures n < Match(s, key, j).value && IsEquals(s[n..Match(s, key, j).value], key.escaped)
    decreases |key.text| - j
  {
    hide ReadChain, Match;
    var c := MatchUnfold(s, key, j);
    var l := Match(s, key, j).value;
    if j == |key.text| - 1 {
      n := 0;
      FoldEquals(ReadChar(s, key.escaped).value.value);
      CharLocal(s, [], key.escaped);
      assert s[..c] + [] == s[0..l];
    } else {
      n := KeyEquals(s[c..], key, j + 1);
      SliceOfSlice(s, c, n, l - c);
      n := c + n;
    }
  }

  lemma FoldEquals(c: byte)
    ensures Fold(c) == EQUALS <==> c == EQUALS
  {
  }

  // ----- inside a key, and inside REDACTED

  /** No key starts inside REDACTED. */
  lemma NoKeyInRedacted(i: nat, t: seq<byte>, key: Key)
    requires i < |REDACTED| && TokenKey(key)
    ensures Match(REDACTED[i..] + t, key, 0).None?
  {
    hide Match;
    var x := REDACTED[i..] + t;
    assert x[0] == REDACTED[i];
    LiteralChar(x, key, 0);
    if i == 3 {
      assert x[1..][0] == REDACTED[4] && x[1..][1..][0] == REDACTED[5];
      LiteralChar(x[1..], key, 1);
      LiteralChar(x[1..][1..], key, 2);
    }
  }

  /** A literal byte is the next key character or ends the match. */
  lemma {:induction false} LiteralChar(y: seq<byte>, key: Key, j: nat)
    requires j < |key.text| && |y| > 0 && y[0] != PERCENT
    ensures Match(y, key, j).Some? ==> Fold(y[0]) == key.text[j] && Match(y[1..], key, j + 1).Some?
  {
    hide ReadChain;
  }

  /** `x` starts with a spelling of key.text[j..] that is `l` long and is followed by 'R'. */
  predicate KeyThenR(x: seq<byte>, key: Key, j: nat, l: nat) {
    j < |key.text| && l < |x| && Match(x, key, j) == Some(l) && x[l] == UPPER_R
  }

  /** A match attempt begun inside a key that is followed by REDACTED can only end where that key ends. */
  lemma {:induction false} KeyInterior(x: seq<byte>, key: Key, j: nat, l: nat, q: nat, i: nat)
    requires TokenKey(key) && KeyThenR(x, key, j, l) && q < l && i < |key.text| && Match(x[q..], key, i).Some?
    ensures q + Match(x[q..], key, i).value == l
    decreases |x| - q, |key.text| - j
  {
    hide ReadChar, Match;
    var c := MatchUnfold(x, key, j);
    if q >= c {
      assert x[q..] == x[c..][q - c..];
      KeyInterior(x[c..], key, j + 1, l - c, q - c, i);
    } else if q == 0 {
      assert x[0..] == x;
      KeyFront(x, key, j, l, i);
    } else {
      KeyCharInterior(x, key, j, l, q, i);
    }
  }

  lemma {:induction false} KeyFront(x: seq<byte>, key: Key, j: nat, l: nat, i: nat)
    requires TokenKey(key) && j < |key.text| && i < |key.text| && Match(x, key, j) == Some(l) && Match(x, key, i).Some?
    ensures Match(x, key, i).value == l
    decreases |key.text| - j, 0
  {
    hide ReadChar, Match;
    var c := MatchUnfold(x, key, j);
    var c' := MatchUnfold(x, key, i);
    if j < |key.text| - 1 {
      KeyFront(x[c..], key, j + 1, l - c, i + 1);
    }
  }

  lemma {:induction false} KeyCharInterior(x: seq<byte>, key: Key, j: nat, l: nat, q: nat, i: nat)
    requires TokenKey(key) && KeyThenR(x, key, j, l) && i < |key.text|
    requires ReadChar(x, key.escaped).Some? && 0 < q < ReadChar(x, key.escaped).value.len <= l
    requires Match(x[q..], key, i).Some?
    ensures q + Match(x[q..], key, i).value == l
    decreases |x| - q, 0
  {
    hide ReadChar, Match;
    var d := InsideKeyChar(x, q, key.escaped);
    var d' := MatchUnfold(x[q..], key, i);
    assert x[q..][d..] == x[q + d..];
    HexNotEquals(ReadChar(x[q..], key.escaped).value.value);
    assert q + d < l by {
      RStopsMatch(x[l..], key, i + 1);
    }
    KeyInterior(x, key, j, l, q + d, i + 1);
  }

  lemma RStopsMatch(y: seq<byte>, key: Key, i: nat)
    requires TokenKey(key) && i < |key.text| && |y| > 0 && y[0] == UPPER_R
    ensures Match(y, key, i).None?
  {
    hide Match;
    LiteralChar(y, key, i);
  }

  lemma HexNotEquals(c: byte)
    requires HexValue(c).Some?
    ensures Fold(c) != EQUALS
  {
  }

  /** Strictly inside an escaped key character stands a hex digit, so a match attempt there moves past it. */
  lemma InsideKeyChar(x: seq<byte>, q: nat, esc: bool) returns (d: nat)
    requires ReadChar(x, esc).Some? && 0 < q < ReadChar(x, esc).value.len
    ensures ReadChar(x[q..], esc).Some? && ReadChar(x[q..], esc).value.len == d && q + d <= ReadChar(x, esc).value.len
    ensures HexValue(ReadChar(x[q..], esc).value.value).Some?
  {
    ChainInterior(x[1..]);
    assert x[1..][q - 1..] == x[q..];
    d := ReadDigit(x[q..]).value.len;
  }
}
