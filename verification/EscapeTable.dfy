/** The right-to-left table of resolved escapes (agentproto/auth_uri_inneedle.go, resolvePercentEscapes), proved
    equal to the reader of EscapeGrammar at every position and linear in the steps the code counts. */
module EscapeTable {
  import opened Wrappers
  import opened Bytes
  import opened EscapeGrammar

  /** `end` is the raw position after the escape, and zero when no escape starts here. */
  datatype PercentEscape = PercentEscape(end: nat, value: byte)

  const UNRESOLVED := PercentEscape(0, 0)

  /** The table entry the grammar prescribes for position `i`. */
  function EscapeAt(raw: seq<byte>, i: nat): (e: PercentEscape)
    requires i < |raw|
    ensures e.end != 0 ==> raw[i] == PERCENT && i + 3 <= e.end <= |raw| && e.value != PERCENT
  {
    if raw[i] != PERCENT then UNRESOLVED
    else
      match ReadChain(raw[i + 1..])
      case None => UNRESOLVED
      case Some(r) => PercentEscape(i + 1 + r.len, r.value)
  }

  /** An entry is set exactly when a derivation starts there, and then it names that derivation's end and byte.
      By ChainUnambiguous there is at most one. */
  lemma TableMatchesGrammar(raw: seq<byte>, i: nat, c: ChainTree, end: nat)
    requires i < end <= |raw| && ChainOk(c)
    ensures raw[i..end] == [PERCENT] + SpellChain(c) ==> EscapeAt(raw, i) == PercentEscape(end, ChainByte(c))
    ensures EscapeAt(raw, i).end == end ==>
              exists c' :: && ChainOk(c') && raw[i..end] == [PERCENT] + SpellChain(c')
                           && EscapeAt(raw, i).value == ChainByte(c')
  {
    hide EscapeAt, SpellChain, ChainOk, ChainByte;
    if raw[i..end] == [PERCENT] + SpellChain(c) {
      DerivationSetsEntry(raw, i, c, end);
    }
    if EscapeAt(raw, i).end == end {
      var c' := EntryHasDerivation(raw, i, end);
    }
  }

  lemma DerivationSetsEntry(raw: seq<byte>, i: nat, c: ChainTree, end: nat)
    requires i < end <= |raw| && ChainOk(c) && raw[i..end] == [PERCENT] + SpellChain(c)
    ensures EscapeAt(raw, i) == PercentEscape(end, ChainByte(c))
  {
    hide ReadChain, SpellChain, ChainOk, ChainByte;
    assert raw[i] == raw[i..end][0];
    ChainComplete(c, raw[end..]);
    assert raw[i + 1..] == raw[i..end][1..] + raw[end..];
  }

  lemma EntryHasDerivation(raw: seq<byte>, i: nat, end: nat) returns (c: ChainTree)
    requires i < end <= |raw| && EscapeAt(raw, i).end == end
    ensures ChainOk(c) && raw[i..end] == [PERCENT] + SpellChain(c) && EscapeAt(raw, i).value == ChainByte(c)
  {
    hide ReadChain, SpellChain, ChainOk, ChainByte;
    c := ChainSound(raw[i + 1..]);
    assert raw[i..end] == [PERCENT] + raw[i + 1..][..end - i - 1];
  }

  /** An ordinary escape, '%' and the two hex digits of a byte in either case, resolves to that byte. So does one whose
      '%' is itself escaped as "%25". */
  lemma OrdinaryEscapeResolves(b: byte, high: byte, low: byte, t: seq<byte>)
    requires IsHexDigit(high, b / 16) && IsHexDigit(low, b % 16) && b != PERCENT
    ensures EscapeAt([PERCENT, high, low] + t, 0) == PercentEscape(3, b)
    ensures EscapeAt(Ascii("%25") + [high, low] + t, 0) == PercentEscape(5, b)
  {
    hide ReadChain, SpellChain, ChainByte, ChainOk, EscapeAt;
    var once := Last(Literal(high), Literal(low));
    DigitPair(b, high, low);
    var raw := [PERCENT, high, low] + t;
    assert raw[0..3] == [PERCENT] + SpellChain(once);
    DerivationSetsEntry(raw, 0, once, 3);
    var two, five := CharByte('2'), CharByte('5');
    DigitPair(PERCENT, two, five);
    var twice := More(Literal(two), Literal(five), once);
    EscapedPercent(two, five, once);
    var nested := Ascii("%25") + [high, low] + t;
    assert Ascii("%25") == [PERCENT, two, five];
    assert nested[0..5] == [PERCENT] + SpellChain(twice);
    DerivationSetsEntry(nested, 0, twice, 5);
  }

  lemma DigitPair(b: byte, high: byte, low: byte)
    requires IsHexDigit(high, b / 16) && IsHexDigit(low, b % 16)
    ensures PairByte(high, low) == b && HexValue(high).Some? && HexValue(low).Some?
    ensures var c := Last(Literal(high), Literal(low));
            ChainByte(c) == b && SpellChain(c) == [high, low] && (b != PERCENT ==> ChainOk(c))
  {
    HexValueIff(high);
    HexValueIff(low);
  }

  lemma EscapedPercent(two: byte, five: byte, rest: ChainTree)
    requires PairByte(two, five) == PERCENT && HexValue(two).Some? && HexValue(five).Some? && ChainOk(rest)
    ensures var c := More(Literal(two), Literal(five), rest);
            ChainOk(c) && ChainByte(c) == ChainByte(rest) && SpellChain(c) == [two, five] + SpellChain(rest)
  {
  }

  /** Resolved escapes are at least three bytes, in bounds and never decode to '%'. They are laminar: every
      position strictly inside one is a literal hex digit, or a '%' that is itself resolved to a hex digit
      and ends no later. */
  lemma TableLaminar(raw: seq<byte>, i: nat, p: nat)
    requires i < |raw| && EscapeAt(raw, i) != UNRESOLVED
    ensures i + 3 <= EscapeAt(raw, i).end <= |raw| && EscapeAt(raw, i).value != PERCENT
    ensures i < p < EscapeAt(raw, i).end && raw[p] == PERCENT ==>
              && EscapeAt(raw, p) != UNRESOLVED && EscapeAt(raw, p).end <= EscapeAt(raw, i).end
              && HexValue(EscapeAt(raw, p).value).Some?
    ensures i < p < EscapeAt(raw, i).end && raw[p] != PERCENT ==> HexValue(raw[p]).Some?
  {
    if i < p < EscapeAt(raw, i).end {
      ChainInterior(raw[i + 1..]);
      assert raw[i + 1..][p - i - 1..] == raw[p..];
      assert ReadDigit(raw[p..]).Some?;
      assert raw[p..][1..] == raw[p + 1..];
    }
  }

  // ----- the step count

  /** Loop iterations spent on the chain that follows one '%'. */
  function ChainSteps(s: seq<byte>): nat
    decreases |s|
  {
    match ReadPair(s)
    case Some(p) => 1 + (if p.value == PERCENT then ChainSteps(s[p.len..]) else 0)
    case None => 1
  }

  /** Loop iterations spent on every '%' of `s`. */
  function Steps(s: seq<byte>): nat {
    if |s| == 0 then 0
    else (if s[0] == PERCENT then ChainSteps(s[1..]) else 0) + Steps(s[1..])
  }

  /** A digit pays for everything nested in it and leaves one byte over. */
  lemma {:induction false} DigitPays(s: seq<byte>)
    requires ReadDigit(s).Some?
    ensures Steps(s) + 1 <= Steps(s[ReadDigit(s).value.len..]) + ReadDigit(s).value.len
    decreases |s|, 0
  {
    if s[0] == PERCENT {
      ChainPays(s[1..]);
      var n := ReadChain(s[1..]).value.len;
      assert s[1..][n..] == s[1 + n..];
    }
  }

  /** Its two spare bytes let a pair pay for the iteration that consumed it. */
  lemma {:induction false} PairPays(s: seq<byte>)
    requires ReadPair(s).Some?
    ensures Steps(s) + 2 <= Steps(s[ReadPair(s).value.len..]) + ReadPair(s).value.len
    decreases |s|, 1
  {
    hide ReadDigit, Steps;
    var n := ReadDigit(s).value.len;
    DigitPays(s);
    DigitPays(s[n..]);
    var m := ReadPair(s).value.len;
    assert s[n..][m - n..] == s[m..];
  }

  /** A resolved chain pays for itself out of its own bytes; an unresolved one stops where nothing to its
      right has been charged yet. */
  lemma {:induction false} ChainPays(s: seq<byte>)
    ensures ReadChain(s).Some? ==>
              ChainSteps(s) + Steps(s) + 1 <= Steps(s[ReadChain(s).value.len..]) + ReadChain(s).value.len
    ensures ReadChain(s).None? ==> ChainSteps(s) + Steps(s) <= |s| + 1
    decreases |s|, 2
  {
    if ReadPair(s).None? {
      StepsLinear(s);
    } else {
      PairPays(s);
      if ReadPair(s).value.value == PERCENT {
        var m := ReadPair(s).value.len;
        ChainPays(s[m..]);
        if ReadChain(s[m..]).Some? {
          assert s[m..][ReadChain(s[m..]).value.len..] == s[ReadChain(s).value.len..];
        }
      }
    }
  }

  /** Resolving every escape of `s` takes at most one counted step per byte. */
  lemma {:induction false} StepsLinear(s: seq<byte>)
    ensures Steps(s) <= |s|
    decreases |s|, 1
  {
    if |s| > 0 {
      if s[0] == PERCENT {
        ChainPays(s[1..]);
        if ReadChain(s[1..]).Some? {
          StepsLinear(s[1..][ReadChain(s[1..]).value.len..]);
        }
      } else {
        StepsLinear(s[1..]);
      }
    }
  }

  /** The count is not too low either: every '%' costs at least one step. */
  lemma {:induction false} StepsCountPercents(s: seq<byte>)
    ensures Steps(s) >= multiset(s)[PERCENT]
    decreases |s|
  {
    if |s| > 0 {
      StepsCountPercents(s[1..]);
      assert s == [s[0]] + s[1..];
    }
  }

  // ----- the code

  /** One digit at `pos`, read from the part of the table already filled. */
  method HexDigitAt(raw: seq<byte>, escapes: array<PercentEscape>, pos: nat)
    returns (digit: nat, next: nat, ok: bool)
    requires escapes.Length == |raw| && pos <= |raw|
    requires forall k :: pos <= k < |raw| ==> escapes[k] == EscapeAt(raw, k)
    ensures ok == ReadDigit(raw[pos..]).Some?
    ensures ok ==> pos < next <= |raw| && ReadDigit(raw[pos..]) == Some(Read(next - pos, digit))
  {
    if pos >= |raw| {
      return 0, 0, false;
    }
    var literal := HexValue(raw[pos]);
    if literal.Some? {
      return literal.value, pos + 1, true;
    }
    assert raw[pos..][1..] == raw[pos + 1..];
    if escapes[pos].end != 0 {
      var nested := HexValue(escapes[pos].value);
      if nested.Some? {
        return nested.value, escapes[pos].end, true;
      }
    }
    return 0, 0, false;
  }

  /** Two digits from `pos`, and the byte they spell. */
  method HexPairAt(raw: seq<byte>, escapes: array<PercentEscape>, pos: nat)
    returns (value: nat, end: nat, ok: bool)
    requires escapes.Length == |raw| && pos <= |raw|
    requires forall k :: pos <= k < |raw| ==> escapes[k] == EscapeAt(raw, k)
    ensures ok == ReadPair(raw[pos..]).Some?
    ensures ok ==> pos < end <= |raw| && ReadPair(raw[pos..]) == Some(Read(end - pos, value))
  {
    var high, next, highOk := HexDigitAt(raw, escapes, pos);
    if !highOk { return 0, 0, false; }
    assert raw[pos..][next - pos..] == raw[next..];
    var low, last, lowOk := HexDigitAt(raw, escapes, next);
    return 16 * high + low, last, lowOk;
  }

  function Shift(r: Option<Read>, n: nat): Option<Read> {
    match r
    case None => None
    case Some(read) => Some(Read(n + read.len, read.value))
  }

  /** The inner loop: the chain that follows the '%' at `start`, and the iterations it took. */
  method ResolveChainAt(raw: seq<byte>, escapes: array<PercentEscape>, start: nat)
    returns (entry: PercentEscape, steps: nat)
    requires escapes.Length == |raw| && start < |raw| && raw[start] == PERCENT
    requires forall k :: start < k < |raw| ==> escapes[k] == EscapeAt(raw, k)
    ensures entry == EscapeAt(raw, start) && steps == ChainSteps(raw[start + 1..])
  {
    hide ReadPair, ReadDigit;
    steps := 0;
    var pos := start + 1;
    while true
      invariant start < pos <= |raw|
      invariant steps + ChainSteps(raw[pos..]) == ChainSteps(raw[start + 1..])
      invariant ReadChain(raw[start + 1..]) == Shift(ReadChain(raw[pos..]), pos - start - 1)
      decreases |raw| - pos
    {
      steps := steps + 1;
      var value, end, ok := HexPairAt(raw, escapes, pos);
      if !ok { return UNRESOLVED, steps; }
      if value != PERCENT { return PercentEscape(end, value), steps; }
      assert raw[pos..][end - pos..] == raw[end..];
      pos := end;
    }
  }

  method ResolvePercentEscapes(raw: seq<byte>) returns (escapes: array?<PercentEscape>, steps: nat)
    ensures escapes == null <==> PERCENT !in raw
    ensures escapes != null ==> escapes.Length == |raw| && forall k :: 0 <= k < |raw| ==> escapes[k] == EscapeAt(raw, k)
    ensures steps == Steps(raw) && steps <= |raw|
  {
    StepsLinear(raw);
    if PERCENT !in raw {
      NoPercentNoSteps(raw);
      return null, 0;
    }
    var table := new PercentEscape[|raw|](_ => UNRESOLVED);
    steps := 0;
    var start := |raw|;
    while start > 0
      invariant 0 <= start <= |raw|
      invariant forall k :: 0 <= k < start ==> table[k] == UNRESOLVED
      invariant forall k :: start <= k < |raw| ==> table[k] == EscapeAt(raw, k)
      invariant steps == Steps(raw[start..])
    {
      start := start - 1;
      assert raw[start..][1..] == raw[start + 1..];
      if raw[start] == PERCENT {
        var entry, taken := ResolveChainAt(raw, table, start);
        table[start] := entry;
        steps := steps + taken;
      }
    }
    assert raw[0..] == raw;
    return table, steps;
  }

  lemma NoPercentNoSteps(s: seq<byte>)
    requires PERCENT !in s
    ensures Steps(s) == 0
  {
  }
}
