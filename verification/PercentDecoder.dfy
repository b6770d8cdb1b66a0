/** The suffix-reducing stack of internal/redactx/percent.go, and its agreement with the escape table:
    an escape resolves at a '%' exactly when a stack started there collapses to that one byte. */
module PercentDecoder {
  import opened Wrappers
  import opened Bytes
  import opened EscapeGrammar
  import opened EscapeTable

  /** One decoded byte and the half-open source range it came from. */
  datatype Decoded = Decoded(value: byte, start: nat, end: nat)

  function Plain(c: byte, plusAsSpace: bool): byte {
    if plusAsSpace && c == PLUS then SPACE else c
  }

  /** Whether the three entries from `k` are a '%' and two hex digits. */
  predicate Reducible(st: seq<Decoded>, k: nat)
    requires k + 3 <= |st|
  {
    st[k].value == PERCENT && HexValue(st[k + 1].value).Some? && HexValue(st[k + 2].value).Some?
  }

  function Collapse(st: seq<Decoded>): seq<Decoded>
    requires |st| >= 3 && Reducible(st, |st| - 3)
  {
    var k := |st| - 3;
    st[..k] + [Decoded(PairByte(st[k + 1].value, st[k + 2].value), st[k].start, st[k + 2].end)]
  }

  /** The inner loop: collapse the top while it is an escape. */
  function Reduce(st: seq<Decoded>): seq<Decoded>
    decreases |st|
  {
    if |st| >= 3 && Reducible(st, |st| - 3) then Reduce(Collapse(st)) else st
  }

  function Push(st: seq<Decoded>, e: Decoded): seq<Decoded> {
    Reduce(st + [e])
  }

  /** The outer loop: push the bytes of `s`, which start at source position `at`. */
  function Feed(st: seq<Decoded>, s: seq<byte>, at: nat, plus: bool): seq<Decoded>
    decreases |s|
  {
    if |s| == 0 then st
    else Feed(Push(st, Decoded(Plain(s[0], plus), at, at + 1)), s[1..], at + 1, plus)
  }

  function Decode(raw: seq<byte>, plus: bool): seq<Decoded> {
    Feed([], raw, 0, plus)
  }

  function Text(st: seq<Decoded>): seq<byte> {
    seq(|st|, i requires 0 <= i < |st| => st[i].value)
  }

  lemma {:induction false} FeedAppend(st: seq<Decoded>, a: seq<byte>, b: seq<byte>, at: nat, plus: bool)
    ensures Feed(st, a + b, at, plus) == Feed(Feed(st, a, at, plus), b, at + |a|, plus)
    decreases |a|
  {
    if |a| == 0 {
      assert a + b == b;
    } else {
      assert (a + b)[1..] == a[1..] + b;
      FeedAppend(Push(st, Decoded(Plain(a[0], plus), at, at + 1)), a[1..], b, at + 1, plus);
    }
  }

  // ----- a grammatical escape behaves on the stack as the byte it decodes to

  /** Nothing collapses under a '%', nor under a '%' and one more entry. */
  lemma OpenEscape(st: seq<Decoded>, open: Decoded, e: Decoded)
    requires open.value == PERCENT
    ensures Push(st, open) == st + [open]
    ensures Push(st + [open], e) == st + [open, e]
  {
    assert st + [open] + [e] == st + [open, e];
  }

  lemma {:induction false} FeedDigit(st: seq<Decoded>, d: DigitTree, at: nat, plus: bool)
    requires DigitOk(d)
    ensures Feed(st, SpellDigit(d), at, plus) == Push(st, Decoded(DigitByte(d), at, at + |SpellDigit(d)|))
    decreases d, 0
  {
    match d
    case Literal(c) =>
      assert [c][1..] == [];
    case Nested(chain) =>
      var open := Decoded(PERCENT, at, at + 1);
      OpenEscape(st, open, open);
      assert SpellDigit(d)[1..] == SpellChain(chain);
      FeedChain(st, open, chain, plus);
  }

  /** With an open '%' on top, the bytes of a chain leave exactly the byte the chain decodes to. */
  lemma {:induction false} FeedChain(st: seq<Decoded>, open: Decoded, c: ChainTree, plus: bool)
    requires ChainOk(c) && open.value == PERCENT
    ensures Feed(st + [open], SpellChain(c), open.end, plus)
         == Push(st, Decoded(ChainByte(c), open.start, open.end + |SpellChain(c)|))
    decreases c, 1
  {
    hide SpellDigit, DigitByte, Feed, Push;
    match c
    case Last(high, low) =>
      FeedPair(st, open, c, plus);
    case More(high, low, rest) =>
      var pair := SpellDigit(high) + SpellDigit(low);
      FeedPair(st, open, c, plus);
      var again := Decoded(PERCENT, open.start, open.end + |pair|);
      OpenEscape(st, again, again);
      FeedAppend(st + [open], pair, SpellChain(rest), open.end, plus);
      FeedChain(st, again, rest, plus);
  }

  lemma {:induction false} FeedPair(st: seq<Decoded>, open: Decoded, c: ChainTree, plus: bool)
    requires DigitOk(c.high) && DigitOk(c.low) && open.value == PERCENT
    ensures Feed(st + [open], SpellDigit(c.high) + SpellDigit(c.low), open.end, plus)
         == Push(st, Decoded(PairByte(DigitByte(c.high), DigitByte(c.low)), open.start,
                             open.end + |SpellDigit(c.high) + SpellDigit(c.low)|))
    decreases c, 0
  {
    hide SpellDigit, DigitByte, Feed, ChainOk;
    var h, l := SpellDigit(c.high), SpellDigit(c.low);
    var mid := open.end + |h|;
    var eh, el := Decoded(DigitByte(c.high), open.end, mid), Decoded(DigitByte(c.low), mid, mid + |l|);
    FeedAppend(st + [open], h, l, open.end, plus);
    FeedDigit(st + [open], c.high, open.end, plus);
    OpenEscape(st, open, eh);
    FeedDigit(st + [open, eh], c.low, mid, plus);
    var full := st + [open, eh] + [el];
    assert Reducible(full, |full| - 3);
    assert Collapse(full) == st + [Decoded(PairByte(eh.value, el.value), open.start, el.end)];
  }

  // ----- what every stack is

  /** The entries cover [lo, hi) in order, without gap or overlap. */
  predicate Tiles(st: seq<Decoded>, lo: nat, hi: nat) {
    && (forall k :: 0 <= k < |st| ==> st[k].start < st[k].end)
    && (forall k :: 0 < k < |st| ==> st[k - 1].end == st[k].start)
    && (if |st| == 0 then lo == hi else st[0].start == lo && st[|st| - 1].end == hi)
  }

  /** No three neighbouring entries are still an escape: the view is fully decoded. */
  predicate Stable(st: seq<Decoded>) {
    forall k :: 0 <= k && k + 3 <= |st| ==> !Reducible(st, k)
  }

  /** What an entry says about the raw bytes: a literal byte, a resolved escape, or (for a '%') a chain still open. */
  predicate Derived(raw: seq<byte>, plus: bool, e: Decoded) {
    && e.start < e.end <= |raw|
    && if e.value == PERCENT then
         raw[e.start] == PERCENT && ReadChain(raw[e.start + 1..]) == Shift(ReadChain(raw[e.end..]), e.end - e.start - 1)
       else
         || (e.end == e.start + 1 && e.value == Plain(raw[e.start], plus))
         || EscapeAt(raw, e.start) == PercentEscape(e.end, e.value)
  }

  lemma DerivedDigit(raw: seq<byte>, plus: bool, e: Decoded)
    requires Derived(raw, plus, e) && HexValue(e.value).Some?
    ensures e.start < e.end <= |raw|
    ensures ReadDigit(raw[e.start..]) == Some(Read(e.end - e.start, HexValue(e.value).value))
  {
    assert raw[e.start..][1..] == raw[e.start + 1..];
  }

  predicate Sound(raw: seq<byte>, plus: bool, st: seq<Decoded>) {
    forall k :: 0 <= k < |st| ==> Derived(raw, plus, st[k])
  }

  /** Two adjacent digit reads make a pair. */
  lemma AdjacentDigits(raw: seq<byte>, a: nat, b: nat, c: nat, high: nat, low: nat)
    requires a < b < c <= |raw|
    requires ReadDigit(raw[a..]) == Some(Read(b - a, high)) && ReadDigit(raw[b..]) == Some(Read(c - b, low))
    ensures ReadPair(raw[a..]) == Some(Read(c - a, 16 * high + low))
  {
    assert raw[a..][b - a..] == raw[b..];
  }

  /** A pair read where an open chain stands resolves it, or leaves it open further on. */
  lemma PairExtendsChain(raw: seq<byte>, open: Decoded, c: nat, v: byte, plus: bool)
    requires open.value == PERCENT && Derived(raw, plus, open)
    requires open.end < c <= |raw| && ReadPair(raw[open.end..]) == Some(Read(c - open.end, v))
    ensures Derived(raw, plus, Decoded(v, open.start, c))
  {
    hide ReadPair, ReadDigit;
    assert raw[open.end..][c - open.end..] == raw[c..];
  }

  lemma CollapseSound(raw: seq<byte>, plus: bool, st: seq<Decoded>, lo: nat, hi: nat)
    requires |st| >= 3 && Reducible(st, |st| - 3)
    requires Tiles(st, lo, hi) && Sound(raw, plus, st)
    ensures Tiles(Collapse(st), lo, hi) && Sound(raw, plus, Collapse(st))
  {
    hide Derived, ReadDigit, ReadPair;
    var k := |st| - 3;
    var open, h, l := st[k], st[k + 1], st[k + 2];
    assert st[k + 1 - 1].end == h.start && st[k + 2 - 1].end == l.start;
    DerivedDigit(raw, plus, h);
    DerivedDigit(raw, plus, l);
    AdjacentDigits(raw, h.start, l.start, l.end, HexValue(h.value).value, HexValue(l.value).value);
    PairExtendsChain(raw, open, l.end, PairByte(h.value, l.value), plus);
  }

  lemma {:induction false} ReduceKeeps(raw: seq<byte>, plus: bool, st: seq<Decoded>, lo: nat, hi: nat)
    requires Tiles(st, lo, hi) && Sound(raw, plus, st) && |st| > 0
    requires Stable(st[..|st| - 1])
    ensures Tiles(Reduce(st), lo, hi) && Sound(raw, plus, Reduce(st)) && Stable(Reduce(st))
    decreases |st|
  {
    hide Derived, Stable;
    if |st| >= 3 && Reducible(st, |st| - 3) {
      CollapseSound(raw, plus, st, lo, hi);
      StablePrefix(st[..|st| - 1], |st| - 3);
      assert Collapse(st)[..|st| - 3] == st[..|st| - 1][..|st| - 3];
      ReduceKeeps(raw, plus, Collapse(st), lo, hi);
    } else {
      StableExtend(st);
    }
  }

  lemma StablePrefix(st: seq<Decoded>, n: nat)
    requires Stable(st) && n <= |st|
    ensures Stable(st[..n])
  {
    var init := st[..n];
    forall k | 0 <= k && k + 3 <= |init| ensures !Reducible(init, k) {
      assert !Reducible(st, k);
    }
  }

  lemma StableExtend(st: seq<Decoded>)
    requires |st| > 0 && Stable(st[..|st| - 1]) && (|st| >= 3 ==> !Reducible(st, |st| - 3))
    ensures Stable(st)
  {
    var init := st[..|st| - 1];
    forall k | 0 <= k && k + 3 <= |st| ensures !Reducible(st, k) {
      if k + 3 < |st| {
        assert !Reducible(init, k);
      }
    }
  }

  /** Every stack the loop reaches tiles what it has read, is fully decoded, and is justified entry by entry. */
  lemma {:induction false} FeedKeeps(raw: seq<byte>, plus: bool, st: seq<Decoded>, lo: nat, at: nat, hi: nat)
    requires at <= hi <= |raw|
    requires Tiles(st, lo, at) && Sound(raw, plus, st) && Stable(st)
    ensures Tiles(Feed(st, raw[at..hi], at, plus), lo, hi)
    ensures Sound(raw, plus, Feed(st, raw[at..hi], at, plus)) && Stable(Feed(st, raw[at..hi], at, plus))
    decreases hi - at
  {
    hide Push, Tiles, Sound, Stable;
    if at < hi {
      var e := Decoded(Plain(raw[at], plus), at, at + 1);
      PushKeeps(raw, plus, st, lo, at);
      assert raw[at..hi][1..] == raw[at + 1..hi];
      FeedKeeps(raw, plus, Push(st, e), lo, at + 1, hi);
    }
  }

  lemma LiteralDerived(raw: seq<byte>, plus: bool, at: nat)
    requires at < |raw|
    ensures Derived(raw, plus, Decoded(Plain(raw[at], plus), at, at + 1))
  {
    hide ReadChain;
  }

  lemma PushKeeps(raw: seq<byte>, plus: bool, st: seq<Decoded>, lo: nat, at: nat)
    requires at < |raw|
    requires Tiles(st, lo, at) && Sound(raw, plus, st) && Stable(st)
    ensures var r := Push(st, Decoded(Plain(raw[at], plus), at, at + 1));
            Tiles(r, lo, at + 1) && Sound(raw, plus, r) && Stable(r)
  {
    hide Derived, Stable;
    var e := Decoded(Plain(raw[at], plus), at, at + 1);
    var pushed := st + [e];
    LiteralDerived(raw, plus, at);
    assert pushed[..|pushed| - 1] == st;
    ReduceKeeps(raw, plus, pushed, lo, at + 1);
  }

  // ----- the main results

  /** The table entry of a '%' is the byte a reducing stack that began at that '%' collapses to, and no entry
      is set when the stack never does: the fast table refines the shared decoder. */
  lemma TableIsStack(raw: seq<byte>, plus: bool, i: nat, end: nat, v: byte)
    requires i < end <= |raw| && raw[i] == PERCENT && v != PERCENT
    ensures EscapeAt(raw, i) == PercentEscape(end, v) <==> Feed([], raw[i..end], i, plus) == [Decoded(v, i, end)]
  {
    if EscapeAt(raw, i) == PercentEscape(end, v) {
      ResolvedWord(raw, i, end);
      FeedEscape([], raw[i..end], i, plus);
    }
    StackToTable(raw, plus, i, end, v);
  }

  /** The bytes of a resolved escape are an escape on their own. */
  lemma ResolvedWord(raw: seq<byte>, i: nat, end: nat)
    requires i < end <= |raw| && EscapeAt(raw, i).end == end
    ensures raw[i] == PERCENT && ReadChain(raw[i..end][1..]) == Some(Read(end - i - 1, EscapeAt(raw, i).value))
  {
    ChainLocal(raw[i + 1..], []);
    assert raw[i + 1..][..end - i - 1] + [] == raw[i..end][1..];
  }

  /** An escape fed onto any stack acts as the byte it decodes to. */
  lemma FeedEscape(st: seq<Decoded>, w: seq<byte>, at: nat, plus: bool)
    requires |w| > 0 && w[0] == PERCENT && ReadChain(w[1..]).Some? && ReadChain(w[1..]).value.len == |w| - 1
    ensures Feed(st, w, at, plus) == Push(st, Decoded(ReadChain(w[1..]).value.value, at, at + |w|))
  {
    var c := ChainSound(w[1..]);
    assert w[1..][..|w| - 1] == w[1..];
    var open := Decoded(PERCENT, at, at + 1);
    OpenEscape(st, open, open);
    FeedChain(st, open, c, plus);
  }

  lemma StackToTable(raw: seq<byte>, plus: bool, i: nat, end: nat, v: byte)
    requires i < end <= |raw| && raw[i] == PERCENT && v != PERCENT
    ensures Feed([], raw[i..end], i, plus) == [Decoded(v, i, end)] ==> EscapeAt(raw, i) == PercentEscape(end, v)
  {
    FeedKeeps(raw, plus, [], i, i, end);
    var st := Feed([], raw[i..end], i, plus);
    if st == [Decoded(v, i, end)] {
      assert Derived(raw, plus, st[0]);
    }
  }

  /** The decoded view maps back to the raw bytes without gap or overlap and contains no escape any more. */
  lemma DecodeView(raw: seq<byte>, plus: bool)
    ensures Tiles(Decode(raw, plus), 0, |raw|) && Stable(Decode(raw, plus)) && Sound(raw, plus, Decode(raw, plus))
  {
    assert raw[0..|raw|] == raw;
    FeedKeeps(raw, plus, [], 0, 0, |raw|);
  }

  /** Three bytes that would still decode. */
  predicate EscapeIn(t: seq<byte>, k: nat)
    requires k + 3 <= |t|
  {
    t[k] == PERCENT && HexValue(t[k + 1]).Some? && HexValue(t[k + 2]).Some?
  }

  predicate StableText(t: seq<byte>) {
    forall k :: 0 <= k && k + 3 <= |t| ==> !EscapeIn(t, k)
  }

  /** Decoding is idempotent on text: nested encoding is resolved in the one pass. */
  lemma DecodeIdempotent(raw: seq<byte>, plus: bool)
    ensures Text(Decode(Text(Decode(raw, plus)), false)) == Text(Decode(raw, plus))
  {
    DecodeView(raw, plus);
    var st := Decode(raw, plus);
    forall k | 0 <= k && k + 3 <= |Text(st)| ensures !EscapeIn(Text(st), k) {
      assert !Reducible(st, k);
    }
    assert Text([]) + Text(st) == Text(st);
    FeedStableText([], Text(st), 0, false);
  }

  /** Bytes among which nothing is an escape are pushed and never collapse. */
  lemma {:induction false} FeedStableText(st: seq<Decoded>, t: seq<byte>, at: nat, plus: bool)
    requires StableText(Text(st) + t) && (plus ==> PLUS !in t)
    ensures Text(Feed(st, t, at, plus)) == Text(st) + t
    ensures st <= Feed(st, t, at, plus)
    decreases |t|
  {
    if |t| > 0 {
      var e := Decoded(t[0], at, at + 1);
      var s := Text(st) + t;
      assert Text(st + [e]) + t[1..] == s;
      if |st| >= 2 {
        assert !EscapeIn(s, |st| - 2);
      }
      assert Push(st, e) == st + [e];
      FeedStableText(st + [e], t[1..], at + 1, plus);
    } else {
      assert Text(st) + t == Text(st);
    }
  }

  // ----- a byte that is neither '%' nor a hex digit shields everything below it

  predicate Shield(base: seq<Decoded>) {
    |base| > 0 && base[|base| - 1].value != PERCENT && HexValue(base[|base| - 1].value).None?
  }

  lemma {:induction false} ReduceShielded(base: seq<Decoded>, st: seq<Decoded>)
    requires Shield(base) && base <= st
    ensures base <= Reduce(st)
    decreases |st|
  {
    if |st| >= 3 && Reducible(st, |st| - 3) {
      assert base[|base| - 1] == st[|base| - 1];
      ReduceShielded(base, Collapse(st));
    }
  }

  lemma {:induction false} FeedShielded(base: seq<Decoded>, st: seq<Decoded>, s: seq<byte>, at: nat, plus: bool)
    requires Shield(base) && base <= st
    ensures base <= Feed(st, s, at, plus)
    decreases |s|
  {
    if |s| > 0 {
      var e := Decoded(Plain(s[0], plus), at, at + 1);
      ReduceShielded(base, st + [e]);
      FeedShielded(base, Push(st, e), s[1..], at + 1, plus);
    }
  }

  // ----- bytes that are no escape

  /** Text without '%' decodes to itself, but for the pluses of a query. */
  lemma PlainDecodes(raw: seq<byte>, plus: bool)
    requires PERCENT !in raw
    ensures |Decode(raw, plus)| == |raw|
    ensures forall i :: 0 <= i < |raw| ==>
              Decode(raw, plus)[i] ==
                Decoded(if plus && raw[i] == CharByte('+') then CharByte(' ') else raw[i], i, i + 1)
  {
    FeedPlain([], raw, raw, 0, plus);
  }

  lemma {:induction false} FeedPlain(st: seq<Decoded>, t: seq<byte>, raw: seq<byte>, at: nat, plus: bool)
    requires at <= |raw| && t == raw[at..] && PERCENT !in raw && |st| == at
    requires forall i :: 0 <= i < at ==> st[i] == Decoded(Spaced(raw[i], plus), i, i + 1)
    ensures var end := Feed(st, t, at, plus);
            |end| == |raw| && forall i :: 0 <= i < |raw| ==> end[i] == Decoded(Spaced(raw[i], plus), i, i + 1)
    decreases |t|
  {
    if |t| > 0 {
      var e := Decoded(Plain(t[0], plus), at, at + 1);
      var next := st + [e];
      assert t[0] == raw[at] && t[1..] == raw[at + 1..];
      assert |next| >= 3 ==> next[|next| - 3].value == Spaced(raw[|next| - 3], plus);
      assert Push(st, e) == next;
      FeedPlain(next, t[1..], raw, at + 1, plus);
    }
  }

  function Spaced(c: byte, plus: bool): byte {
    if plus && c == CharByte('+') then CharByte(' ') else c
  }

  /** An escape is malformed exactly when its '%' is not followed by two hex digits. */
  lemma MalformedIff(raw: seq<byte>, i: nat)
    requires i < |raw|
    ensures Malformed(raw, i) <==>
              && raw[i] == CharByte('%')
              && !(i + 2 < |raw| && IsHex(raw[i + 1]) && IsHex(raw[i + 2]))
  {
    if i + 2 < |raw| {
      HexValueIff(raw[i + 1]);
      HexValueIff(raw[i + 2]);
    }
  }

  // ----- the code

  /** A '%' that the outermost layer does not follow with two hex digits. */
  predicate Malformed(raw: seq<byte>, i: nat)
    requires i < |raw|
  {
    raw[i] == PERCENT && (i + 2 >= |raw| || HexValue(raw[i + 1]).None? || HexValue(raw[i + 2]).None?)
  }

  /** redactx.PercentDecode: the stack (the view's text and source ranges) and the malformed-escape flag. */
  method PercentDecode(raw: seq<byte>, plusAsSpace: bool) returns (stack: seq<Decoded>, malformedRaw: bool)
    ensures stack == Decode(raw, plusAsSpace)
    ensures malformedRaw <==> exists i :: 0 <= i < |raw| && Malformed(raw, i)
  {
    stack, malformedRaw := [], false;
    for i := 0 to |raw|
      invariant Feed(stack, raw[i..], i, plusAsSpace) == Decode(raw, plusAsSpace)
      invariant malformedRaw <==> exists k :: 0 <= k < i && Malformed(raw, k)
    {
      if Malformed(raw, i) {
        malformedRaw := true;
      }
      ghost var before := stack;
      var current := Decoded(Plain(raw[i], plusAsSpace), i, i + 1);
      stack := stack + [current];
      while |stack| >= 3 && Reducible(stack, |stack| - 3)
        invariant Reduce(stack) == Push(before, current)
        decreases |stack|
      {
        stack := Collapse(stack);
      }
      assert raw[i..][1..] == raw[i + 1..];
    }
  }
}
