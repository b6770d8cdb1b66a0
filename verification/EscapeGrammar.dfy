/** Nested percent escapes, as agentproto/auth_uri_inneedle.go reads them: a reader over the bytes that follow
    a position, and an independent grammar of derivation trees that the reader is proved to parse exactly. */
module EscapeGrammar {
  import opened Wrappers
  import opened Bytes

  // ----- the reader

  /** A successful read: how many bytes it consumed, and the value (a digit, or a decoded byte). */
  datatype Read = Read(len: nat, value: nat)

  /** One hex digit at the front of `s`: a literal digit, or an escape that decodes to one. */
  function ReadDigit(s: seq<byte>): (r: Option<Read>)
    ensures r.Some? ==> 1 <= r.value.len <= |s| && r.value.value < 16
    decreases |s|, 0
  {
    if |s| == 0 then None
    else if HexValue(s[0]).Some? then Some(Read(1, HexValue(s[0]).value))
    else if s[0] == PERCENT then
      match ReadChain(s[1..])
      case Some(r) => if HexValue(r.value).Some? then Some(Read(1 + r.len, HexValue(r.value).value)) else None
      case None => None
    else None
  }

  /** The bytes after a '%': digit pairs, each decoding to '%' and so opening the next pair, up to
      the first pair that decodes to another byte. */
  function ReadChain(s: seq<byte>): (r: Option<Read>)
    ensures r.Some? ==> 2 <= r.value.len <= |s| && r.value.value < 256 && r.value.value != PERCENT
    decreases |s|, 2
  {
    match ReadPair(s)
    case None => None
    case Some(p) =>
      if p.value != PERCENT then Some(p)
      else
        match ReadChain(s[p.len..])
        case None => None
        case Some(r) => Some(Read(p.len + r.len, r.value))
  }

  /** Two digits and the byte they spell. */
  function ReadPair(s: seq<byte>): (r: Option<Read>)
    ensures r.Some? ==> 2 <= r.value.len <= |s| && r.value.value < 256
    decreases |s|, 1
  {
    match ReadDigit(s)
    case None => None
    case Some(high) =>
      match ReadDigit(s[high.len..])
      case None => None
      case Some(low) => Some(Read(high.len + low.len, 16 * high.value + low.value))
  }

  // ----- the grammar

  datatype DigitTree = Literal(c: byte) | Nested(chain: ChainTree)
  datatype ChainTree = Last(high: DigitTree, low: DigitTree) | More(high: DigitTree, low: DigitTree, rest: ChainTree)

  function SpellDigit(d: DigitTree): seq<byte> {
    match d
    case Literal(c) => [c]
    case Nested(chain) => [PERCENT] + SpellChain(chain)
  }

  function SpellChain(c: ChainTree): seq<byte> {
    match c
    case Last(high, low) => SpellDigit(high) + SpellDigit(low)
    case More(high, low, rest) => SpellDigit(high) + SpellDigit(low) + SpellChain(rest)
  }

  /** The byte a digit tree stands for, before it is read as a hex digit. */
  function DigitByte(d: DigitTree): byte {
    match d
    case Literal(c) => c
    case Nested(chain) => ChainByte(chain)
  }

  function ChainByte(c: ChainTree): byte {
    match c
    case Last(high, low) => PairByte(DigitByte(high), DigitByte(low))
    case More(_, _, rest) => ChainByte(rest)
  }

  /** The byte two hex-digit characters spell. */
  function PairByte(high: byte, low: byte): byte {
    match (HexValue(high), HexValue(low))
    case (Some(h), Some(l)) => 16 * h + l
    case _ => 0
  }

  /** A digit decodes to a hex digit; inside a chain every pair but the last decodes to '%'. */
  predicate DigitOk(d: DigitTree) {
    HexValue(DigitByte(d)).Some? && (d.Nested? ==> ChainOk(d.chain))
  }

  predicate ChainOk(c: ChainTree) {
    && DigitOk(c.high) && DigitOk(c.low)
    && match c
       case Last(high, low) => PairByte(DigitByte(high), DigitByte(low)) != PERCENT
       case More(high, low, rest) => PairByte(DigitByte(high), DigitByte(low)) == PERCENT && ChainOk(rest)
  }

  // ----- the reader accepts exactly the grammar

  /** Every well-formed digit is read back, whatever follows it. */
  lemma {:induction false} DigitComplete(d: DigitTree, t: seq<byte>)
    requires DigitOk(d)
    ensures ReadDigit(SpellDigit(d) + t) == Some(Read(|SpellDigit(d)|, HexValue(DigitByte(d)).value))
    decreases d, 0
  {
    match d
    case Literal(c) =>
    case Nested(chain) =>
      ChainComplete(chain, t);
      assert (SpellDigit(d) + t)[1..] == SpellChain(chain) + t;
  }

  lemma {:induction false} PairComplete(c: ChainTree, t: seq<byte>)
    requires DigitOk(c.high) && DigitOk(c.low)
    ensures ReadPair(SpellDigit(c.high) + SpellDigit(c.low) + t)
         == Some(Read(|SpellDigit(c.high)| + |SpellDigit(c.low)|, PairByte(DigitByte(c.high), DigitByte(c.low))))
    decreases c, 0
  {
    hide ReadDigit, SpellDigit, DigitByte;
    var h, l := SpellDigit(c.high), SpellDigit(c.low);
    var s := h + l + t;
    assert s == h + (l + t) && s[|h|..] == l + t;
    DigitComplete(c.high, l + t);
    DigitComplete(c.low, t);
  }

  /** Every well-formed chain is read back, whatever follows it: the grammar is prefix-free. */
  lemma {:induction false} ChainComplete(c: ChainTree, t: seq<byte>)
    requires ChainOk(c)
    ensures ReadChain(SpellChain(c) + t) == Some(Read(|SpellChain(c)|, ChainByte(c)))
    decreases c, 1
  {
    hide ReadPair, SpellDigit, DigitByte, DigitOk;
    var h, l := SpellDigit(c.high), SpellDigit(c.low);
    match c
    case Last(high, low) =>
      PairComplete(c, t);
    case More(high, low, rest) =>
      var s := SpellChain(c) + t;
      PairComplete(c, SpellChain(rest) + t);
      assert s == h + l + (SpellChain(rest) + t);
      assert s[|h| + |l|..] == SpellChain(rest) + t;
      ChainComplete(rest, t);
  }

  /** Whatever the reader accepts has a derivation spelling exactly the consumed bytes. */
  lemma {:induction false} DigitSound(s: seq<byte>) returns (d: DigitTree)
    requires ReadDigit(s).Some?
    ensures DigitOk(d) && SpellDigit(d) == s[..ReadDigit(s).value.len]
    ensures HexValue(DigitByte(d)) == Some(ReadDigit(s).value.value)
    decreases |s|, 0
  {
    if HexValue(s[0]).Some? {
      d := Literal(s[0]);
    } else {
      var c := ChainSound(s[1..]);
      d := Nested(c);
    }
  }

  lemma {:induction false} PairSound(s: seq<byte>) returns (high: DigitTree, low: DigitTree)
    requires ReadPair(s).Some?
    ensures DigitOk(high) && DigitOk(low) && SpellDigit(high) + SpellDigit(low) == s[..ReadPair(s).value.len]
    ensures PairByte(DigitByte(high), DigitByte(low)) == ReadPair(s).value.value
    decreases |s|, 1
  {
    hide ReadDigit, SpellDigit, DigitByte, DigitOk;
    var n, m := ReadDigit(s).value.len, ReadPair(s).value.len;
    high := DigitSound(s);
    low := DigitSound(s[n..]);
    assert s[..n] + s[n..][..m - n] == s[..m];
  }

  lemma {:induction false} ChainSound(s: seq<byte>) returns (c: ChainTree)
    requires ReadChain(s).Some?
    ensures ChainOk(c) && SpellChain(c) == s[..ReadChain(s).value.len]
    ensures ChainByte(c) == ReadChain(s).value.value
    decreases |s|, 2
  {
    hide ReadPair, SpellDigit, DigitByte, DigitOk;
    var high, low := PairSound(s);
    if ReadPair(s).value.value != PERCENT {
      c := Last(high, low);
    } else {
      var m := ReadPair(s).value.len;
      var rest := ChainSound(s[m..]);
      c := More(high, low, rest);
      var r := ReadChain(s[m..]).value.len;
      assert s[..m] + s[m..][..r] == s[..m + r];
    }
  }

  /** The grammar is unambiguous: no byte string starts with two different escapes. */
  lemma {:induction false} ChainUnambiguous(c: ChainTree, c': ChainTree, t: seq<byte>, t': seq<byte>)
    requires ChainOk(c) && ChainOk(c') && SpellChain(c) + t == SpellChain(c') + t'
    ensures c == c' && t == t'
    decreases c, 1
  {
    var rest := if c.Last? then t else SpellChain(c.rest) + t;
    var rest' := if c'.Last? then t' else SpellChain(c'.rest) + t';
    assert SpellChain(c) + t == SpellDigit(c.high) + SpellDigit(c.low) + rest;
    assert SpellChain(c') + t' == SpellDigit(c'.high) + SpellDigit(c'.low) + rest';
    PairUnambiguous(c, c', rest, rest');
    if c.More? && c'.More? {
      ChainUnambiguous(c.rest, c'.rest, t, t');
    }
  }

  lemma {:induction false} PairUnambiguous(c: ChainTree, c': ChainTree, t: seq<byte>, t': seq<byte>)
    requires DigitOk(c.high) && DigitOk(c.low) && DigitOk(c'.high) && DigitOk(c'.low)
    requires SpellDigit(c.high) + SpellDigit(c.low) + t == SpellDigit(c'.high) + SpellDigit(c'.low) + t'
    ensures c.high == c'.high && c.low == c'.low && t == t'
    decreases c, 0
  {
    var rest, rest' := SpellDigit(c.low) + t, SpellDigit(c'.low) + t';
    assert SpellDigit(c.high) + rest == SpellDigit(c.high) + SpellDigit(c.low) + t;
    assert SpellDigit(c'.high) + rest' == SpellDigit(c'.high) + SpellDigit(c'.low) + t';
    DigitUnambiguous(c.high, c'.high, rest, rest');
    DigitUnambiguous(c.low, c'.low, t, t');
  }

  lemma {:induction false} DigitUnambiguous(d: DigitTree, d': DigitTree, t: seq<byte>, t': seq<byte>)
    requires DigitOk(d) && DigitOk(d') && SpellDigit(d) + t == SpellDigit(d') + t'
    ensures d == d' && t == t'
    decreases d, 0
  {
    hide DigitOk, DigitByte, ChainOk, SpellChain;
    FirstByte(d);
    FirstByte(d');
    var s := SpellDigit(d) + t;
    assert s[0] == SpellDigit(d)[0] && s[0] == SpellDigit(d')[0];
    if d.Nested? {
      assert SpellChain(d.chain) + t == s[1..] && SpellChain(d'.chain) + t' == s[1..];
      ChainUnambiguous(d.chain, d'.chain, t, t');
    } else {
      assert t == s[1..] && t' == s[1..];
    }
  }

  lemma FirstByte(d: DigitTree)
    requires DigitOk(d)
    ensures |SpellDigit(d)| > 0 && (SpellDigit(d)[0] == PERCENT <==> d.Nested?) && (d.Nested? ==> ChainOk(d.chain))
  {
  }

  // ----- locality

  /** A resolved escape depends only on its own bytes. */
  lemma ChainLocal(s: seq<byte>, t: seq<byte>)
    requires ReadChain(s).Some?
    ensures ReadChain(s[..ReadChain(s).value.len] + t) == ReadChain(s)
  {
    var c := ChainSound(s);
    ChainComplete(c, t);
  }

  /** Every position inside a read is itself a digit that ends inside the read. */
  predicate Interior(s: seq<byte>, n: nat)
    requires n <= |s|
  {
    forall p :: 0 <= p < n ==> ReadDigit(s[p..]).Some? && p + ReadDigit(s[p..]).value.len <= n
  }

  lemma {:induction false} DigitInterior(s: seq<byte>)
    requires ReadDigit(s).Some?
    ensures Interior(s, ReadDigit(s).value.len)
    decreases |s|, 0
  {
    var n := ReadDigit(s).value.len;
    assert s[0..] == s;
    if s[0] == PERCENT {
      ChainInterior(s[1..]);
      forall p | 1 <= p < n ensures ReadDigit(s[p..]).Some? && p + ReadDigit(s[p..]).value.len <= n {
        assert s[p..] == s[1..][p - 1..];
      }
    }
  }

  lemma {:induction false} ChainInterior(s: seq<byte>)
    requires ReadChain(s).Some?
    ensures Interior(s, ReadChain(s).value.len)
    decreases |s|, 1
  {
    hide ReadDigit;
    var a, b, n := ReadDigit(s).value.len, ReadPair(s).value.len, ReadChain(s).value.len;
    DigitInterior(s);
    DigitInterior(s[a..]);
    if ReadPair(s).value.value == PERCENT {
      ChainInterior(s[b..]);
    }
    forall p | 0 <= p < n ensures ReadDigit(s[p..]).Some? && p + ReadDigit(s[p..]).value.len <= n {
      if p >= b {
        assert s[p..] == s[b..][p - b..];
      } else if p >= a {
        assert s[p..] == s[a..][p - a..];
      }
    }
  }
}
