/** Byte-level vocabulary shared by the redaction and terminal models. A Go string or byte slice
    is a `seq<byte>`; ASCII constants are written as numbers with their character beside them. */
module Bytes {
  import opened Wrappers

  type byte = b: int | 0 <= b < 256

  const PERCENT: byte := 37   // '%'
  const EQUALS: byte := 61    // '='
  const AMPERSAND: byte := 38 // '&'
  const SEMICOLON: byte := 59 // ';'
  const COLON: byte := 58     // ':'
  const PLUS: byte := 43      // '+'
  const SPACE: byte := 32     // ' '
  const UPPER_R: byte := 82   // 'R', the first byte of REDACTED and, in either case, not in the key
  const LOWER_R: byte := 114  // 'r'
  const UPPER_D: byte := 68   // 'D', the last byte of REDACTED and, in either case, not in the key
  const LOWER_D: byte := 100  // 'd'
  const LOWER_A: byte := 97   // 'a'
  const LOWER_C: byte := 99   // 'c'
  const LOWER_K: byte := 107  // 'k'
  const LOWER_S: byte := 115  // 's'

  /** "access_token=" */
  const NEEDLE: seq<byte> := [97, 99, 99, 101, 115, 115, 95, 116, 111, 107, 101, 110, 61]

  /** "REDACTED" */
  const REDACTED: seq<byte> := [82, 69, 68, 65, 67, 84, 69, 68]

  /** The value of one ASCII hex digit. */
  function HexValue(c: byte): (r: Option<nat>)
    ensures r.Some? ==> r.value < 16
  {
    if 48 <= c <= 57 then Some(c - 48)
    else if 97 <= c <= 102 then Some(c - 87)
    else if 65 <= c <= 70 then Some(c - 55)
    else None
  }

  /** ASCII case folding to lower case. */
  function Fold(c: byte): byte {
    if 65 <= c <= 90 then c + 32 else c
  }

  // ----- the vocabulary against string literals

  /** The bytes of an ASCII text. */
  function Ascii(text: string): seq<byte> {
    seq(|text|, i requires 0 <= i < |text| => CharByte(text[i]))
  }

  function CharByte(c: char): byte {
    if c < '\U{80}' then c as int else '?' as int
  }

  /** The constants are the texts they are named for. */
  lemma TextConstants()
    ensures NEEDLE == Ascii("access_token=") && REDACTED == Ascii("REDACTED")
    ensures [PERCENT, EQUALS, AMPERSAND, SEMICOLON, COLON, PLUS, SPACE] == Ascii("%=&;:+ ")
  {
  }

  const UPPER_HEX := "0123456789ABCDEF"
  const LOWER_HEX := "0123456789abcdef"

  /** `c` is the hex digit of value `v`, in either case. */
  predicate IsHexDigit(c: byte, v: nat) {
    v < 16 && (c == CharByte(UPPER_HEX[v]) || c == CharByte(LOWER_HEX[v]))
  }

  predicate IsHex(c: byte) {
    exists v :: 0 <= v < 16 && IsHexDigit(c, v)
  }

  /** Every hex digit has its value, and nothing else has one. */
  lemma HexValueIff(c: byte)
    ensures forall v: nat :: HexValue(c) == Some(v) <==> IsHexDigit(c, v)
    ensures HexValue(c).Some? <==> IsHex(c)
  {
    HexAlphabet();
    if HexValue(c).Some? {
      assert IsHexDigit(c, HexValue(c).value);
    }
  }

  lemma HexAlphabet()
    ensures forall v :: 0 <= v < 10 ==> CharByte(UPPER_HEX[v]) == 48 + v && CharByte(LOWER_HEX[v]) == 48 + v
    ensures forall v :: 10 <= v < 16 ==> CharByte(UPPER_HEX[v]) == 55 + v && CharByte(LOWER_HEX[v]) == 87 + v
  {
  }

  const UPPER_CASE := "ABCDEFGHIJKLMNOPQRSTUVWXYZ"
  const LOWER_CASE := "abcdefghijklmnopqrstuvwxyz"

  /** `x` is `c`, or its upper-case form. */
  predicate SameLetter(x: byte, c: byte) {
    x == c || exists k :: 0 <= k < 26 && x == CharByte(UPPER_CASE[k]) && c == CharByte(LOWER_CASE[k])
  }

  predicate IsUpper(c: byte) {
    exists k :: 0 <= k < 26 && c == CharByte(UPPER_CASE[k])
  }

  /** Folding identifies a byte with its upper-case form and nothing else. */
  lemma FoldIff(x: byte, c: byte)
    ensures Fold(x) == c <==> SameLetter(x, c) && !IsUpper(c)
  {
    Alphabet(x);
    Alphabet(c);
    if Fold(x) == c && x != c {
      assert x == CharByte(UPPER_CASE[x - 65]) && c == CharByte(LOWER_CASE[x - 65]);
    }
  }

  /** The two alphabets are two runs of bytes. */
  lemma Alphabet(c: byte)
    ensures forall k :: 0 <= k < 26 ==> CharByte(UPPER_CASE[k]) == 65 + k && CharByte(LOWER_CASE[k]) == 97 + k
    ensures IsUpper(c) <==> 65 <= c <= 90
  {
    UpperRun();
    LowerRun();
    assert 65 <= c <= 90 ==> c == CharByte(UPPER_CASE[c - 65]);
  }

  function Concat(parts: seq<seq<byte>>): seq<byte> {
    if |parts| == 0 then [] else parts[0] + Concat(parts[1..])
  }

  lemma {:induction false} ConcatSnoc(parts: seq<seq<byte>>)
    requires parts != []
    ensures Concat(parts) == Concat(parts[..|parts| - 1]) + parts[|parts| - 1]
  {
    if |parts| == 1 {
      assert parts[1..] == [];
    } else {
      ConcatSnoc(parts[1..]);
      assert parts[1..][..|parts| - 2] == parts[..|parts| - 1][1..];
    }
  }

  lemma UpperRun()
    ensures forall k :: 0 <= k < 26 ==> CharByte(UPPER_CASE[k]) == 65 + k
  {
  }

  lemma LowerRun()
    ensures forall k :: 0 <= k < 26 ==> CharByte(LOWER_CASE[k]) == 97 + k
  {
  }

  lemma SliceOfSlice(s: seq<byte>, a: nat, b: nat, c: nat)
    requires a <= a + b <= a + c <= |s|
    ensures s[a..][b..c] == s[a + b..a + c]
  {
  }
}
