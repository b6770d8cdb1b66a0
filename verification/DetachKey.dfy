/** Recognising the detach key in every keyboard encoding (apiclient/detachkey.go), and the stdin pump that swallows it
    (apiclient/attach.go). Control sequences follow section 5.4 of ECMA-48. */
module DetachKey {
  import opened Wrappers
  import opened Bytes

  const ESC: byte := 27
  const OPEN_BRACKET: byte := 91   // '[', after ESC the control sequence introducer
  const KITTY_FINAL: byte := 117   // 'u'
  const TILDE_FINAL: byte := 126   // '~', the final byte of modifyOtherKeys reports
  const DIGIT_ZERO: byte := 48     // '0'

  // ----- CSI parameters

  /** bytes.Split: the pieces between separators, at least one. */
  function SplitOn(b: seq<byte>, sep: byte): (parts: seq<seq<byte>>)
    ensures |parts| >= 1
  {
    if |b| == 0 then [[]]
    else
      var rest := SplitOn(b[1..], sep);
      if b[0] == sep then [[]] + rest else [[b[0]] + rest[0]] + rest[1..]
  }

  /** A Go int holds 64 bits and wraps. */
  function Wrap64(n: int): int {
    (n + 0x8000_0000_0000_0000) % 0x1_0000_0000_0000_0000 - 0x8000_0000_0000_0000
  }

  predicate IsDigit(c: byte) {
    DIGIT_ZERO <= c <= DIGIT_ZERO + 9
  }

  function Digits(s: seq<byte>): int {
    if |s| == 0 then 0 else Wrap64(Digits(s[..|s| - 1]) * 10 + (s[|s| - 1] - DIGIT_ZERO))
  }

  /** The number the digits spell, without a width. */
  function Decimal(s: seq<byte>): int {
    if |s| == 0 then 0 else Decimal(s[..|s| - 1]) * 10 + (s[|s| - 1] - DIGIT_ZERO)
  }

  /** The accumulator is the spelled number modulo 2^64: exact below 2^63, and an over-long number aliases a short
      one. */
  lemma {:induction false} DigitsWrap(s: seq<byte>)
    ensures Digits(s) == Wrap64(Decimal(s))
    ensures -0x8000_0000_0000_0000 <= Decimal(s) < 0x8000_0000_0000_0000 ==> Digits(s) == Decimal(s)
    decreases |s|
  {
    if |s| > 0 {
      var init := s[..|s| - 1];
      DigitsWrap(init);
      WrapOnce(Decimal(init), s[|s| - 1] - DIGIT_ZERO);
    }
  }

  /** What the width of an int does: the result is in its range and differs by whole multiples of 2^64. */
  lemma WrapMeaning(n: int)
    ensures -0x8000_0000_0000_0000 <= Wrap64(n) < 0x8000_0000_0000_0000
    ensures (n - Wrap64(n)) % 0x1_0000_0000_0000_0000 == 0
  {
  }

  lemma WrapOnce(n: int, d: int)
    ensures Wrap64(Wrap64(n) * 10 + d) == Wrap64(n * 10 + d)
  {
    var m := 0x1_0000_0000_0000_0000;
    var k := (n + 0x8000_0000_0000_0000) / m;
    assert Wrap64(n) == n - k * m;
    var y := n * 10 + d + 0x8000_0000_0000_0000;
    assert (y + (-10 * k) * m) % m == y % m;
  }

  /** The digits and the bytes of a control sequence are the characters they stand for. */
  lemma CsiConstants(c: byte)
    ensures [ESC, OPEN_BRACKET, KITTY_FINAL, TILDE_FINAL] == Ascii("\U{1b}[u~")
    ensures forall v :: 0 <= v < 10 ==> (IsDigit(c) && c - DIGIT_ZERO == v <==> c == CharByte("0123456789"[v]))
  {
  }

  /** One sub-parameter: -1 when empty, None when it is not a number. */
  function SubParam(s: seq<byte>): Option<int> {
    if |s| == 0 then Some(-1)
    else if forall i :: 0 <= i < |s| ==> IsDigit(s[i]) then Some(Digits(s))
    else None
  }

  function SubParams(parts: seq<seq<byte>>): Option<seq<int>> {
    if |parts| == 0 then Some([])
    else
      match (SubParam(parts[0]), SubParams(parts[1..]))
      case (Some(n), Some(rest)) => Some([n] + rest)
      case _ => None
  }

  function Params(fields: seq<seq<byte>>): Option<seq<seq<int>>> {
    if |fields| == 0 then Some([])
    else
      match (SubParams(SplitOn(fields[0], COLON)), Params(fields[1..]))   // ':'
      case (Some(subs), Some(rest)) => Some([subs] + rest)
      case _ => None
  }

  /** csiParams; the empty list stands for Go's nil. */
  function CsiParams(b: seq<byte>): seq<seq<int>> {
    if |b| == 0 then []
    else
      match Params(SplitOn(b, SEMICOLON))
      case Some(params) => params
      case None => []
  }

  function Onto<T>(done: seq<T>, rest: Option<seq<T>>): Option<seq<T>> {
    match rest
    case None => None
    case Some(r) => Some(done + r)
  }

  lemma OntoLaws<T>(done: seq<T>, x: T, rest: Option<seq<T>>)
    ensures Onto([], rest) == rest && Onto(done, Some([])) == Some(done)
    ensures Onto(done, Onto([x], rest)) == Onto(done + [x], rest)
  {
    if rest.Some? {
      assert [] + rest.value == rest.value;
      assert done + ([x] + rest.value) == done + [x] + rest.value;
    }
    assert done + [] == done;
  }

  /** The loop over one field's sub-parameters; `ok` is false on a non-numeric one. */
  method ParseSubParams(field: seq<byte>) returns (subs: seq<int>, ok: bool)
    ensures SubParams(SplitOn(field, COLON)) == if ok then Some(subs) else None
  {
    hide SplitOn, Wrap64;
    var parts := SplitOn(field, COLON);
    subs := [];
    OntoLaws(subs, 0, SubParams(parts));
    assert parts[0..] == parts;
    for j := 0 to |parts|
      invariant SubParams(parts) == Onto(subs, SubParams(parts[j..]))
    {
      var s := parts[j];
      assert parts[j..][1..] == parts[j + 1..] && parts[j..][0] == s;
      if |s| == 0 {
        OntoLaws(subs, -1, SubParams(parts[j + 1..]));
        subs := subs + [-1];
        continue;
      }
      var n := 0;
      for k := 0 to |s|
        invariant n == Digits(s[..k]) && forall i :: 0 <= i < k ==> IsDigit(s[i])
      {
        if !IsDigit(s[k]) {
          return [], false;
        }
        assert s[..k + 1][..k] == s[..k];
        n := Wrap64(n * 10 + (s[k] - DIGIT_ZERO));
      }
      assert s[..|s|] == s;
      OntoLaws(subs, n, SubParams(parts[j + 1..]));
      subs := subs + [n];
    }
    OntoLaws(subs, 0, None);
    ok := true;
  }

  method ParseCsiParams(b: seq<byte>) returns (out: seq<seq<int>>)
    ensures out == CsiParams(b)
  {
    hide SplitOn, SubParams;
    out := [];
    if |b| == 0 {
      return;
    }
    var fields := SplitOn(b, SEMICOLON);
    assert fields[0..] == fields;
    OntoLaws(out, [], Params(fields));
    for i := 0 to |fields|
      invariant Params(fields) == Onto(out, Params(fields[i..]))
    {
      assert fields[i..][1..] == fields[i + 1..] && fields[i..][0] == fields[i];
      var subs, ok := ParseSubParams(fields[i]);
      if !ok {
        return [];
      }
      OntoLaws(out, subs, Params(fields[i + 1..]));
      out := out + [subs];
    }
    OntoLaws(out, [], None);
  }

  function CsiSub(params: seq<seq<int>>, i: nat, j: nat): int {
    if i < |params| && j < |params[i]| then params[i][j] else -1
  }

  // ----- keys and modifiers

  datatype ShiftRule = ShiftForbidden | ShiftOptional | ShiftRequired

  datatype KeyCode = KeyCode(code: int, shift: ShiftRule)

  /** detachKeyEncodingFor: the codes that name the key in an upgraded encoding; none for other bytes. */
  function EncodingFor(b: byte): seq<KeyCode> {
    if 1 <= b <= 26 then [KeyCode(b + 96, ShiftForbidden)]                              // ctrl-a to ctrl-z
    else if b == 27 then [KeyCode(91, ShiftForbidden)]                                  // '['
    else if b == 28 then [KeyCode(92, ShiftForbidden)]                                  // '\'
    else if b == 29 then [KeyCode(93, ShiftForbidden)]                                  // ']'
    else if b == 30 then [KeyCode(94, ShiftOptional), KeyCode(54, ShiftRequired)]       // '^', '6'
    else if b == 31 then [KeyCode(95, ShiftOptional), KeyCode(45, ShiftRequired)]       // '_', '-'
    else []
  }

  // Modifier bits; a report carries their sum plus one.
  const SHIFT: nat := 1
  const CTRL: nat := 4
  const CAPS_LOCK: nat := 64
  const NUM_LOCK: nat := 128

  /** Whether the bit of weight `w`, a power of two, is set. */
  predicate Bit(n: nat, w: nat)
    requires w > 0
  {
    (n / w) % 2 == 1
  }

  /** n with the bit of weight `w` cleared. */
  function Clear(n: nat, w: nat): int
    requires w > 0
  {
    if Bit(n, w) then n - w else n
  }

  /** modsMatch: ctrl, shift as the rule demands, and nothing else once the lock states are masked away. */
  predicate ModsMatch(param: int, rule: ShiftRule, maskLocks: bool) {
    && param >= 1
    && var bits := param - 1;
       var masked := if maskLocks then Clear(bits, CAPS_LOCK) - (if Bit(bits, NUM_LOCK) then NUM_LOCK else 0) else bits;
       && masked >= 0 && Bit(masked, CTRL)
       && Clear(masked, CTRL) - (if Bit(masked, SHIFT) then SHIFT else 0) == 0
       && match rule
          case ShiftForbidden => !Bit(masked, SHIFT)
          case ShiftRequired => Bit(masked, SHIFT)
          case ShiftOptional => true
  }

  /** The accepted parameters are exactly 1 + ctrl, with shift when the rule wants or allows it, plus any lock states
      where those are masked. */
  lemma ModsMatchIff(param: int, rule: ShiftRule, maskLocks: bool)
    ensures ModsMatch(param, rule, maskLocks) <==>
              exists shift: nat, caps: nat, num: nat ::
                && shift <= 1 && caps <= 1 && num <= 1 && param == ModParam(shift, caps, num)
                && (!maskLocks ==> caps == 0 && num == 0)
                && (rule.ShiftForbidden? ==> shift == 0) && (rule.ShiftRequired? ==> shift == 1)
  {
    if ModsMatch(param, rule, maskLocks) {
      var bits := param - 1;
      var caps := if maskLocks && Bit(bits, CAPS_LOCK) then 1 else 0;
      var num := if maskLocks && Bit(bits, NUM_LOCK) then 1 else 0;
      var masked := bits - CAPS_LOCK * caps - NUM_LOCK * num;
      var shift := if Bit(masked, SHIFT) then 1 else 0;
      assert param == ModParam(shift, caps, num);
    }
  }

  function ModParam(shift: nat, caps: nat, num: nat): int {
    5 + shift + 64 * caps + 128 * num
  }

  predicate CodeMatches(enc: seq<KeyCode>, code: int, mods: int, maskLocks: bool) {
    exists i :: 0 <= i < |enc| && enc[i].code == code && ModsMatch(mods, enc[i].shift, maskLocks)
  }

  predicate IsCsi(s: seq<byte>) {
    |s| >= 4 && s[0] == ESC && s[1] == OPEN_BRACKET
  }

  /** matchesEncodedDetachKey: the kitty form (final 'u') or the modifyOtherKeys form (final '~'). */
  predicate Matches(s: seq<byte>, enc: seq<KeyCode>) {
    && IsCsi(s)
    && var params := CsiParams(s[2..|s| - 1]);
       if s[|s| - 1] == KITTY_FINAL then
         |params| == 2 && exists i :: 0 <= i < |params[0]| && CodeMatches(enc, params[0][i], CsiSub(params, 1, 0), true)
       else
         && s[|s| - 1] == TILDE_FINAL && |params| == 3
         && CsiSub(params, 0, 0) == OTHER_KEYS && CodeMatches(enc, CsiSub(params, 2, 0), CsiSub(params, 1, 0), false)
  }

  const OTHER_KEYS := 27   // the first parameter of every modifyOtherKeys report

  const PRESS := 1
  const REPEAT := 2
  const RELEASE := 3

  /** detachKeyEventType: press unless the sequence says otherwise. */
  function EventType(s: seq<byte>): int {
    if IsCsi(s) && s[|s| - 1] == KITTY_FINAL && CsiSub(CsiParams(s[2..|s| - 1]), 1, 1) > 0
    then CsiSub(CsiParams(s[2..|s| - 1]), 1, 1) else PRESS
  }

  // ----- one tap of the key

  /** One report of the key: a matching sequence whose only ESC opens it. */
  predicate Report(s: seq<byte>, enc: seq<KeyCode>) {
    Matches(s, enc) && ESC !in s[1..]
  }

  /** The reports of one tap up to its release: a press, if it is there, then repeats. */
  predicate Halves(parts: seq<seq<byte>>, enc: seq<KeyCode>) {
    forall i :: 0 <= i < |parts| ==>
      Report(parts[i], enc) && (EventType(parts[i]) == REPEAT || (i == 0 && EventType(parts[i]) == PRESS))
  }

  /** Nothing before `at` could open or continue the tap that starts there. */
  predicate NoEarlierHalf(buf: seq<byte>, at: nat, enc: seq<KeyCode>)
    requires at <= |buf|
  {
    forall p :: 0 <= p < at && Report(buf[p..at], enc) ==> EventType(buf[p..at]) !in {PRESS, REPEAT}
  }

  /** The reports of one tap before its release, from `first` to `end`, and nothing of the tap before them. */
  predicate Opens(buf: seq<byte>, first: nat, end: nat, halves: seq<seq<byte>>, enc: seq<KeyCode>)
    requires first <= end <= |buf|
  {
    && buf[first..end] == Concat(halves) && Halves(halves, enc)
    && ((halves != [] && EventType(halves[0]) == PRESS) || NoEarlierHalf(buf, first, enc))
  }

  /** The last `n` bytes of `buf` are one whole tap of the key: the legacy byte; or one report that is not a release; or
      the longest run of (press or repeat), repeats, release with nothing in between. */
  ghost predicate IsTap(buf: seq<byte>, n: nat, key: byte)
    requires n <= |buf|
  {
    var first, enc := |buf| - n, EncodingFor(key);
    if |buf| > 0 && buf[|buf| - 1] == key then n == 1
    else
      || (Report(buf[first..], enc) && EventType(buf[first..]) != RELEASE)
      || exists start: nat :: first <= start < |buf| && ReleasedAt(buf, start, enc) && Walked(buf, first, start, enc)
  }

  /** A release report ends the buffer. */
  predicate ReleasedAt(buf: seq<byte>, start: nat, enc: seq<KeyCode>)
    requires start <= |buf|
  {
    Report(buf[start..], enc) && EventType(buf[start..]) == RELEASE
  }

  /** The earlier reports of a tap that stand right before `start`. */
  ghost predicate Walked(buf: seq<byte>, first: nat, start: nat, enc: seq<KeyCode>)
    requires first <= start <= |buf|
  {
    exists halves: seq<seq<byte>> :: Opens(buf, first, start, halves, enc)
  }

  /** Neither the legacy byte nor a report of the key ends `buf`. */
  predicate NoTap(buf: seq<byte>, key: byte) {
    && (buf == [] || buf[|buf| - 1] != key)
    && forall p :: 0 <= p < |buf| ==> !Report(buf[p..], EncodingFor(key))
  }

  lemma EmptyNoTap(key: byte)
    ensures NoTap([], key)
  {
  }

  /** bytes.LastIndexByte(b, ESC). */
  function LastEsc(b: seq<byte>): (i: int)
    ensures -1 <= i < |b| && (i >= 0 ==> b[i] == ESC) && ESC !in b[i + 1..]
  {
    if |b| == 0 then -1
    else if b[|b| - 1] == ESC then |b| - 1
    else
      var i := LastEsc(b[..|b| - 1]);
      NoEscAfter(b, i + 1);
      i
  }

  /** One more byte that is not ESC leaves none after `i`. */
  lemma NoEscAfter(b: seq<byte>, i: nat)
    requires i < |b| && b[|b| - 1] != ESC
    ensures ESC !in b[..|b| - 1][i..] ==> ESC !in b[i..]
  {
    assert b[i..] == b[..|b| - 1][i..] + [b[|b| - 1]];
  }

  /** The report that ends at `at` starts at the last ESC before it, if there is one. */
  lemma ReportStart(buf: seq<byte>, p: nat, at: nat, enc: seq<KeyCode>)
    requires p < at <= |buf| && Report(buf[p..at], enc)
    ensures LastEsc(buf[..at]) == p
  {
    hide CsiParams, CodeMatches;
    assert buf[..at][p] == buf[p..at][0];
    assert buf[..at][p + 1..] == buf[p..at][1..];
    LastEscUnique(buf[..at], p);
  }

  lemma {:induction false} LastEscUnique(b: seq<byte>, i: nat)
    requires i < |b| && b[i] == ESC && ESC !in b[i + 1..]
    ensures LastEsc(b) == i
    decreases |b|
  {
    if i < |b| - 1 {
      var init := b[..|b| - 1];
      assert b[i + 1..] == init[i + 1..] + [b[|b| - 1]];
      LastEscUnique(init, i);
    }
  }

  /** trailingDetachKeyLen: how many bytes at the end of `buf` are the detach key, 0 for none. The result is one whole
      tap, and it is 0 exactly when neither the legacy byte nor a report ends the buffer. */
  method TrailingDetachKeyLen(buf: seq<byte>, key: byte) returns (n: nat)
    ensures n <= |buf|
    ensures n > 0 ==> IsTap(buf, n, key)
    ensures n == 0 <==> NoTap(buf, key)
  {
    hide Matches, EventType, LastEsc;
    if |buf| == 0 {
      return 0;
    }
    if buf[|buf| - 1] == key {
      return 1;
    }
    var enc := EncodingFor(key);
    assert buf[..|buf|] == buf;
    forall p | 0 <= p < |buf| && Report(buf[p..], enc) ensures p == LastEsc(buf) {
      assert buf[p..|buf|] == buf[p..];
      ReportStart(buf, p, |buf|, enc);
    }
    var start := LastEsc(buf);
    if start < 0 || !Matches(buf[start..], enc) {
      return 0;
    }
    assert buf[start..][1..] == buf[start + 1..];
    assert Report(buf[start..], enc);
    if EventType(buf[start..]) != RELEASE {
      assert buf[|buf| - (|buf| - start)..] == buf[start..];
      return |buf| - start;
    }
    var first := WalkBack(buf, start, enc);
    assert ReleasedAt(buf, start, enc);
    return |buf| - first;
  }

  /** The loop over the earlier halves of this tap, stopping at its press. */
  method WalkBack(buf: seq<byte>, end: nat, enc: seq<KeyCode>) returns (start: nat)
    requires end <= |buf|
    ensures start <= end && Walked(buf, start, end, enc)
  {
    hide Matches, EventType, LastEsc;
    start := end;
    ghost var halves: seq<seq<byte>> := [];
    while true
      invariant start <= end
      invariant buf[start..end] == Concat(halves)
      invariant forall i :: 0 <= i < |halves| ==> Report(halves[i], enc) && EventType(halves[i]) == REPEAT
      decreases start
    {
      var prev := LastEsc(buf[..start]);
      if prev < 0 || !Matches(buf[prev..start], enc) {
        NothingBefore(buf, start, enc);
        assert Opens(buf, start, end, halves, enc);
        return;
      }
      ReportHere(buf, prev, start, enc);
      var ev := EventType(buf[prev..start]);
      if ev != PRESS && ev != REPEAT {
        NothingBefore(buf, start, enc);
        assert Opens(buf, start, end, halves, enc);
        return;
      }
      ghost var longer := [buf[prev..start]] + halves;
      assert longer[1..] == halves;
      assert buf[prev..end] == buf[prev..start] + buf[start..end];
      start := prev;
      halves := longer;
      if ev == PRESS {
        assert Opens(buf, start, end, halves, enc);
        return;
      }
    }
  }

  lemma ReportHere(buf: seq<byte>, prev: nat, at: nat, enc: seq<KeyCode>)
    requires prev < at <= |buf| && LastEsc(buf[..at]) == prev && Matches(buf[prev..at], enc)
    ensures Report(buf[prev..at], enc)
  {
    hide Matches, LastEsc;
    assert buf[prev..at][1..] == buf[..at][prev + 1..];
  }

  /** Where the backward scan stops, no earlier half ends. */
  lemma NothingBefore(buf: seq<byte>, at: nat, enc: seq<KeyCode>)
    requires at <= |buf|
    requires var prev := LastEsc(buf[..at]);
             prev < 0 || !Matches(buf[prev..at], enc) || EventType(buf[prev..at]) !in {PRESS, REPEAT}
    ensures NoEarlierHalf(buf, at, enc)
  {
    hide Matches, EventType, LastEsc;
    forall p | 0 <= p < at && Report(buf[p..at], enc) ensures EventType(buf[p..at]) !in {PRESS, REPEAT} {
      ReportStart(buf, p, at, enc);
    }
  }

  // ----- the tap is unique

  /** Two reports that end at the same place start at the same place. */
  lemma SameReport(buf: seq<byte>, p: nat, q: nat, at: nat, enc: seq<KeyCode>)
    requires p < at <= |buf| && q < at && Report(buf[p..at], enc) && Report(buf[q..at], enc)
    ensures p == q
  {
    hide Report;
    ReportStart(buf, p, at, enc);
    ReportStart(buf, q, at, enc);
  }

  /** The last half ends at `end`, and the halves before it open the tap up to its start unless it is the press. */
  lemma LastHalf(buf: seq<byte>, first: nat, end: nat, halves: seq<seq<byte>>, enc: seq<KeyCode>) returns (at: nat)
    requires first <= end <= |buf| && halves != [] && Opens(buf, first, end, halves, enc)
    ensures first <= at < end && buf[at..end] == halves[|halves| - 1] && Report(buf[at..end], enc)
    ensures EventType(buf[at..end]) in {PRESS, REPEAT}
    ensures if EventType(buf[at..end]) == PRESS then |halves| == 1 && at == first
            else Opens(buf, first, at, halves[..|halves| - 1], enc)
  {
    hide Matches, EventType;
    var init, last := halves[..|halves| - 1], halves[|halves| - 1];
    ConcatSnoc(halves);
    at := first + |Concat(init)|;
    assert buf[first..end][|Concat(init)|..] == last && buf[first..end][..|Concat(init)|] == Concat(init);
    assert Report(last, enc);
    ReportNonEmpty(last, enc);
    assert |init| > 0 ==> init[0] == halves[0];
  }

  lemma ReportNonEmpty(s: seq<byte>, enc: seq<KeyCode>)
    requires Report(s, enc)
    ensures |s| > 0
  {
  }

  /** Both walks back meet the same halves. */
  lemma {:induction false} OpensUnique(buf: seq<byte>, first: nat, first': nat, end: nat, halves: seq<seq<byte>>,
                                       halves': seq<seq<byte>>, enc: seq<KeyCode>)
    requires first <= end <= |buf| && first' <= end
    requires Opens(buf, first, end, halves, enc) && Opens(buf, first', end, halves', enc)
    ensures first == first'
    decreases |halves|
  {
    hide Report, EventType, Opens;
    if halves == [] {
      NothingOpens(buf, first, first', end, halves', enc);
    } else if halves' == [] {
      NothingOpens(buf, first', first, end, halves, enc);
    } else {
      var at := LastHalf(buf, first, end, halves, enc);
      var at' := LastHalf(buf, first', end, halves', enc);
      SameReport(buf, at, at', end, enc);
      if EventType(buf[at..end]) != PRESS {
        OpensUnique(buf, first, first', at, halves[..|halves| - 1], halves'[..|halves'| - 1], enc);
      }
    }
  }

  /** Where one walk stops at once, the other does too. */
  lemma NothingOpens(buf: seq<byte>, first: nat, first': nat, end: nat, halves': seq<seq<byte>>, enc: seq<KeyCode>)
    requires first <= end <= |buf| && first' <= end
    requires Opens(buf, first, end, [], enc) && Opens(buf, first', end, halves', enc)
    ensures first == first' == end
  {
    hide Report, EventType;
    assert first == end;
    if halves' != [] {
      var at := LastHalf(buf, first', end, halves', enc);
    }
  }

  /** Where the last report of a tap starts: at the tap's own start unless it is a release. */
  lemma TapParts(buf: seq<byte>, n: nat, key: byte) returns (start: nat)
    requires 0 < n <= |buf| && buf[|buf| - 1] != key && IsTap(buf, n, key)
    ensures |buf| - n <= start < |buf| && Report(buf[start..], EncodingFor(key))
    ensures if EventType(buf[start..]) == RELEASE then Walked(buf, |buf| - n, start, EncodingFor(key))
            else start == |buf| - n
  {
    hide Report, EventType, EncodingFor, Walked;
    var first, enc := |buf| - n, EncodingFor(key);
    if Report(buf[first..], enc) && EventType(buf[first..]) != RELEASE {
      start := first;
    } else {
      start :| first <= start < |buf| && ReleasedAt(buf, start, enc) && Walked(buf, first, start, enc);
    }
  }

  /** What ends a buffer is at most one tap: TrailingDetachKeyLen has no choice, and never swallows part of an earlier
      tap or leaves part of this one. */
  lemma TapUnique(buf: seq<byte>, n: nat, m: nat, key: byte)
    requires 0 < n <= |buf| && 0 < m <= |buf| && IsTap(buf, n, key) && IsTap(buf, m, key)
    ensures n == m
  {
    hide Report, EventType, EncodingFor, Opens;
    if buf[|buf| - 1] != key {
      var enc := EncodingFor(key);
      var start := TapParts(buf, n, key);
      var start' := TapParts(buf, m, key);
      assert buf[start..|buf|] == buf[start..] && buf[start'..|buf|] == buf[start'..];
      SameReport(buf, start, start', |buf|, enc);
      if EventType(buf[start..]) == RELEASE {
        var halves :| Opens(buf, |buf| - n, start, halves, enc);
        var halves' :| Opens(buf, |buf| - m, start, halves', enc);
        OpensUnique(buf, |buf| - n, |buf| - m, start, halves, halves', enc);
      }
    }
  }

  // ----- the stdin pump

  /** One read from the terminal: some bytes, and whether the read also reported an error. */
  datatype Input = Input(data: seq<byte>, failed: bool)

  /** The bytes of the first `n` reads. */
  function ReadBytes(inputs: seq<Input>, n: nat): seq<byte>
    requires n <= |inputs|
  {
    if n == 0 then [] else ReadBytes(inputs, n - 1) + inputs[n - 1].data
  }

  /** The pump: forward every read, swallow the detach key that ends one, and stop there, on a failed write or on a
      failed read. `forwarded` is what the writes were given, `swallowed` the detach key. It detaches exactly when a
      read ends in a tap and, with every write succeeding, nothing read is lost, reordered or duplicated. */
  method Pump(inputs: seq<Input>, key: byte, writeOk: nat -> bool)
    returns (forwarded: seq<byte>, swallowed: seq<byte>, used: nat, detached: bool)
    ensures used <= |inputs|
    ensures forwarded + swallowed == ReadBytes(inputs, used)
    ensures detached <==> swallowed != []
    ensures detached ==>
              && used > 0 && |swallowed| <= |inputs[used - 1].data|
              && IsTap(inputs[used - 1].data, |swallowed|, key)
    ensures !detached ==> forall i :: 0 <= i < used ==> NoTap(inputs[i].data, key)
    ensures (forall i :: writeOk(i)) && used < |inputs| && !detached ==> used > 0 && inputs[used - 1].failed
    ensures forall i :: 0 <= i < used - 1 ==> !inputs[i].failed && NoTap(inputs[i].data, key)
  {
    hide IsTap, Report, NoTap, EncodingFor;
    EmptyNoTap(key);
    forwarded, swallowed, used, detached := [], [], 0, false;
    var frames := 0;
    while used < |inputs|
      invariant used <= |inputs| && frames >= 0
      invariant forwarded == ReadBytes(inputs, used) && swallowed == [] && !detached
      invariant forall i :: 0 <= i < used ==> !inputs[i].failed && NoTap(inputs[i].data, key)
    {
      var data, n := inputs[used].data, |inputs[used].data|;
      var failed := inputs[used].failed;
      used := used + 1;
      assert n == 0 ==> data == [];
      if n > 0 {
        var keyLen := TrailingDetachKeyLen(data, key);
        if keyLen > 0 {
          assert data == data[..n - keyLen] + data[n - keyLen..];
          forwarded := forwarded + data[..n - keyLen];
          swallowed, detached := data[n - keyLen..], true;
          return;
        }
        forwarded := forwarded + data;
        frames := frames + 1;
        if !writeOk(frames - 1) {
          return;
        }
      }
      if failed {
        return;
      }
    }
  }
}
