/** Writing CSI parameters and reading them back (the syntax that csiParams of apiclient/detachkey.go parses), which
    reports of a key are recognised, and what keeps one detach binding apart from another. */
module CsiRoundTrip {
  import opened Wrappers
  import opened Bytes
  import opened DetachKey

  // ----- rendering

  function ToDigits(n: nat): seq<byte> {
    if n < 10 then [DIGIT_ZERO + n] else ToDigits(n / 10) + [DIGIT_ZERO + n % 10]
  }

  function JoinOn(parts: seq<seq<byte>>, sep: byte): seq<byte>
    requires |parts| >= 1
  {
    if |parts| == 1 then parts[0] else parts[0] + [sep] + JoinOn(parts[1..], sep)
  }

  /** A sub-parameter a Go int holds, or -1 for an empty one. */
  predicate SubOk(n: int) {
    -1 <= n < 0x8000_0000_0000_0000
  }

  function RenderSub(n: int): seq<byte>
    requires SubOk(n)
  {
    if n == -1 then [] else ToDigits(n)
  }

  predicate SubsOk(subs: seq<int>) {
    |subs| >= 1 && forall i :: 0 <= i < |subs| ==> SubOk(subs[i])
  }

  function RenderSubs(subs: seq<int>): seq<byte>
    requires SubsOk(subs)
  {
    JoinOn(seq(|subs|, i requires 0 <= i < |subs| => RenderSub(subs[i])), COLON)
  }

  predicate ParamsOk(params: seq<seq<int>>) {
    |params| >= 1 && forall i :: 0 <= i < |params| ==> SubsOk(params[i])
  }

  function RenderParams(params: seq<seq<int>>): seq<byte>
    requires ParamsOk(params)
  {
    JoinOn(seq(|params|, i requires 0 <= i < |params| => RenderSubs(params[i])), SEMICOLON)
  }

  // ----- splitting undoes joining

  lemma SplitHead(b: seq<byte>, sep: byte)
    requires |b| > 0 && b[0] != sep
    ensures var rest := SplitOn(b[1..], sep); SplitOn(b, sep) == [[b[0]] + rest[0]] + rest[1..]
  {
  }

  lemma {:induction false} SplitPrefix(a: seq<byte>, b: seq<byte>, sep: byte)
    requires sep !in a
    ensures SplitOn(a + b, sep) == [a + SplitOn(b, sep)[0]] + SplitOn(b, sep)[1..]
    decreases |a|
  {
    if |a| == 0 {
      assert a + b == b && a + SplitOn(b, sep)[0] == SplitOn(b, sep)[0];
    } else {
      hide SplitOn;
      var parts := SplitOn(b, sep);
      SplitPrefix(a[1..], b, sep);
      SplitHead(a + b, sep);
      assert (a + b)[1..] == a[1..] + b;
      assert [a[0]] + (a[1..] + parts[0]) == a + parts[0];
    }
  }

  lemma {:induction false} SplitJoin(parts: seq<seq<byte>>, sep: byte)
    requires |parts| >= 1 && forall i :: 0 <= i < |parts| ==> sep !in parts[i]
    ensures SplitOn(JoinOn(parts, sep), sep) == parts
    decreases |parts|
  {
    if |parts| == 1 {
      SplitPrefix(parts[0], [], sep);
      assert parts[0] + [] == parts[0];
    } else {
      var rest := JoinOn(parts[1..], sep);
      SplitJoin(parts[1..], sep);
      SplitPrefix(parts[0], [sep] + rest, sep);
      assert parts[0] + [sep] + rest == parts[0] + ([sep] + rest);
      assert ([sep] + rest)[1..] == rest && parts[0] + [] == parts[0];
    }
  }

  lemma {:induction false} ToDigitsFacts(n: nat)
    ensures |ToDigits(n)| > 0 && Decimal(ToDigits(n)) == n
    ensures forall i :: 0 <= i < |ToDigits(n)| ==> IsDigit(ToDigits(n)[i])
    decreases n
  {
    if n >= 10 {
      ToDigitsFacts(n / 10);
      var s := ToDigits(n);
      assert s[..|s| - 1] == ToDigits(n / 10);
    } else {
      assert [DIGIT_ZERO + n][..0] == [];
    }
  }

  lemma SubRoundTrip(n: int)
    requires SubOk(n)
    ensures SubParam(RenderSub(n)) == Some(n) && forall c :: c in RenderSub(n) ==> IsDigit(c)
  {
    hide Wrap64, Digits, Decimal;
    if n >= 0 {
      ToDigitsFacts(n);
      DigitsWrap(ToDigits(n));
    }
  }

  lemma {:induction false} SubParamsOf(subs: seq<int>, parts: seq<seq<byte>>)
    requires |parts| == |subs| && forall i :: 0 <= i < |subs| ==> SubParam(parts[i]) == Some(subs[i])
    ensures SubParams(parts) == Some(subs)
    decreases |subs|
  {
    hide SubParam;
    if |subs| > 0 {
      SubParamsOf(subs[1..], parts[1..]);
      assert [subs[0]] + subs[1..] == subs;
    }
  }

  lemma {:induction false} JoinBytes(parts: seq<seq<byte>>, sep: byte, other: byte)
    requires |parts| >= 1 && other != sep && forall i :: 0 <= i < |parts| ==> other !in parts[i]
    ensures other !in JoinOn(parts, sep)
    decreases |parts|
  {
    if |parts| > 1 {
      JoinBytes(parts[1..], sep, other);
    }
  }

  lemma SubsRoundTrip(subs: seq<int>)
    requires SubsOk(subs)
    ensures SubParams(SplitOn(RenderSubs(subs), COLON)) == Some(subs) && SEMICOLON !in RenderSubs(subs)
  {
    hide SubParam, RenderSub, SplitOn, JoinOn, SubParams;
    var parts := seq(|subs|, i requires 0 <= i < |subs| => RenderSub(subs[i]));
    forall i | 0 <= i < |subs|
      ensures SubParam(parts[i]) == Some(subs[i]) && COLON !in parts[i] && SEMICOLON !in parts[i]
    {
      SubRoundTrip(subs[i]);
    }
    SplitJoin(parts, COLON);
    SubParamsOf(subs, parts);
    JoinBytes(parts, COLON, SEMICOLON);
  }

  lemma {:induction false} ParamsOf(params: seq<seq<int>>, fields: seq<seq<byte>>)
    requires |fields| == |params|
    requires forall i :: 0 <= i < |params| ==> SubParams(SplitOn(fields[i], COLON)) == Some(params[i])
    ensures Params(fields) == Some(params)
    decreases |params|
  {
    hide SubParams, SplitOn;
    if |params| > 0 {
      ParamsOf(params[1..], fields[1..]);
      assert [params[0]] + params[1..] == params;
    }
  }

  /** Every parameter list that is written out non-empty is read back exactly. */
  lemma CsiParamsRoundTrip(params: seq<seq<int>>)
    requires ParamsOk(params) && RenderParams(params) != []
    ensures CsiParams(RenderParams(params)) == params
  {
    hide SubParams, SplitOn, JoinOn, RenderSubs, Params;
    var fields := seq(|params|, i requires 0 <= i < |params| => RenderSubs(params[i]));
    forall i | 0 <= i < |params|
      ensures SubParams(SplitOn(fields[i], COLON)) == Some(params[i]) && SEMICOLON !in fields[i]
    {
      SubsRoundTrip(params[i]);
    }
    SplitJoin(fields, SEMICOLON);
    ParamsOf(params, fields);
  }

  // ----- bindings

  /** The codes a binding accepts without shift are the characters whose control byte it is. */
  lemma CodesNameTheByte(b: byte, i: nat)
    requires i < |EncodingFor(b)| && !EncodingFor(b)[i].shift.ShiftRequired?
    ensures 64 <= EncodingFor(b)[i].code < 128 && EncodingFor(b)[i].code % 32 == b
  {
  }

  /** No key code matches two bindings under the same modifiers. */
  lemma BindingsDisjoint(b: byte, b': byte, code: int, mods: int, maskLocks: bool)
    requires CodeMatches(EncodingFor(b), code, mods, maskLocks) && CodeMatches(EncodingFor(b'), code, mods, maskLocks)
    ensures b == b'
  {
    hide ModsMatch;
  }

  /** A report matches two bindings exactly when it is a kitty report that names alternate keys, and two different key
      slots hold a code of the one and a code of the other under its modifiers. */
  lemma TwoBindingsIff(s: seq<byte>, b: byte, b': byte)
    requires b != b'
    ensures Matches(s, EncodingFor(b)) && Matches(s, EncodingFor(b')) <==>
              && IsCsi(s) && s[|s| - 1] == KITTY_FINAL
              && var params := CsiParams(s[2..|s| - 1]);
                 |params| == 2 && TwoSlots(params[0], CsiSub(params, 1, 0), b, b')
  {
    hide CsiParams, EncodingFor, ModsMatch, CodeMatches;
    if Matches(s, EncodingFor(b)) && Matches(s, EncodingFor(b')) {
      var params := CsiParams(s[2..|s| - 1]);
      var mods := CsiSub(params, 1, 0);
      if s[|s| - 1] == KITTY_FINAL {
        var i :| 0 <= i < |params[0]| && CodeMatches(EncodingFor(b), params[0][i], mods, true);
        var j :| 0 <= j < |params[0]| && CodeMatches(EncodingFor(b'), params[0][j], mods, true);
        OneCodeOneBinding(b, b', params[0][i], mods, true);
      } else {
        OneCodeOneBinding(b, b', CsiSub(params, 2, 0), mods, false);
      }
    }
  }

  /** Two different slots of `keys` hold codes of the two bindings. */
  predicate TwoSlots(keys: seq<int>, mods: int, b: byte, b': byte) {
    exists i, j :: && 0 <= i < |keys| && 0 <= j < |keys| && i != j
                   && CodeMatches(EncodingFor(b), keys[i], mods, true)
                   && CodeMatches(EncodingFor(b'), keys[j], mods, true)
  }

  lemma OneCodeOneBinding(b: byte, b': byte, code: int, mods: int, maskLocks: bool)
    requires b != b'
    ensures CodeMatches(EncodingFor(b), code, mods, maskLocks) ==> !CodeMatches(EncodingFor(b'), code, mods, maskLocks)
  {
    hide CodeMatches, EncodingFor;
    if CodeMatches(EncodingFor(b), code, mods, maskLocks) && CodeMatches(EncodingFor(b'), code, mods, maskLocks) {
      BindingsDisjoint(b, b', code, mods, maskLocks);
    }
  }

  /** And such reports exist: ctrl-a with ctrl-b as its alternate key is taken for either. */
  lemma AlternateKeyMatchesTwo()
    ensures Matches(KittyReport([97, 98], [5]), EncodingFor(1)) && Matches(KittyReport([97, 98], [5]), EncodingFor(2))
  {
    hide Matches, KittyReport, ModsMatch;
    ModsMatchIff(5, ShiftForbidden, true);
    assert ModParam(0, 0, 0) == 5;
    var a, b := EncodingFor(1), EncodingFor(2);
    assert a[0] == KeyCode(97, ShiftForbidden) && b[0] == KeyCode(98, ShiftForbidden);
    assert CodeMatches(a, [97, 98][0], 5, true) && CodeMatches(b, [97, 98][1], 5, true);
    KittyReportIff([97, 98], [5], EncodingFor(1));
    KittyReportIff([97, 98], [5], EncodingFor(2));
  }

  // ----- reports

  /** CSI key codes ; modifiers and event u. */
  function KittyReport(keys: seq<int>, mods: seq<int>): seq<byte>
    requires SubsOk(keys) && SubsOk(mods)
  {
    [ESC, OPEN_BRACKET] + RenderParams([keys, mods]) + [KITTY_FINAL]
  }

  /** CSI 27 ; modifiers ; code ~. */
  function OtherKeysReport(mods: int, code: int): seq<byte>
    requires SubOk(mods) && SubOk(code)
  {
    [ESC, OPEN_BRACKET] + RenderParams([[OTHER_KEYS], [mods], [code]]) + [TILDE_FINAL]
  }

  /** A control sequence with these parameters and this final byte: its parameters are read back, and its only ESC is
      the first byte. */
  lemma SequenceFacts(params: seq<seq<int>>, final: byte)
    requires ParamsOk(params) && RenderParams(params) != [] && final != ESC
    ensures var s := [ESC, OPEN_BRACKET] + RenderParams(params) + [final];
            IsCsi(s) && s[|s| - 1] == final && CsiParams(s[2..|s| - 1]) == params && ESC !in s[1..]
  {
    hide RenderParams, CsiParams;
    CsiParamsRoundTrip(params);
    RenderBytes(params);
    var s := [ESC, OPEN_BRACKET] + RenderParams(params) + [final];
    assert s[2..|s| - 1] == RenderParams(params) && s[1..] == [OPEN_BRACKET] + RenderParams(params) + [final];
  }

  lemma RenderBytes(params: seq<seq<int>>)
    requires ParamsOk(params)
    ensures ESC !in RenderParams(params)
  {
    hide JoinOn, RenderSub;
    forall i | 0 <= i < |params| ensures ESC !in RenderSubs(params[i]) {
      var parts := seq(|params[i]|, j requires 0 <= j < |params[i]| => RenderSub(params[i][j]));
      forall j | 0 <= j < |parts| ensures ESC !in parts[j] {
        SubRoundTrip(params[i][j]);
      }
      JoinBytes(parts, COLON, ESC);
    }
    JoinBytes(seq(|params|, i requires 0 <= i < |params| => RenderSubs(params[i])), SEMICOLON, ESC);
  }

  lemma NonEmptyRender(params: seq<seq<int>>)
    requires ParamsOk(params) && |params| >= 2
    ensures |RenderParams(params)| >= 1
  {
  }

  /** Which control sequences are reports of a key: final 'u' with two parameters, a code in any slot of the first and
      the modifiers first in the second; or final '~' with three, the first of them 27, then modifiers and code. Only
      the former carries an event, a press if it names none. */
  lemma SequenceIff(params: seq<seq<int>>, final: byte, enc: seq<KeyCode>)
    requires ParamsOk(params) && RenderParams(params) != [] && final != ESC
    ensures var s := [ESC, OPEN_BRACKET] + RenderParams(params) + [final];
            && (Matches(s, enc) <==>
                  || (final == CharByte('u') && |params| == 2
                      && exists i :: 0 <= i < |params[0]| && CodeMatches(enc, params[0][i], params[1][0], true))
                  || (final == CharByte('~') && |params| == 3 && params[0][0] == 27
                      && CodeMatches(enc, params[2][0], params[1][0], false)))
            && (Report(s, enc) <==> Matches(s, enc))
            && EventType(s) == if final == CharByte('u') && |params| > 1 && |params[1]| > 1 && params[1][1] > 0
                               then params[1][1] else 1
  {
    hide RenderParams, CsiParams, CodeMatches;
    SequenceFacts(params, final);
    assert |params| >= 2 ==> SubsOk(params[1]);
    assert |params| >= 3 ==> SubsOk(params[2]);
  }

  /** Nothing but a control sequence of at least four bytes is a report, or has an event. */
  lemma OnlyCsiMatches(s: seq<byte>, enc: seq<KeyCode>)
    requires |s| < 4 || !(Ascii("\U{1b}[") <= s)
    ensures !Matches(s, enc) && EventType(s) == 1
  {
    assert |s| >= 2 && s[0] == ESC && s[1] == OPEN_BRACKET ==> Ascii("\U{1b}[") <= s;
  }

  /** A parameter list with anything in it but digits, ':' and ';' is not read at all; nor is an empty one. */
  lemma NonNumericIsNil(b: seq<byte>, i: nat)
    requires i < |b| && b[i] !in Ascii("0123456789:;")
    ensures CsiParams(b) == [] && CsiParams([]) == []
  {
    hide SplitOn, SubParams, Params;
    NotADigit(b[i]);
    var k, p := SplitKeeps(b, SEMICOLON, i);
    var fields := SplitOn(b, SEMICOLON);
    var m, q := SplitKeeps(fields[k], COLON, p);
    assert SubParam(SplitOn(fields[k], COLON)[m]).None? by {
      assert !IsDigit(SplitOn(fields[k], COLON)[m][q]);
    }
    OneBadSub(SplitOn(fields[k], COLON), m);
    OneBadField(fields, k);
  }

  lemma NotADigit(c: byte)
    requires c !in Ascii("0123456789:;")
    ensures !IsDigit(c) && c != COLON && c != SEMICOLON
  {
    AllParameterBytes(c);
  }

  lemma AllParameterBytes(c: byte)
    ensures IsDigit(c) || c == COLON || c == SEMICOLON ==> c in Ascii("0123456789:;")
  {
    var all := Ascii("0123456789:;");
    assert all == [48, 49, 50, 51, 52, 53, 54, 55, 56, 57, 58, 59];
    if 48 <= c <= 59 {
      assert all[c - 48] == c;
    }
  }

  /** Splitting keeps every byte that is not a separator, in some part. */
  lemma {:induction false} SplitKeeps(b: seq<byte>, sep: byte, i: nat) returns (k: nat, p: nat)
    requires i < |b| && b[i] != sep
    ensures k < |SplitOn(b, sep)| && p < |SplitOn(b, sep)[k]| && SplitOn(b, sep)[k][p] == b[i]
    decreases |b|
  {
    if i == 0 {
      k, p := 0, 0;
    } else {
      k, p := SplitKeeps(b[1..], sep, i - 1);
      if b[0] == sep {
        k := k + 1;
      } else if k == 0 {
        p := p + 1;
      }
    }
  }

  lemma {:induction false} OneBadSub(parts: seq<seq<byte>>, m: nat)
    requires m < |parts| && SubParam(parts[m]).None?
    ensures SubParams(parts).None?
    decreases m
  {
    hide SubParam;
    if m > 0 {
      OneBadSub(parts[1..], m - 1);
    }
  }

  lemma {:induction false} OneBadField(fields: seq<seq<byte>>, k: nat)
    requires k < |fields| && SubParams(SplitOn(fields[k], COLON)).None?
    ensures Params(fields).None?
    decreases k
  {
    hide SubParams, SplitOn;
    if k > 0 {
      OneBadField(fields[1..], k - 1);
    }
  }

  /** A kitty report is a report of the key exactly when one of its key slots, shifted and base-layout alternates
      included, holds a code of the key that goes with its modifiers; its event is the one written, a press if none. */
  lemma KittyReportIff(keys: seq<int>, mods: seq<int>, enc: seq<KeyCode>)
    requires SubsOk(keys) && SubsOk(mods)
    ensures var s := KittyReport(keys, mods);
            && (Matches(s, enc) <==> exists i :: 0 <= i < |keys| && CodeMatches(enc, keys[i], mods[0], true))
            && (Report(s, enc) <==> Matches(s, enc))
            && EventType(s) == if |mods| > 1 && mods[1] > 0 then mods[1] else PRESS
  {
    hide RenderParams, CodeMatches;
    NonEmptyRender([keys, mods]);
    SequenceIff([keys, mods], KITTY_FINAL, enc);
    assert [keys, mods][0] == keys && [keys, mods][1] == mods;
  }

  /** The same of a modifyOtherKeys report, which has one code, no event and no lock states. */
  lemma OtherKeysReportIff(mods: int, code: int, enc: seq<KeyCode>)
    requires SubOk(mods) && SubOk(code)
    ensures var s := OtherKeysReport(mods, code);
            && (Matches(s, enc) <==> CodeMatches(enc, code, mods, false))
            && (Report(s, enc) <==> Matches(s, enc))
            && EventType(s) == PRESS
  {
    hide RenderParams, CodeMatches;
    assert SubsOk([OTHER_KEYS]) && SubsOk([mods]) && SubsOk([code]);
    NonEmptyRender([[OTHER_KEYS], [mods], [code]]);
    SequenceIff([[OTHER_KEYS], [mods], [code]], TILDE_FINAL, enc);
  }

  /** Every binding is recognised in both encodings: by every code that names it, in any key slot, under every modifier
      parameter its shift rule accepts and with any event. */
  lemma BindingRecognised(b: byte, i: nat, keys: seq<int>, slot: nat, mods: seq<int>)
    requires i < |EncodingFor(b)| && SubsOk(keys) && SubsOk(mods)
    requires slot < |keys| && keys[slot] == EncodingFor(b)[i].code
    ensures ModsMatch(mods[0], EncodingFor(b)[i].shift, true) ==> Report(KittyReport(keys, mods), EncodingFor(b))
    ensures ModsMatch(mods[0], EncodingFor(b)[i].shift, false) ==>
              Report(OtherKeysReport(mods[0], keys[slot]), EncodingFor(b))
  {
    hide Report, EncodingFor, ModsMatch, KittyReport, OtherKeysReport;
    KittyReportIff(keys, mods, EncodingFor(b));
    OtherKeysReportIff(mods[0], keys[slot], EncodingFor(b));
  }

  // ----- from the control byte to the tap

  /** The character a control byte is named for: a letter, or one of the five symbols. */
  function ControlChar(b: byte): byte
    requires 1 <= b <= 31
  {
    if b <= 26 then CharByte(LOWER_CASE[b - 1]) else CharByte("[\\]^_"[b - 27])
  }

  /** The codes of every binding: the character, and for ctrl-^ and ctrl-_ the shifted key it lives on. Other bytes have
      none. */
  lemma EncodingIff(b: byte, k: KeyCode)
    ensures k in EncodingFor(b) <==>
              && 1 <= b <= 31
              && (|| (k.code == ControlChar(b) && k.shift == if b >= 30 then ShiftOptional else ShiftForbidden)
                  || (b == 30 && k == KeyCode(CharByte('6'), ShiftRequired))
                  || (b == 31 && k == KeyCode(CharByte('-'), ShiftRequired)))
  {
    Alphabet(b);
  }

  /** What a binding accepts: its character with ctrl, shifted too for ctrl-^ and ctrl-_, whose physical keys need
      shift; caps lock and num lock are ignored where the encoding reports them. */
  lemma CodeMatchesIff(b: byte, code: int, mods: int, maskLocks: bool)
    ensures CodeMatches(EncodingFor(b), code, mods, maskLocks) <==>
              && 1 <= b <= 31
              && exists caps: nat, num: nat ::
                   && caps <= 1 && num <= 1 && (!maskLocks ==> caps == 0 && num == 0)
                   && var held := mods - 64 * caps - 128 * num;
                      || (code == ControlChar(b) && (held == 5 || (b >= 30 && held == 6)))
                      || (held == 6 && ((b == 30 && code == CharByte('6')) || (b == 31 && code == CharByte('-'))))
  {
    hide EncodingFor, ModsMatch;
    if CodeMatches(EncodingFor(b), code, mods, maskLocks) {
      var enc := EncodingFor(b);
      var i :| 0 <= i < |enc| && enc[i].code == code && ModsMatch(mods, enc[i].shift, maskLocks);
      EncodingIff(b, enc[i]);
      ModsMatchIff(mods, enc[i].shift, maskLocks);
      var shift: nat, caps: nat, num: nat :|
        && shift <= 1 && caps <= 1 && num <= 1 && mods == ModParam(shift, caps, num)
        && (!maskLocks ==> caps == 0 && num == 0)
        && (enc[i].shift.ShiftForbidden? ==> shift == 0) && (enc[i].shift.ShiftRequired? ==> shift == 1);
      assert mods - 64 * caps - 128 * num == 5 + shift;
    }
    if 1 <= b <= 31 {
      forall caps: nat, num: nat, shift: nat, rule: ShiftRule
        | caps <= 1 && num <= 1 && shift <= 1 && (!maskLocks ==> caps == 0 && num == 0)
          && mods == ModParam(shift, caps, num) && KeyCode(code, rule) in EncodingFor(b)
          && (rule.ShiftForbidden? ==> shift == 0) && (rule.ShiftRequired? ==> shift == 1)
        ensures CodeMatches(EncodingFor(b), code, mods, maskLocks)
      {
        ModsMatchIff(mods, rule, maskLocks);
      }
      EncodingIff(b, KeyCode(code, ShiftForbidden));
      EncodingIff(b, KeyCode(code, ShiftOptional));
      EncodingIff(b, KeyCode(code, ShiftRequired));
      forall caps: nat, num: nat
        | caps <= 1 && num <= 1 && (!maskLocks ==> caps == 0 && num == 0)
          && mods - 64 * caps - 128 * num in {5, 6}
        ensures mods == ModParam(mods - 64 * caps - 128 * num - 5, caps, num) { }
    }
  }

  /** The kitty report of ctrl and the binding's character. */
  function KeyEvent(b: byte, event: int): seq<byte>
    requires 1 <= b <= 31 && 1 <= event <= 3
  {
    KittyReport([ControlChar(b)], [5, event])
  }

  lemma KeyEventFacts(b: byte, event: int)
    requires 1 <= b <= 31 && 1 <= event <= 3
    ensures Report(KeyEvent(b, event), EncodingFor(b)) && EventType(KeyEvent(b, event)) == event
    ensures |KeyEvent(b, event)| > 0 && KeyEvent(b, event)[|KeyEvent(b, event)| - 1] == CharByte('u')
  {
    hide Report, EventType, EncodingFor, CodeMatches, RenderParams, ControlChar;
    CodeMatchesIff(b, ControlChar(b), 5, true);
    assert 5 - 64 * 0 - 128 * 0 == 5;
    KittyReportIff([ControlChar(b)], [5, event], EncodingFor(b));
    assert CodeMatches(EncodingFor(b), [ControlChar(b)][0], [5, event][0], true);
  }

  /** One tap of any binding is swallowed whole, whatever was read before it: a press (1), any number of repeats (2) and
      a release (3). */
  lemma TapSwallowed(before: seq<byte>, b: byte, repeats: nat)
    requires 1 <= b <= 31
    ensures var tap := KeyEvent(b, 1) + Concat(seq(repeats, _ => KeyEvent(b, 2))) + KeyEvent(b, 3);
            IsTap(before + tap, |tap|, b)
  {
    hide Report, EventType, EncodingFor, KeyEvent;
    var enc, press, release := EncodingFor(b), KeyEvent(b, 1), KeyEvent(b, 3);
    var held := seq(repeats, _ => KeyEvent(b, 2));
    KeyEventFacts(b, 1);
    KeyEventFacts(b, 2);
    KeyEventFacts(b, 3);
    var halves, tap := [press] + held, press + Concat(held) + release;
    var buf := before + tap;
    var first, start := |before|, |before| + |press| + |Concat(held)|;
    assert halves[1..] == held;
    assert buf[start..] == release && buf[first..start] == press + Concat(held);
    assert buf[|buf| - 1] == release[|release| - 1];
    assert Opens(buf, first, start, halves, enc);
    assert ReleasedAt(buf, start, enc) && Walked(buf, first, start, enc);
  }

  /** The default binding, ctrl-w, byte for byte. */
  lemma CtrlW()
    ensures ControlChar(23) == CharByte('w')
    ensures KittyReport([119], [5]) == Ascii("\U{1b}[119;5u") && OtherKeysReport(5, 119) == Ascii("\U{1b}[27;5;119~")
    ensures KeyEvent(23, 1) == Ascii("\U{1b}[119;5:1u") && KeyEvent(23, 3) == Ascii("\U{1b}[119;5:3u")
    ensures IsTap(Ascii("\U{1b}[119;5u"), 8, 23) && IsTap(Ascii("\U{1b}[27;5;119~"), 11, 23) && IsTap([23], 1, 23)
  {
    hide IsTap, Report, EventType, EncodingFor, CodeMatches;
    assert ControlChar(23) == 119;
    DigitsOf119();
    WrittenOut();
    CodeMatchesIff(23, 119, 5, true);
    CodeMatchesIff(23, 119, 5, false);
    assert 5 - 64 * 0 - 128 * 0 == 5;
    KittyReportIff([119], [5], EncodingFor(23));
    OtherKeysReportIff(5, 119, EncodingFor(23));
    assert CodeMatches(EncodingFor(23), [119][0], [5][0], true);
    OneReportTap(KittyReport([119], [5]), 23);
    OneReportTap(OtherKeysReport(5, 119), 23);
    LegacyTap(23);
  }

  lemma DigitsOf119()
    ensures ToDigits(119) == Ascii("119") && ToDigits(27) == Ascii("27") && ToDigits(5) == Ascii("5")
    ensures ToDigits(1) == Ascii("1") && ToDigits(3) == Ascii("3")
  {
    assert ToDigits(11) == Ascii("11");
  }

  lemma WrittenOut()
    ensures KittyReport([119], [5]) == Ascii("\U{1b}[119;5u") && OtherKeysReport(5, 119) == Ascii("\U{1b}[27;5;119~")
    ensures KittyReport([119], [5, 1]) == Ascii("\U{1b}[119;5:1u")
    ensures KittyReport([119], [5, 3]) == Ascii("\U{1b}[119;5:3u")
  {
    hide ToDigits, RenderSubs, RenderParams, KittyReport;
    DigitsOf119();
    WrittenEvent(1);
    WrittenEvent(3);
    WrittenSubs(119, 1);
    WrittenSubs(5, 1);
    WrittenSubs(27, 1);
    assert SubsOk([119]) && SubsOk([5]) && SubsOk([27]);
    WrittenParams([27], [5], [119]);
  }

  lemma WrittenEvent(event: nat)
    requires event < 10
    ensures KittyReport([119], [5]) == Ascii("\U{1b}[119;5") + Ascii("u")
    ensures KittyReport([119], [5, event]) == Ascii("\U{1b}[119;5:") + ToDigits(event) + Ascii("u")
  {
    hide ToDigits, RenderSubs, RenderParams;
    DigitsOf119();
    WrittenSubs(119, 1);
    WrittenSubs(5, event);
    assert SubsOk([119]) && SubsOk([5]) && SubsOk([5, event]);
    WrittenParams([119], [5], [119]);
    WrittenParams([119], [5, event], [119]);
  }

  lemma WrittenSubs(a: nat, b: nat)
    requires SubOk(a) && SubOk(b)
    ensures RenderSubs([a]) == ToDigits(a) && RenderSubs([a, b]) == ToDigits(a) + Ascii(":") + ToDigits(b)
  {
    hide ToDigits;
    assert seq(1, i requires 0 <= i < 1 => RenderSub([a][i])) == [ToDigits(a)];
    var two := [ToDigits(a), ToDigits(b)];
    assert seq(2, i requires 0 <= i < 2 => RenderSub([a, b][i])) == two;
    JoinTwo(ToDigits(a), ToDigits(b), COLON);
    assert [COLON] == Ascii(":");
  }

  lemma JoinTwo(x: seq<byte>, y: seq<byte>, sep: byte)
    ensures JoinOn([x, y], sep) == x + [sep] + y
  {
    assert [x, y][1..] == [y];
  }

  lemma WrittenParams(a: seq<int>, b: seq<int>, c: seq<int>)
    requires SubsOk(a) && SubsOk(b) && SubsOk(c)
    ensures RenderParams([a, b]) == RenderSubs(a) + Ascii(";") + RenderSubs(b)
    ensures RenderParams([a, b, c]) == RenderSubs(a) + Ascii(";") + RenderSubs(b) + Ascii(";") + RenderSubs(c)
  {
    hide RenderSubs;
    var two, three := [RenderSubs(a), RenderSubs(b)], [RenderSubs(a), RenderSubs(b), RenderSubs(c)];
    assert seq(2, i requires 0 <= i < 2 => RenderSubs([a, b][i])) == two;
    assert seq(3, i requires 0 <= i < 3 => RenderSubs([a, b, c][i])) == three;
    assert three[1..] == [RenderSubs(b), RenderSubs(c)] && [SEMICOLON] == Ascii(";");
    JoinTwo(RenderSubs(a), RenderSubs(b), SEMICOLON);
    JoinTwo(RenderSubs(b), RenderSubs(c), SEMICOLON);
  }

  lemma OneReportTap(s: seq<byte>, b: byte)
    requires Report(s, EncodingFor(b)) && EventType(s) != RELEASE && s[|s| - 1] != b
    ensures IsTap(s, |s|, b)
  {
    hide Report, EventType, EncodingFor;
    assert s[0..] == s;
  }

  lemma LegacyTap(b: byte)
    ensures IsTap([b], 1, b)
  {
  }
}
