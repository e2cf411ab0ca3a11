/** `msiRegisterEpicPID`: the JSON payload of a handle registration and its upload in chunks. */
module EpicPayload {
  import opened Wrappers

  const QUOTE: byte := 0x22
  const BACKSLASH: byte := 0x5c

  // ---- the printer ----

  /** Lower-case hexadecimal digit. */
  function HexDigit(d: nat): byte
    requires d < 16
  {
    if d < 10 then (0x30 + d) as byte else (0x61 + d - 10) as byte
  }

  /** A number in base 16, without leading zeros. */
  function Hex(n: nat): seq<byte> {
    if n < 16 then [HexDigit(n)] else Hex(n / 16) + [HexDigit(n % 16)]
  }

  /** `std::setw(width) << std::setfill('0')` */
  function PadLeft(digits: seq<byte>, width: nat): seq<byte>
    decreases width - |digits|
  {
    if |digits| >= width then digits else PadLeft([0x30] + digits, width)
  }

  function EscapeByte(b: byte): seq<byte> {
    match b as int
    case 0x22 => [BACKSLASH, QUOTE]
    case 0x5c => [BACKSLASH, BACKSLASH]
    case 0x08 => [BACKSLASH, 0x62]
    case 0x0c => [BACKSLASH, 0x66]
    case 0x0a => [BACKSLASH, 0x6e]
    case 0x0d => [BACKSLASH, 0x72]
    case 0x09 => [BACKSLASH, 0x74]
    case _ => if b <= 0x1f then [BACKSLASH, 0x75] + PadLeft(Hex(b as nat), 4) else [b]
  }

  function Escaped(s: seq<byte>): seq<byte> {
    if s == [] then [] else EscapeByte(s[0]) + Escaped(s[1..])
  }

  /** `escapeJson` */
  method EscapeJson(s: seq<byte>) returns (o: seq<byte>)
    ensures o == Escaped(s)
  {
    o := [];
    for i := 0 to |s|
      invariant o == Escaped(s[..i])
    {
      o := o + EscapeByte(s[i]);
      EscapedSnoc(s[..i], s[i]);
      assert s[..i + 1] == s[..i] + [s[i]];
    }
    assert s[..|s|] == s;
  }

  lemma {:induction false} EscapedSnoc(s: seq<byte>, b: byte)
    ensures Escaped(s + [b]) == Escaped(s) + EscapeByte(b)
  {
    if s == [] {
      assert [b][1..] == [];
    } else {
      assert (s + [b])[1..] == s[1..] + [b];
      EscapedSnoc(s[1..], b);
    }
  }

  // ---- the reader: section 7 of RFC 8259 ----

  function HexValue(b: byte): (v: Option<nat>)
    ensures v.Some? ==> v.value < 16 && b != QUOTE
  {
    if 0x30 <= b <= 0x39 then Some(b as nat - 0x30)
    else if 0x61 <= b <= 0x66 then Some(b as nat - 0x61 + 10)
    else if 0x41 <= b <= 0x46 then Some(b as nat - 0x41 + 10)
    else None
  }

  /** The code unit of four hexadecimal digits. */
  function CodeUnit(t: seq<byte>): (u: Option<nat>)
    ensures u.Some? ==> |t| >= 4 && u.value < 0x1_0000
    ensures u.Some? ==> t[0] != QUOTE && t[1] != QUOTE && t[2] != QUOTE && t[3] != QUOTE
  {
    if |t| < 4 then None
    else
      match (HexValue(t[0]), HexValue(t[1]), HexValue(t[2]), HexValue(t[3]))
      case (Some(a), Some(b), Some(c), Some(d)) => Some(((a * 16 + b) * 16 + c) * 16 + d)
      case _ => None
  }

  /** UTF-8. */
  function Utf8(c: nat): (r: seq<byte>)
    requires c < 0x11_0000
    ensures 1 <= |r| <= 4 && (c < 0x1_0000 ==> |r| <= 3)
  {
    if c < 0x80 then [c as byte]
    else if c < 0x800 then [(0xc0 + c / 0x40) as byte, (0x80 + c % 0x40) as byte]
    else if c < 0x1_0000 then
      [(0xe0 + c / 0x1000) as byte, (0x80 + c / 0x40 % 0x40) as byte, (0x80 + c % 0x40) as byte]
    else
      [(0xf0 + c / 0x4_0000) as byte, (0x80 + c / 0x1000 % 0x40) as byte,
       (0x80 + c / 0x40 % 0x40) as byte, (0x80 + c % 0x40) as byte]
  }

  /** One character of a string: what it stands for and how many bytes it takes. */
  datatype Token = Token(content: seq<byte>, width: nat)

  /** The character named after a backslash, other than "u". */
  function Named(b: byte): Option<byte> {
    match b as int
    case 0x22 => Some(0x22)
    case 0x5c => Some(0x5c)
    case 0x2f => Some(0x2f)
    case 0x62 => Some(0x08)
    case 0x66 => Some(0x0c)
    case 0x6e => Some(0x0a)
    case 0x72 => Some(0x0d)
    case 0x74 => Some(0x09)
    case _ => None
  }

  function Char(t: seq<byte>): (k: Option<Token>)
    requires t != [] && t[0] != QUOTE
    ensures k.Some? ==> 1 <= |k.value.content| <= k.value.width <= |t|
  {
    if t[0] < 0x20 then None
    else if t[0] != BACKSLASH then Some(Token([t[0]], 1))
    else if |t| < 2 then None
    else if t[1] == 0x75 then UnicodeChar(t)
    else
      var c := Named(t[1]);
      if c == None then None else Some(Token([c.value], 2))
  }

  /** "\uXXXX", or two of them for a code point beyond the basic plane; a lone surrogate is no character. */
  function UnicodeChar(t: seq<byte>): (k: Option<Token>)
    requires |t| >= 2
    ensures k.Some? ==> 1 <= |k.value.content| <= k.value.width - 2 && k.value.width <= |t|
    ensures k.Some? ==> forall i :: 2 <= i < k.value.width ==> t[i] != QUOTE
  {
    var u := CodeUnit(t[2..]);
    if u == None then None
    else if 0xd800 <= u.value < 0xdc00 then
      if |t| < 8 || t[6] != BACKSLASH || t[7] != 0x75 then None
      else
        var l := CodeUnit(t[8..]);
        if l == None || !(0xdc00 <= l.value < 0xe000) then None
        else
          assert forall i :: 2 <= i < 6 ==> t[i] == t[2..][i - 2];
          assert forall i :: 8 <= i < 12 ==> t[i] == t[8..][i - 8];
          Some(Token(Utf8(0x1_0000 + (u.value - 0xd800) * 0x400 + (l.value - 0xdc00)), 12))
    else if 0xdc00 <= u.value < 0xe000 then None
    else
      assert forall i :: 2 <= i < 6 ==> t[i] == t[2..][i - 2];
      Some(Token(Utf8(u.value), 6))
  }

  /** A string read to its closing quote. */
  datatype Reading = Reading(content: seq<byte>, rest: seq<byte>)

  /** What follows an opening quote, up to the closing one. */
  function ScanString(t: seq<byte>): (r: Option<Reading>)
    ensures r.Some? ==> |r.value.content| + 1 + |r.value.rest| <= |t|
    decreases |t|
  {
    if t == [] then None
    else if t[0] == QUOTE then Some(Reading([], t[1..]))
    else
      var k := Char(t);
      if k == None then None
      else
        var more := ScanString(t[k.value.width..]);
        if more == None then None else Some(Reading(k.value.content + more.value.content, more.value.rest))
  }

  // ---- the printer is correct ----

  lemma {:induction false} EscapeByteShape(b: byte)
    ensures 1 <= |EscapeByte(b)| <= 6
    ensures forall i :: 0 <= i < |EscapeByte(b)| ==> EscapeByte(b)[i] >= 0x20
    ensures EscapeByte(b)[0] != QUOTE
  {
    if b <= 0x1f {
      ControlHex(b);
    }
  }

  lemma {:induction false} ControlHex(b: byte)
    requires b <= 0x1f
    ensures PadLeft(Hex(b as nat), 4) == [0x30, 0x30, HexDigit(b as nat / 16), HexDigit(b as nat % 16)]
  {
    var n := b as nat;
    var d := Hex(n);
    assert PadLeft(d, 4) == PadLeft([0x30] + d, 4) == PadLeft([0x30] + ([0x30] + d), 4);
    if n < 16 {
      assert d == [HexDigit(n)];
      assert PadLeft([0x30] + ([0x30] + d), 4) == [0x30] + ([0x30] + ([0x30] + d));
    } else {
      assert d == [HexDigit(1), HexDigit(n % 16)];
      assert PadLeft([0x30] + ([0x30] + d), 4) == [0x30] + ([0x30] + d);
    }
  }

  /**
   * Which escape: two characters for the quote, the backslash and the five control characters that have a name, six
   * in lower-case hexadecimal for the other control characters, and the byte itself otherwise.
   */
  lemma {:induction false} EscapeByteForm(b: byte)
    ensures var e := EscapeByte(b);
            if b == 0x22 || b == 0x5c then e == [0x5c, b]
            else if b == 0x08 || b == 0x0c || b == 0x0a || b == 0x0d || b == 0x09 then |e| == 2 && e[0] == 0x5c
            else if b <= 0x1f then
              |e| == 6 && e[..4] == [0x5c, 0x75, 0x30, 0x30] && e[4] == (if b < 0x10 then 0x30 else 0x31) &&
              (0x30 <= e[5] <= 0x39 || 0x61 <= e[5] <= 0x66)
            else e == [b]
  {
    if b <= 0x1f {
      ControlHex(b);
    }
  }

  // ---- the reader beyond what the printer writes ----

  function FourDigits(u: nat): seq<byte>
    requires u < 0x1_0000
  {
    [HexDigit(u / 0x1000), HexDigit(u / 0x100 % 0x10), HexDigit(u / 0x10 % 0x10), HexDigit(u % 0x10)]
  }

  lemma {:induction false} DigitReads(d: nat)
    requires d < 16
    ensures HexValue(HexDigit(d)) == Some(d)
  {
  }

  lemma {:induction false} FourDigitsSum(u: nat)
    requires u < 0x1_0000
    ensures u / 0x1000 < 16
    ensures (((u / 0x1000) * 16 + u / 0x100 % 0x10) * 16 + u / 0x10 % 0x10) * 16 + u % 0x10 == u
  {
    var x, y := u / 0x10, u / 0x100;
    assert x == y * 16 + x % 0x10;
    assert y == u / 0x1000 * 16 + y % 0x10;
  }

  lemma {:induction false} FourDigitsRead(u: nat, t: seq<byte>)
    requires u < 0x1_0000
    ensures CodeUnit(FourDigits(u) + t) == Some(u)
  {
    hide HexDigit, HexValue;
    FourDigitsSum(u);
    DigitReads(u / 0x1000);
    DigitReads(u / 0x100 % 0x10);
    DigitReads(u / 0x10 % 0x10);
    DigitReads(u % 0x10);
    UnitOfDigits(u / 0x1000, u / 0x100 % 0x10, u / 0x10 % 0x10, u % 0x10, FourDigits(u) + t);
  }

  lemma {:induction false} UnitOfDigits(a: nat, b: nat, c: nat, d: nat, t: seq<byte>)
    requires |t| >= 4 && a < 16 && b < 16 && c < 16 && d < 16
    requires HexValue(t[0]) == Some(a) && HexValue(t[1]) == Some(b)
    requires HexValue(t[2]) == Some(c) && HexValue(t[3]) == Some(d)
    ensures CodeUnit(t) == Some(((a * 16 + b) * 16 + c) * 16 + d)
  {
    hide HexValue;
  }

  /** Every code point beyond the basic plane is read from its surrogate pair. */
  lemma {:induction false} PairReads(c: nat, t: seq<byte>)
    requires 0x1_0000 <= c < 0x11_0000
    ensures var high, low := 0xd800 + (c - 0x1_0000) / 0x400, 0xdc00 + (c - 0x1_0000) % 0x400;
            UnicodeChar([BACKSLASH, 0x75] + FourDigits(high) + [BACKSLASH, 0x75] + FourDigits(low) + t) ==
            Some(Token(Utf8(c), 12))
  {
    hide FourDigits, CodeUnit, Utf8;
    var high, low := 0xd800 + (c - 0x1_0000) / 0x400, 0xdc00 + (c - 0x1_0000) % 0x400;
    FourDigitsLength(high);
    FourDigitsLength(low);
    var second := [BACKSLASH, 0x75] + FourDigits(low) + t;
    var all := [BACKSLASH, 0x75] + FourDigits(high) + [BACKSLASH, 0x75] + FourDigits(low) + t;
    FourDigitsRead(high, second);
    FourDigitsRead(low, t);
    assert all[2..] == FourDigits(high) + second;
    assert all[8..] == FourDigits(low) + t;
    assert all[6] == BACKSLASH && all[7] == 0x75;
  }

  lemma {:induction false} FourDigitsLength(u: nat)
    requires u < 0x1_0000
    ensures |FourDigits(u)| == 4
  {
  }

  /** One escaped byte is one character that stands for that byte, whatever follows. */
  lemma {:induction false} EscapeByteReads(b: byte, t: seq<byte>)
    ensures EscapeByte(b)[0] != QUOTE
    ensures Char(EscapeByte(b) + t) == Some(Token([b], |EscapeByte(b)|))
  {
    EscapeByteShape(b);
    var e := EscapeByte(b);
    var s := e + t;
    assert s[0] == e[0] && (|e| > 1 ==> s[1] == e[1]);
    if b <= 0x1f && e[1] == 0x75 {
      ControlHex(b);
      var h := [0x30, 0x30, HexDigit(b as nat / 16), HexDigit(b as nat % 16)];
      assert e == [BACKSLASH, 0x75] + h;
      assert s[2..] == h + t;
      assert HexValue(HexDigit(b as nat / 16)) == Some(b as nat / 16);
      assert HexValue(HexDigit(b as nat % 16)) == Some(b as nat % 16);
      assert CodeUnit(s[2..]) == Some(b as nat);
    }
  }

  /**
   * For every byte string, the escaped text reads back as that string, and the closing quote is found exactly
   * at its end, whatever comes after.
   */
  lemma {:induction false} EscapedReadsBack(s: seq<byte>, t: seq<byte>)
    ensures ScanString(Escaped(s) + [QUOTE] + t) == Some(Reading(s, t))
  {
    var all := Escaped(s) + [QUOTE] + t;
    if s == [] {
      assert all[1..] == t;
    } else {
      var e, more := EscapeByte(s[0]), Escaped(s[1..]) + [QUOTE] + t;
      assert all == e + more;
      EscapeByteShape(s[0]);
      EscapeByteReads(s[0], more);
      assert all[|e|..] == more;
      EscapedReadsBack(s[1..], t);
      assert [s[0]] + s[1..] == s;
    }
  }

  /** No raw control byte is left, and the text grows at most sixfold. */
  lemma {:induction false} EscapedShape(s: seq<byte>)
    ensures |s| <= |Escaped(s)| <= 6 * |s|
    ensures forall i :: 0 <= i < |Escaped(s)| ==> Escaped(s)[i] >= 0x20
  {
    if s != [] {
      EscapeByteShape(s[0]);
      EscapedShape(s[1..]);
    }
  }

  // ---- texts that are not escaped ----

  /** A text that stands for itself inside a JSON string. */
  predicate Plain(p: seq<byte>) {
    forall i :: 0 <= i < |p| ==> p[i] >= 0x20 && p[i] != QUOTE && p[i] != BACKSLASH
  }

  lemma {:induction false} PlainReadsBack(p: seq<byte>, t: seq<byte>)
    requires Plain(p)
    ensures ScanString(p + [QUOTE] + t) == Some(Reading(p, t))
  {
    var all := p + [QUOTE] + t;
    if p == [] {
      assert all[1..] == t;
    } else {
      assert all[1..] == p[1..] + [QUOTE] + t;
      PlainReadsBack(p[1..], t);
      assert [p[0]] + p[1..] == p;
    }
  }

  /** A quote that a reading passes over was escaped, so that a quote is read before its place. */
  lemma {:induction false} QuotePassed(t: seq<byte>, q: nat) returns (i: nat)
    requires ScanString(t).Some? && q < |t| - |ScanString(t).value.rest| - 1 && t[q] == QUOTE
    ensures i < q && i < |ScanString(t).value.content| && ScanString(t).value.content[i] == QUOTE
    decreases |t|
  {
    var k := Char(t).value;
    var w := k.width;
    if q < w {
      i := 0;
      assert t[0] == BACKSLASH;
    } else {
      assert t[w..][q - w] == QUOTE;
      var m := QuotePassed(t[w..], q - w);
      i := m + |k.content|;
      assert ScanString(t).value.content[i] == ScanString(t[w..]).value.content[m];
    }
  }

  /** A text that reads as itself up to `q` has no quote at `q` before its closing quote. */
  lemma {:induction false} NoQuotePassed(t: seq<byte>, q: nat)
    requires ScanString(t).Some? && q < |t| - |ScanString(t).value.rest| - 1
    requires forall i :: 0 <= i < q && i < |ScanString(t).value.content| ==> ScanString(t).value.content[i] == t[i]
    ensures t[q] != QUOTE
    decreases q
  {
    if t[q] == QUOTE {
      var i := QuotePassed(t, q);
      NoQuotePassed(t, i);
    }
  }

  /** A reading as long as its text met no backslash and no control byte. */
  lemma {:induction false} FullLengthIsPlain(t: seq<byte>)
    requires ScanString(t).Some? && |ScanString(t).value.content| + 1 + |ScanString(t).value.rest| == |t|
    ensures Plain(t[..|ScanString(t).value.content|])
    decreases |t|
  {
    hide ScanString;
    if t[0] != QUOTE {
      var n := |ScanString(t).value.content| - 1;
      FullLengthStep(t);
      FullLengthIsPlain(t[1..]);
      assert t[..n + 1] == [t[0]] + t[1..][..n];
    } else {
      EmptyReading(t);
    }
  }

  lemma {:induction false} EmptyReading(t: seq<byte>)
    requires t != [] && t[0] == QUOTE
    ensures ScanString(t) == Some(Reading([], t[1..]))
  {
  }

  /** Its first character was read as it stands. */
  lemma {:induction false} FullLengthStep(t: seq<byte>)
    requires ScanString(t).Some? && |ScanString(t).value.content| + 1 + |ScanString(t).value.rest| == |t|
    requires t[0] != QUOTE
    ensures t[0] >= 0x20 && t[0] != BACKSLASH && ScanString(t[1..]).Some?
    ensures |ScanString(t).value.content| == |ScanString(t[1..]).value.content| + 1
    ensures ScanString(t).value.rest == ScanString(t[1..]).value.rest
  {
    hide UnicodeChar;
    var k := Char(t).value;
    assert |k.content| == k.width;
  }

  /** Put between quotes as it is, a text is read back if and only if it is plain. */
  lemma {:induction false} ReadsBackIffPlain(p: seq<byte>, t: seq<byte>)
    ensures (ScanString(p + [QUOTE] + t).Some? && ScanString(p + [QUOTE] + t).value.content == p) <==> Plain(p)
  {
    var all := p + [QUOTE] + t;
    if Plain(p) {
      PlainReadsBack(p, t);
    }
    var r := ScanString(all);
    if r.Some? && r.value.content == p {
      var n := |all| - |r.value.rest| - 1;
      assert |p| <= n;
      if |p| < n {
        assert forall i :: 0 <= i < |p| ==> all[i] == p[i];
        NoQuotePassed(all, |p|);
      }
      FullLengthIsPlain(all);
      assert all[..|p|] == p;
    }
  }

  // ---- the payload ----

  /** The bytes of a text of ASCII characters. */
  function Ascii(s: string): (r: seq<byte>)
    ensures |r| == |s|
  {
    seq(|s|, i requires 0 <= i < |s| => (s[i] as int % 128) as byte)
  }

  const HEAD := "{\"values\":[" + EntryHead("1", "URL", "string") + "\""
  const MIDDLE := "}}," + EntryHead("100", "HS_ADMIN", "admin") + "{\"handle\":\""
  const HANDLE := "0.NA/"
  const TAIL := ",\"index\":200," + "\"permissions\":\"011111110011\"" + "}}}]}"

  /** An entry up to its value. */
  function EntryHead(number: string, kind: string, format: string): string {
    "{\"index\":" + number + ",\"type\":\"" + kind + "\",\"data\":{\"format\":\"" + format + "\",\"value\":"
  }

  /** The payload that registers `value` under a handle prefix; the prefix is not escaped. */
  function Payload(value: seq<byte>, prefix: seq<byte>): seq<byte> {
    Ascii(HEAD) + Escaped(value) + [QUOTE] + AfterValue(prefix)
  }

  function AfterValue(prefix: seq<byte>): seq<byte> {
    Ascii(MIDDLE) + Ascii(HANDLE) + prefix + [QUOTE] + Ascii(TAIL)
  }

  /** The value field reads back as the value. */
  lemma {:induction false} ValueReadsBack(value: seq<byte>, prefix: seq<byte>)
    ensures ScanString(Payload(value, prefix)[|HEAD|..]) == Some(Reading(value, AfterValue(prefix)))
  {
    hide Escaped, AfterValue, Ascii;
    var e, after := Escaped(value), AfterValue(prefix);
    assert Payload(value, prefix)[|HEAD|..] == e + [QUOTE] + after;
    EscapedReadsBack(value, after);
  }

  /** The handle field reads back as "0.NA/" and the prefix if and only if the configured prefix is plain text. */
  lemma {:induction false} HandleReadsBackIffPlain(prefix: seq<byte>)
    ensures var r := ScanString(AfterValue(prefix)[|MIDDLE|..]);
            (r.Some? && r.value.content == Ascii(HANDLE) + prefix) <==> Plain(prefix)
  {
    hide Ascii, Plain, ScanString;
    var h, t := Ascii(HANDLE), Ascii(TAIL);
    assert AfterValue(prefix)[|MIDDLE|..] == (h + prefix) + [QUOTE] + t;
    ReadsBackIffPlain(h + prefix, t);
    PlainConcat(h, prefix);
    HandleIsPlain();
  }

  lemma {:induction false} PlainConcat(a: seq<byte>, b: seq<byte>)
    ensures Plain(a + b) <==> Plain(a) && Plain(b)
  {
    if Plain(a + b) {
      assert forall i :: 0 <= i < |a| ==> a[i] == (a + b)[i];
      assert forall i :: 0 <= i < |b| ==> b[i] == (a + b)[|a| + i];
    }
  }

  lemma {:induction false} HandleIsPlain()
    ensures Plain(Ascii(HANDLE))
  {
  }

  // ---- the upload ----

  /** The payload being sent, and the static counter of the bytes still to go. */
  class Upload {
    const payload: seq<byte>
    var length: nat

    ghost predicate Valid()
      reads this
    {
      length <= |payload|
    }

    constructor (payload: seq<byte>)
      ensures Valid() && this.payload == payload && Sent() == []
    {
      this.payload, length := payload, |payload|;
    }

    /** What the callback has handed over so far. */
    ghost function Sent(): seq<byte>
      requires Valid()
      reads this
    {
      payload[..|payload| - length]
    }

    /** `readCallback`: the next bytes into the buffer; none into a buffer with room only when all were sent. */
    method ReadCallback(buffer: array<byte>, size: nat, nmemb: nat) returns (len: nat)
      requires Valid() && size * nmemb <= buffer.Length
      modifies this`length, buffer
      ensures Valid() && len <= size * nmemb
      ensures Sent() == old(Sent()) + buffer[..len]
      ensures buffer[len..] == old(buffer[..])[len..]
      ensures size * nmemb > 0 ==> (len == 0 <==> old(Sent()) == payload)
      ensures len == Least(size * nmemb, |payload| - |old(Sent())|)
    {
      len := size * nmemb;
      if len > length {
        len := length;
      }
      ghost var was, from := buffer[..], |payload| - length;
      for i := 0 to len
        invariant length == old(length) && len <= length
        invariant buffer[..i] == payload[from..from + i]
        invariant buffer[i..] == was[i..]
      {
        buffer[i] := payload[|payload| - length + i];
        assert buffer[i + 1..] == was[i..][1..];
      }
      length := length - len;
      assert payload[..from] + payload[from..from + len] == payload[..from + len];
    }
  }

  function Room(buffer: (nat, nat)): nat {
    buffer.0 * buffer.1
  }

  /** The room in all these buffers. */
  function Offered(buffers: seq<(nat, nat)>): nat {
    if buffers == [] then 0 else Offered(buffers[..|buffers| - 1]) + Room(buffers[|buffers| - 1])
  }

  /** Some buffer has room after the ones before took all `n` bytes. */
  predicate Ended(buffers: seq<(nat, nat)>, n: nat) {
    buffers != [] &&
    var k := |buffers| - 1;
    Ended(buffers[..k], n) || (Room(buffers[k]) > 0 && Offered(buffers[..k]) >= n)
  }

  function Least(a: nat, b: nat): nat {
    if a < b then a else b
  }

  /**
   * Any sequence of callbacks, each for so many elements of any size: the chunks make up the payload so far, and
   * are the whole payload once a buffer with room stays empty.
   */
  method Transfer(upload: Upload, buffers: seq<(nat, nat)>) returns (received: seq<byte>, complete: bool)
    requires upload.Valid() && upload.Sent() == []
    modifies upload
    ensures upload.Valid() && received == upload.Sent() && received <= upload.payload
    ensures complete ==> received == upload.payload
    ensures complete <==> Ended(buffers, |upload.payload|)
    ensures |received| == Least(Offered(buffers), |upload.payload|)
  {
    received, complete := [], false;
    for k := 0 to |buffers|
      invariant upload.Valid() && received == upload.Sent()
      invariant |received| == Least(Offered(buffers[..k]), |upload.payload|)
      invariant complete <==> Ended(buffers[..k], |upload.payload|)
      invariant complete ==> received == upload.payload
    {
      var buffer := new byte[Room(buffers[k])];
      var len := upload.ReadCallback(buffer, buffers[k].0, buffers[k].1);
      received := received + buffer[..len];
      assert buffers[..k + 1][..k] == buffers[..k];
      if len == 0 && Room(buffers[k]) > 0 {
        complete := true;
      }
    }
    assert buffers[..|buffers|] == buffers;
  }
}
