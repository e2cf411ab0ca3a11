/** The payload as a JSON document: a printer and a reader for such documents, and what the payload reads as. */
module EpicDocument {
  import opened Wrappers
  import opened EpicPayload

  /** JSON values, members in their order. */
  datatype Doc = Str(text: seq<byte>) | Num(n: nat) | Arr(elems: Elems) | Obj(members: Members)

  datatype Elems = NoElem | Elem(head: Doc, tail: Elems)

  datatype Members = NoMember | Member(key: seq<byte>, value: Doc, rest: Members)

  const COMMA: byte := 0x2c
  const COLON: byte := 0x3a
  const OPEN_ARRAY: byte := 0x5b
  const CLOSE_ARRAY: byte := 0x5d
  const OPEN_OBJECT: byte := 0x7b
  const CLOSE_OBJECT: byte := 0x7d

  predicate IsDigit(b: byte) {
    0x30 <= b <= 0x39
  }

  // ---- the printer ----

  function Digits(n: nat): seq<byte> {
    if n < 10 then [(0x30 + n) as byte] else Digits(n / 10) + [(0x30 + n % 10) as byte]
  }

  function Quoted(s: seq<byte>): seq<byte> {
    [QUOTE] + Escaped(s) + [QUOTE]
  }

  function Print(d: Doc): seq<byte> {
    match d
    case Str(s) => Quoted(s)
    case Num(n) => Digits(n)
    case Arr(es) => [OPEN_ARRAY] + PrintElems(es) + [CLOSE_ARRAY]
    case Obj(ms) => [OPEN_OBJECT] + PrintMembers(ms) + [CLOSE_OBJECT]
  }

  function PrintElems(es: Elems): seq<byte> {
    match es
    case NoElem => []
    case Elem(d, NoElem) => Print(d)
    case Elem(d, more) => Print(d) + [COMMA] + PrintElems(more)
  }

  function PrintMembers(ms: Members): seq<byte> {
    match ms
    case NoMember => []
    case Member(k, d, NoMember) => Quoted(k) + [COLON] + Print(d)
    case Member(k, d, more) => Quoted(k) + [COLON] + Print(d) + [COMMA] + PrintMembers(more)
  }

  // ---- the reader: sections 4 to 7 of RFC 8259, without whitespace, signs, fractions and literal names ----

  function ReadDigits(t: seq<byte>, n: nat): (nat, seq<byte>)
    decreases |t|
  {
    if t == [] || !IsDigit(t[0]) then (n, t) else ReadDigits(t[1..], n * 10 + (t[0] - 0x30) as nat)
  }

  lemma {:induction false} ReadDigitsRest(t: seq<byte>, n: nat)
    ensures |ReadDigits(t, n).1| <= |t|
    decreases |t|
  {
    if t != [] && IsDigit(t[0]) {
      ReadDigitsRest(t[1..], n * 10 + (t[0] - 0x30) as nat);
    }
  }

  function ReadDoc(t: seq<byte>): (r: Option<(Doc, seq<byte>)>)
    ensures r.Some? ==> |r.value.1| < |t|
    decreases |t|, 0
  {
    if t == [] then None
    else if t[0] == QUOTE then
      var s := ScanString(t[1..]);
      if s == None then None else Some((Str(s.value.content), s.value.rest))
    else if t[0] == 0x30 then Some((Num(0), t[1..]))
    else if IsDigit(t[0]) then
      ReadDigitsRest(t[1..], (t[0] - 0x30) as nat);
      var (n, rest) := ReadDigits(t[1..], (t[0] - 0x30) as nat);
      Some((Num(n), rest))
    else if t[0] == OPEN_ARRAY then
      if |t| > 1 && t[1] == CLOSE_ARRAY then Some((Arr(NoElem), t[2..]))
      else
        var es := ReadElems(t[1..]);
        if es == None then None else Some((Arr(es.value.0), es.value.1))
    else if t[0] == OPEN_OBJECT then
      if |t| > 1 && t[1] == CLOSE_OBJECT then Some((Obj(NoMember), t[2..]))
      else
        var ms := ReadMembers(t[1..]);
        if ms == None then None else Some((Obj(ms.value.0), ms.value.1))
    else None
  }

  /** Elements up to the closing bracket. */
  function ReadElems(t: seq<byte>): (r: Option<(Elems, seq<byte>)>)
    ensures r.Some? ==> |r.value.1| < |t|
    decreases |t|, 1
  {
    var d := ReadDoc(t);
    if d == None || d.value.1 == [] then None
    else
      var (head, rest) := d.value;
      if rest[0] == CLOSE_ARRAY then Some((Elem(head, NoElem), rest[1..]))
      else if rest[0] != COMMA then None
      else
        var more := ReadElems(rest[1..]);
        if more == None then None else Some((Elem(head, more.value.0), more.value.1))
  }

  /** Members up to the closing brace. */
  function ReadMembers(t: seq<byte>): (r: Option<(Members, seq<byte>)>)
    ensures r.Some? ==> |r.value.1| < |t|
    decreases |t|, 1
  {
    if t == [] || t[0] != QUOTE then None
    else
      var k := ScanString(t[1..]);
      if k == None || k.value.rest == [] || k.value.rest[0] != COLON then None
      else
        var d := ReadDoc(k.value.rest[1..]);
        if d == None || d.value.1 == [] then None
        else
          var (value, rest) := d.value;
          if rest[0] == CLOSE_OBJECT then Some((Member(k.value.content, value, NoMember), rest[1..]))
          else if rest[0] != COMMA then None
          else
            var more := ReadMembers(rest[1..]);
            if more == None then None
            else Some((Member(k.value.content, value, more.value.0), more.value.1))
  }

  // ---- what is printed reads back ----

  /** What follows a number must not go on with it. */
  predicate Ends(t: seq<byte>) {
    t == [] || !IsDigit(t[0])
  }

  /** Every document reads back as itself, with whatever follows left over. */
  lemma {:induction false} PrintedReads(d: Doc, t: seq<byte>)
    requires Ends(t)
    ensures ReadDoc(Print(d) + t) == Some((d, t))
    decreases d, 0
  {
    match d
    case Str(s) =>
      QuotedReads(s, t);
    case Num(n) =>
      NumberReads(n, t);
    case Arr(es) =>
      ArrayReads(es, t);
    case Obj(ms) =>
      ObjectReads(ms, t);
  }

  lemma {:induction false} QuotedReads(s: seq<byte>, t: seq<byte>)
    ensures var all := Quoted(s) + t;
            all[0] == QUOTE && ScanString(all[1..]) == Some(Reading(s, t)) && ReadDoc(all) == Some((Str(s), t))
  {
    hide Escaped, ScanString;
    var all := Quoted(s) + t;
    EscapedReadsBack(s, t);
    assert all[1..] == Escaped(s) + [QUOTE] + t;
  }

  lemma {:induction false} DigitsShape(n: nat)
    ensures Digits(n) != [] && IsDigit(Digits(n)[0]) && (Digits(n)[0] == 0x30 <==> n == 0)
    ensures n == 0 ==> |Digits(n)| == 1
    decreases n
  {
    if n >= 10 {
      DigitsShape(n / 10);
    }
  }

  lemma {:induction false} DigitsRead(n: nat, t: seq<byte>)
    requires Ends(t)
    ensures var ds := Digits(n);
            ds != [] && IsDigit(ds[0]) && ReadDigits(ds[1..] + t, (ds[0] - 0x30) as nat) == (n, t)
  {
    DigitsReadOn(n, t, n);
  }

  /** Reading the digits of `n` leaves the reader at `n` with what follows to be read. */
  lemma {:induction false} DigitsReadOn(n: nat, t: seq<byte>, m: nat)
    requires m == n
    ensures var ds := Digits(n);
            ds != [] && IsDigit(ds[0]) && ReadDigits(ds[1..] + t, (ds[0] - 0x30) as nat) == ReadDigits(t, n)
    decreases n
  {
    var ds := Digits(n);
    if n < 10 {
      assert ds[1..] + t == t;
    } else {
      var last := (0x30 + n % 10) as byte;
      DigitsReadOn(n / 10, [last] + t, n / 10);
      LastDigit(Digits(n / 10), last, t);
      ReadOneDigit(n, last, t);
    }
  }

  lemma {:induction false} LastDigit(ds: seq<byte>, last: byte, t: seq<byte>)
    requires ds != []
    ensures (ds + [last])[0] == ds[0] && (ds + [last])[1..] + t == ds[1..] + ([last] + t)
  {
  }

  lemma {:induction false} ReadOneDigit(n: nat, last: byte, t: seq<byte>)
    requires n >= 10 && last == (0x30 + n % 10) as byte
    ensures ReadDigits([last] + t, n / 10) == ReadDigits(t, n)
  {
    assert ([last] + t)[1..] == t;
  }

  lemma {:induction false} NumberReads(n: nat, t: seq<byte>)
    requires Ends(t)
    ensures ReadDoc(Digits(n) + t) == Some((Num(n), t))
  {
    var ds := Digits(n);
    DigitsShape(n);
    DigitsRead(n, t);
    assert (ds + t)[1..] == ds[1..] + t;
    if n == 0 {
      assert ds[1..] + t == t;
    }
  }

  /** No printed document begins like the end of an array or of an object. */
  lemma {:induction false} PrintedBegins(d: Doc)
    ensures Print(d) != [] && Print(d)[0] != CLOSE_ARRAY && Print(d)[0] != CLOSE_OBJECT
  {
    if d.Num? {
      DigitsShape(d.n);
    }
  }

  lemma {:induction false} ArrayReads(es: Elems, t: seq<byte>)
    ensures ReadDoc([OPEN_ARRAY] + PrintElems(es) + [CLOSE_ARRAY] + t) == Some((Arr(es), t))
    decreases es, 2
  {
    hide Print, ReadElems;
    var all := [OPEN_ARRAY] + PrintElems(es) + [CLOSE_ARRAY] + t;
    assert all[1..] == PrintElems(es) + [CLOSE_ARRAY] + t;
    if es == NoElem {
      assert all[2..] == t;
    } else {
      PrintedBegins(es.head);
      assert all[1] == Print(es.head)[0];
      ElemsRead(es, t);
    }
  }

  lemma {:induction false} ElemsRead(es: Elems, t: seq<byte>)
    requires es != NoElem
    ensures ReadElems(PrintElems(es) + [CLOSE_ARRAY] + t) == Some((es, t))
    decreases es, 1
  {
    hide Print, ReadDoc;
    var all := PrintElems(es) + [CLOSE_ARRAY] + t;
    if es.tail == NoElem {
      assert all == Print(es.head) + ([CLOSE_ARRAY] + t);
      PrintedReads(es.head, [CLOSE_ARRAY] + t);
      assert ([CLOSE_ARRAY] + t)[1..] == t;
    } else {
      var more := PrintElems(es.tail) + [CLOSE_ARRAY] + t;
      assert all == Print(es.head) + ([COMMA] + more);
      PrintedReads(es.head, [COMMA] + more);
      assert ([COMMA] + more)[1..] == more;
      ElemsRead(es.tail, t);
    }
  }

  lemma {:induction false} ObjectReads(ms: Members, t: seq<byte>)
    ensures ReadDoc([OPEN_OBJECT] + PrintMembers(ms) + [CLOSE_OBJECT] + t) == Some((Obj(ms), t))
    decreases ms, 2
  {
    hide Print, ReadMembers;
    var all := [OPEN_OBJECT] + PrintMembers(ms) + [CLOSE_OBJECT] + t;
    assert all[1..] == PrintMembers(ms) + [CLOSE_OBJECT] + t;
    if ms == NoMember {
      assert all[2..] == t;
    } else {
      assert all[1] == QUOTE;
      MembersRead(ms, t);
    }
  }

  lemma {:induction false} MembersRead(ms: Members, t: seq<byte>)
    requires ms != NoMember
    ensures ReadMembers(PrintMembers(ms) + [CLOSE_OBJECT] + t) == Some((ms, t))
    decreases ms, 1
  {
    hide Print, ReadDoc, ScanString, Quoted;
    var all := PrintMembers(ms) + [CLOSE_OBJECT] + t;
    if ms.rest == NoMember {
      var after := [CLOSE_OBJECT] + t;
      assert all == Quoted(ms.key) + ([COLON] + (Print(ms.value) + after));
      QuotedReads(ms.key, [COLON] + (Print(ms.value) + after));
      assert ([COLON] + (Print(ms.value) + after))[1..] == Print(ms.value) + after;
      PrintedReads(ms.value, after);
      assert after[1..] == t;
    } else {
      var more := PrintMembers(ms.rest) + [CLOSE_OBJECT] + t;
      var after := [COMMA] + more;
      assert all == Quoted(ms.key) + ([COLON] + (Print(ms.value) + after));
      QuotedReads(ms.key, [COLON] + (Print(ms.value) + after));
      assert ([COLON] + (Print(ms.value) + after))[1..] == Print(ms.value) + after;
      PrintedReads(ms.value, after);
      assert after[1..] == more;
      MembersRead(ms.rest, t);
    }
  }

  // ---- the payload ----

  /** What the payload says: the value at index 1, and who may administer the handle at index 100. */
  function Registration(value: seq<byte>, prefix: seq<byte>): Doc {
    Obj(Member(Ascii("values"), Arr(Elem(Entry(1, "URL", "string", Str(value)),
      Elem(Entry(100, "HS_ADMIN", "admin", Admin(prefix)), NoElem))), NoMember))
  }

  function Entry(index: nat, kind: string, format: string, value: Doc): Doc {
    Obj(Member(Ascii("index"), Num(index), Member(Ascii("type"), Str(Ascii(kind)),
      Member(Ascii("data"), Obj(Member(Ascii("format"), Str(Ascii(format)),
        Member(Ascii("value"), value, NoMember))), NoMember))))
  }

  function Admin(prefix: seq<byte>): Doc {
    Obj(Member(Ascii("handle"), Str(Ascii("0.NA/") + prefix), Member(Ascii("index"), Num(200),
      Member(Ascii("permissions"), Str(Ascii("011111110011")), NoMember))))
  }

  lemma {:induction false} PlainEscaped(p: seq<byte>)
    requires Plain(p)
    ensures Escaped(p) == p
  {
    if p != [] {
      PlainEscaped(p[1..]);
      assert p == [p[0]] + p[1..];
    }
  }

  lemma {:induction false} AsciiConcat(a: string, b: string)
    ensures Ascii(a + b) == Ascii(a) + Ascii(b)
  {
  }

  lemma {:induction false} QuotedPlain(s: string)
    requires Plain(Ascii(s))
    ensures Quoted(Ascii(s)) == Ascii("\"" + s + "\"")
  {
    PlainEscaped(Ascii(s));
    AsciiConcat("\"", s);
    AsciiConcat("\"" + s, "\"");
  }

  lemma {:induction false} NumberTexts()
    ensures Digits(1) == Ascii("1") && Digits(100) == Ascii("100") && Digits(200) == Ascii("200")
  {
    assert Digits(10) == Digits(1) + [0x30];
    assert Digits(20) == Digits(2) + [0x30];
  }

  /** A text with one variable part. */
  function Around(s: string, x: seq<byte>, t: string): seq<byte> {
    Ascii(s) + x + Ascii(t)
  }

  lemma {:induction false} AroundWider(a: string, s: string, x: seq<byte>, t: string, b: string)
    ensures Ascii(a) + Around(s, x, t) + Ascii(b) == Around(a + s, x, t + b)
  {
    AsciiConcat(a, s);
    AsciiConcat(t, b);
  }

  lemma {:induction false} Marks()
    ensures Ascii("") == [] && Ascii(",") == [COMMA] && Ascii(":") == [COLON] && Ascii("\"") == [QUOTE]
    ensures Ascii("[") == [OPEN_ARRAY] && Ascii("]") == [CLOSE_ARRAY]
    ensures Ascii("{") == [OPEN_OBJECT] && Ascii("}") == [CLOSE_OBJECT]
  {
  }

  lemma {:induction false} KeyPrinted(k: string)
    requires Plain(Ascii(k))
    ensures Quoted(Ascii(k)) + [COLON] == Ascii("\"" + k + "\":")
  {
    QuotedPlain(k);
    Marks();
    AsciiConcat("\"" + k + "\"", ":");
    assert "\"" + k + "\"" + ":" == "\"" + k + "\":";
  }

  lemma {:induction false} LastMember(k: string, d: Doc, s: string, x: seq<byte>, t: string)
    requires Plain(Ascii(k)) && Print(d) == Around(s, x, t)
    ensures PrintMembers(Member(Ascii(k), d, NoMember)) == Around("\"" + k + "\":" + s, x, t)
  {
    hide Print, Around;
    KeyPrinted(k);
    Marks();
    AroundWider("\"" + k + "\":", s, x, t, "");
    assert t + "" == t;
  }

  /** A member without a variable part, before others. */
  lemma {:induction false} FirstMember(k: string, d: Doc, text: string, rest: Members, s: string, x: seq<byte>,
                                       t: string)
    requires Plain(Ascii(k)) && Print(d) == Ascii(text) && rest != NoMember && PrintMembers(rest) == Around(s, x, t)
    ensures PrintMembers(Member(Ascii(k), d, rest)) == Around("\"" + k + "\":" + text + "," + s, x, t)
  {
    hide Print, Around;
    var key := "\"" + k + "\":";
    KeyPrinted(k);
    Marks();
    AsciiConcat(key, text);
    AsciiConcat(key + text, ",");
    AroundWider(key + text + ",", s, x, t, "");
    assert t + "" == t;
  }

  /** A member with the variable part, before others. */
  lemma {:induction false} VariableMember(k: string, d: Doc, s: string, x: seq<byte>, t: string, rest: Members,
                                          text: string)
    requires Plain(Ascii(k)) && Print(d) == Around(s, x, t) && rest != NoMember && PrintMembers(rest) == Ascii(text)
    ensures PrintMembers(Member(Ascii(k), d, rest)) == Around("\"" + k + "\":" + s, x, t + "," + text)
  {
    hide Print, Around, Plain, Ascii;
    var key := "\"" + k + "\":";
    KeyPrinted(k);
    Marks();
    AsciiConcat(",", text);
    AroundWider(key, s, x, t, "," + text);
    Assoc(t, ",", text);
    Assoc(Ascii(key) + Around(s, x, t), [COMMA], Ascii(text));
  }

  lemma {:induction false} ObjectAround(ms: Members, s: string, x: seq<byte>, t: string)
    requires PrintMembers(ms) == Around(s, x, t)
    ensures Print(Obj(ms)) == Around("{" + s, x, t + "}")
  {
    hide PrintMembers, Around;
    Marks();
    AroundWider("{", s, x, t, "}");
  }

  lemma {:induction false} TextAround(text: string)
    ensures Ascii(text) == Around(text, [], "")
  {
    Marks();
  }

  lemma {:induction false} KeyText(k: string, lead: string)
    requires lead == "\"" + k + "\":"
    ensures forall s: string :: "\"" + k + "\":" + s == lead + s
  {
  }

  lemma {:induction false} Keys()
    ensures "\"" + "index" + "\":" == "\"index\":" && "\"" + "type" + "\":" == "\"type\":"
    ensures "\"" + "data" + "\":" == "\"data\":" && "\"" + "format" + "\":" == "\"format\":"
    ensures "\"" + "value" + "\":" == "\"value\":"
  {
  }

  /** A text of characters that need no escaping. */
  predicate Word(s: string) {
    forall i :: 0 <= i < |s| ==> ' ' <= s[i] <= '~' && s[i] != '"' && s[i] != '\\'
  }

  lemma {:induction false} PlainWord(s: string)
    requires Word(s)
    ensures Plain(Ascii(s))
  {
  }

  lemma {:induction false} EntryKeysPlain()
    ensures Plain(Ascii("index"))
    ensures Plain(Ascii("type"))
    ensures Plain(Ascii("data"))
  {
    PlainWord("index");
    PlainWord("type");
    PlainWord("data");
  }

  lemma {:induction false} DataKeysPlain()
    ensures Plain(Ascii("format"))
    ensures Plain(Ascii("value"))
  {
    PlainWord("format");
    PlainWord("value");
  }

  lemma {:induction false} ValuesPlain()
    ensures Plain(Ascii("values"))
  {
    PlainWord("values");
  }

  lemma {:induction false} AdminKeysPlain()
    ensures Plain(Ascii("handle"))
    ensures Plain(Ascii("permissions"))
  {
    PlainWord("handle");
    PlainWord("permissions");
  }

  lemma {:induction false} UrlPlain()
    ensures Plain(Ascii("URL"))
    ensures Plain(Ascii("string"))
  {
    PlainWord("URL");
    PlainWord("string");
  }

  lemma {:induction false} AdminPlain()
    ensures Plain(Ascii("HS_ADMIN"))
    ensures Plain(Ascii("admin"))
  {
    PlainWord("HS_ADMIN");
    PlainWord("admin");
  }

  lemma {:induction false} PermissionsPlain()
    ensures Plain(Ascii("011111110011"))
  {
    PlainWord("011111110011");
  }

  /** An entry around its value. */
  lemma {:induction false} EntryPrinted(index: nat, number: string, kind: string, format: string, value: Doc,
                                        s: string, x: seq<byte>, t: string)
    requires Digits(index) == Ascii(number) && Plain(Ascii(kind)) && Plain(Ascii(format))
    requires Print(value) == Around(s, x, t)
    ensures Print(Entry(index, kind, format, value)) == Around(EntryHead(number, kind, format) + s, x, t + "}" + "}")
  {
    hide Around, Plain, Ascii, EntryHead;
    EntryKeysPlain();
    DataKeysPlain();
    QuotedPlain(kind);
    QuotedPlain(format);
    var valueMember := Member(Ascii("value"), value, NoMember);
    LastMember("value", value, s, x, t);
    var s1 := "\"" + "value" + "\":" + s;
    var formatMember := Member(Ascii("format"), Str(Ascii(format)), valueMember);
    FirstMember("format", Str(Ascii(format)), "\"" + format + "\"", valueMember, s1, x, t);
    var s2 := "\"" + "format" + "\":" + ("\"" + format + "\"") + "," + s1;
    ObjectAround(formatMember, s2, x, t);
    var dataMember := Member(Ascii("data"), Obj(formatMember), NoMember);
    LastMember("data", Obj(formatMember), "{" + s2, x, t + "}");
    var s3 := "\"" + "data" + "\":" + ("{" + s2);
    var typeMember := Member(Ascii("type"), Str(Ascii(kind)), dataMember);
    FirstMember("type", Str(Ascii(kind)), "\"" + kind + "\"", dataMember, s3, x, t + "}");
    var s4 := "\"" + "type" + "\":" + ("\"" + kind + "\"") + "," + s3;
    FirstMember("index", Num(index), number, typeMember, s4, x, t + "}");
    var s5 := "\"" + "index" + "\":" + number + "," + s4;
    ObjectAround(Member(Ascii("index"), Num(index), typeMember), s5, x, t + "}");
    HeadSpelled(number, kind, format, s, s1, s2, s3, s4, s5);
  }

  lemma {:induction false} HeadSpelled(number: string, kind: string, format: string, s: string, s1: string, s2: string,
                                       s3: string, s4: string, s5: string)
    requires s1 == "\"" + "value" + "\":" + s
    requires s2 == "\"" + "format" + "\":" + ("\"" + format + "\"") + "," + s1
    requires s3 == "\"" + "data" + "\":" + ("{" + s2)
    requires s4 == "\"" + "type" + "\":" + ("\"" + kind + "\"") + "," + s3
    requires s5 == "\"" + "index" + "\":" + number + "," + s4
    ensures "{" + s5 == EntryHead(number, kind, format) + s
  {
    hide EntryHead;
    Keys();
    var d := "\",\"value\":" + s;
    FormatSpelled(format, s, s1, s2, d);
    var c := "\",\"data\":{\"format\":\"" + (format + d);
    TypeSpelled(kind, format, d, s2, s3, s4, c);
    IndexSpelled(number, kind, c, s4, s5);
    HeadNested(number, kind, format, s, d, c);
  }

  lemma {:induction false} Spread(a: string, q: string, x: string, p: string, c: string, r: string)
    ensures a + (q + x + p) + c + r == a + q + (x + (p + c + r))
  {
  }

  lemma {:induction false} FormatSpelled(format: string, s: string, s1: string, s2: string, d: string)
    requires s1 == "\"value\":" + s && s2 == "\"format\":" + ("\"" + format + "\"") + "," + s1
    requires d == "\",\"value\":" + s
    ensures s2 == "\"format\":\"" + (format + d)
  {
    Spread("\"format\":", "\"", format, "\"", ",", s1);
    Literal3("\"", ",", "\"value\":", s, "\",\"value\":");
    assert "\"format\":" + "\"" == "\"format\":\"";
  }

  lemma {:induction false} Literal3(a: string, b: string, c: string, s: string, all: string)
    requires all == a + b + c
    ensures a + b + (c + s) == all + s
  {
  }

  lemma {:induction false} TypeSpelled(kind: string, format: string, d: string, s2: string, s3: string, s4: string,
                                       c: string)
    requires s2 == "\"format\":\"" + (format + d) && s3 == "\"data\":" + ("{" + s2)
    requires s4 == "\"type\":" + ("\"" + kind + "\"") + "," + s3
    requires c == "\",\"data\":{\"format\":\"" + (format + d)
    ensures s4 == "\"type\":\"" + (kind + c)
  {
    Spread("\"type\":", "\"", kind, "\"", ",", s3);
    var f := format + d;
    Assoc("\"data\":", "{", s2);
    assert "\"data\":" + "{" == "\"data\":{";
    Assoc("\"data\":{", "\"format\":\"", f);
    assert "\"data\":{" + "\"format\":\"" == "\"data\":{\"format\":\"";
    Literal3("\"", ",", "\"data\":{\"format\":\"", f, "\",\"data\":{\"format\":\"");
    assert "\"type\":" + "\"" == "\"type\":\"";
  }

  lemma {:induction false} Assoc<T>(a: seq<T>, b: seq<T>, c: seq<T>)
    ensures a + (b + c) == a + b + c
  {
  }

  lemma {:induction false} IndexSpelled(number: string, kind: string, c: string, s4: string, s5: string)
    requires s4 == "\"type\":\"" + (kind + c) && s5 == "\"index\":" + number + "," + s4
    ensures "{" + s5 == "{\"index\":" + (number + (",\"type\":\"" + (kind + c)))
  {
    var k := kind + c;
    Assoc("{", "\"index\":" + number + ",", s4);
    assert "{" + ("\"index\":" + number + ",") == "{" + "\"index\":" + number + ",";
    assert "{" + "\"index\":" == "{\"index\":";
    Assoc("{\"index\":" + number, ",", s4);
    Assoc(",", "\"type\":\"", k);
    assert "," + "\"type\":\"" == ",\"type\":\"";
    Assoc("{\"index\":", number, ",\"type\":\"" + k);
  }

  lemma {:induction false} HeadNested(number: string, kind: string, format: string, s: string, d: string, c: string)
    requires d == "\",\"value\":" + s && c == "\",\"data\":{\"format\":\"" + (format + d)
    ensures "{\"index\":" + (number + (",\"type\":\"" + (kind + c))) == EntryHead(number, kind, format) + s
  {
    var a, b, e, g := "{\"index\":", ",\"type\":\"", "\",\"data\":{\"format\":\"", "\",\"value\":";
    Nested(a, number, b, kind, e, format, g, s);
  }

  lemma {:induction false} Nested(a: string, n: string, b: string, k: string, e: string, f: string, g: string,
                                  s: string)
    ensures a + (n + (b + (k + (e + (f + (g + s)))))) == a + n + b + k + e + f + g + s
  {
    Assoc(a, n, b + (k + (e + (f + (g + s)))));
    Assoc(a + n, b, k + (e + (f + (g + s))));
    Assoc(a + n + b, k, e + (f + (g + s)));
    Assoc(a + n + b + k, e, f + (g + s));
    Assoc(a + n + b + k + e, f, g + s);
    Assoc(a + n + b + k + e + f, g, s);
  }

  lemma {:induction false} HandleAround(prefix: seq<byte>)
    requires Plain(prefix)
    ensures Print(Str(Ascii("0.NA/") + prefix)) == Around("\"0.NA/", prefix, "\"")
  {
    hide Plain, Escaped, Ascii;
    HandleIsPlain();
    PlainConcat(Ascii("0.NA/"), prefix);
    PlainEscaped(Ascii("0.NA/") + prefix);
    Marks();
    AsciiConcat("\"", "0.NA/");
    HandleQuote();
    Assoc([QUOTE], Ascii("0.NA/"), prefix);
  }

  lemma {:induction false} HandleQuote()
    ensures "\"" + "0.NA/" == "\"0.NA/"
  {
  }

  lemma {:induction false} PermissionsPrinted(rest: Members)
    requires rest == Member(Ascii("permissions"), Str(Ascii("011111110011")), NoMember)
    ensures PrintMembers(rest) == Ascii("\"permissions\":" + "\"011111110011\"")
  {
    hide Plain, Ascii;
    AdminKeysPlain();
    PermissionsPlain();
    QuotedPlain("011111110011");
    KeyPrinted("permissions");
    AsciiConcat("\"permissions\":", "\"011111110011\"");
    PermissionTexts();
  }

  lemma {:induction false} PermissionTexts()
    ensures "\"" + "011111110011" + "\"" == "\"011111110011\"" && "\"" + "permissions" + "\":" == "\"permissions\":"
  {
  }

  lemma {:induction false} IndexMember(rest: Members, text: string)
    requires rest != NoMember && PrintMembers(rest) == Ascii(text)
    ensures PrintMembers(Member(Ascii("index"), Num(200), rest)) == Ascii("\"index\":" + "200" + "," + text)
  {
    hide Plain, Ascii;
    EntryKeysPlain();
    NumberTexts();
    Marks();
    KeyPrinted("index");
    Keys();
    AsciiConcat("\"index\":", "200");
    AsciiConcat("\"index\":" + "200", ",");
    AsciiConcat("\"index\":" + "200" + ",", text);
  }

  const ADMIN_TAIL := ",\"index\":200," + "\"permissions\":\"011111110011\""

  lemma {:induction false} AdminPrinted(prefix: seq<byte>)
    requires Plain(prefix)
    ensures Print(Admin(prefix)) == Around("{\"handle\":\"0.NA/", prefix, "\"" + ADMIN_TAIL + "}")
  {
    hide Around, Plain, Ascii;
    AdminKeysPlain();
    HandleAround(prefix);
    var permissions := Member(Ascii("permissions"), Str(Ascii("011111110011")), NoMember);
    PermissionsPrinted(permissions);
    var text := "\"permissions\":" + "\"011111110011\"";
    IndexMember(permissions, text);
    var index := Member(Ascii("index"), Num(200), permissions);
    var more := "\"index\":" + "200" + "," + text;
    VariableMember("handle", Str(Ascii("0.NA/") + prefix), "\"0.NA/", prefix, "\"", index, more);
    var ms := Member(Ascii("handle"), Str(Ascii("0.NA/") + prefix), index);
    ObjectAround(ms, "\"" + "handle" + "\":" + "\"0.NA/", prefix, "\"" + "," + more);
    AdminTexts();
    Assoc("\"", ",", more);
  }

  lemma {:induction false} AdminTexts()
    ensures "{" + ("\"" + "handle" + "\":" + "\"0.NA/") == "{\"handle\":\"0.NA/"
    ensures "," + ("\"index\":" + "200" + "," + ("\"permissions\":" + "\"011111110011\"")) == ADMIN_TAIL
  {
    HandleText();
    IndexText();
    PermissionText();
    Assoc(",", "\"index\":" + "200" + ",", "\"permissions\":" + "\"011111110011\"");
  }

  lemma {:induction false} HandleText()
    ensures "{" + ("\"" + "handle" + "\":" + "\"0.NA/") == "{\"handle\":\"0.NA/"
  {
  }

  lemma {:induction false} IndexText()
    ensures "," + ("\"index\":" + "200" + ",") == ",\"index\":200,"
  {
  }

  lemma {:induction false} PermissionText()
    ensures "\"permissions\":" + "\"011111110011\"" == "\"permissions\":\"011111110011\""
  {
  }

  lemma {:induction false} ValueAround(value: seq<byte>)
    ensures Print(Str(value)) == Around("\"", Escaped(value), "\"")
  {
    Marks();
  }

  /** With a prefix that needs no escaping the payload is the printed registration. */
  lemma {:induction false} PayloadPrinted(value: seq<byte>, prefix: seq<byte>)
    requires Plain(prefix)
    ensures Payload(value, prefix) == Print(Registration(value, prefix))
  {
    hide Around, Plain, Escaped, Ascii, EntryHead, Print, Entry, Admin;
    var first, second := Entry(1, "URL", "string", Str(value)), Entry(100, "HS_ADMIN", "admin", Admin(prefix));
    NumberTexts();
    UrlPlain();
    AdminPlain();
    ValueAround(value);
    EntryPrinted(1, "1", "URL", "string", Str(value), "\"", Escaped(value), "\"");
    AdminPrinted(prefix);
    EntryPrinted(100, "100", "HS_ADMIN", "admin", Admin(prefix), "{\"handle\":\"0.NA/", prefix,
                 "\"" + ADMIN_TAIL + "}");
    RegistrationPrinted(first, second);
    FirstPart(EntryHead("1", "URL", "string"), Escaped(value));
    SecondPart(EntryHead("100", "HS_ADMIN", "admin"), prefix);
    PayloadParts(value, prefix);
    var rest := SecondText(EntryHead("100", "HS_ADMIN", "admin"), prefix);
    Joined(Print(first), Print(second), Ascii("{\"values\":["), Ascii("]}"), [COMMA]);
    FirstJoined(Ascii("{\"values\":[" + EntryHead("1", "URL", "string") + "\"") + Escaped(value) + [QUOTE],
                Ascii("{\"values\":["), Print(first), Ascii("}}"), [COMMA] + (Print(second) + Ascii("]}")), rest);
  }

  lemma {:induction false} RegistrationPrinted(first: Doc, second: Doc)
    ensures Print(Obj(Member(Ascii("values"), Arr(Elem(first, Elem(second, NoElem))), NoMember))) ==
            Ascii("{\"values\":[") + (Print(first) + [COMMA] + Print(second)) + Ascii("]}")
  {
    hide Plain, Quoted;
    ValuesPlain();
    KeyPrinted("values");
    ValuesText();
    var es := Elem(first, Elem(second, NoElem));
    var body := Print(first) + [COMMA] + Print(second);
    ElemsPair(first, second);
    ObjectOfArray(es, body);
  }

  lemma {:induction false} ElemsPair(first: Doc, second: Doc)
    ensures PrintElems(Elem(first, Elem(second, NoElem))) == Print(first) + [COMMA] + Print(second)
  {
    hide Print;
  }

  lemma {:induction false} ObjectOfArray(es: Elems, body: seq<byte>)
    requires PrintElems(es) == body && Quoted(Ascii("values")) + [COLON] == Ascii("\"values\":")
    ensures Print(Obj(Member(Ascii("values"), Arr(es), NoMember))) == Ascii("{\"values\":[") + body + Ascii("]}")
  {
    hide PrintElems, Ascii, Quoted;
    Marks();
    AsciiConcat("{", "\"values\":");
    AsciiConcat("{" + "\"values\":", "[");
    AsciiConcat("]", "}");
    ValuesText();
    var key, list := Ascii("\"values\":"), [OPEN_ARRAY] + body + [CLOSE_ARRAY];
    assert Print(Arr(es)) == list;
    assert PrintMembers(Member(Ascii("values"), Arr(es), NoMember)) == key + list;
    Wrapped([OPEN_OBJECT], key, [OPEN_ARRAY], body, [CLOSE_ARRAY], [CLOSE_OBJECT]);
  }

  lemma {:induction false} Wrapped(a: seq<byte>, k: seq<byte>, b: seq<byte>, body: seq<byte>, c: seq<byte>,
                                   d: seq<byte>)
    ensures a + (k + (b + body + c)) + d == a + k + b + body + (c + d)
  {
  }

  lemma {:induction false} ValuesText()
    ensures "{" + "\"values\":" + "[" == "{\"values\":[" && "\"" + "values" + "\":" == "\"values\":"
    ensures "]" + "}" == "]}"
  {
  }

  /** The first entry ends with the value, its quote and two braces. */
  lemma {:induction false} FirstPart(head: string, x: seq<byte>)
    ensures Ascii("{\"values\":[") + Around(head + "\"", x, "\"" + "}" + "}") ==
            Ascii("{\"values\":[" + head + "\"") + x + [QUOTE] + Ascii("}}")
  {
    hide Ascii;
    Marks();
    AsciiConcat("{\"values\":[" + head, "\"");
    AsciiConcat("{\"values\":[", head);
    AsciiConcat(head, "\"");
    AsciiConcat("\"", "}" + "}");
    assert "\"" + "}" + "}" == "\"" + ("}" + "}") && "}" + "}" == "}}";
    Spread4(Ascii("{\"values\":["), Ascii(head), [QUOTE], x, Ascii("}}"));
  }

  lemma {:induction false} Spread4(v: seq<byte>, h: seq<byte>, q: seq<byte>, x: seq<byte>, b: seq<byte>)
    ensures v + (h + q + x + (q + b)) == v + h + q + x + q + b
  {
  }

  /** What comes after the quote of the value. */
  function SecondText(head: string, prefix: seq<byte>): seq<byte> {
    Ascii("}}," + head + "{\"handle\":\"") + Ascii(HANDLE) + prefix + [QUOTE] + Ascii(TAIL)
  }

  lemma {:induction false} SecondPart(head: string, prefix: seq<byte>)
    ensures Ascii("}}") +
            ([COMMA] +
             (Around(head + "{\"handle\":\"0.NA/", prefix, "\"" + ADMIN_TAIL + "}" + "}" + "}") + Ascii("]}"))) ==
            SecondText(head, prefix)
  {
    hide Ascii;
    var h, tail := "{\"handle\":\"", "\"" + ADMIN_TAIL + "}" + "}" + "}";
    Marks();
    BraceTexts();
    AsciiConcat("}}", ",");
    AsciiConcat("}},", head);
    AsciiConcat("}}," + head, h);
    AsciiConcat(head, h + HANDLE);
    AsciiConcat(h, HANDLE);
    TailText();
    AsciiConcat("\"", ADMIN_TAIL + "}}}");
    AsciiConcat(ADMIN_TAIL, "}}}");
    AsciiConcat(ADMIN_TAIL, "}}}]}");
    AsciiConcat("}}}", "]}");
    Regroup(Ascii("}}"), [COMMA], Ascii(head), Ascii(h), Ascii(HANDLE), prefix, [QUOTE], Ascii(ADMIN_TAIL),
            Ascii("}}}"), Ascii("]}"));
  }

  lemma {:induction false} Regroup(b: seq<byte>, c: seq<byte>, e: seq<byte>, h: seq<byte>, n: seq<byte>, p: seq<byte>,
                                   q: seq<byte>, t: seq<byte>, d: seq<byte>, f: seq<byte>)
    ensures b + (c + (e + (h + n) + p + (q + (t + d)) + f)) == b + c + e + h + n + p + q + (t + (d + f))
  {
    var r := t + (d + f);
    Assoc(t, d, f);
    Assoc(q, t + d, f);
    Assoc(e + (h + n) + p, q + (t + d), f);
    Assoc(e + (h + n) + p, q, r);
    Assoc(e, h, n);
    Assoc(c, e + h + n + p + q, r);
    Assoc(c, e + h + n + p, q);
    Assoc(c, e + h + n, p);
    Assoc(c, e + h, n);
    Assoc(c, e, h);
    Assoc(b, c + e + h + n + p + q, r);
    Assoc(b, c + e + h + n + p, q);
    Assoc(b, c + e + h + n, p);
    Assoc(b, c + e + h, n);
    Assoc(b, c + e, h);
    Assoc(b, c, e);
  }

  lemma {:induction false} BraceTexts()
    ensures "}}" + "," == "}}," && "}}}" + "]}" == "}}}]}" && "}" + "}" + "}" == "}}}"
    ensures "{\"handle\":\"" + HANDLE == "{\"handle\":\"0.NA/"
  {
  }

  lemma {:induction false} TailText()
    ensures "\"" + ADMIN_TAIL + "}" + "}" + "}" == "\"" + (ADMIN_TAIL + "}}}")
    ensures TAIL == ADMIN_TAIL + "}}}]}"
  {
    var a := ADMIN_TAIL;
    Assoc("\"" + a, "}", "}");
    Assoc("\"" + a, "}" + "}", "}");
    Assoc("\"", a, "}}}");
    assert "}" + "}" + "}" == "}}}";
  }

  lemma {:induction false} PayloadParts(value: seq<byte>, prefix: seq<byte>)
    ensures Payload(value, prefix) ==
            Ascii("{\"values\":[" + EntryHead("1", "URL", "string") + "\"") + Escaped(value) + [QUOTE] +
            SecondText(EntryHead("100", "HS_ADMIN", "admin"), prefix)
  {
    hide Ascii, Escaped;
  }

  lemma {:induction false} Joined(a: seq<byte>, b: seq<byte>, v: seq<byte>, w: seq<byte>, c: seq<byte>)
    ensures v + (a + c + b) + w == v + a + (c + (b + w))
  {
  }

  lemma {:induction false} FirstJoined(all: seq<byte>, v: seq<byte>, first: seq<byte>, b: seq<byte>, more: seq<byte>,
                                       rest: seq<byte>)
    requires v + first == all + b && b + more == rest
    ensures v + first + more == all + rest
  {
  }

  /** The whole payload reads as the registration and nothing else, when the prefix needs no escaping. */
  lemma {:induction false} PayloadReads(value: seq<byte>, prefix: seq<byte>)
    requires Plain(prefix)
    ensures ReadDoc(Payload(value, prefix)) == Some((Registration(value, prefix), []))
  {
    PayloadPrinted(value, prefix);
    PrintedReads(Registration(value, prefix), []);
    assert Print(Registration(value, prefix)) + [] == Print(Registration(value, prefix));
  }
}
