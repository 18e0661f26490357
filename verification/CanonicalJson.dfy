/**
 Canonical JSON text in two dialects: RFC 8785 and the NENRIN canonical form. A parser inverts the printer,
 so equal text means equal values, whatever the insertion order of object keys.
 */
module CanonicalJson {
  import opened Basics
  import opened Ordering

  /** Text as Unicode code points; lone surrogates may occur. */
  type Text = seq<nat>

  datatype Json = Null | True | False | Int(n: int) | Str(s: Text) | Arr(items: seq<Json>) | Obj(members: seq<Member>)

  /** An object's members are listed in insertion order. */
  datatype Member = Member(key: Text, value: Json)

  datatype Dialect = Jcs | Nenrin

  const QUOTE: nat := 0x22
  const BACKSLASH: nat := 0x5C
  const COMMA: nat := 0x2C
  const COLON: nat := 0x3A
  const MINUS: nat := 0x2D
  const LBRACKET: nat := 0x5B
  const RBRACKET: nat := 0x5D
  const LBRACE: nat := 0x7B
  const RBRACE: nat := 0x7D
  const LETTER_U: nat := 0x75

  predicate IsDigit(c: nat)
  {
    0x30 <= c <= 0x39
  }

  // ---------------------------------------------------------------- strings

  predicate Surrogate(c: nat)
  {
    0xD800 <= c <= 0xDFFF
  }

  /** The letter of a two-character escape, 0 if the character has none. */
  function ShortEscape(c: nat): nat
  {
    if c == QUOTE then QUOTE
    else if c == BACKSLASH then BACKSLASH
    else if c == 0x08 then 0x62
    else if c == 0x0C then 0x66
    else if c == 0x0A then 0x6E
    else if c == 0x0D then 0x72
    else if c == 0x09 then 0x74
    else 0
  }

  function FromShort(c: nat): nat
  {
    if c == QUOTE then QUOTE
    else if c == BACKSLASH then BACKSLASH
    else if c == 0x62 then 0x08
    else if c == 0x66 then 0x0C
    else if c == 0x6E then 0x0A
    else if c == 0x72 then 0x0D
    else if c == 0x74 then 0x09
    else 0
  }

  function HexDigit(n: nat): nat
    requires n < 16
  {
    if n < 10 then 0x30 + n else 0x61 + (n - 10)
  }

  function HexValue(c: nat): nat
  {
    if IsDigit(c) then c - 0x30 else if 0x61 <= c <= 0x66 then c - 0x61 + 10 else 0
  }

  function Hex2(c: nat): (r: Text)
    requires c < 0x100
    ensures |r| == 2
  {
    [HexDigit(c / 0x10), HexDigit(c % 0x10)]
  }

  function FromHex2(t: Text): nat
    requires |t| == 2
  {
    HexValue(t[0]) * 0x10 + HexValue(t[1])
  }

  function Hex4(c: nat): (r: Text)
    requires c < 0x10000
    ensures |r| == 4
  {
    Hex2(c / 0x100) + Hex2(c % 0x100)
  }

  function FromHex4(t: Text): nat
    requires |t| == 4
  {
    FromHex2(t[..2]) * 0x100 + FromHex2(t[2..])
  }

  /** The NENRIN form also escapes lone surrogates. */
  function EscapeChar(d: Dialect, c: nat): Text
  {
    if ShortEscape(c) != 0 then [BACKSLASH, ShortEscape(c)]
    else if c < 0x20 || (d == Nenrin && Surrogate(c)) then [BACKSLASH, LETTER_U] + Hex4(c)
    else [c]
  }

  function Escape(d: Dialect, s: Text): Text
  {
    if s == [] then [] else EscapeChar(d, s[0]) + Escape(d, s[1..])
  }

  function Quoted(d: Dialect, s: Text): Text
  {
    [QUOTE] + Escape(d, s) + [QUOTE]
  }

  /** The string writer as it is run: pieces appended character by character. */
  method WriteString(d: Dialect, s: Text) returns (out: Text)
    ensures out == Quoted(d, s)
  {
    out := [QUOTE];
    for i := 0 to |s|
      invariant out + Escape(d, s[i..]) == [QUOTE] + Escape(d, s)
    {
      assert s[i..][0] == s[i] && s[i..][1..] == s[i + 1..];
      Reassociate(out, EscapeChar(d, s[i]), Escape(d, s[i + 1..]));
      out := out + EscapeChar(d, s[i]);
    }
    assert s[|s|..] == [] && out + Escape(d, []) == out;
    out := out + [QUOTE];
  }

  lemma Reassociate(a: Text, b: Text, c: Text)
    ensures (a + b) + c == a + (b + c)
  {
  }

  /** Reads string characters up to the closing quote; what follows it is left over. */
  function ReadString(t: Text): (r: Option<(Text, Text)>)
    ensures r.Some? ==> |r.value.1| < |t|
    decreases |t|
  {
    if t == [] then None
    else if t[0] == QUOTE then Some(([], t[1..]))
    else if t[0] != BACKSLASH then Cons(t[0], ReadString(t[1..]))
    else if |t| < 2 then None
    else if t[1] != LETTER_U then Cons(FromShort(t[1]), ReadString(t[2..]))
    else if |t| < 6 then None
    else Cons(FromHex4(t[2..6]), ReadString(t[6..]))
  }

  function Cons(c: nat, r: Option<(Text, Text)>): Option<(Text, Text)>
  {
    if r.None? then None else Some(([c] + r.value.0, r.value.1))
  }

  lemma Hex2RoundTrip(c: nat)
    requires c < 0x100
    ensures FromHex2(Hex2(c)) == c
  {
    HexRoundTrip(c / 0x10);
    HexRoundTrip(c % 0x10);
  }

  lemma Hex4RoundTrip(c: nat)
    requires c < 0x10000
    ensures FromHex4(Hex4(c)) == c
  {
    Hex2RoundTrip(c / 0x100);
    Hex2RoundTrip(c % 0x100);
    assert Hex4(c)[..2] == Hex2(c / 0x100) && Hex4(c)[2..] == Hex2(c % 0x100);
  }

  lemma HexRoundTrip(n: nat)
    requires n < 16
    ensures HexValue(HexDigit(n)) == n
  {
  }

  /** Reading one escaped character gives the character back. */
  lemma ReadEscaped(d: Dialect, c: nat, t: Text)
    ensures ReadString(EscapeChar(d, c) + t) == Cons(c, ReadString(t))
  {
    var e := EscapeChar(d, c);
    var all := e + t;
    if ShortEscape(c) != 0 {
      assert all[2..] == t;
    } else if c < 0x20 || (d == Nenrin && Surrogate(c)) {
      Hex4RoundTrip(c);
      assert all[2..6] == Hex4(c) && all[6..] == t;
    } else {
      assert all[1..] == t;
    }
  }

  /** Reading an escaped string gives the string back and leaves what follows. */
  lemma {:induction false} ReadQuoted(d: Dialect, s: Text, rest: Text)
    ensures ReadString(Escape(d, s) + ([QUOTE] + rest)) == Some((s, rest))
  {
    var tail := [QUOTE] + rest;
    if s == [] {
      assert Escape(d, s) + tail == tail && tail[1..] == rest;
    } else {
      var first, more := EscapeChar(d, s[0]), Escape(d, s[1..]);
      calc {
        ReadString((first + more) + tail);
        { Reassociate(first, more, tail); }
        ReadString(first + (more + tail));
        { ReadEscaped(d, s[0], more + tail); }
        Cons(s[0], ReadString(more + tail));
        { ReadQuoted(d, s[1..], rest); }
        Cons(s[0], Some((s[1..], rest)));
        { assert [s[0]] + s[1..] == s; }
        Some((s, rest));
      }
    }
  }

  // ---------------------------------------------------------------- integers

  function Digits(n: nat): Text
  {
    (if n < 10 then [] else Digits(n / 10)) + [0x30 + n % 10]
  }

  function Decimal(n: int): Text
  {
    if n < 0 then [MINUS] + Digits(-n) else Digits(n)
  }

  function ReadDigits(t: Text, acc: nat): (r: (nat, Text))
    ensures |r.1| <= |t|
    ensures t != [] && IsDigit(t[0]) ==> |r.1| < |t|
    decreases |t|
  {
    if t != [] && IsDigit(t[0]) then ReadDigits(t[1..], 10 * acc + (t[0] - 0x30)) else (acc, t)
  }

  /** What follows a number does not continue it. */
  predicate Ends(t: Text)
  {
    t == [] || !IsDigit(t[0])
  }

  lemma {:induction false} ReadDigitsOf(n: nat, t: Text)
    ensures ReadDigits(Digits(n) + t, 0) == ReadDigits(t, n)
  {
    var last := 0x30 + n % 10;
    var tail := [last] + t;
    assert tail[1..] == t && IsDigit(tail[0]);
    if n < 10 {
      assert Digits(n) + t == tail;
      assert 10 * 0 + (tail[0] - 0x30) == n;
    } else {
      assert Digits(n) + t == Digits(n / 10) + tail;
      ReadDigitsOf(n / 10, tail);
      assert 10 * (n / 10) + (tail[0] - 0x30) == n;
    }
  }

  lemma {:induction false} DigitsStart(n: nat)
    ensures Digits(n) != [] && IsDigit(Digits(n)[0])
  {
    if n >= 10 {
      DigitsStart(n / 10);
    }
  }

  // ---------------------------------------------------------------- the printer

  /** Prints members in the order they are listed. */
  function Print(d: Dialect, v: Json): Text
    decreases v, 1
  {
    match v
    case Null => [0x6E, 0x75, 0x6C, 0x6C]
    case True => [0x74, 0x72, 0x75, 0x65]
    case False => [0x66, 0x61, 0x6C, 0x73, 0x65]
    case Int(n) => Decimal(n)
    case Str(s) => Quoted(d, s)
    case Arr(items) => [LBRACKET] + PrintItems(d, items) + [RBRACKET]
    case Obj(members) => [LBRACE] + PrintMembers(d, members) + [RBRACE]
  }

  function PrintItems(d: Dialect, items: seq<Json>): Text
    decreases items, 0
  {
    if items == [] then []
    else if |items| == 1 then Print(d, items[0])
    else Print(d, items[0]) + [COMMA] + PrintItems(d, items[1..])
  }

  function PrintMember(d: Dialect, m: Member): Text
    decreases m, 2
  {
    Quoted(d, m.key) + [COLON] + Print(d, m.value)
  }

  function PrintMembers(d: Dialect, members: seq<Member>): Text
    decreases members, 0
  {
    if members == [] then []
    else if |members| == 1 then PrintMember(d, members[0])
    else PrintMember(d, members[0]) + [COMMA] + PrintMembers(d, members[1..])
  }

  // ---------------------------------------------------------------- the parser

  function Expect(t: Text, word: Text, v: Json): Option<(Json, Text)>
  {
    if word <= t then Some((v, t[|word|..])) else None
  }

  function Parse(t: Text): (r: Option<(Json, Text)>)
    ensures r.Some? ==> |r.value.1| < |t|
    decreases |t|, 2
  {
    if t == [] then None
    else if t[0] == 0x6E then Expect(t, [0x6E, 0x75, 0x6C, 0x6C], Null)
    else if t[0] == 0x74 then Expect(t, [0x74, 0x72, 0x75, 0x65], True)
    else if t[0] == 0x66 then Expect(t, [0x66, 0x61, 0x6C, 0x73, 0x65], False)
    else if t[0] == QUOTE then
      var s := ReadString(t[1..]);
      if s.None? then None else Some((Str(s.value.0), s.value.1))
    else if t[0] == LBRACKET then
      if |t| > 1 && t[1] == RBRACKET then Some((Arr([]), t[2..])) else
      var xs := ParseItems(t[1..]);
      if xs.None? then None else Some((Arr(xs.value.0), xs.value.1))
    else if t[0] == LBRACE then
      if |t| > 1 && t[1] == RBRACE then Some((Obj([]), t[2..])) else
      var ms := ParseMembers(t[1..]);
      if ms.None? then None else Some((Obj(ms.value.0), ms.value.1))
    else if t[0] == MINUS then
      if |t| < 2 || !IsDigit(t[1]) then None else var r := ReadDigits(t[1..], 0); Some((Int(-(r.0 as int)), r.1))
    else if IsDigit(t[0]) then var r := ReadDigits(t, 0); Some((Int(r.0), r.1))
    else None
  }

  /** Items up to and including the closing bracket. */
  function ParseItems(t: Text): (r: Option<(seq<Json>, Text)>)
    ensures r.Some? ==> |r.value.1| < |t|
    decreases |t|, 3
  {
    var x := Parse(t);
    if x.None? || x.value.1 == [] then None
    else if x.value.1[0] == RBRACKET then Some(([x.value.0], x.value.1[1..]))
    else if x.value.1[0] != COMMA then None
    else
      var xs := ParseItems(x.value.1[1..]);
      if xs.None? then None else Some(([x.value.0] + xs.value.0, xs.value.1))
  }

  function ParseMember(t: Text): (r: Option<(Member, Text)>)
    ensures r.Some? ==> |r.value.1| < |t|
    decreases |t|, 3
  {
    if t == [] || t[0] != QUOTE then None else
      var k := ReadString(t[1..]);
      if k.None? || k.value.1 == [] || k.value.1[0] != COLON then None else
        var v := Parse(k.value.1[1..]);
        if v.None? then None else Some((Member(k.value.0, v.value.0), v.value.1))
  }

  /** Members up to and including the closing brace. */
  function ParseMembers(t: Text): (r: Option<(seq<Member>, Text)>)
    ensures r.Some? ==> |r.value.1| < |t|
    decreases |t|, 4
  {
    var m := ParseMember(t);
    if m.None? || m.value.1 == [] then None
    else if m.value.1[0] == RBRACE then Some(([m.value.0], m.value.1[1..]))
    else if m.value.1[0] != COMMA then None
    else
      var ms := ParseMembers(m.value.1[1..]);
      if ms.None? then None else Some(([m.value.0] + ms.value.0, ms.value.1))
  }

  // ---------------------------------------------------------------- the parser inverts the printer

  /** The first character of a printed value, which decides the parser's branch. */
  lemma PrintStarts(d: Dialect, v: Json)
    ensures Print(d, v) != [] && Print(d, v)[0] != RBRACKET && Print(d, v)[0] != RBRACE
  {
    if v.Int? && v.n >= 0 { DigitsStart(v.n); }
  }

  lemma ParseInt(n: int, rest: Text)
    requires Ends(rest)
    ensures Parse(Decimal(n) + rest) == Some((Int(n), rest))
  {
    var m := if n < 0 then -n else n;
    DigitsStart(m);
    ReadDigitsOf(m, rest);
    var t := Decimal(n) + rest;
    if n < 0 {
      assert t[1..] == Digits(m) + rest;
    }
  }

  lemma QuotedTail(d: Dialect, s: Text, rest: Text)
    ensures (Quoted(d, s) + rest)[0] == QUOTE
    ensures (Quoted(d, s) + rest)[1..] == Escape(d, s) + ([QUOTE] + rest)
  {
  }

  lemma ParseStr(d: Dialect, s: Text, rest: Text)
    ensures Parse(Quoted(d, s) + rest) == Some((Str(s), rest))
  {
    ReadQuoted(d, s, rest);
    QuotedTail(d, s, rest);
  }

  lemma ParseWord(d: Dialect, v: Json, rest: Text)
    requires v.Null? || v.True? || v.False?
    ensures Parse(Print(d, v) + rest) == Some((v, rest))
  {
    var word := Print(d, v);
    assert word <= word + rest && (word + rest)[|word|..] == rest;
  }

  /** A bracketed text is the bracket, the inside, the closing bracket and the rest. */
  lemma BracketTail(open: nat, inside: Text, close: nat, rest: Text)
    ensures var t := [open] + inside + [close] + rest;
      t[0] == open && t[1..] == inside + ([close] + rest)
      && (inside != [] ==> t[1] == inside[0]) && (inside == [] ==> t[1] == close && t[2..] == rest)
  {
  }

  lemma ParseArr(d: Dialect, items: seq<Json>, rest: Text)
    requires items != [] ==> ParseItems(PrintItems(d, items) + ([RBRACKET] + rest)) == Some((items, rest))
    ensures Parse(Print(d, Arr(items)) + rest) == Some((Arr(items), rest))
  {
    BracketTail(LBRACKET, PrintItems(d, items), RBRACKET, rest);
    if items != [] { ItemsStart(d, items); }
  }

  lemma ParseObj(d: Dialect, members: seq<Member>, rest: Text)
    requires members != [] ==> ParseMembers(PrintMembers(d, members) + ([RBRACE] + rest)) == Some((members, rest))
    ensures Parse(Print(d, Obj(members)) + rest) == Some((Obj(members), rest))
  {
    BracketTail(LBRACE, PrintMembers(d, members), RBRACE, rest);
    if members != [] { MembersStart(d, members); }
  }

  /** The parser reads a printed value back and leaves what follows it. */
  lemma {:induction false} ParsePrint(d: Dialect, v: Json, rest: Text)
    requires Ends(rest)
    ensures Parse(Print(d, v) + rest) == Some((v, rest))
    decreases v, 1
  {
    match v
    case Int(n) => ParseInt(n, rest);
    case Str(s) => ParseStr(d, s, rest);
    case Arr(items) =>
      if items != [] { ParsePrintItems(d, items, rest); }
      ParseArr(d, items, rest);
    case Obj(members) =>
      if members != [] { ParsePrintMembers(d, members, rest); }
      ParseObj(d, members, rest);
    case _ => ParseWord(d, v, rest);
  }

  lemma Separated(a: Text, c: nat, b: Text, tail: Text)
    ensures (a + [c] + b) + tail == a + ([c] + (b + tail)) && ([c] + (b + tail))[1..] == b + tail
  {
  }

  lemma ItemsStart(d: Dialect, items: seq<Json>)
    requires items != []
    ensures PrintItems(d, items) != [] && PrintItems(d, items)[0] != RBRACKET
  {
    PrintStarts(d, items[0]);
  }

  lemma MembersStart(d: Dialect, members: seq<Member>)
    requires members != []
    ensures PrintMembers(d, members) != [] && PrintMembers(d, members)[0] == QUOTE
  {
    assert PrintMember(d, members[0])[0] == QUOTE;
  }

  lemma {:induction false} ParsePrintItems(d: Dialect, items: seq<Json>, rest: Text)
    requires items != []
    ensures ParseItems(PrintItems(d, items) + ([RBRACKET] + rest)) == Some((items, rest))
    decreases items, 0
  {
    var first, tail := Print(d, items[0]), [RBRACKET] + rest;
    if |items| == 1 {
      ParsePrint(d, items[0], tail);
      assert tail[1..] == rest && items == [items[0]];
    } else {
      var inner := PrintItems(d, items[1..]);
      var more := [COMMA] + (inner + tail);
      Separated(first, COMMA, inner, tail);
      ParsePrint(d, items[0], more);
      ParsePrintItems(d, items[1..], rest);
      assert items == [items[0]] + items[1..];
    }
  }

  lemma {:induction false} ParsePrintMember(d: Dialect, m: Member, rest: Text)
    requires Ends(rest)
    ensures ParseMember(PrintMember(d, m) + rest) == Some((m, rest))
    decreases m, 2
  {
    var value := [COLON] + (Print(d, m.value) + rest);
    assert PrintMember(d, m) + rest == Quoted(d, m.key) + value;
    QuotedTail(d, m.key, value);
    ReadQuoted(d, m.key, value);
    assert value[1..] == Print(d, m.value) + rest;
    ParsePrint(d, m.value, rest);
  }

  lemma {:induction false} ParsePrintMembers(d: Dialect, members: seq<Member>, rest: Text)
    requires members != []
    ensures ParseMembers(PrintMembers(d, members) + ([RBRACE] + rest)) == Some((members, rest))
    decreases members, 0
  {
    var first, tail := PrintMember(d, members[0]), [RBRACE] + rest;
    if |members| == 1 {
      ParsePrintMember(d, members[0], tail);
      assert tail[1..] == rest && members == [members[0]];
    } else {
      var inner := PrintMembers(d, members[1..]);
      Separated(first, COMMA, inner, tail);
      ParsePrintMember(d, members[0], [COMMA] + (inner + tail));
      ParsePrintMembers(d, members[1..], rest);
      MembersJoined(first + ([COMMA] + (inner + tail)), members, inner + tail, rest);
    }
  }

  /** A member, a comma, and members read from what follows it. */
  lemma MembersJoined(t: Text, members: seq<Member>, more: Text, rest: Text)
    requires members != [] && ParseMember(t) == Some((members[0], [COMMA] + more))
    requires ParseMembers(more) == Some((members[1..], rest))
    ensures ParseMembers(t) == Some((members, rest))
  {
    assert ([COMMA] + more)[1..] == more;
    assert members == [members[0]] + members[1..];
  }

  // ---------------------------------------------------------------- key order

  /** UTF-16 code units of a code point. */
  function Units(c: nat): seq<nat>
  {
    if c < 0x10000 then [c] else [0xD800 + (c - 0x10000) / 0x400, 0xDC00 + (c - 0x10000) % 0x400]
  }

  function Utf16(s: Text): seq<nat>
  {
    if s == [] then [] else Units(s[0]) + Utf16(s[1..])
  }

  predicate Scalars(s: Text)
  {
    forall i :: 0 <= i < |s| ==> !Surrogate(s[i]) && s[i] < 0x110000
  }

  lemma UnitsDecode(c: nat, t: seq<nat>, c': nat, t': seq<nat>)
    requires !Surrogate(c) && !Surrogate(c') && c < 0x110000 && c' < 0x110000
    requires Units(c) + t == Units(c') + t'
    ensures c == c' && t == t'
  {
    var a, b := Units(c) + t, Units(c') + t';
    assert a[0] == Units(c)[0] && b[0] == Units(c')[0];
    assert |Units(c)| == |Units(c')|;
    assert a[..|Units(c)|] == Units(c) && b[..|Units(c)|] == Units(c');
    assert a[|Units(c)|..] == t && b[|Units(c)|..] == t';
    assert Units(c) == Units(c');
    if c >= 0x10000 {
      assert Units(c)[0] == Units(c')[0] && Units(c)[1] == Units(c')[1];
    }
  }

  lemma {:induction false} Utf16Injective(a: Text, b: Text)
    requires Scalars(a) && Scalars(b) && Utf16(a) == Utf16(b)
    ensures a == b
  {
    if a != [] && b != [] {
      UnitsDecode(a[0], Utf16(a[1..]), b[0], Utf16(b[1..]));
      Utf16Injective(a[1..], b[1..]);
      assert a == [a[0]] + a[1..] && b == [b[0]] + b[1..];
    }
  }

  /** RFC 8785 sorts keys by UTF-16 code units, the NENRIN form (whose keys are ASCII) by code points. */
  function SortKey(d: Dialect, k: Text): seq<nat>
  {
    if d == Jcs then Utf16(k) else k
  }

  predicate MemberLe(d: Dialect, a: Member, b: Member)
  {
    LexLe(SortKey(d, a.key), SortKey(d, b.key))
  }

  function MemberOrder(d: Dialect): (Member, Member) -> bool
  {
    (a: Member, b: Member) => MemberLe(d, a, b)
  }

  lemma MemberOrderTotal(d: Dialect)
    ensures TotalPreorder(MemberOrder(d))
  {
    forall a: Member, b: Member ensures MemberOrder(d)(a, b) || MemberOrder(d)(b, a) {
      LexLeTotal(SortKey(d, a.key), SortKey(d, b.key));
    }
    forall a: Member, b: Member, c: Member | MemberOrder(d)(a, b) && MemberOrder(d)(b, c) ensures MemberOrder(d)(a, c) {
      LexLeTransitive(SortKey(d, a.key), SortKey(d, b.key), SortKey(d, c.key));
    }
  }

  // ---------------------------------------------------------------- values as dictionaries

  /** Object keys are distinct, at every depth. */
  predicate Dictionary(v: Json)
  {
    match v
    case Arr(items) => forall i :: 0 <= i < |items| ==> Dictionary(items[i])
    case Obj(members) => DistinctKeys(members) && forall i :: 0 <= i < |members| ==> Dictionary(members[i].value)
    case _ => true
  }

  predicate DistinctKeys(members: seq<Member>)
  {
    forall i, j :: 0 <= i < j < |members| ==> members[i].key != members[j].key
  }

  const SAFE: int := 0x1F_FFFF_FFFF_FFFF // 2^53 - 1

  predicate KeyOk(d: Dialect, k: Text)
  {
    if d == Jcs then Scalars(k) else forall i :: 0 <= i < |k| ==> 0x20 <= k[i] <= 0x7E
  }

  /** Values the dialect has a text for: safe integers and keys it accepts. */
  predicate Printable(d: Dialect, v: Json)
  {
    match v
    case Int(n) => -SAFE <= n <= SAFE
    case Arr(items) => forall i :: 0 <= i < |items| ==> Printable(d, items[i])
    case Obj(members) => forall i :: 0 <= i < |members| ==> KeyOk(d, members[i].key) && Printable(d, members[i].value)
    case _ => true
  }

  /** Every object's members in key order, at every depth. */
  function Canon(d: Dialect, v: Json): Json
    decreases v, 1
  {
    match v
    case Arr(items) => Arr(CanonItems(d, items))
    case Obj(members) => Obj(Sort(MemberOrder(d), CanonMembers(d, members)))
    case _ => v
  }

  function CanonItems(d: Dialect, items: seq<Json>): (r: seq<Json>)
    ensures |r| == |items|
    decreases items, 0
  {
    if items == [] then [] else [Canon(d, items[0])] + CanonItems(d, items[1..])
  }

  function CanonMembers(d: Dialect, members: seq<Member>): (r: seq<Member>)
    ensures |r| == |members|
    decreases members, 0
  {
    if members == [] then [] else [Member(members[0].key, Canon(d, members[0].value))] + CanonMembers(d, members[1..])
  }

  lemma {:induction false} CanonItemsAt(d: Dialect, items: seq<Json>, i: nat)
    requires i < |items|
    ensures CanonItems(d, items)[i] == Canon(d, items[i])
  {
    if i > 0 { CanonItemsAt(d, items[1..], i - 1); }
  }

  lemma {:induction false} CanonMembersAt(d: Dialect, members: seq<Member>, i: nat)
    requires i < |members|
    ensures CanonMembers(d, members)[i] == Member(members[i].key, Canon(d, members[i].value))
  {
    if i > 0 { CanonMembersAt(d, members[1..], i - 1); }
  }

  /** The canonical text of a value; None where the source raises, or leaves the integers modelled here. */
  function CanonicalText(d: Dialect, v: Json): Option<Text>
  {
    if Printable(d, v) then Some(Print(d, Canon(d, v))) else None
  }

  /** A parser recovers the value, in canonical member order, from its canonical text. */
  lemma TextDecodes(d: Dialect, v: Json)
    requires Printable(d, v)
    ensures Parse(CanonicalText(d, v).value) == Some((Canon(d, v), []))
  {
    ParsePrint(d, Canon(d, v), []);
    assert Print(d, Canon(d, v)) + [] == Print(d, Canon(d, v));
  }

  /** The same value, read as nested dictionaries: the order of members does not matter. */
  ghost predicate SameValue(v: Json, w: Json)
    decreases v
  {
    match v
    case Arr(items) =>
      w.Arr? && |w.items| == |items| && forall i :: 0 <= i < |items| ==> SameValue(items[i], w.items[i])
    case Obj(members) =>
      w.Obj? && |w.members| == |members| && forall i :: 0 <= i < |members| ==> SameMember(members[i], w.members)
    case _ => v == w
  }

  ghost predicate SameMember(m: Member, ns: seq<Member>)
    decreases m
  {
    exists j :: 0 <= j < |ns| && ns[j].key == m.key && SameValue(m.value, ns[j].value)
  }

  predicate KeysOk(d: Dialect, members: seq<Member>)
  {
    DistinctKeys(members) && forall i :: 0 <= i < |members| ==> KeyOk(d, members[i].key)
  }

  lemma SortKeyInjective(d: Dialect, a: Text, b: Text)
    requires KeyOk(d, a) && KeyOk(d, b) && SortKey(d, a) == SortKey(d, b)
    ensures a == b
  {
    if d == Jcs { Utf16Injective(a, b); }
  }

  /** The key order tells the members of one object apart. */
  lemma KeysStrict(d: Dialect, members: seq<Member>)
    requires KeysOk(d, members)
    ensures Strict(MemberOrder(d), members)
  {
    forall x, y | x in members && y in members && MemberOrder(d)(x, y) && MemberOrder(d)(y, x) ensures x == y {
      var i :| 0 <= i < |members| && members[i] == x;
      var j :| 0 <= j < |members| && members[j] == y;
      LexLeTotal(SortKey(d, x.key), SortKey(d, y.key));
      SortKeyInjective(d, x.key, y.key);
    }
  }

  lemma CanonKeysOk(d: Dialect, members: seq<Member>)
    requires KeysOk(d, members)
    ensures KeysOk(d, CanonMembers(d, members)) && NoDuplicates(CanonMembers(d, members))
  {
    var cs := CanonMembers(d, members);
    forall i | 0 <= i < |cs| ensures cs[i].key == members[i].key { CanonMembersAt(d, members, i); }
  }

  /** Some member of ns has the key of m and the same canonical value. */
  ghost predicate MatchedIn(d: Dialect, m: Member, ns: seq<Member>)
  {
    exists j :: 0 <= j < |ns| && ns[j].key == m.key && Canon(d, ns[j].value) == Canon(d, m.value)
  }

  ghost predicate AllMatched(d: Dialect, ms: seq<Member>, ns: seq<Member>)
  {
    |ms| == |ns| && forall i :: 0 <= i < |ms| ==> MatchedIn(d, ms[i], ns)
  }

  lemma MatchedIsMember(d: Dialect, ms: seq<Member>, ns: seq<Member>, i: nat)
    requires i < |ms|
    ensures MatchedIn(d, ms[i], ns) <==> CanonMembers(d, ms)[i] in CanonMembers(d, ns)
  {
    var c, cs := CanonMembers(d, ms)[i], CanonMembers(d, ns);
    CanonMembersAt(d, ms, i);
    if c in cs {
      var j :| 0 <= j < |cs| && cs[j] == c;
      CanonMembersAt(d, ns, j);
    }
    if MatchedIn(d, ms[i], ns) {
      var j :| 0 <= j < |ns| && ns[j].key == ms[i].key && Canon(d, ns[j].value) == Canon(d, ms[i].value);
      CanonMembersAt(d, ns, j);
      assert cs[j] == c;
    }
  }

  lemma SortedEqualMatched(d: Dialect, ms: seq<Member>, ns: seq<Member>)
    requires Sort(MemberOrder(d), CanonMembers(d, ms)) == Sort(MemberOrder(d), CanonMembers(d, ns))
    ensures AllMatched(d, ms, ns)
  {
    SortPermutes(MemberOrder(d), CanonMembers(d, ms));
    SortPermutes(MemberOrder(d), CanonMembers(d, ns));
    SameSize(CanonMembers(d, ms), CanonMembers(d, ns));
    forall i | 0 <= i < |ms| ensures MatchedIn(d, ms[i], ns) { MatchedIsMember(d, ms, ns, i); }
  }

  lemma MatchedSortedEqual(d: Dialect, ms: seq<Member>, ns: seq<Member>)
    requires KeysOk(d, ms) && AllMatched(d, ms, ns)
    ensures Sort(MemberOrder(d), CanonMembers(d, ms)) == Sort(MemberOrder(d), CanonMembers(d, ns))
  {
    var a, b := CanonMembers(d, ms), CanonMembers(d, ns);
    assert multiset(a) == multiset(b) by {
      CanonKeysOk(d, ms);
      forall i | 0 <= i < |a| ensures a[i] in b { MatchedIsMember(d, ms, ns, i); }
      SameElements(a, b);
    }
    assert Strict(MemberOrder(d), a) by { CanonKeysOk(d, ms); KeysStrict(d, a); }
    MemberOrderTotal(d);
    SortOfPermutation(MemberOrder(d), a, b);
  }

  lemma ItemsAgree(d: Dialect, xs: seq<Json>, ys: seq<Json>)
    ensures CanonItems(d, xs) == CanonItems(d, ys)
      <==> |xs| == |ys| && forall i :: 0 <= i < |xs| ==> Canon(d, xs[i]) == Canon(d, ys[i])
  {
    var a, b := CanonItems(d, xs), CanonItems(d, ys);
    forall i | 0 <= i < |xs| ensures a[i] == Canon(d, xs[i]) { CanonItemsAt(d, xs, i); }
    forall i | 0 <= i < |ys| ensures b[i] == Canon(d, ys[i]) { CanonItemsAt(d, ys, i); }
  }

  /** Two dictionary values are the same exactly when they have the same canonical form. */
  lemma {:induction false} SameCanon(d: Dialect, v: Json, w: Json)
    requires Dictionary(v) && Dictionary(w) && Printable(d, v) && Printable(d, w)
    ensures SameValue(v, w) <==> Canon(d, v) == Canon(d, w)
    decreases v
  {
    match v
    case Arr(xs) =>
      if w.Arr? && |w.items| == |xs| {
        forall i | 0 <= i < |xs| ensures SameValue(xs[i], w.items[i]) <==> Canon(d, xs[i]) == Canon(d, w.items[i]) {
          SameCanon(d, xs[i], w.items[i]);
        }
      }
      if w.Arr? { ItemsAgree(d, xs, w.items); }
    case Obj(ms) =>
      if w.Obj? {
        forall i | 0 <= i < |ms| ensures SameMember(ms[i], w.members) <==> MatchedIn(d, ms[i], w.members) {
          forall j | 0 <= j < |w.members|
            ensures SameValue(ms[i].value, w.members[j].value) <==>
              Canon(d, ms[i].value) == Canon(d, w.members[j].value)
          {
            SameCanon(d, ms[i].value, w.members[j].value);
          }
        }
        ObjectsAgree(d, ms, w.members);
      }
    case _ =>
  }

  lemma ObjectsAgree(d: Dialect, ms: seq<Member>, ns: seq<Member>)
    requires KeysOk(d, ms) && KeysOk(d, ns)
    requires forall i :: 0 <= i < |ms| ==> (SameMember(ms[i], ns) <==> MatchedIn(d, ms[i], ns))
    ensures SameValue(Obj(ms), Obj(ns)) <==> Canon(d, Obj(ms)) == Canon(d, Obj(ns))
  {
    assert SameValue(Obj(ms), Obj(ns)) <==> AllMatched(d, ms, ns);
    if Canon(d, Obj(ms)) == Canon(d, Obj(ns)) { SortedEqualMatched(d, ms, ns); }
    if AllMatched(d, ms, ns) { MatchedSortedEqual(d, ms, ns); }
  }

  /**
   Canonical text is uniquely decodable: equal text means the same value, whatever the order keys were inserted in,
   and conversely.
   */
  lemma EqualTextEqualValue(d: Dialect, v: Json, w: Json)
    requires Dictionary(v) && Dictionary(w) && Printable(d, v) && Printable(d, w)
    ensures CanonicalText(d, v) == CanonicalText(d, w) <==> SameValue(v, w)
  {
    TextDecodes(d, v);
    TextDecodes(d, w);
    SameCanon(d, v, w);
  }

  // ---------------------------------------------------------------- the order of keys

  /** A code point above 0xFFFF is a high and a low surrogate that stand for it; any other is itself. */
  lemma UnitsExactly(c: nat)
    requires c < 0x110000
    ensures c < 0x10000 ==> Units(c) == [c]
    ensures c >= 0x10000 ==>
      var u := Units(c);
      && |u| == 2 && 0xD800 <= u[0] < 0xDC00 <= u[1] < 0xE000
      && c == 0x10000 + (u[0] - 0xD800) * 0x400 + (u[1] - 0xDC00)
  {
  }

  /** The units a dialect compares keys by: UTF-16 code units, or code points. */
  ghost predicate KeyBefore(d: Dialect, k: Text, l: Text)
  {
    match d
    case Jcs => LexBefore(Utf16(k), Utf16(l))
    case Nenrin => LexBefore(k, l)
  }

  /** In every object, at every depth, each key stands before all that follow it. */
  ghost predicate KeysInOrder(d: Dialect, v: Json)
  {
    match v
    case Arr(items) => forall i :: 0 <= i < |items| ==> KeysInOrder(d, items[i])
    case Obj(ms) =>
      && (forall i, j :: 0 <= i < j < |ms| ==> KeyBefore(d, ms[i].key, ms[j].key))
      && forall i :: 0 <= i < |ms| ==> KeysInOrder(d, ms[i].value)
    case _ => true
  }

  lemma SortedKeysBefore(d: Dialect, cs: seq<Member>, i: nat, j: nat)
    requires KeysOk(d, cs) && NoDuplicates(cs) && i < j < |Sort(MemberOrder(d), cs)|
    ensures KeyBefore(d, Sort(MemberOrder(d), cs)[i].key, Sort(MemberOrder(d), cs)[j].key)
  {
    var le, sorted := MemberOrder(d), Sort(MemberOrder(d), cs);
    MemberOrderTotal(d);
    SortSorts(le, cs);
    SortPermutes(le, cs);
    KeysStrict(d, cs);
    StrictPermutes(le, cs, sorted);
    NoDuplicatesCounts(cs);
    NoDuplicatesCounts(sorted);
    var a, b := sorted[i], sorted[j];
    assert le(a, b) && a != b;
    assert a in sorted && b in sorted;
    assert SortKey(d, a.key) != SortKey(d, b.key) by {
      if SortKey(d, a.key) == SortKey(d, b.key) { LexLeTotal(SortKey(d, a.key), SortKey(d, a.key)); }
    }
    LexLeExactly(SortKey(d, a.key), SortKey(d, b.key));
  }

  /** The canonical form lists the members of every object in increasing key order. */
  lemma {:induction false} CanonInOrder(d: Dialect, v: Json)
    requires Dictionary(v) && Printable(d, v)
    ensures KeysInOrder(d, Canon(d, v))
    decreases v
  {
    match v
    case Arr(xs) =>
      forall i | 0 <= i < |xs| ensures KeysInOrder(d, CanonItems(d, xs)[i]) {
        CanonItemsAt(d, xs, i);
        CanonInOrder(d, xs[i]);
      }
    case Obj(ms) =>
      var cs := CanonMembers(d, ms);
      var sorted := Sort(MemberOrder(d), cs);
      CanonKeysOk(d, ms);
      forall i, j | 0 <= i < j < |sorted| ensures KeyBefore(d, sorted[i].key, sorted[j].key) {
        SortedKeysBefore(d, cs, i, j);
      }
      forall i | 0 <= i < |sorted| ensures KeysInOrder(d, sorted[i].value) {
        SortMembers(MemberOrder(d), cs, sorted[i]);
        var k :| 0 <= k < |cs| && cs[k] == sorted[i];
        CanonMembersAt(d, ms, k);
        CanonInOrder(d, ms[k].value);
      }
    case _ =>
  }

  /** Canonical text is the print of the value with every object's keys in increasing order. */
  lemma TextInOrder(d: Dialect, v: Json)
    requires Dictionary(v) && Printable(d, v)
    ensures exists u :: SameValue(v, u) && KeysInOrder(d, u) && CanonicalText(d, v) == Some(Print(d, u))
  {
    CanonInOrder(d, v);
    SameAsCanon(d, v);
  }

  /** Reordering members does not change the value. */
  lemma {:induction false} SameAsCanon(d: Dialect, v: Json)
    ensures SameValue(v, Canon(d, v))
    decreases v
  {
    match v
    case Arr(xs) =>
      forall i | 0 <= i < |xs| ensures SameValue(xs[i], CanonItems(d, xs)[i]) {
        CanonItemsAt(d, xs, i);
        SameAsCanon(d, xs[i]);
      }
    case Obj(ms) =>
      var cs := CanonMembers(d, ms);
      var sorted := Sort(MemberOrder(d), cs);
      SortPermutes(MemberOrder(d), cs);
      SameSize(cs, sorted);
      forall i | 0 <= i < |ms| ensures SameMember(ms[i], sorted) {
        CanonMembersAt(d, ms, i);
        SameAsCanon(d, ms[i].value);
        SortMembers(MemberOrder(d), cs, cs[i]);
        var j :| 0 <= j < |sorted| && sorted[j] == cs[i];
        assert sorted[j].key == ms[i].key;
      }
    case _ =>
  }

  // ---------------------------------------------------------------- the text itself

  /** The words, brackets and separators that are written, code point by code point. */
  lemma WordsWritten(d: Dialect, a: Json, b: Json)
    ensures Print(d, Null) == [0x6E, 0x75, 0x6C, 0x6C]
    ensures Print(d, True) == [0x74, 0x72, 0x75, 0x65]
    ensures Print(d, False) == [0x66, 0x61, 0x6C, 0x73, 0x65]
    ensures Print(d, Arr([])) == [0x5B, 0x5D] && Print(d, Obj([])) == [0x7B, 0x7D]
    ensures Print(d, Arr([a, b])) == [0x5B] + (Print(d, a) + [0x2C] + Print(d, b)) + [0x5D]
  {
    assert [a, b][1..] == [b];
    assert PrintItems(d, [a, b]) == Print(d, a) + [COMMA] + Print(d, b);
    assert [LBRACKET] + [] + [RBRACKET] == [0x5B, 0x5D] && [LBRACE] + [] + [RBRACE] == [0x7B, 0x7D];
  }

  lemma ObjectWritten(d: Dialect, k: Text, a: Json, l: Text, b: Json)
    ensures Print(d, Obj([Member(k, a), Member(l, b)])) ==
      [0x7B] + ((Print(d, Str(k)) + [0x3A] + Print(d, a)) + [0x2C] + (Print(d, Str(l)) + [0x3A] + Print(d, b))) + [0x7D]
  {
    var ms := [Member(k, a), Member(l, b)];
    assert ms[1..] == [Member(l, b)];
    assert PrintMember(d, ms[0]) == Print(d, Str(k)) + [0x3A] + Print(d, a);
    assert PrintMembers(d, ms[1..]) == Print(d, Str(l)) + [0x3A] + Print(d, b);
  }

  /** No integer is written with a leading zero or a plus sign. */
  lemma {:induction false} DigitsCanonical(n: nat)
    ensures Digits(n)[0] == 0x30 <==> n == 0
    ensures n > 0 ==> Digits(n)[0] > 0x30
  {
    DigitsStart(n);
    if n >= 10 {
      DigitsStart(n / 10);
      DigitsCanonical(n / 10);
    }
  }

  /** Which characters of a string are escaped, and how; every other one is written as itself. */
  lemma EscapesWritten(d: Dialect, c: nat)
    ensures c == 0x22 || c == 0x5C ==> EscapeChar(d, c) == [0x5C, c]
    ensures c == 0x08 ==> EscapeChar(d, c) == [0x5C, 0x62]
    ensures c == 0x09 ==> EscapeChar(d, c) == [0x5C, 0x74]
    ensures c == 0x0A ==> EscapeChar(d, c) == [0x5C, 0x6E]
    ensures c == 0x0C ==> EscapeChar(d, c) == [0x5C, 0x66]
    ensures c == 0x0D ==> EscapeChar(d, c) == [0x5C, 0x72]
    ensures c == 0x1F ==> EscapeChar(d, c) == [0x5C, 0x75, 0x30, 0x30, 0x31, 0x66]
    ensures EscapeChar(d, c) == [c] <==>
      c >= 0x20 && c != 0x22 && c != 0x5C && (d == Nenrin ==> !(0xD800 <= c <= 0xDFFF))
  {
  }

  /** Integers have a text exactly within plus or minus 2^53 - 1. */
  lemma SafeIntegers(d: Dialect, n: int)
    ensures CanonicalText(d, Int(n)).Some? <==> -0x20_0000_0000_0000 < n < 0x20_0000_0000_0000
  {
  }
}
