/**
 The canonical encoding of issues: double-quoted scalars and block collections, and a
 reader for exactly that subset of YAML 1.2.2 (sections 5.7, 7.3.1 and 8.2).
 Characters are Unicode scalar values; the printing of numbers is left as a token.
 */
module CanonicalYaml {
  import opened Wrappers
  import Identities

  /** Mappings list their entries; a canonical one lists them by strictly ascending key. */
  datatype Value = Str(text: string) | Bool(value: bool) | Null | Num(token: string) | List(items: seq<Value>) | Map(entries: seq<Property>)

  datatype Property = Property(key: string, value: Value)

  type Entries = seq<Property>

  // ---- Lines ----

  /** One emitted line: its indent, its dash, its key, and what stands inline after them. */
  datatype Line = Line(indent: nat, dash: bool, key: Option<string>, inline: Option<string>)

  predicate IsInline(v: Value) {
    match v
    case List(items) => items == []
    case Map(entries) => entries == []
    case _ => true
  }

  /** A value in one line; a collection that does not fit prints as an empty one. */
  function EmitInline(v: Value): string {
    match v
    case Str(s) => Quote(s)
    case Bool(b) => if b then "true" else "false"
    case Null => "null"
    case Num(token) => token
    case List(_) => "[]"
    case Map(_) => "{}"
  }

  function EmitProperty(key: string, v: Value, indent: nat, special: bool): (ls: seq<Line>)
    ensures |ls| > 0
    decreases v, 2
  {
    if IsInline(v) then [Line(indent, false, Some(key), Some(EmitInline(v)))]
    else [Line(indent, false, Some(key), None)]
         + (if special && key == "comments" && v.List? then EmitComments(v.items, indent + 2) else EmitNested(v, indent + 2))
  }

  /** The comment form: four fields whatever the item is. */
  function EmitComments(items: seq<Value>, indent: nat): seq<Line> {
    if items == [] then []
    else
      [Line(indent, true, Some("id"), Some(EmitInline(Field(items[0], "id")))),
       Line(indent + 2, false, Some("created_at"), Some(EmitInline(Field(items[0], "created_at")))),
       Line(indent + 2, false, Some("created_by"), Some(EmitInline(Field(items[0], "created_by")))),
       Line(indent + 2, false, Some("body"), Some(EmitInline(Field(items[0], "body"))))]
      + EmitComments(items[1..], indent)
  }

  /** A missing field prints like an empty mapping. */
  function Field(item: Value, name: string): Value {
    if item.Map? then Lookup(item.entries, name) else Map([])
  }

  function Lookup(entries: Entries, name: string): Value {
    if entries == [] then Map([])
    else if entries[0].key == name then entries[0].value
    else Lookup(entries[1..], name)
  }

  function EmitNested(v: Value, indent: nat): seq<Line>
    decreases v, 1
  {
    match v
    case List(items) => EmitItems(items, indent)
    case Map(entries) => EmitEntries(entries, indent)
    case _ => []
  }

  function EmitItems(items: seq<Value>, indent: nat): seq<Line>
    decreases items, 0
  {
    if items == [] then [] else EmitItem(items[0], indent) + EmitItems(items[1..], indent)
  }

  function EmitEntries(entries: Entries, indent: nat): seq<Line>
    decreases entries, 0
  {
    if entries == [] then [] else EmitProperty(entries[0].key, entries[0].value, indent, true) + EmitEntries(entries[1..], indent)
  }

  /** Turn the first line of a property into the first line of a list item. */
  function Dashed(ls: seq<Line>, indent: nat): (r: seq<Line>)
    requires |ls| > 0
    ensures |r| == |ls|
  {
    [ls[0].(indent := indent, dash := true)] + ls[1..]
  }

  function EmitItem(item: Value, indent: nat): (ls: seq<Line>)
    ensures |ls| > 0
    decreases item, 3
  {
    if IsInline(item) then [Line(indent, true, None, Some(EmitInline(item)))]
    else
      match item
      case List(items) => [Line(indent, true, None, None)] + EmitItems(items, indent + 2)
      case Map(entries) =>
        Dashed(EmitProperty(entries[0].key, entries[0].value, indent + 2, false), indent) + EmitEntries(entries[1..], indent + 2)
      case _ => [Line(indent, true, None, None)]
  }

  // ---- Double-quoted scalars ----

  function HexDigit(n: nat): char
    requires n < 16
  {
    "0123456789ABCDEF"[n]
  }

  function Hex4(code: nat): (s: string)
    requires code < 0x10000
    ensures |s| == 4
  {
    [HexDigit(code / 0x1000), HexDigit(code / 0x100 % 16), HexDigit(code / 16 % 16), HexDigit(code % 16)]
  }

  /** Characters written as `\u` and four digits. */
  predicate IsControl(c: char) {
    var code := c as int;
    code <= 0x1f || 0x7f <= code <= 0x9f || code == 0x2028 || code == 0x2029
  }

  function Escape(c: char): string {
    if c == '"' || c == '\\' then ['\\', c]
    else if c as int == 0x08 then ['\\', 'b']
    else if c as int == 0x09 then ['\\', 't']
    else if c as int == 0x0a then ['\\', 'n']
    else if c as int == 0x0c then ['\\', 'f']
    else if c as int == 0x0d then ['\\', 'r']
    else if IsControl(c) then ['\\', 'u'] + Hex4(c as int)
    else [c]
  }

  function EscapeAll(s: string): string {
    if s == "" then "" else Escape(s[0]) + EscapeAll(s[1..])
  }

  /** What `quoteYamlString` returns. */
  function Quote(s: string): string {
    ['"'] + EscapeAll(s) + ['"']
  }

  lemma EscapeNext(result: string, value: string, i: nat)
    requires i < |value|
    ensures result + EscapeAll(value[i..]) == (result + Escape(value[i])) + EscapeAll(value[i + 1..])
  {
    assert value[i..][0] == value[i] && value[i..][1..] == value[i + 1..];
    Associates(result, Escape(value[i]), EscapeAll(value[i + 1..]));
  }

  lemma Associates<T>(a: seq<T>, b: seq<T>, c: seq<T>)
    ensures (a + b) + c == a + (b + c)
  {
  }

  /** The loop over the characters of a string. */
  method QuoteYamlString(value: string) returns (result: string)
    ensures result == Quote(value)
  {
    result := ['"'];
    for i := 0 to |value|
      invariant result + EscapeAll(value[i..]) == ['"'] + EscapeAll(value)
    {
      EscapeNext(result, value, i);
      result := result + Escape(value[i]);
    }
    assert value[|value|..] == "" && result + "" == result;
    result := result + ['"'];
  }

  function HexValue(c: char): Option<nat> {
    if '0' <= c <= '9' then Some(c as int - '0' as int)
    else if 'A' <= c <= 'F' then Some(c as int - 'A' as int + 10)
    else None
  }

  function Hex4Value(s: string): Option<nat>
    requires |s| == 4
  {
    var a, b, c, d := HexValue(s[0]), HexValue(s[1]), HexValue(s[2]), HexValue(s[3]);
    if a.Some? && b.Some? && c.Some? && d.Some? then
      var code := a.value * 0x1000 + b.value * 0x100 + c.value * 16 + d.value;
      if code < 0xd800 then Some(code) else None
    else None
  }

  /** Read one character of a double-quoted scalar; its second result is how many were consumed. */
  function Unescape(s: string): Option<(char, nat)>
    requires s != ""
  {
    if s[0] != '\\' then Some((s[0], 1))
    else if |s| < 2 then None
    else if s[1] == '"' || s[1] == '\\' then Some((s[1], 2))
    else if s[1] == 'b' then Some((0x08 as char, 2))
    else if s[1] == 't' then Some((0x09 as char, 2))
    else if s[1] == 'n' then Some((0x0a as char, 2))
    else if s[1] == 'f' then Some((0x0c as char, 2))
    else if s[1] == 'r' then Some((0x0d as char, 2))
    else if s[1] == 'u' && |s| >= 6 && Hex4Value(s[2..6]).Some? then Some((Hex4Value(s[2..6]).value as char, 6))
    else None
  }

  /** Read up to the closing quote; returns the scalar and what follows it. */
  function ReadQuoted(s: string): Option<(string, string)>
    decreases |s|
  {
    if s == "" then None
    else if s[0] == '"' then Some(("", s[1..]))
    else
      match Unescape(s)
      case None => None
      case Some((c, used)) =>
        if used > |s| then None
        else
          match ReadQuoted(s[used..])
          case None => None
          case Some((rest, tail)) => Some(([c] + rest, tail))
  }

  lemma HexDigitValue(n: nat)
    requires n < 16
    ensures HexValue(HexDigit(n)) == Some(n)
  {
  }

  lemma HexDigitsAddUp(code: nat)
    requires code < 0x10000
    ensures code / 0x1000 * 0x1000 + code / 0x100 % 16 * 0x100 + code / 16 % 16 * 16 + code % 16 == code
  {
    var a := code / 16;
    assert code == 16 * a + code % 16;
    assert a == 16 * (a / 16) + a % 16 && code / 0x100 == a / 16;
    var b := a / 16;
    assert b == 16 * (b / 16) + b % 16 && code / 0x1000 == b / 16;
  }

  lemma Hex4RoundTrip(code: nat)
    requires code < 0xd800
    ensures Hex4Value(Hex4(code)) == Some(code)
  {
    HexDigitsAddUp(code);
    Hex4Digits(code / 0x1000, code / 0x100 % 16, code / 16 % 16, code % 16, code);
  }

  lemma Hex4Digits(a: nat, b: nat, c: nat, d: nat, code: nat)
    requires a < 16 && b < 16 && c < 16 && d < 16
    requires code == a * 0x1000 + b * 0x100 + c * 16 + d && code < 0xd800
    ensures Hex4Value([HexDigit(a), HexDigit(b), HexDigit(c), HexDigit(d)]) == Some(code)
  {
    HexDigitValue(a);
    HexDigitValue(b);
    HexDigitValue(c);
    HexDigitValue(d);
  }

  /** A named escape is two characters, the second one telling which. */
  lemma UnescapeNamed(c: char, tail: string)
    requires c == '"' || c == '\\' || c as int in {0x08, 0x09, 0x0a, 0x0c, 0x0d}
    ensures |Escape(c)| == 2 && Escape(c)[0] == '\\'
    ensures Unescape(Escape(c) + tail) == Some((c, 2))
  {
    var s := Escape(c) + tail;
    assert s[0] == Escape(c)[0] && s[1] == Escape(c)[1];
  }

  lemma UnescapeHex(c: char, tail: string)
    requires IsControl(c)
    ensures Unescape(['\\', 'u'] + Hex4(c as int) + tail) == Some((c, 6))
  {
    var s := ['\\', 'u'] + Hex4(c as int) + tail;
    assert s[2..6] == Hex4(c as int);
    Hex4RoundTrip(c as int);
  }

  lemma UnescapeEscape(c: char, tail: string)
    ensures Escape(c) != "" && Escape(c)[0] != '"'
    ensures Unescape(Escape(c) + tail) == Some((c, |Escape(c)|))
  {
    if c == '"' || c == '\\' || c as int in {0x08, 0x09, 0x0a, 0x0c, 0x0d} {
      UnescapeNamed(c, tail);
    } else if IsControl(c) {
      UnescapeHex(c, tail);
    }
  }

  lemma ReadQuotedStep(escaped: string, rest: string, c: char)
    requires escaped != "" && escaped[0] != '"' && Unescape(escaped + rest) == Some((c, |escaped|))
    ensures ReadQuoted(escaped + rest) ==
      match ReadQuoted(rest) case None => None case Some((text, tail)) => Some(([c] + text, tail))
  {
    assert (escaped + rest)[|escaped|..] == rest;
  }

  /** Quoting is undone by reading, whatever follows the closing quote. */
  lemma {:induction false} ReadQuotedQuote(s: string, tail: string)
    ensures ReadQuoted(EscapeAll(s) + ['"'] + tail) == Some((s, tail))
  {
    if s == "" {
      assert EscapeAll(s) + ['"'] + tail == ['"'] + tail;
    } else {
      var rest := EscapeAll(s[1..]) + ['"'] + tail;
      ReadQuotedQuote(s[1..], tail);
      assert EscapeAll(s) + ['"'] + tail == Escape(s[0]) + rest;
      ReadQuotedFirst(s[0], rest, s[1..], tail);
      assert [s[0]] + s[1..] == s;
    }
  }

  lemma ReadQuotedFirst(c: char, rest: string, read: string, tail: string)
    requires ReadQuoted(rest) == Some((read, tail))
    ensures ReadQuoted(Escape(c) + rest) == Some(([c] + read, tail))
  {
    UnescapeEscape(c, rest);
    assert (Escape(c) + rest)[|Escape(c)|..] == rest;
    ReadQuotedStep(Escape(c), rest, c);
  }

  // ---- Inline values ----

  /** A printed number: it starts like one and holds only characters of one. */
  predicate IsNumber(token: string) {
    && token != "" && (token[0] == '-' || Identities.IsDigit(token[0]))
    && forall i :: 0 <= i < |token| ==> Identities.IsDigit(token[i]) || token[i] in "+-.eE"
  }

  /** What is left of a value printed inline. */
  function Flat(v: Value): Value {
    match v
    case List(_) => List([])
    case Map(_) => Map([])
    case _ => v
  }

  function ReadInline(text: string): Option<Value> {
    if text == "" then None
    else if text[0] == '"' then
      match ReadQuoted(text[1..])
      case None => None
      case Some((s, tail)) => if tail == "" then Some(Str(s)) else None
    else if text == "true" then Some(Bool(true))
    else if text == "false" then Some(Bool(false))
    else if text == "null" then Some(Null)
    else if text == "[]" then Some(List([]))
    else if text == "{}" then Some(Map([]))
    else if IsNumber(text) then Some(Num(text))
    else None
  }

  predicate NumbersPrinted(v: Value) {
    v.Num? ==> IsNumber(v.token)
  }

  lemma ReadInlineEmit(v: Value)
    requires NumbersPrinted(v)
    ensures ReadInline(EmitInline(v)) == Some(Flat(v))
  {
    match v
    case Str(s) =>
      assert Quote(s)[1..] == EscapeAll(s) + ['"'] + "";
      ReadQuotedQuote(s, "");
    case Num(token) =>
      assert token[0] != 't' && token[0] != 'f' && token[0] != 'n' && token[0] != '[' && token[0] != '{';
    case _ =>
  }

  // ---- Reading lines into values ----

  function BodyLength(ls: seq<Line>, indent: nat): (n: nat)
    ensures n <= |ls|
  {
    if ls != [] && ls[0].indent > indent then 1 + BodyLength(ls[1..], indent) else 0
  }

  function Insert(p: Property, es: Entries): Entries {
    if es == [] || Identities.Before(p.key, es[0].key) then [p] + es else [es[0]] + Insert(p, es[1..])
  }

  /** The entries of a mapping by ascending key. */
  function Sorted(es: Entries): Entries {
    if es == [] then [] else Insert(es[0], Sorted(es[1..]))
  }

  function MapOf(es: Option<Entries>): Option<Value> {
    match es case None => None case Some(e) => Some(Map(Sorted(e)))
  }

  function ReadNested(ls: seq<Line>, indent: nat): Option<Value>
    decreases |ls|, 3
  {
    if ls == [] then None
    else if ls[0].dash then
      match ReadItems(ls, indent) case None => None case Some(items) => Some(List(items))
    else MapOf(ReadEntries(ls, indent))
  }

  function ReadItems(ls: seq<Line>, indent: nat): Option<seq<Value>>
    decreases |ls|, 2
  {
    if ls == [] then Some([])
    else if !ls[0].dash || ls[0].indent != indent then None
    else
      var b := BodyLength(ls[1..], indent);
      match (ReadItem(ls[0], ls[1..b + 1], indent), ReadItems(ls[b + 1..], indent))
      case (Some(item), Some(rest)) => Some([item] + rest)
      case _ => None
  }

  function ReadItem(head: Line, body: seq<Line>, indent: nat): Option<Value>
    decreases |body| + 1, 1
  {
    if head.key.Some? then MapOf(ReadEntries([Line(indent + 2, false, head.key, head.inline)] + body, indent + 2))
    else if head.inline.Some? then (if body == [] then ReadInline(head.inline.value) else None)
    else ReadNested(body, indent + 2)
  }

  function ReadEntries(ls: seq<Line>, indent: nat): Option<Entries>
    decreases |ls|, 0
  {
    if ls == [] then Some([])
    else if ls[0].dash || ls[0].key == None || ls[0].indent != indent then None
    else
      var b := BodyLength(ls[1..], indent);
      var body := ls[1..b + 1];
      var v := if ls[0].inline.Some? then (if body == [] then ReadInline(ls[0].inline.value) else None) else ReadNested(body, indent + 2);
      match (v, ReadEntries(ls[b + 1..], indent))
      case (Some(value), Some(rest)) => Some([Property(ls[0].key.value, value)] + rest)
      case _ => None
  }

  // ---- What is read back ----

  /** A list under a key `comments` comes back as four printed fields per item. */
  function AsComment(item: Value): Value {
    Map([
      Property("body", Flat(Field(item, "body"))), Property("created_at", Flat(Field(item, "created_at"))),
      Property("created_by", Flat(Field(item, "created_by"))), Property("id", Flat(Field(item, "id")))])
  }

  function AsComments(items: seq<Value>): (r: seq<Value>)
    ensures |r| == |items|
    ensures forall i :: 0 <= i < |items| ==> r[i] == AsComment(items[i])
  {
    if items == [] then [] else [AsComment(items[0])] + AsComments(items[1..])
  }

  function Reread(v: Value): Value
    decreases v, 1
  {
    match v
    case List(items) => List(RereadItems(items))
    case Map(es) => Map(RereadEntries(es))
    case _ => v
  }

  function RereadItems(items: seq<Value>): seq<Value>
    decreases items, 0
  {
    if items == [] then [] else [RereadItem(items[0])] + RereadItems(items[1..])
  }

  /** The first key of a mapping in a list is not special. */
  function RereadItem(item: Value): Value
    decreases item, 2
  {
    if item.Map? && item.entries != [] then
      Map([Property(item.entries[0].key, Reread(item.entries[0].value))] + RereadEntries(item.entries[1..]))
    else Reread(item)
  }

  function RereadEntries(es: Entries): Entries
    decreases es, 0
  {
    if es == [] then [] else [Property(es[0].key, RereadProperty(es[0].key, es[0].value, true))] + RereadEntries(es[1..])
  }

  function RereadProperty(key: string, v: Value, special: bool): Value
    decreases v, 2
  {
    if special && key == "comments" && v.List? then List(AsComments(v.items)) else Reread(v)
  }

  // ---- Canonical values ----

  predicate Ascending(es: Entries) {
    forall i, j :: 0 <= i < j < |es| ==> Identities.Before(es[i].key, es[j].key)
  }

  predicate Canonical(v: Value)
    decreases v, 1
  {
    match v
    case List(items) => CanonicalItems(items)
    case Map(es) => Ascending(es) && CanonicalEntries(es)
    case _ => NumbersPrinted(v)
  }

  predicate CanonicalItems(items: seq<Value>)
    decreases items, 0
  {
    items == [] || (Canonical(items[0]) && CanonicalItems(items[1..]))
  }

  predicate CanonicalEntries(es: Entries)
    decreases es, 0
  {
    es == [] || (Canonical(es[0].value) && CanonicalEntries(es[1..]))
  }

  // ---- The shape of the emitted lines ----

  ghost predicate Deeper(ls: seq<Line>, indent: nat) {
    forall i :: 0 <= i < |ls| ==> ls[i].indent > indent
  }

  /** What may follow a block at this indent. */
  ghost predicate Ends(tail: seq<Line>, indent: nat) {
    tail == [] || tail[0].indent <= indent
  }

  lemma {:induction false} BodyEnds(body: seq<Line>, tail: seq<Line>, indent: nat)
    requires Deeper(body, indent) && Ends(tail, indent)
    ensures BodyLength(body + tail, indent) == |body|
  {
    if body == [] {
      assert body + tail == tail;
    } else {
      assert (body + tail)[1..] == body[1..] + tail;
      BodyEnds(body[1..], tail, indent);
    }
  }

  lemma {:induction false} PropertyShape(key: string, v: Value, indent: nat, special: bool)
    ensures var ls := EmitProperty(key, v, indent, special);
      && ls[0] == Line(indent, false, Some(key), if IsInline(v) then Some(EmitInline(v)) else None)
      && Deeper(ls[1..], indent)
    decreases v, 2
  {
    if !IsInline(v) {
      var body := if special && key == "comments" && v.List? then EmitComments(v.items, indent + 2) else EmitNested(v, indent + 2);
      assert EmitProperty(key, v, indent, special)[1..] == body;
      if special && key == "comments" && v.List? {
        CommentsShape(v.items, indent + 2);
      } else {
        NestedShape(v, indent + 2);
      }
    }
  }

  lemma {:induction false} CommentsShape(items: seq<Value>, indent: nat)
    ensures forall i :: 0 <= i < |EmitComments(items, indent)| ==> EmitComments(items, indent)[i].indent >= indent
    ensures items != [] ==> EmitComments(items, indent) != [] && EmitComments(items, indent)[0].indent == indent && EmitComments(items, indent)[0].dash
  {
    if items != [] {
      CommentsShape(items[1..], indent);
    }
  }

  lemma {:induction false} NestedShape(v: Value, indent: nat)
    ensures forall i :: 0 <= i < |EmitNested(v, indent)| ==> EmitNested(v, indent)[i].indent >= indent
    decreases v, 1
  {
    match v
    case List(items) => ItemsShape(items, indent);
    case Map(es) => EntriesShape(es, indent);
    case _ =>
  }

  lemma {:induction false} ItemsShape(items: seq<Value>, indent: nat)
    ensures forall i :: 0 <= i < |EmitItems(items, indent)| ==> EmitItems(items, indent)[i].indent >= indent
    ensures items != [] ==> EmitItems(items, indent) != [] && EmitItems(items, indent)[0].indent == indent && EmitItems(items, indent)[0].dash
    decreases items, 0
  {
    if items != [] {
      ItemShape(items[0], indent);
      ItemsShape(items[1..], indent);
    }
  }

  lemma {:induction false} EntriesShape(es: Entries, indent: nat)
    ensures forall i :: 0 <= i < |EmitEntries(es, indent)| ==> EmitEntries(es, indent)[i].indent >= indent
    ensures es != [] ==> EmitEntries(es, indent) != [] && EmitEntries(es, indent)[0].indent == indent && !EmitEntries(es, indent)[0].dash
    decreases es, 0
  {
    if es != [] {
      PropertyShape(es[0].key, es[0].value, indent, true);
      EntriesShape(es[1..], indent);
      DeepIsAtLeast(EmitProperty(es[0].key, es[0].value, indent, true), indent);
    }
  }

  lemma DeepIsAtLeast(ls: seq<Line>, indent: nat)
    requires ls != [] && ls[0].indent >= indent && Deeper(ls[1..], indent)
    ensures forall i :: 0 <= i < |ls| ==> ls[i].indent >= indent
  {
    forall i | 0 <= i < |ls| ensures ls[i].indent >= indent {
      if i > 0 { assert ls[i] == ls[1..][i - 1]; }
    }
  }

  lemma {:induction false} ItemShape(item: Value, indent: nat)
    ensures var ls := EmitItem(item, indent); ls[0].indent == indent && ls[0].dash && Deeper(ls[1..], indent)
    ensures forall i :: 0 <= i < |EmitItem(item, indent)| ==> EmitItem(item, indent)[i].indent >= indent
    decreases item, 3
  {
    if !IsInline(item) {
      match item
      case List(items) =>
        ItemsShape(items, indent + 2);
        assert EmitItem(item, indent)[1..] == EmitItems(items, indent + 2);
      case Map(es) =>
        MapItemShape(es, indent);
      case _ =>
    }
    DeepIsAtLeast(EmitItem(item, indent), indent);
  }

  /** The first entry of a mapping item stands behind the dash. */
  lemma {:induction false} MapItemShape(es: Entries, indent: nat)
    requires es != []
    ensures var ls := EmitItem(Map(es), indent); ls[0].indent == indent && ls[0].dash && Deeper(ls[1..], indent)
    decreases es, 1
  {
    var first, rest := EmitProperty(es[0].key, es[0].value, indent + 2, false), EmitEntries(es[1..], indent + 2);
    PropertyShape(es[0].key, es[0].value, indent + 2, false);
    EntriesShape(es[1..], indent + 2);
    DashedShape(first, rest, indent);
  }

  lemma DashedShape(first: seq<Line>, rest: seq<Line>, indent: nat)
    requires first != [] && Deeper(first[1..], indent + 2) && Deeper(rest, indent + 1)
    ensures var ls := Dashed(first, indent) + rest; ls[0].indent == indent && ls[0].dash && Deeper(ls[1..], indent)
  {
    assert (Dashed(first, indent) + rest)[1..] == first[1..] + rest;
  }

  // ---- Sorting what was read ----

  lemma {:induction false} SortedIsIdentity(es: Entries)
    requires Ascending(es)
    ensures Sorted(es) == es
  {
    if es != [] {
      SortedIsIdentity(es[1..]);
      if |es| > 1 {
        assert Identities.Before(es[0].key, es[1].key);
      }
    }
  }

  lemma {:induction false} RereadKeepsKeys(es: Entries)
    ensures |RereadEntries(es)| == |es|
    ensures forall i :: 0 <= i < |es| ==> RereadEntries(es)[i].key == es[i].key
  {
    if es != [] {
      RereadKeepsKeys(es[1..]);
    }
  }

  lemma SortFour(a: Property, b: Property, c: Property, d: Property)
    requires Identities.Before(b.key, c.key) && !Identities.Before(c.key, d.key) && !Identities.Before(b.key, d.key)
    requires !Identities.Before(a.key, d.key) && !Identities.Before(a.key, b.key) && !Identities.Before(a.key, c.key)
    ensures Sorted([a, b, c, d]) == [d, b, c, a]
  {
    assert Insert(c, [d]) == [d, c] by { assert [d][1..] == []; }
    assert Insert(b, [d, c]) == [d, b, c] by { assert [d, c][1..] == [c]; }
    assert Insert(a, [d, b, c]) == [d, b, c, a] by {
      assert Insert(a, [c]) == [c, a] by { assert [c][1..] == []; }
      assert Insert(a, [b, c]) == [b, c, a] by { assert [b, c][1..] == [c]; }
      assert [d, b, c][1..] == [b, c];
    }
    assert Sorted([d]) == [d] by { assert [d][1..] == []; }
    assert Sorted([c, d]) == [d, c] by { assert [c, d][1..] == [d]; }
    assert Sorted([b, c, d]) == [d, b, c] by { assert [b, c, d][1..] == [c, d]; }
    assert [a, b, c, d][1..] == [b, c, d];
  }

  lemma CommentKeysOrdered()
    ensures Identities.Before("created_at", "created_by")
    ensures !Identities.Before("created_by", "body") && !Identities.Before("created_at", "body")
    ensures !Identities.Before("id", "body") && !Identities.Before("id", "created_at") && !Identities.Before("id", "created_by")
  {
    Identities.OrderOfExtensions("created_", "at", "by");
    assert "created_" + "at" == "created_at" && "created_" + "by" == "created_by";
  }

  // ---- Reading back ----

  function Prepend(p: Option<Value>, key: string, rest: Option<Entries>): Option<Entries> {
    match (p, rest)
    case (Some(v), Some(es)) => Some([Property(key, v)] + es)
    case _ => None
  }

  /** One block of a mapping is read on its own. */
  lemma ReadEntryBlock(head: Line, body: seq<Line>, tail: seq<Line>, indent: nat)
    requires !head.dash && head.key.Some? && head.indent == indent
    requires Deeper(body, indent) && Ends(tail, indent)
    ensures ReadEntries([head] + body + tail, indent) ==
      Prepend(
        if head.inline.Some? then (if body == [] then ReadInline(head.inline.value) else None) else ReadNested(body, indent + 2),
        head.key.value, ReadEntries(tail, indent))
  {
    var ls := [head] + body + tail;
    assert ls[1..] == body + tail;
    BodyEnds(body, tail, indent);
    assert ls[1..|body| + 1] == body && ls[|body| + 1..] == tail;
  }

  lemma ReadItemBlock(head: Line, body: seq<Line>, tail: seq<Line>, indent: nat)
    requires head.dash && head.indent == indent
    requires Deeper(body, indent) && Ends(tail, indent)
    ensures ReadItems([head] + body + tail, indent) ==
      match (ReadItem(head, body, indent), ReadItems(tail, indent))
      case (Some(item), Some(rest)) => Some([item] + rest)
      case _ => None
  {
    var ls := [head] + body + tail;
    assert ls[1..] == body + tail;
    BodyEnds(body, tail, indent);
    assert ls[1..|body| + 1] == body && ls[|body| + 1..] == tail;
  }

  lemma FlatInline(v: Value)
    requires IsInline(v) && NumbersPrinted(v)
    ensures ReadInline(EmitInline(v)) == Some(v)
  {
    ReadInlineEmit(v);
  }

  lemma {:induction false} PropertyRead(key: string, v: Value, indent: nat, special: bool, tail: seq<Line>)
    requires Canonical(v) && Ends(tail, indent)
    ensures ReadEntries(EmitProperty(key, v, indent, special) + tail, indent)
         == Prepend(Some(RereadProperty(key, v, special)), key, ReadEntries(tail, indent))
    decreases v, 2
  {
    var ls := EmitProperty(key, v, indent, special);
    PropertyShape(key, v, indent, special);
    assert ls == [ls[0]] + ls[1..];
    ReadEntryBlock(ls[0], ls[1..], tail, indent);
    if IsInline(v) {
      FlatInline(v);
      assert ls[1..] == [];
    } else if special && key == "comments" && v.List? {
      assert ls[1..] == EmitComments(v.items, indent + 2);
      CommentsShape(v.items, indent + 2);
      CommentsRead(v.items, indent + 2);
    } else {
      assert ls[1..] == EmitNested(v, indent + 2);
      NestedRead(v, indent + 2);
    }
  }

  lemma {:induction false} EntriesRead(es: Entries, indent: nat)
    requires CanonicalEntries(es)
    ensures ReadEntries(EmitEntries(es, indent), indent) == Some(RereadEntries(es))
    decreases es, 0
  {
    if es != [] {
      EntriesRead(es[1..], indent);
      EntriesShape(es[1..], indent);
      PropertyRead(es[0].key, es[0].value, indent, true, EmitEntries(es[1..], indent));
    }
  }

  lemma {:induction false} NestedRead(v: Value, indent: nat)
    requires Canonical(v) && !IsInline(v)
    ensures ReadNested(EmitNested(v, indent), indent) == Some(Reread(v))
    decreases v, 1
  {
    match v
    case List(items) =>
      ItemsShape(items, indent);
      ItemsRead(items, indent);
    case Map(es) =>
      EntriesShape(es, indent);
      EntriesRead(es, indent);
      RereadKeepsKeys(es);
      SortedIsIdentity(RereadEntries(es));
    case _ =>
  }

  lemma {:induction false} ItemsRead(items: seq<Value>, indent: nat)
    requires CanonicalItems(items)
    ensures ReadItems(EmitItems(items, indent), indent) == Some(RereadItems(items))
    decreases items, 0
  {
    if items != [] {
      ItemsRead(items[1..], indent);
      ItemsShape(items[1..], indent);
      ItemShape(items[0], indent);
      var ls := EmitItem(items[0], indent);
      assert ls == [ls[0]] + ls[1..];
      ReadItemBlock(ls[0], ls[1..], EmitItems(items[1..], indent), indent);
      ItemRead(items[0], indent);
    }
  }

  lemma {:induction false} ItemRead(item: Value, indent: nat)
    requires Canonical(item)
    ensures var ls := EmitItem(item, indent); ReadItem(ls[0], ls[1..], indent) == Some(RereadItem(item))
    decreases item, 3
  {
    var ls := EmitItem(item, indent);
    if IsInline(item) {
      FlatInline(item);
      assert ls[1..] == [];
    } else {
      match item
      case List(items) =>
        assert ls[1..] == EmitItems(items, indent + 2);
        NestedRead(item, indent + 2);
      case Map(es) =>
        MapItemRead(es, indent);
      case _ =>
    }
  }

  lemma {:induction false} MapItemRead(es: Entries, indent: nat)
    requires es != [] && Ascending(es) && CanonicalEntries(es)
    ensures var ls := EmitItem(Map(es), indent); ReadItem(ls[0], ls[1..], indent) == Some(RereadItem(Map(es)))
    decreases es, 3
  {
    var first := EmitProperty(es[0].key, es[0].value, indent + 2, false);
    var rest := EmitEntries(es[1..], indent + 2);
    PropertyShape(es[0].key, es[0].value, indent + 2, false);
    EntriesShape(es[1..], indent + 2);
    PropertyRead(es[0].key, es[0].value, indent + 2, false, rest);
    EntriesRead(es[1..], indent + 2);
    SortedFirst(es);
    MapItemLines(es, indent, first, rest);
  }

  /** The lines of an item, without its dash, are those of its entries. */
  lemma MapItemLines(es: Entries, indent: nat, first: seq<Line>, rest: seq<Line>)
    requires es != [] && first == EmitProperty(es[0].key, es[0].value, indent + 2, false) && rest == EmitEntries(es[1..], indent + 2)
    requires first[0] == Line(indent + 2, false, Some(es[0].key), first[0].inline)
    ensures var ls := EmitItem(Map(es), indent);
      && ls[0].key.Some?
      && [Line(indent + 2, false, ls[0].key, ls[0].inline)] + ls[1..] == first + rest
  {
    var ls := EmitItem(Map(es), indent);
    assert ls == Dashed(first, indent) + rest;
    assert ls[1..] == first[1..] + rest;
    assert [first[0]] + first[1..] == first;
  }

  lemma SortedFirst(es: Entries)
    requires es != [] && Ascending(es)
    ensures var read := [Property(es[0].key, Reread(es[0].value))] + RereadEntries(es[1..]); Sorted(read) == read
  {
    RereadKeepsKeys(es[1..]);
    SortedIsIdentity([Property(es[0].key, Reread(es[0].value))] + RereadEntries(es[1..]));
  }

  lemma {:induction false} CommentsRead(items: seq<Value>, indent: nat)
    requires CanonicalItems(items)
    ensures ReadItems(EmitComments(items, indent), indent) == Some(AsComments(items))
  {
    if items != [] {
      CommentsRead(items[1..], indent);
      CommentsShape(items[1..], indent);
      var ls := EmitComments(items, indent);
      var tail := EmitComments(items[1..], indent);
      assert ls == [ls[0]] + ls[1..4] + tail;
      ReadItemBlock(ls[0], ls[1..4], tail, indent);
      CommentRead(items[0], indent);
    }
  }

  /** A line with an inline value is a block without a body. */
  lemma InlineEntry(key: string, v: Value, tail: seq<Line>, indent: nat)
    requires NumbersPrinted(v) && Ends(tail, indent)
    ensures ReadEntries([Line(indent, false, Some(key), Some(EmitInline(v)))] + tail, indent)
         == Prepend(Some(Flat(v)), key, ReadEntries(tail, indent))
  {
    var head := Line(indent, false, Some(key), Some(EmitInline(v)));
    ReadEntryBlock(head, [], tail, indent);
    assert [head] + [] + tail == [head] + tail;
    ReadInlineEmit(v);
  }

  lemma TwoEntries(ka: string, kb: string, a: Value, b: Value, tail: seq<Line>, rest: Entries, indent: nat)
    requires NumbersPrinted(a) && NumbersPrinted(b) && Ends(tail, indent)
    requires ReadEntries(tail, indent) == Some(rest)
    ensures ReadEntries([Line(indent, false, Some(ka), Some(EmitInline(a))), Line(indent, false, Some(kb), Some(EmitInline(b)))] + tail, indent)
      == Some([Property(ka, Flat(a)), Property(kb, Flat(b))] + rest)
  {
    var la, lb := Line(indent, false, Some(ka), Some(EmitInline(a))), Line(indent, false, Some(kb), Some(EmitInline(b)));
    InlineEntry(kb, b, tail, indent);
    InlineEntry(ka, a, [lb] + tail, indent);
    TwoThen(la, lb, tail);
    TwoThen(Property(ka, Flat(a)), Property(kb, Flat(b)), rest);
  }

  lemma TwoThen<T>(x: T, y: T, rest: seq<T>)
    ensures [x, y] + rest == [x] + ([y] + rest)
  {
  }

  lemma FourEntries(ka: string, kb: string, kc: string, kd: string, a: Value, b: Value, c: Value, d: Value, indent: nat)
    requires NumbersPrinted(a) && NumbersPrinted(b) && NumbersPrinted(c) && NumbersPrinted(d)
    ensures ReadEntries([
        Line(indent, false, Some(ka), Some(EmitInline(a))), Line(indent, false, Some(kb), Some(EmitInline(b))),
        Line(indent, false, Some(kc), Some(EmitInline(c))), Line(indent, false, Some(kd), Some(EmitInline(d)))], indent)
      == Some([Property(ka, Flat(a)), Property(kb, Flat(b)), Property(kc, Flat(c)), Property(kd, Flat(d))])
  {
    var la, lb := Line(indent, false, Some(ka), Some(EmitInline(a))), Line(indent, false, Some(kb), Some(EmitInline(b)));
    var lc, ld := Line(indent, false, Some(kc), Some(EmitInline(c))), Line(indent, false, Some(kd), Some(EmitInline(d)));
    TwoEntries(kc, kd, c, d, [], [], indent);
    assert [lc, ld] + [] == [lc, ld];
    var pa, pb, pc, pd := Property(ka, Flat(a)), Property(kb, Flat(b)), Property(kc, Flat(c)), Property(kd, Flat(d));
    assert [pc, pd] + [] == [pc, pd];
    TwoEntries(ka, kb, a, b, [lc, ld], [pc, pd], indent);
    assert [la, lb] + [lc, ld] == [la, lb, lc, ld];
    assert [pa, pb] + [pc, pd] == [pa, pb, pc, pd];
  }

  lemma CommentRead(item: Value, indent: nat)
    requires Canonical(item)
    ensures var ls := EmitComments([item], indent); ReadItem(ls[0], ls[1..4], indent) == Some(AsComment(item))
  {
    var a, b, c, d := Field(item, "id"), Field(item, "created_at"), Field(item, "created_by"), Field(item, "body");
    FieldCanonical(item, "id");
    FieldCanonical(item, "created_at");
    FieldCanonical(item, "created_by");
    FieldCanonical(item, "body");
    CanonicalPrints(a);
    CanonicalPrints(b);
    CanonicalPrints(c);
    CanonicalPrints(d);
    FourEntries("id", "created_at", "created_by", "body", a, b, c, d, indent + 2);
    CommentKeysOrdered();
    SortFour(Property("id", Flat(a)), Property("created_at", Flat(b)), Property("created_by", Flat(c)), Property("body", Flat(d)));
    CommentLines(item, indent);
  }

  lemma CommentLines(item: Value, indent: nat)
    ensures
      var ls := EmitComments([item], indent);
      && |ls| == 4 && ls[0].key == Some("id")
      && [Line(indent + 2, false, ls[0].key, ls[0].inline)] + ls[1..4] == [
        Line(indent + 2, false, Some("id"), Some(EmitInline(Field(item, "id")))),
        Line(indent + 2, false, Some("created_at"), Some(EmitInline(Field(item, "created_at")))),
        Line(indent + 2, false, Some("created_by"), Some(EmitInline(Field(item, "created_by")))),
        Line(indent + 2, false, Some("body"), Some(EmitInline(Field(item, "body"))))]
  {
    assert EmitComments([], indent) == [];
    assert [item][1..] == [];
  }

  lemma CanonicalPrints(v: Value)
    requires Canonical(v)
    ensures NumbersPrinted(v)
  {
  }

  lemma FieldCanonical(item: Value, name: string)
    requires Canonical(item)
    ensures Canonical(Field(item, name))
  {
    if item.Map? { LookupCanonical(item.entries, name); }
  }

  lemma {:induction false} LookupCanonical(es: Entries, name: string)
    requires CanonicalEntries(es)
    ensures Canonical(Lookup(es, name))
  {
    if es != [] { LookupCanonical(es[1..], name); }
  }

  // ---- Which values come back ----

  /** The four comment fields, each of which prints in one line. */
  predicate IsComment(item: Value) {
    && item.Map? && |item.entries| == 4
    && item.entries[0].key == "body" && item.entries[1].key == "created_at"
    && item.entries[2].key == "created_by" && item.entries[3].key == "id"
    && forall i :: 0 <= i < 4 ==> IsInline(item.entries[i].value)
  }

  predicate AllComments(items: seq<Value>) {
    forall i :: 0 <= i < |items| ==> IsComment(items[i])
  }

  /** Every list under a key `comments`, at any depth, is a list of comments. */
  predicate CommentsSafe(v: Value)
    decreases v, 1
  {
    match v
    case List(items) => ItemsSafe(items)
    case Map(es) => EntriesSafe(es)
    case _ => true
  }

  predicate ItemsSafe(items: seq<Value>)
    decreases items, 0
  {
    items == [] || (ItemSafe(items[0]) && ItemsSafe(items[1..]))
  }

  predicate ItemSafe(item: Value)
    decreases item, 2
  {
    if item.Map? && item.entries != [] then CommentsSafe(item.entries[0].value) && EntriesSafe(item.entries[1..])
    else CommentsSafe(item)
  }

  predicate EntriesSafe(es: Entries)
    decreases es, 0
  {
    es == [] || (PropertySafe(es[0].key, es[0].value) && EntriesSafe(es[1..]))
  }

  predicate PropertySafe(key: string, v: Value)
    decreases v, 2
  {
    if key == "comments" && v.List? then AllComments(v.items) else CommentsSafe(v)
  }

  lemma FourFields(item: Value, b: string, c: string, d: string, e: string)
    requires item.Map? && |item.entries| == 4 && b != c && b != d && b != e && c != d && c != e && d != e
    requires item.entries[0].key == b && item.entries[1].key == c && item.entries[2].key == d && item.entries[3].key == e
    ensures Field(item, b) == item.entries[0].value && Field(item, c) == item.entries[1].value
    ensures Field(item, d) == item.entries[2].value && Field(item, e) == item.entries[3].value
  {
    var es := item.entries;
    assert es[1..][0] == es[1] && es[1..][1..] == es[2..] && es[2..][0] == es[2] && es[2..][1..] == es[3..] && es[3..][0] == es[3];
    assert Lookup(es[3..], e) == es[3].value;
    assert Lookup(es[2..], e) == es[3].value && Lookup(es[2..], d) == es[2].value;
    assert Lookup(es[1..], e) == es[3].value && Lookup(es[1..], d) == es[2].value && Lookup(es[1..], c) == es[1].value;
  }

  lemma CommentComesBack(item: Value)
    ensures AsComment(item) == item <==> IsComment(item)
  {
    var back := AsComment(item);
    if item.Map? && |item.entries| == 4 && item.entries[0].key == "body" && item.entries[1].key == "created_at"
      && item.entries[2].key == "created_by" && item.entries[3].key == "id"
    {
      KeysDiffer();
      FourFields(item, "body", "created_at", "created_by", "id");
      FlatComesBack(item.entries[0].value);
      FlatComesBack(item.entries[1].value);
      FlatComesBack(item.entries[2].value);
      FlatComesBack(item.entries[3].value);
      assert back.entries[0].value == Flat(item.entries[0].value) && back.entries[1].value == Flat(item.entries[1].value);
      assert back.entries[2].value == Flat(item.entries[2].value) && back.entries[3].value == Flat(item.entries[3].value);
      if IsComment(item) {
        assert back.entries == item.entries;
      }
    }
  }

  lemma KeysDiffer()
    ensures "body" != "created_at" && "body" != "created_by" && "body" != "id"
    ensures "created_at" != "created_by" && "created_at" != "id" && "created_by" != "id"
  {
    assert "created_at"[8] != "created_by"[8];
    assert "body"[0] != "created_at"[0] && "body"[0] != "id"[0] && "created_at"[0] != "id"[0] && "created_by"[0] != "id"[0];
  }

  lemma FlatComesBack(v: Value)
    ensures Flat(v) == v <==> IsInline(v)
  {
  }

  lemma CommentsComeBack(items: seq<Value>)
    ensures AsComments(items) == items <==> AllComments(items)
  {
    forall i | 0 <= i < |items| ensures AsComments(items)[i] == items[i] <==> IsComment(items[i]) {
      CommentComesBack(items[i]);
    }
    if AllComments(items) {
      assert AsComments(items) == items;
    }
  }

  /** Exactly the values without a foreign `comments` list are read back as they were. */
  lemma {:induction false} RereadIsIdentity(v: Value)
    ensures Reread(v) == v <==> CommentsSafe(v)
    decreases v, 1
  {
    match v
    case List(items) => RereadItemsIsIdentity(items);
    case Map(es) => RereadEntriesIsIdentity(es);
    case _ =>
  }

  lemma {:induction false} RereadItemsIsIdentity(items: seq<Value>)
    ensures RereadItems(items) == items <==> ItemsSafe(items)
    decreases items, 0
  {
    if items != [] {
      RereadItemIsIdentity(items[0]);
      RereadItemsIsIdentity(items[1..]);
      assert items == [items[0]] + items[1..];
      ConsEqual(RereadItem(items[0]), RereadItems(items[1..]), items[0], items[1..]);
    }
  }

  lemma ConsEqual<T>(x: T, xs: seq<T>, y: T, ys: seq<T>)
    ensures [x] + xs == [y] + ys <==> x == y && xs == ys
  {
    if [x] + xs == [y] + ys {
      assert ([x] + xs)[0] == x && ([y] + ys)[0] == y;
      assert ([x] + xs)[1..] == xs && ([y] + ys)[1..] == ys;
    }
  }

  lemma {:induction false} RereadItemIsIdentity(item: Value)
    ensures RereadItem(item) == item <==> ItemSafe(item)
    decreases item, 2
  {
    if item.Map? && item.entries != [] {
      var es := item.entries;
      RereadIsIdentity(es[0].value);
      RereadEntriesIsIdentity(es[1..]);
      assert es == [es[0]] + es[1..];
      ConsEqual(Property(es[0].key, Reread(es[0].value)), RereadEntries(es[1..]), es[0], es[1..]);
    } else {
      RereadIsIdentity(item);
    }
  }

  lemma {:induction false} RereadEntriesIsIdentity(es: Entries)
    ensures RereadEntries(es) == es <==> EntriesSafe(es)
    decreases es, 0
  {
    if es != [] {
      RereadPropertyIsIdentity(es[0].key, es[0].value);
      RereadEntriesIsIdentity(es[1..]);
      assert es == [es[0]] + es[1..];
      ConsEqual(Property(es[0].key, RereadProperty(es[0].key, es[0].value, true)), RereadEntries(es[1..]), es[0], es[1..]);
    }
  }

  lemma {:induction false} RereadPropertyIsIdentity(key: string, v: Value)
    ensures RereadProperty(key, v, true) == v <==> PropertySafe(key, v)
    decreases v, 2
  {
    if key == "comments" && v.List? {
      CommentsComeBack(v.items);
    } else {
      RereadIsIdentity(v);
    }
  }

  // ---- Lines as text ----

  function Spaces(n: nat): (s: string)
    ensures |s| == n && forall i :: 0 <= i < n ==> s[i] == ' '
  {
    if n == 0 then "" else " " + Spaces(n - 1)
  }

  /** The text of a line without its indent. */
  function Content(l: Line): string {
    (if !l.dash then "" else if l.key == None && l.inline == None then "-" else "- ")
    + (if l.key == None then "" else Quote(l.key.value) + ":")
    + (if l.inline == None then "" else (if l.key == None then "" else " ") + l.inline.value)
  }

  function Render(l: Line): string {
    Spaces(l.indent) + Content(l)
  }

  function LeadingSpaces(s: string): (n: nat)
    ensures n <= |s|
  {
    if s != "" && s[0] == ' ' then 1 + LeadingSpaces(s[1..]) else 0
  }

  /** A key if the text begins with a quoted scalar and a colon, otherwise an inline value. */
  function ReadContent(indent: nat, dash: bool, text: string): Option<Line> {
    if text == "" then None
    else if text[0] != '"' then Some(Line(indent, dash, None, Some(text)))
    else
      match ReadQuoted(text[1..])
      case None => None
      case Some((s, tail)) =>
        if tail == ":" then Some(Line(indent, dash, Some(s), None))
        else if ": " <= tail then Some(Line(indent, dash, Some(s), Some(tail[2..])))
        else Some(Line(indent, dash, None, Some(text)))
  }

  function ReadLine(s: string): Option<Line> {
    var indent := LeadingSpaces(s);
    var text := s[indent..];
    if text == "-" then Some(Line(indent, true, None, None))
    else if "- " <= text then ReadContent(indent, true, text[2..])
    else ReadContent(indent, false, text)
  }

  /** What the emitter produces: a key or a dash, and inline texts of inline values. */
  ghost predicate Emitted(l: Line) {
    && (l.dash || l.key.Some?)
    && (l.inline.Some? ==> exists v :: NumbersPrinted(v) && l.inline == Some(EmitInline(v)))
  }

  lemma {:induction false} LeadingSpacesOf(n: nat, text: string)
    requires text != "" && text[0] != ' '
    ensures LeadingSpaces(Spaces(n) + text) == n
    ensures (Spaces(n) + text)[n..] == text
  {
    if n > 0 {
      assert (Spaces(n) + text)[1..] == Spaces(n - 1) + text;
      LeadingSpacesOf(n - 1, text);
    } else {
      assert Spaces(0) + text == text;
    }
  }

  lemma QuotedPrefix(s: string, tail: string)
    ensures Quote(s) + tail != "" && (Quote(s) + tail)[0] == '"'
    ensures ReadQuoted((Quote(s) + tail)[1..]) == Some((s, tail))
  {
    assert (Quote(s) + tail)[1..] == EscapeAll(s) + ['"'] + tail;
    ReadQuotedQuote(s, tail);
  }

  lemma InlineText(v: Value)
    requires NumbersPrinted(v)
    ensures EmitInline(v) != ""
    ensures EmitInline(v)[0] == '"' ==> v.Str? && ReadQuoted(EmitInline(v)[1..]) == Some((v.text, ""))
    ensures EmitInline(v)[0] != ' '
  {
    if v.Str? {
      QuotedPrefix(v.text, "");
      assert Quote(v.text) + "" == Quote(v.text);
    }
  }

  lemma ReadKeyContent(indent: nat, dash: bool, key: string, inline: Option<string>)
    ensures
      var text := Quote(key) + ":" + (if inline == None then "" else " " + inline.value);
      ReadContent(indent, dash, text) == Some(Line(indent, dash, Some(key), inline)) && text != "" && text[0] == '"'
  {
    if inline == None {
      QuotedPrefix(key, ":");
      assert Quote(key) + ":" + "" == Quote(key) + ":";
    } else {
      ReadKeyInline(indent, dash, key, inline.value);
    }
  }

  lemma ReadKeyInline(indent: nat, dash: bool, key: string, inline: string)
    ensures
      var text := Quote(key) + ":" + (" " + inline);
      ReadContent(indent, dash, text) == Some(Line(indent, dash, Some(key), Some(inline))) && text != "" && text[0] == '"'
  {
    var tail := ": " + inline;
    assert Quote(key) + ":" + (" " + inline) == Quote(key) + tail;
    QuotedPrefix(key, tail);
    assert tail[..2] == ": " && tail[2..] == inline && tail != ":";
  }

  lemma ReadInlineContent(indent: nat, dash: bool, v: Value)
    requires NumbersPrinted(v)
    ensures EmitInline(v) != "" && EmitInline(v)[0] != ' '
    ensures ReadContent(indent, dash, EmitInline(v)) == Some(Line(indent, dash, None, Some(EmitInline(v))))
  {
    InlineText(v);
  }

  lemma ReadRendered(indent: nat, dash: bool, content: string, text: string, l: Line)
    requires ReadContent(indent, dash, text) == Some(l) && text != "" && text[0] != ' '
    requires content == if dash then "- " + text else text
    requires !dash ==> text[0] == '"'
    ensures ReadLine(Spaces(indent) + content) == Some(l)
  {
    LeadingSpacesOf(indent, content);
    if dash {
      assert content[2..] == text;
    }
  }

  /** A line is read back from its text. */
  lemma ReadLineRender(l: Line)
    requires Emitted(l)
    ensures ReadLine(Render(l)) == Some(l)
  {
    if l.key.Some? {
      ReadLineWithKey(l);
    } else if l.inline.Some? {
      var v :| NumbersPrinted(v) && l.inline == Some(EmitInline(v));
      ReadLineInline(l.indent, v);
    } else {
      ReadLineBare(l.indent);
    }
  }

  lemma ReadLineWithKey(l: Line)
    requires l.key.Some?
    ensures ReadLine(Render(l)) == Some(l)
  {
    var text := Quote(l.key.value) + ":" + (if l.inline == None then "" else " " + l.inline.value);
    ReadKeyContent(l.indent, l.dash, l.key.value, l.inline);
    ContentWithKey(l);
    ReadRendered(l.indent, l.dash, Content(l), text, l);
  }

  lemma ReadLineInline(indent: nat, v: Value)
    requires NumbersPrinted(v)
    ensures var l := Line(indent, true, None, Some(EmitInline(v))); ReadLine(Render(l)) == Some(l)
  {
    var l := Line(indent, true, None, Some(EmitInline(v)));
    ReadInlineContent(indent, true, v);
    assert Content(l) == "- " + EmitInline(v);
    ReadRendered(indent, true, Content(l), EmitInline(v), l);
  }

  lemma ReadLineBare(indent: nat)
    ensures var l := Line(indent, true, None, None); ReadLine(Render(l)) == Some(l)
  {
    assert Content(Line(indent, true, None, None)) == "-";
    LeadingSpacesOf(indent, "-");
  }

  lemma ContentWithKey(l: Line)
    requires l.key.Some?
    ensures
      var text := Quote(l.key.value) + ":" + (if l.inline == None then "" else " " + l.inline.value);
      Content(l) == if l.dash then "- " + text else text
  {
    var text := Quote(l.key.value) + ":" + (if l.inline == None then "" else " " + l.inline.value);
    if l.dash {
      assert Content(l) == "- " + text;
    } else {
      assert Content(l) == text;
    }
  }

  // ---- The whole document ----

  /** The lines of the file, each closed by a line feed. */
  function Joined(ls: seq<Line>): string {
    if ls == [] then "" else Render(ls[0]) + ['\n'] + Joined(ls[1..])
  }

  /** The text up to the first line feed and the text after it. */
  function FirstLine(s: string): Option<(string, string)> {
    if s == "" then None
    else if s[0] == '\n' then Some(("", s[1..]))
    else match FirstLine(s[1..]) case None => None case Some((line, rest)) => Some(([s[0]] + line, rest))
  }

  function ReadLines(s: string): Option<seq<Line>>
    decreases |s|
  {
    if s == "" then Some([])
    else
      match FirstLine(s)
      case None => None
      case Some((line, rest)) =>
        if |rest| >= |s| then None
        else
          match (ReadLine(line), ReadLines(rest))
          case (Some(l), Some(ls)) => Some([l] + ls)
          case _ => None
  }

  predicate OneLine(s: string) { '\n' !in s }

  lemma {:induction false} FirstLineOf(line: string, rest: string)
    requires OneLine(line)
    ensures FirstLine(line + ['\n'] + rest) == Some((line, rest))
  {
    var s := line + ['\n'] + rest;
    if line != "" {
      assert s[1..] == line[1..] + ['\n'] + rest;
      FirstLineOf(line[1..], rest);
      assert [line[0]] + line[1..] == line;
    } else {
      assert s == ['\n'] + rest;
    }
  }

  lemma {:induction false} EscapedIsOneLine(s: string)
    ensures OneLine(EscapeAll(s))
  {
    if s != "" {
      EscapedIsOneLine(s[1..]);
      EscapeIsOneLine(s[0]);
    }
  }

  lemma EscapeIsOneLine(c: char)
    ensures OneLine(Escape(c))
  {
  }

  lemma InlineIsOneLine(v: Value)
    requires NumbersPrinted(v)
    ensures OneLine(EmitInline(v))
  {
    match v
    case Str(s) => EscapedIsOneLine(s);
    case Num(token) =>
      forall i | 0 <= i < |token| ensures token[i] != '\n' {
        assert Identities.IsDigit(token[i]) || token[i] in "+-.eE";
      }
    case _ =>
  }

  lemma RenderIsOneLine(l: Line)
    requires Emitted(l)
    ensures OneLine(Render(l))
  {
    if l.key.Some? { EscapedIsOneLine(l.key.value); }
    if l.inline.Some? {
      var v :| NumbersPrinted(v) && l.inline == Some(EmitInline(v));
      InlineIsOneLine(v);
    }
    PartsAreOneLine(l);
  }

  lemma PartsAreOneLine(l: Line)
    requires l.key.Some? ==> OneLine(EscapeAll(l.key.value))
    requires l.inline.Some? ==> OneLine(l.inline.value)
    ensures OneLine(Render(l))
  {
    if l.key.Some? { assert OneLine(Quote(l.key.value) + ":"); }
    assert OneLine(Content(l));
  }

  lemma {:induction false} ReadLinesJoined(ls: seq<Line>)
    requires forall i :: 0 <= i < |ls| ==> Emitted(ls[i])
    ensures ReadLines(Joined(ls)) == Some(ls)
  {
    if ls != [] {
      ReadLinesJoined(ls[1..]);
      RenderIsOneLine(ls[0]);
      ReadLineRender(ls[0]);
      ReadOneLine(Render(ls[0]), ls[0], Joined(ls[1..]), ls[1..]);
      assert ls == [ls[0]] + ls[1..];
    }
  }

  lemma ReadOneLine(line: string, l: Line, rest: string, ls: seq<Line>)
    requires OneLine(line) && ReadLine(line) == Some(l) && ReadLines(rest) == Some(ls)
    ensures ReadLines(line + ['\n'] + rest) == Some([l] + ls)
  {
    FirstLineOf(line, rest);
  }

  // ---- Emitted lines are readable ----

  ghost predicate AllEmitted(ls: seq<Line>) {
    forall i :: 0 <= i < |ls| ==> Emitted(ls[i])
  }

  lemma {:induction false} PropertyEmitted(key: string, v: Value, indent: nat, special: bool)
    requires Canonical(v)
    ensures AllEmitted(EmitProperty(key, v, indent, special))
    decreases v, 2
  {
    if !IsInline(v) {
      if special && key == "comments" && v.List? {
        CommentsEmitted(v.items, indent + 2);
      } else {
        NestedEmitted(v, indent + 2);
      }
    }
  }

  lemma {:induction false} CommentsEmitted(items: seq<Value>, indent: nat)
    requires CanonicalItems(items)
    ensures AllEmitted(EmitComments(items, indent))
  {
    if items != [] {
      CommentsEmitted(items[1..], indent);
      FieldCanonical(items[0], "id");
      FieldCanonical(items[0], "created_at");
      FieldCanonical(items[0], "created_by");
      FieldCanonical(items[0], "body");
      KeyLineEmitted(indent, true, "id", Field(items[0], "id"));
      KeyLineEmitted(indent + 2, false, "created_at", Field(items[0], "created_at"));
      KeyLineEmitted(indent + 2, false, "created_by", Field(items[0], "created_by"));
      KeyLineEmitted(indent + 2, false, "body", Field(items[0], "body"));
    }
  }

  lemma KeyLineEmitted(indent: nat, dash: bool, key: string, v: Value)
    requires Canonical(v)
    ensures Emitted(Line(indent, dash, Some(key), Some(EmitInline(v))))
  {
    CanonicalPrints(v);
  }

  lemma {:induction false} NestedEmitted(v: Value, indent: nat)
    requires Canonical(v)
    ensures AllEmitted(EmitNested(v, indent))
    decreases v, 1
  {
    match v
    case List(items) => ItemsEmitted(items, indent);
    case Map(es) => EntriesEmitted(es, indent);
    case _ =>
  }

  lemma {:induction false} ItemsEmitted(items: seq<Value>, indent: nat)
    requires CanonicalItems(items)
    ensures AllEmitted(EmitItems(items, indent))
    decreases items, 0
  {
    if items != [] {
      ItemEmitted(items[0], indent);
      ItemsEmitted(items[1..], indent);
    }
  }

  lemma {:induction false} EntriesEmitted(es: Entries, indent: nat)
    requires CanonicalEntries(es)
    ensures AllEmitted(EmitEntries(es, indent))
    decreases es, 0
  {
    if es != [] {
      PropertyEmitted(es[0].key, es[0].value, indent, true);
      EntriesEmitted(es[1..], indent);
    }
  }

  lemma {:induction false} ItemEmitted(item: Value, indent: nat)
    requires Canonical(item)
    ensures AllEmitted(EmitItem(item, indent))
    decreases item, 3
  {
    if !IsInline(item) {
      match item
      case List(items) => ItemsEmitted(items, indent + 2);
      case Map(es) =>
        PropertyEmitted(es[0].key, es[0].value, indent + 2, false);
        EntriesEmitted(es[1..], indent + 2);
        DashedEmitted(EmitProperty(es[0].key, es[0].value, indent + 2, false), indent);
      case _ =>
    }
  }

  lemma DashedEmitted(ls: seq<Line>, indent: nat)
    requires ls != [] && AllEmitted(ls)
    ensures AllEmitted(Dashed(ls, indent))
  {
    assert forall i :: 0 < i < |ls| ==> Dashed(ls, indent)[i] == ls[i];
  }

  // ---- The encoding of an issue ----

  /** An issue is the list of its present fields in the fixed field order; each is one property. */
  function Encode(issue: Entries): string {
    Joined(EmitEntries(issue, 0))
  }

  method EncodeCanonicalIssue(issue: Entries) returns (text: string)
    ensures text == Encode(issue)
  {
    var lines: seq<Line> := [];
    for i := 0 to |issue|
      invariant lines + EmitEntries(issue[i..], 0) == EmitEntries(issue, 0)
    {
      assert issue[i..][0] == issue[i] && issue[i..][1..] == issue[i + 1..];
      var ls := EmitProperty(issue[i].key, issue[i].value, 0, true);
      assert lines + (ls + EmitEntries(issue[i + 1..], 0)) == (lines + ls) + EmitEntries(issue[i + 1..], 0);
      lines := lines + ls;
    }
    assert issue[|issue|..] == [] && lines + [] == lines;
    text := Joined(lines);
  }

  function ReadIssue(text: string): Option<Entries> {
    match ReadLines(text)
    case None => None
    case Some(ls) => ReadEntries(ls, 0)
  }

  /** The reader always accepts what was encoded, and returns what survived the comment form. */
  lemma ReadEncoded(issue: Entries)
    requires CanonicalEntries(issue)
    ensures ReadIssue(Encode(issue)) == Some(RereadEntries(issue))
  {
    EntriesEmitted(issue, 0);
    ReadLinesJoined(EmitEntries(issue, 0));
    EntriesRead(issue, 0);
  }

  /** An issue is recovered from its encoding exactly when no list under a nested `comments` is foreign. */
  lemma IssueRoundTrip(issue: Entries)
    requires CanonicalEntries(issue)
    ensures ReadIssue(Encode(issue)) == Some(issue) <==> EntriesSafe(issue)
  {
    ReadEncoded(issue);
    RereadEntriesIsIdentity(issue);
  }

  /** On such issues the encoding is injective. */
  lemma EncodeInjective(a: Entries, b: Entries)
    requires CanonicalEntries(a) && CanonicalEntries(b) && EntriesSafe(a) && EntriesSafe(b)
    requires Encode(a) == Encode(b)
    ensures a == b
  {
    IssueRoundTrip(a);
    IssueRoundTrip(b);
  }

  /** Fields other than `metadata` are scalars, lists of strings, or validated comments. */
  predicate PlainField(p: Property) {
    if p.key == "comments" then p.value.List? && AllComments(p.value.items)
    else !p.value.Map? && (p.value.List? ==> forall i :: 0 <= i < |p.value.items| ==> p.value.items[i].Str?)
  }

  predicate IsIssue(issue: Entries) {
    forall i :: 0 <= i < |issue| && issue[i].key != "metadata" ==> PlainField(issue[i])
  }

  lemma {:induction false} StringsSafe(items: seq<Value>)
    requires forall i :: 0 <= i < |items| ==> items[i].Str?
    ensures ItemsSafe(items)
  {
    if items != [] {
      StringsSafe(items[1..]);
    }
  }

  lemma PlainFieldSafe(p: Property)
    requires PlainField(p)
    ensures PropertySafe(p.key, p.value)
  {
    if p.key != "comments" && p.value.List? {
      StringsSafe(p.value.items);
    }
  }

  /** Of a validated issue only the metadata can fail to come back. */
  lemma {:induction false} OnlyMetadataCanBeLost(issue: Entries)
    requires IsIssue(issue)
    ensures EntriesSafe(issue) <==> forall i :: 0 <= i < |issue| && issue[i].key == "metadata" ==> CommentsSafe(issue[i].value)
  {
    if issue != [] {
      OnlyMetadataCanBeLost(issue[1..]);
      var rest := issue[1..];
      assert forall i :: 0 <= i < |rest| ==> rest[i] == issue[i + 1];
      if issue[0].key == "metadata" {
        MetadataKey(issue[0]);
      } else {
        PlainFieldSafe(issue[0]);
      }
      assert (forall i :: 0 <= i < |rest| && rest[i].key == "metadata" ==> CommentsSafe(rest[i].value))
        <==> forall i :: 1 <= i < |issue| && issue[i].key == "metadata" ==> CommentsSafe(issue[i].value) by {
        assert forall i :: 1 <= i < |issue| ==> issue[i] == rest[i - 1];
      }
    }
  }

  lemma MetadataKey(p: Property)
    requires p.key == "metadata"
    ensures PropertySafe(p.key, p.value) <==> CommentsSafe(p.value)
  {
    assert "metadata"[0] != "comments"[0];
  }

  /** Metadata with one note under a nested `comments`. */
  function Noted(text: string): Property {
    Property("metadata", Map([Property("notes", Map([Property("comments", List([Str(text)]))]))]))
  }

  function FieldsBefore(): Entries {
    [Property("version", Num("1")), Property("id", Str("ISSUE-1")), Property("type", Str("task")), Property("title", Str("A note")),
     Property("status", Str("open")), Property("created_at", Str("2025-01-01T00:00:00.000Z")),
     Property("updated_at", Str("2025-01-01T00:00:00.000Z"))]
  }

  function FieldsAfter(): Entries {
    [Property("body", Str("")), Property("comments", List([]))]
  }

  /** An issue with every required field and that metadata. */
  function NotedIssue(text: string): Entries {
    FieldsBefore() + [Noted(text)] + FieldsAfter()
  }

  /** Two different issues with one encoding: the strings under a nested `comments` are not written. */
  lemma NestedCommentsAreLost(a: string, b: string)
    requires a != b
    ensures IsIssue(NotedIssue(a)) && IsIssue(NotedIssue(b))
    ensures NotedIssue(a) != NotedIssue(b) && Encode(NotedIssue(a)) == Encode(NotedIssue(b))
  {
    NotesLookAlike(a, b);
    SurroundedAlike(FieldsBefore(), Noted(a), Noted(b), FieldsAfter());
    OneDiffers(FieldsBefore(), Noted(a), Noted(b), FieldsAfter());
    NotedIsIssue(a);
    NotedIsIssue(b);
  }

  lemma OneDiffers(first: Entries, p: Property, q: Property, rest: Entries)
    requires p != q
    ensures first + [p] + rest != first + [q] + rest
  {
    assert (first + [p] + rest)[|first|] == p && (first + [q] + rest)[|first|] == q;
  }

  lemma NotedIsIssue(text: string)
    ensures IsIssue(NotedIssue(text))
  {
    var issue := NotedIssue(text);
    forall i | 0 <= i < |issue| && issue[i].key != "metadata" ensures PlainField(issue[i]) {
      if i < 7 {
        assert issue[i] == FieldsBefore()[i];
        assert !issue[i].value.List? && !issue[i].value.Map?;
      } else if i > 7 {
        assert issue[i] == FieldsAfter()[i - 8];
      }
    }
  }

  /** Fields that print alike print alike among any other fields. */
  lemma SurroundedAlike(first: Entries, p: Property, q: Property, rest: Entries)
    requires EmitEntries([p], 0) == EmitEntries([q], 0)
    ensures Encode(first + [p] + rest) == Encode(first + [q] + rest)
  {
    EmitConcat(first + [p], rest);
    EmitConcat(first + [q], rest);
    EmitConcat(first, [p]);
    EmitConcat(first, [q]);
  }

  lemma {:induction false} EmitConcat(a: Entries, b: Entries)
    ensures EmitEntries(a + b, 0) == EmitEntries(a, 0) + EmitEntries(b, 0)
  {
    if a == [] {
      assert a + b == b;
    } else {
      assert (a + b)[1..] == a[1..] + b;
      EmitConcat(a[1..], b);
    }
  }

  lemma NotesLookAlike(a: string, b: string)
    requires a != b
    ensures Noted(a) != Noted(b) && EmitEntries([Noted(a)], 0) == EmitEntries([Noted(b)], 0)
  {
    var va, vb := List([Str(a)]), List([Str(b)]);
    assert va.items[0] != vb.items[0];
    SameComments([Str(a)], [Str(b)], 6);
    var na, nb := Map([Property("comments", va)]), Map([Property("comments", vb)]);
    assert EmitNested(na, 4) == EmitNested(nb, 4) by {
      OneEntry(Property("comments", va), 4);
      OneEntry(Property("comments", vb), 4);
    }
    var ma, mb := Map([Property("notes", na)]), Map([Property("notes", nb)]);
    assert EmitNested(ma, 2) == EmitNested(mb, 2) by {
      OneEntry(Property("notes", na), 2);
      OneEntry(Property("notes", nb), 2);
    }
    OneEntry(Property("metadata", ma), 0);
    OneEntry(Property("metadata", mb), 0);
    assert na.entries[0] != nb.entries[0] && ma.entries[0] != mb.entries[0];
  }

  lemma OneEntry(p: Property, indent: nat)
    ensures EmitEntries([p], indent) == EmitProperty(p.key, p.value, indent, true)
    ensures EmitNested(Map([p]), indent) == EmitProperty(p.key, p.value, indent, true)
  {
    assert [p][1..] == [];
    assert EmitEntries([p], indent) == EmitProperty(p.key, p.value, indent, true) + [];
  }

  lemma SameComments(a: seq<Value>, b: seq<Value>, indent: nat)
    requires |a| == |b| == 1 && !a[0].Map? && !b[0].Map?
    ensures EmitComments(a, indent) == EmitComments(b, indent)
  {
    assert a[1..] == [] && b[1..] == [];
  }
}
