/**
 The text form of a document: a frontmatter of one-line fields, a title heading and the
 content. Printing JSON scalars and reading the frontmatter are parameters, taken to be
 inverse to each other on valid metadata.
 */
module DocumentFormat {
  import opened Wrappers
  import opened DocumentCatalog

  datatype Codec = Codec(
    json: string -> string, parse: string -> Option<Metadata>, valid: Metadata -> bool)

  predicate OneLine(s: string) { '\n' !in s && '\r' !in s }

  ghost predicate Lawful(codec: Codec) {
    && (forall s {:trigger codec.json(s)} :: OneLine(codec.json(s)))
    && (forall m {:trigger codec.valid(m)} :: codec.valid(m) ==> OneLine(m.kind) && OneLine(m.status) && (m.custom.Some? ==> OneLine(m.custom.value)))
    && (forall m {:trigger codec.valid(m)} :: codec.valid(m) ==> codec.parse(Header(codec, m)) == Some(m))
  }

  // ---- Frontmatter ----

  function Decimal10(n: int): string {
    if n < 0 then "-" + Decimal(-n) else Decimal(n)
  }

  function Header(codec: Codec, m: Metadata): string {
    "id: " + codec.json(m.id)
    + "\ntitle: " + codec.json(m.title)
    + "\nkind: " + m.kind
    + "\nstatus: " + m.status
    + "\nversion: " + Decimal10(m.version)
    + "\ncreated_at: " + codec.json(m.createdAt)
    + "\nupdated_at: " + codec.json(m.updatedAt)
    + (if m.createdBy.Some? then "\ncreated_by: " + codec.json(m.createdBy.value) else "")
    + (if m.custom.Some? then "\nmetadata: " + m.custom.value else "")
  }

  const FENCE := "\n---\n\n"

  /** Every line after the first begins with something other than a dash. */
  predicate PlainHeader(h: string) {
    && '\r' !in h
    && forall i :: 0 <= i < |h| && h[i] == '\n' ==> i + 1 < |h| && h[i + 1] != '-'
  }

  lemma FieldIsPlain(h: string, field: string, value: string)
    requires PlainHeader(h) && OneLine(value)
    requires |field| > 1 && field[0] == '\n' && field[1] != '-' && OneLine(field[1..])
    ensures PlainHeader(h + field + value)
  {
    var s := h + field + value;
    assert '\r' !in field by { assert field == [field[0]] + field[1..]; }
  }

  // ---- Text ----

  predicate IsSpace(c: char) {
    var code := c as int;
    || 9 <= code <= 13 || code == 0x20 || code == 0xa0 || code == 0x1680 || 0x2000 <= code <= 0x200a
    || code == 0x2028 || code == 0x2029 || code == 0x202f || code == 0x205f || code == 0x3000 || code == 0xfeff
  }

  function TrimStart(s: string): string {
    if s != "" && IsSpace(s[0]) then TrimStart(s[1..]) else s
  }

  function TrimEnd(s: string): string {
    if s != "" && IsSpace(s[|s| - 1]) then TrimEnd(s[..|s| - 1]) else s
  }

  function Trim(s: string): string { TrimEnd(TrimStart(s)) }

  /** CR LF and lone CR become LF. */
  function UnixLines(s: string): string {
    if s == "" then ""
    else if s[0] == '\r' then "\n" + UnixLines(if |s| > 1 && s[1] == '\n' then s[2..] else s[1..])
    else [s[0]] + UnixLines(s[1..])
  }

  function Normalized(content: string): string { Trim(UnixLines(content)) }

  function Split(s: string): (ls: seq<string>)
    ensures |ls| > 0
  {
    if s == "" then [""]
    else
      var rest := Split(s[1..]);
      if s[0] == '\n' then [""] + rest else [[s[0]] + rest[0]] + rest[1..]
  }

  predicate IsHeading(line: string) {
    line != "" && line[0] == '#' && (|line| == 1 || IsSpace(line[1]))
  }

  predicate HasHeading(lines: seq<string>) {
    exists i :: 0 <= i < |lines| && IsHeading(lines[i])
  }

  predicate HasControl(s: string) {
    exists i :: 0 <= i < |s| &&
      var code := s[i] as int; code <= 8 || code == 0xb || code == 0xc || 0xe <= code <= 0x1f || 0x7f <= code <= 0x9f
  }

  function WithoutFinalNewline(s: string): string {
    if s != "" && s[|s| - 1] == '\n' then s[..|s| - 1] else s
  }

  /** Exactly one level-one heading, the title, followed by a blank line. */
  predicate BodyOk(title: string, body: string) {
    && !HasControl(body)
    && var lines := Split(WithoutFinalNewline(body));
       |lines| >= 2 && lines[0] == "# " + title && lines[1] == "" && !HasHeading(lines[2..])
  }

  function Prefix(title: string): string { "# " + title + "\n\n" }

  function CanonicalBody(title: string, content: string): Option<string> {
    if HasHeading(Split(Normalized(content))) then None else Some(Prefix(title) + Normalized(content))
  }

  function ContentAfterTitle(title: string, body: string): string {
    TrimEnd(if |Prefix(title)| <= |body| then body[|Prefix(title)|..] else "")
  }

  function Closed(text: string): string {
    if text != "" && text[|text| - 1] == '\n' then text else text + "\n"
  }

  function Encode(codec: Codec, m: Metadata, content: string): Option<string> {
    if !codec.valid(m) then None
    else
      match CanonicalBody(m.title, content)
      case None => None
      case Some(body) =>
        if !BodyOk(m.title, body) then None
        else Some(Closed("---\n" + Header(codec, m) + FENCE + body))
  }

  /** The place of the first fence. */
  function FindFence(s: string): (i: Option<nat>)
    ensures i.Some? ==> i.value + 6 <= |s|
  {
    if |s| < 6 then None
    else if s[..6] == FENCE then Some(0)
    else match FindFence(s[1..]) case None => None case Some(i) => Some(i + 1)
  }

  function Decode(codec: Codec, text: string): Option<(Metadata, string)> {
    if '\r' in text || !("---\n" <= text) then None
    else
      var rest := text[4..];
      match FindFence(rest)
      case None => None
      case Some(i) =>
        var body := rest[i + 6..];
        match codec.parse(rest[..i])
        case None => None
        case Some(m) =>
          if codec.valid(m) && BodyOk(m.title, body) && Encode(codec, m, ContentAfterTitle(m.title, body)) == Some(text)
          then Some((m, body)) else None
  }

  // ---- Trimming and line endings ----

  lemma {:induction false} TrimEndIs(s: string)
    ensures var t := TrimEnd(s); t <= s && (t == "" || !IsSpace(t[|t| - 1])) && TrimEnd(t) == t
  {
    if s != "" && IsSpace(s[|s| - 1]) {
      TrimEndIs(s[..|s| - 1]);
    }
  }

  lemma {:induction false} TrimStartIs(s: string)
    ensures var t := TrimStart(s); |t| <= |s| && t == s[|s| - |t|..] && (t == "" || !IsSpace(t[0]))
  {
    if s != "" && IsSpace(s[0]) {
      TrimStartIs(s[1..]);
    }
  }

  lemma TrimIdempotent(s: string)
    ensures TrimEnd(Trim(s)) == Trim(s) && Trim(Trim(s)) == Trim(s)
  {
    TrimStartIs(s);
    TrimEndIs(TrimStart(s));
  }

  lemma {:induction false} UnixLinesHaveNoReturn(s: string)
    ensures '\r' !in UnixLines(s)
    decreases |s|
  {
    if s != "" {
      UnixLinesHaveNoReturn(if s[0] == '\r' && |s| > 1 && s[1] == '\n' then s[2..] else s[1..]);
    }
  }

  lemma {:induction false} UnixLinesOfUnix(s: string)
    requires '\r' !in s
    ensures UnixLines(s) == s
  {
    if s != "" {
      UnixLinesOfUnix(s[1..]);
      assert s == [s[0]] + s[1..];
    }
  }

  lemma NormalizedIs(content: string)
    ensures '\r' !in Normalized(content)
    ensures TrimEnd(Normalized(content)) == Normalized(content)
    ensures Normalized(Normalized(content)) == Normalized(content)
  {
    var u := UnixLines(content);
    UnixLinesHaveNoReturn(content);
    TrimStartIs(u);
    TrimEndIs(TrimStart(u));
    TrimIdempotent(u);
    UnixLinesOfUnix(Trim(u));
  }

  // ---- The frontmatter is found again ----

  lemma {:induction false} FenceAfterHeader(h: string, body: string)
    requires PlainHeader(h)
    ensures FindFence(h + FENCE + body) == Some(|h|)
  {
    var s := h + FENCE + body;
    if h == "" {
      assert s[..6] == FENCE;
    } else {
      assert s[0] == h[0] && (h[0] == '\n' ==> s[1] == h[1]);
      assert FENCE[0] == '\n' && FENCE[1] == '-';
      assert s[..6][0] == s[0] && s[..6][1] == s[1];
      FenceAfterHeader(h[1..], body);
      assert s[1..] == h[1..] + FENCE + body;
    }
  }

  lemma HeaderIsPlain(codec: Codec, m: Metadata)
    requires Lawful(codec) && codec.valid(m)
    ensures PlainHeader(Header(codec, m))
  {
    var a := "id: " + codec.json(m.id);
    assert OneLine("id: ") && OneLine(codec.json(m.id));
    var b := a + "\ntitle: " + codec.json(m.title);
    FieldIsPlain(a, "\ntitle: ", codec.json(m.title));
    var c := b + "\nkind: " + m.kind;
    FieldIsPlain(b, "\nkind: ", m.kind);
    var d := c + "\nstatus: " + m.status;
    FieldIsPlain(c, "\nstatus: ", m.status);
    DecimalOneLine(m.version);
    var e := d + "\nversion: " + Decimal10(m.version);
    FieldIsPlain(d, "\nversion: ", Decimal10(m.version));
    RestOfHeaderIsPlain(codec, m, e);
  }

  lemma RestOfHeaderIsPlain(codec: Codec, m: Metadata, e: string)
    requires Lawful(codec) && codec.valid(m) && PlainHeader(e)
    ensures PlainHeader(e + "\ncreated_at: " + codec.json(m.createdAt) + "\nupdated_at: " + codec.json(m.updatedAt)
      + (if m.createdBy.Some? then "\ncreated_by: " + codec.json(m.createdBy.value) else "")
      + (if m.custom.Some? then "\nmetadata: " + m.custom.value else ""))
  {
    var f := e + "\ncreated_at: " + codec.json(m.createdAt);
    FieldIsPlain(e, "\ncreated_at: ", codec.json(m.createdAt));
    var g := f + "\nupdated_at: " + codec.json(m.updatedAt);
    FieldIsPlain(f, "\nupdated_at: ", codec.json(m.updatedAt));
    var author := if m.createdBy.Some? then "\ncreated_by: " + codec.json(m.createdBy.value) else "";
    OptionalIsPlain(g, "\ncreated_by: ", if m.createdBy.Some? then Some(codec.json(m.createdBy.value)) else None, author);
    OptionalIsPlain(g + author, "\nmetadata: ", m.custom, if m.custom.Some? then "\nmetadata: " + m.custom.value else "");
  }

  /** A field that may be absent. */
  lemma OptionalIsPlain(h: string, name: string, value: Option<string>, field: string)
    requires PlainHeader(h) && field == (if value.Some? then name + value.value else "")
    requires |name| > 1 && name[0] == '\n' && name[1] != '-' && OneLine(name[1..]) && (value.Some? ==> OneLine(value.value))
    ensures PlainHeader(h + field)
  {
    if value.Some? {
      FieldIsPlain(h, name, value.value);
      assert h + (name + value.value) == h + name + value.value;
    } else {
      assert h + "" == h;
    }
  }

  lemma DecimalOneLine(n: int)
    ensures OneLine(Decimal10(n))
  {
    if n < 0 { DigitsOneLine(-n); } else { DigitsOneLine(n); }
  }

  lemma {:induction false} DigitsOneLine(n: nat)
    ensures OneLine(Decimal(n))
  {
    if n >= 10 { DigitsOneLine(n / 10); }
  }

  // ---- The body is read again ----

  lemma ClosedBodyOk(title: string, body: string)
    requires body != ""
    ensures BodyOk(title, Closed(body)) <==> BodyOk(title, body)
    ensures Closed(body) != "" && body <= Closed(body)
  {
    var closed := Closed(body);
    if closed != body {
      assert closed[..|closed| - 1] == body;
      assert HasControl(closed) <==> HasControl(body) by {
        if i :| 0 <= i < |closed| && (closed[i] as int <= 8 || closed[i] as int == 0xb || closed[i] as int == 0xc || 0xe <= closed[i] as int <= 0x1f || 0x7f <= closed[i] as int <= 0x9f) {
          assert i < |body| && body[i] == closed[i];
        }
        if i :| 0 <= i < |body| && (body[i] as int <= 8 || body[i] as int == 0xb || body[i] as int == 0xc || 0xe <= body[i] as int <= 0x1f || 0x7f <= body[i] as int <= 0x9f) {
          assert closed[i] == body[i];
        }
      }
    }
  }

  lemma ContentIsNormalized(title: string, content: string)
    ensures ContentAfterTitle(title, Closed(Prefix(title) + Normalized(content))) == Normalized(content)
  {
    NormalizedIs(content);
    TrimmedAfterPrefix(title, Normalized(content));
  }

  lemma TrimmedAfterPrefix(title: string, n: string)
    requires TrimEnd(n) == n
    ensures ContentAfterTitle(title, Closed(Prefix(title) + n)) == n
  {
    var p := Prefix(title);
    assert (p + n)[|p|..] == n;
    if Closed(p + n) != p + n {
      assert (p + n + "\n")[|p|..] == n + "\n";
      TrimFinalNewline(n);
    }
  }

  lemma TrimFinalNewline(n: string)
    ensures TrimEnd(n + "\n") == TrimEnd(n)
  {
    assert (n + "\n")[..|n + "\n"| - 1] == n;
  }

  lemma EncodeOfNormalized(codec: Codec, m: Metadata, content: string)
    ensures Encode(codec, m, Normalized(content)) == Encode(codec, m, content)
  {
    NormalizedIs(content);
  }

  /** The text that an accepted encoding consists of. */
  lemma EncodedText(codec: Codec, m: Metadata, content: string)
    requires Encode(codec, m, content).Some?
    ensures
      var body := Closed(Prefix(m.title) + Normalized(content));
      Encode(codec, m, content).value == "---\n" + Header(codec, m) + FENCE + body && BodyOk(m.title, body)
  {
    var body := Prefix(m.title) + Normalized(content);
    ClosedBodyOk(m.title, body);
    ClosedConcat("---\n" + Header(codec, m) + FENCE, body);
  }

  lemma ClosedConcat(head: string, body: string)
    requires body != ""
    ensures Closed(head + body) == head + Closed(body)
  {
    assert (head + body)[|head + body| - 1] == body[|body| - 1];
    assert head + (body + "\n") == (head + body) + "\n";
  }

  lemma ReturnOnlyInTitle(codec: Codec, m: Metadata, content: string)
    requires Lawful(codec) && Encode(codec, m, content).Some?
    ensures '\r' in Encode(codec, m, content).value <==> '\r' in m.title
  {
    EncodedText(codec, m, content);
    HeaderIsPlain(codec, m);
    NormalizedIs(content);
    ReturnInBody(m.title, Normalized(content));
    assert '\r' !in "---\n" + Header(codec, m) + FENCE;
  }

  lemma ReturnInBody(title: string, n: string)
    requires '\r' !in n
    ensures '\r' in Closed(Prefix(title) + n) <==> '\r' in title
  {
    assert Closed(Prefix(title) + n) == Prefix(title) + n || Closed(Prefix(title) + n) == Prefix(title) + n + "\n";
    assert '\r' in Prefix(title) <==> '\r' in title by {
      if i :| 0 <= i < |title| && title[i] == '\r' {
        assert Prefix(title)[i + 2] == '\r';
      }
    }
  }

  /**
   What an encoding decodes to: the metadata and the normalised body, exactly unless the
   title holds a carriage return, which the encoder lets through and the decoder refuses.
   */
  lemma EncodeDecode(codec: Codec, m: Metadata, content: string)
    requires Lawful(codec) && Encode(codec, m, content).Some?
    ensures Decode(codec, Encode(codec, m, content).value) ==
      if '\r' in m.title then None else Some((m, Closed(Prefix(m.title) + Normalized(content))))
  {
    ReturnOnlyInTitle(codec, m, content);
    EncodedText(codec, m, content);
    HeaderIsPlain(codec, m);
    ContentIsNormalized(m.title, content);
    EncodeOfNormalized(codec, m, content);
    if '\r' !in m.title {
      DecodeOf(codec, Header(codec, m), m, Closed(Prefix(m.title) + Normalized(content)));
    }
  }

  lemma DecodeOf(codec: Codec, h: string, m: Metadata, body: string)
    requires PlainHeader(h) && codec.parse(h) == Some(m) && codec.valid(m) && BodyOk(m.title, body)
    requires '\r' !in "---\n" + h + FENCE + body
    requires Encode(codec, m, ContentAfterTitle(m.title, body)) == Some("---\n" + h + FENCE + body)
    ensures Decode(codec, "---\n" + h + FENCE + body) == Some((m, body))
  {
    TextSplits(h, body);
    DecodeParts(codec, "---\n" + h + FENCE + body, h, m, body);
  }

  lemma TextSplits(h: string, body: string)
    requires PlainHeader(h)
    ensures
      var text := "---\n" + h + FENCE + body;
      && "---\n" <= text && FindFence(text[4..]) == Some(|h|)
      && text[4..][..|h|] == h && text[4..][|h| + 6..] == body
  {
    FenceAfterHeader(h, body);
    FenceSplits(h, body);
    AfterPrefix("---\n", h, FENCE, body);
  }

  lemma AfterPrefix(p: string, h: string, f: string, body: string)
    ensures p <= p + h + f + body && (p + h + f + body)[|p|..] == h + f + body
  {
  }

  lemma DecodeParts(codec: Codec, text: string, h: string, m: Metadata, body: string)
    requires '\r' !in text && "---\n" <= text && FindFence(text[4..]) == Some(|h|)
    requires text[4..][..|h|] == h && text[4..][|h| + 6..] == body
    requires codec.parse(h) == Some(m) && codec.valid(m) && BodyOk(m.title, body)
    requires Encode(codec, m, ContentAfterTitle(m.title, body)) == Some(text)
    ensures Decode(codec, text) == Some((m, body))
  {
  }

  lemma FenceSplits(h: string, body: string)
    ensures (h + FENCE + body)[..|h|] == h && (h + FENCE + body)[|h| + 6..] == body
  {
    assert |FENCE| == 6;
  }

  /** Exactly the encodings of metadata without a carriage return in its title are accepted. */
  lemma DecodeAcceptsTheImage(codec: Codec, text: string)
    requires Lawful(codec)
    ensures Decode(codec, text).Some? <==> exists m, content :: Encode(codec, m, content) == Some(text) && '\r' !in m.title
  {
    if Decode(codec, text).Some? {
      var (m, body) := Decode(codec, text).value;
      var content := ContentAfterTitle(m.title, body);
      assert Encode(codec, m, content) == Some(text);
      EncodeDecode(codec, m, content);
    }
    if m, content :| Encode(codec, m, content) == Some(text) && '\r' !in m.title {
      EncodeDecode(codec, m, content);
    }
  }

  /** An update that gives no body keeps the content, under whatever metadata it writes. */
  lemma UpdateKeepsContent(codec: Codec, text: string, next: Metadata)
    requires Lawful(codec) && Decode(codec, text).Some?
    requires '\r' !in next.title
    requires
      var (m, body) := Decode(codec, text).value;
      Encode(codec, next, ContentAfterTitle(m.title, body)).Some?
    ensures
      var (m, body) := Decode(codec, text).value;
      var kept := Decode(codec, Encode(codec, next, ContentAfterTitle(m.title, body)).value);
      kept.Some? && kept.value.0 == next && ContentAfterTitle(next.title, kept.value.1) == ContentAfterTitle(m.title, body)
  {
    var (m, body) := Decode(codec, text).value;
    var content := ContentAfterTitle(m.title, body);
    DecodeAcceptsTheImage(codec, text);
    EncodeDecode(codec, m, content);
    ContentIsNormalized(m.title, content);
    EncodeDecode(codec, next, content);
    ContentIsNormalized(next.title, content);
  }

  // ---- What can be read back ----

  predicate ReadsBack(codec: Codec, m: Metadata, content: string) {
    var text := Encode(codec, m, content);
    text.Some? && Decode(codec, text.value).Some?
  }

  /** The document store over this codec. */
  function ConfigOf(codec: Codec, prefix: string, slug: string -> string, leq: (Path, Path) -> bool): StorageConfig {
    StorageConfig(prefix, slug, leq, (m, content) => ReadsBack(codec, m, content))
  }

  /** What planning accepts as readable is what encodes, except for titles with a carriage return. */
  lemma ReadableExactly(codec: Codec, prefix: string, slug: string -> string, leq: (Path, Path) -> bool, m: Metadata, content: string)
    requires Lawful(codec)
    ensures ConfigOf(codec, prefix, slug, leq).readable(m, content) <==> Encode(codec, m, content).Some? && '\r' !in m.title
  {
    if Encode(codec, m, content).Some? {
      EncodeDecode(codec, m, content);
    }
  }

  lemma {:induction false} SplitOneLine(s: string)
    requires '\n' !in s
    ensures Split(s + "\n") == [s, ""]
  {
    if s == "" {
      assert s + "\n" == "\n" && "\n"[1..] == "";
    } else {
      assert (s + "\n")[1..] == s[1..] + "\n";
      SplitOneLine(s[1..]);
      assert [s[0]] + s[1..] == s;
    }
  }

  /** Without content, any title of one line and without control characters encodes. */
  lemma EmptyEncodes(codec: Codec, m: Metadata)
    requires codec.valid(m) && '\n' !in m.title && !HasControl(Prefix(m.title))
    ensures Encode(codec, m, "").Some?
  {
    var body := Prefix(m.title) + "";
    assert Normalized("") == "" && Split("") == [""];
    assert body == Prefix(m.title);
    var heading := "# " + m.title;
    assert WithoutFinalNewline(body) == heading + "\n";
    SplitOneLine(heading);
    assert [heading, ""][2..] == [];
  }

  /** A title with a carriage return encodes to a text that no decoding accepts. */
  lemma TitleReturnIsRefused(codec: Codec, m: Metadata)
    requires Lawful(codec) && codec.valid(m) && m.title == "a\rb"
    ensures Encode(codec, m, "").Some? && Decode(codec, Encode(codec, m, "").value) == None
  {
    assert m.title[1] == '\r';
    EmptyEncodes(codec, m);
    EncodeDecode(codec, m, "");
  }
}
