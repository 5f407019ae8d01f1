/** The end-to-end lane's response reader: a chunked body (section 7.1 of RFC 9112) copied into a
    sink that counts every byte and keeps a bounded tail. Bytes are characters of one byte each. */
module HttpBody {
  import opened Wrappers
  import opened Integers

  const TAIL_BYTES: nat := 4096

  datatype Error = NotUtf8 | MalformedChunkSize | ConnectionClosed

  // ---------- the sink ----------

  /** What one write leaves of the tail: past twice the bound it is cut back to the bound. */
  function TailNext(bytes: string, buf: string): string {
    var all := bytes + buf;
    if |all| > 2 * TAIL_BYTES then all[|all| - TAIL_BYTES..] else all
  }

  ghost predicate IsSuffix(a: string, b: string) {
    |a| <= |b| && a == b[|b| - |a|..]
  }

  /** A tail holds a suffix of the stream, at least its last 4096 bytes and at most 8192. */
  ghost predicate IsTail(bytes: string, stream: string) {
    IsSuffix(bytes, stream) && (|bytes| >= TAIL_BYTES || bytes == stream) && |bytes| <= 2 * TAIL_BYTES
  }

  lemma TailStays(bytes: string, stream: string, buf: string)
    requires IsTail(bytes, stream)
    ensures IsTail(TailNext(bytes, buf), stream + buf)
  {
    var all, whole := bytes + buf, stream + buf;
    assert all == whole[|whole| - |all|..];
    if |all| > 2 * TAIL_BYTES {
      assert all[|all| - TAIL_BYTES..] == whole[|whole| - TAIL_BYTES..];
    }
  }

  class TailSink {
    var count: nat
    var bytes: string
    /** Everything written. */
    ghost var stream: string

    constructor ()
      ensures Valid() && stream == ""
    {
      count, bytes, stream := 0, "", "";
    }

    ghost predicate Valid()
      reads this
    {
      count == |stream| && IsTail(bytes, stream)
    }

    method Write(buf: string) returns (written: nat)
      requires Valid()
      modifies this
      ensures Valid() && stream == old(stream) + buf && written == |buf| && count == old(count) + |buf|
      ensures bytes == TailNext(old(bytes), buf)
      ensures |bytes| <= 8192 && bytes == stream[|stream| - |bytes|..] && (|bytes| >= 4096 || bytes == stream)
    {
      TailStays(bytes, stream, buf);
      count := count + |buf|;
      bytes := bytes + buf;
      if |bytes| > 2 * TAIL_BYTES {
        var cut := |bytes| - TAIL_BYTES;
        bytes := bytes[cut..];
      }
      stream := stream + buf;
      written := |buf|;
    }

    /** The library's copy: writes `data` in pieces of its own choosing. */
    method CopyFrom(data: string)
      requires Valid()
      modifies this
      ensures Valid() && stream == old(stream) + data
    {
      hide IsTail, TailNext;
      var at := 0;
      while at < |data|
        invariant at <= |data| && Valid() && stream == old(stream) + data[..at]
      {
        var n: nat :| 1 <= n <= |data| - at;
        var written := Write(data[at..at + n]);
        assert data[..at] + data[at..at + n] == data[..at + n];
        at := at + n;
      }
      assert data[..at] == data;
    }
  }

  // ---------- lines and sizes ----------

  /** White space as the library trims it, beyond one byte too. */
  predicate IsSpace(c: char) {
    var n := c as int;
    n == 0x20 || 9 <= n <= 13 || n == 0x85 || n == 0xA0 || n == 0x1680 || 0x2000 <= n <= 0x200A
    || n == 0x2028 || n == 0x2029
    || n == 0x202F || n == 0x205F || n == 0x3000
  }

  /** That is Unicode's White_Space, character by character. */
  lemma SpacesAre(c: char)
    ensures IsSpace(c) <==> c in WHITE_SPACE
  {}

  const WHITE_SPACE: string := "\t\n\U{000B}\U{000C}\r \U{0085}\U{00A0}\U{1680}\U{2000}\U{2001}\U{2002}\U{2003}"
    + "\U{2004}\U{2005}\U{2006}\U{2007}\U{2008}\U{2009}\U{200A}\U{2028}\U{2029}\U{202F}\U{205F}\U{3000}"

  function TrimStart(s: string): string {
    if s != "" && IsSpace(s[0]) then TrimStart(s[1..]) else s
  }

  function TrimEnd(s: string): string {
    if s != "" && IsSpace(s[|s| - 1]) then TrimEnd(s[..|s| - 1]) else s
  }

  /** The text before the first semicolon. */
  function BeforeSemicolon(s: string): string {
    if s == "" || s[0] == ';' then "" else [s[0]] + BeforeSemicolon(s[1..])
  }

  /** The end of the line that starts at `at`: after its newline, or the end of the input. */
  function LineEnd(input: string, at: nat): (end: nat)
    requires at <= |input|
    ensures at <= end <= |input| && (at < |input| ==> at < end)
    decreases |input| - at
  {
    if at == |input| then at else if input[at] == '\n' then at + 1 else LineEnd(input, at + 1)
  }

  function HexDigit(c: char): Option<nat> {
    if '0' <= c <= '9' then Some((c - '0') as nat)
    else if 'a' <= c <= 'f' then Some((c - 'a') as nat + 10)
    else if 'A' <= c <= 'F' then Some((c - 'A') as nat + 10)
    else None
  }

  function HexValue(s: string): Option<nat> {
    if s == "" then Some(0)
    else match (HexValue(s[..|s| - 1]), HexDigit(s[|s| - 1]))
      case (Some(v), Some(d)) => Some(16 * v + d)
      case _ => None
  }

  /** A 64-bit size in base 16: an optional plus sign and at least one digit. */
  function ParseHex(s: string): Option<nat> {
    var digits := if |s| > 1 && s[0] == '+' then s[1..] else s;
    if digits == "" then None
    else match HexValue(digits)
      case Some(v) => if v <= U64_MAX then Some(v) else None
      case None => None
  }

  // ---------- lines as text ----------

  /** A continuation byte within `lo..hi`, as its six bits. */
  function Continuation(s: string, i: nat, lo: int, hi: int): Option<int> {
    if i < |s| && 0x80 <= lo <= s[i] as int <= hi <= 0xBF then Some(s[i] as int - 0x80) else None
  }

  /** The first character of nonempty bytes in UTF-8, with its length, if they start with one. */
  function FirstChar(s: string): (r: Option<(char, nat)>)
    requires s != ""
    ensures r.Some? ==> 1 <= r.value.1 <= |s|
    ensures s[0] as int < 0x80 ==> r == Some((s[0], 1))
  {
    var b := s[0] as int;
    if b < 0x80 then Some((s[0], 1))
    else if 0xC2 <= b <= 0xDF then
      match Continuation(s, 1, 0x80, 0xBF)
      case Some(x) => Some((((b - 0xC0) * 0x40 + x) as char, 2))
      case None => None
    else if 0xE0 <= b <= 0xEF then
      match (Continuation(s, 1, if b == 0xE0 then 0xA0 else 0x80, if b == 0xED then 0x9F else 0xBF),
        Continuation(s, 2, 0x80, 0xBF))
      case (Some(x), Some(y)) => Some((((b - 0xE0) * 0x1000 + x * 0x40 + y) as char, 3))
      case _ => None
    else if 0xF0 <= b <= 0xF4 then
      match (Continuation(s, 1, if b == 0xF0 then 0x90 else 0x80, if b == 0xF4 then 0x8F else 0xBF),
        Continuation(s, 2, 0x80, 0xBF),
             Continuation(s, 3, 0x80, 0xBF))
      case (Some(x), Some(y), Some(z)) => Some((((b - 0xF0) * 0x40000 + x * 0x1000 + y * 0x40 + z) as char, 4))
      case _ => None
    else None
  }

  /** The text of bytes in UTF-8, if they are. */
  function Decode(s: string): Option<string> {
    if s == "" then Some("")
    else match FirstChar(s)
      case None => None
      case Some((c, n)) =>
        match Decode(s[n..])
        case None => None
        case Some(rest) => Some([c] + rest)
  }

  predicate Ascii(s: string) { forall i :: 0 <= i < |s| ==> s[i] as int < 0x80 }

  /** Text before the rest of a line stays as it is. */
  lemma {:induction false} DecodeAscii(a: string, b: string)
    requires Ascii(a)
    ensures Decode(a + b) == match Decode(b) case None => None case Some(text) => Some(a + text)
  {
    if a == "" {
      assert a + b == b;
      if Decode(b).Some? { assert a + Decode(b).value == Decode(b).value; }
    } else {
      hide FirstChar;
      assert (a + b)[1..] == a[1..] + b;
      DecodeAscii(a[1..], b);
      assert a[0] as int < 0x80;
      if Decode(b).Some? { assert [a[0]] + (a[1..] + Decode(b).value) == a + Decode(b).value; }
    }
  }

  // ---------- the chunked body ----------

  /** The size a line of text names. */
  function SizeOf(line: string): Option<nat> {
    ParseHex(BeforeSemicolon(TrimStart(TrimEnd(line))))
  }

  /** The size a line's bytes give, which must be text. */
  function SizeOfBytes(bytes: string): Result<nat, Error> {
    match Decode(bytes)
    case None => Err(NotUtf8)
    case Some(line) => match SizeOf(line) case Some(size) => Ok(size) case None => Err(MalformedChunkSize)
  }

  /** The size on the line that starts at `at`. */
  function SizeAt(input: string, at: nat): Result<nat, Error>
    requires at <= |input|
  {
    SizeOfBytes(input[at..LineEnd(input, at)])
  }

  /** The body delivered from the chunk line at `at` on: each size line, its data, and the rest of
      the line after the data, until a size of zero. */
  function ReadChunks(input: string, at: nat): Result<string, Error>
    requires at <= |input|
    decreases |input| - at
  {
    var dataAt := LineEnd(input, at);
    match SizeAt(input, at)
    case Err(e) => Err(e)
    case Ok(size) =>
      if size == 0 then Ok("")
      else if dataAt + size > |input| then Err(ConnectionClosed)
      else if Decode(input[dataAt + size..LineEnd(input, dataAt + size)]).None? then Err(NotUtf8)
      else match ReadChunks(input, LineEnd(input, dataAt + size))
        case Err(e) => Err(e)
        case Ok(rest) => Ok(input[dataAt..dataAt + size] + rest)
  }

  /** The body loop: delivers what `ReadChunks` says into the sink, or stops with its error. */
  method ReadChunkedBody(input: string, from: nat, sink: TailSink) returns (r: Result<nat, Error>)
    requires from <= |input| && sink.Valid()
    modifies sink
    ensures sink.Valid()
    ensures match ReadChunks(input, from)
      case Ok(body) => r == Ok(old(sink.count) + |body|) && sink.stream == old(sink.stream) + body
        && sink.count == old(sink.count) + |body|
      case Err(e) => r == Err(e)
  {
    hide SizeAt, LineEnd, IsTail, Decode;
    var at := from;
    ghost var start := sink.stream;
    while true
      invariant at <= |input| && sink.Valid()
      invariant Remains(input, from, start, at, sink.stream)
      decreases |input| - at
    {
      var dataAt := LineEnd(input, at);
      var size := SizeAt(input, at);
      if size.Err? { return Err(size.error); }
      if size.value == 0 {
        assert sink.stream + "" == sink.stream;
        return Ok(sink.count);
      }
      var end := if dataAt + size.value <= |input| then dataAt + size.value else |input|;
      ghost var before := sink.stream;
      sink.CopyFrom(input[dataAt..end]);
      if end - dataAt != size.value { return Err(ConnectionClosed); }
      if Decode(input[end..LineEnd(input, end)]).None? { return Err(NotUtf8); }
      at := LineEnd(input, end);
      ChunkTaken(input, from, start, before, input[dataAt..end], at, sink.stream);
    }
  }

  /** What is still to be delivered from `at`, after `so` has been, completes the whole. */
  ghost predicate Remains(input: string, from: nat, start: string, at: nat, so: string)
    requires from <= |input| && at <= |input|
  {
    match ReadChunks(input, from)
    case Ok(body) => ReadChunks(input, at).Ok? && so + ReadChunks(input, at).value == start + body
    case Err(e) => ReadChunks(input, at) == Err(e)
  }

  lemma ChunkTaken(input: string, from: nat, start: string, before: string, data: string, at: nat, so: string)
    requires from <= |input| && at <= |input| && so == before + data
    requires match (ReadChunks(input, from), ReadChunks(input, at))
      case (Ok(body), Ok(rest)) => before + (data + rest) == start + body
      case (Err(e), Err(f)) => e == f
      case _ => false
    ensures Remains(input, from, start, at, so)
  {
    hide ReadChunks;
    if ReadChunks(input, at).Ok? {
      assert before + (data + ReadChunks(input, at).value) == so + ReadChunks(input, at).value;
    }
  }

  // ---------- every split of a body ----------

  /** What a size line says: the size in base 16, blanks, and the extensions (none, or from a
      semicolon on; any bytes). */
  datatype Header = Header(size: string, padding: string, extensions: string)

  datatype Chunk = Chunk(header: Header, data: string)

  predicate Blanks(s: string) { forall i :: 0 <= i < |s| ==> s[i] == ' ' || s[i] == '\t' }

  ghost predicate Spells(h: Header, size: nat) {
    && ParseHex(h.size) == Some(size)
    && Blanks(h.padding)
    && (h.extensions == "" || h.extensions[0] == ';') && '\n' !in h.extensions
  }

  ghost predicate WellFormed(c: Chunk) { Spells(c.header, |c.data|) && c.data != "" }

  const CRLF: string := "\r\n"

  function SizeLine(h: Header): string { h.size + h.padding + h.extensions + CRLF }

  /** The chunks, then the last chunk (a size of zero), then whatever follows. */
  function Encode(chunks: seq<Chunk>, last: Header, rest: string): string {
    if chunks == [] then SizeLine(last) + rest
    else SizeLine(chunks[0].header) + (chunks[0].data + (CRLF + Encode(chunks[1..], last, rest)))
  }

  function Body(chunks: seq<Chunk>): string {
    if chunks == [] then "" else chunks[0].data + Body(chunks[1..])
  }

  /** What the reader holds against a well-formed size line: extensions that are not text, or blanks
      before them. */
  function Fault(h: Header): Option<Error> {
    if Decode(h.extensions).None? then Some(NotUtf8)
    else if h.padding != "" && h.extensions != "" then Some(MalformedChunkSize)
    else None
  }

  /** The first fault, the last chunk's size line included. */
  function FirstFault(chunks: seq<Chunk>, last: Header): Option<Error> {
    if chunks == [] then Fault(last)
    else if Fault(chunks[0].header).Some? then Fault(chunks[0].header)
    else FirstFault(chunks[1..], last)
  }

  lemma {:induction false} HexIsPlain(s: string)
    requires HexValue(s).Some?
    ensures forall i :: 0 <= i < |s| ==> !IsSpace(s[i]) && s[i] != ';' && s[i] != '\n'
  {
    if s == "" {
    } else {
      HexIsPlain(s[..|s| - 1]);
    }
  }

  /** A size that parses holds no space, no semicolon and no newline. */
  lemma SizeIsPlain(s: string)
    requires ParseHex(s).Some?
    ensures s != "" && forall i :: 0 <= i < |s| ==> !IsSpace(s[i]) && s[i] != ';' && s[i] != '\n'
  {
    var digits := if |s| > 1 && s[0] == '+' then s[1..] else s;
    HexIsPlain(digits);
    forall i | 0 <= i < |s| ensures !IsSpace(s[i]) && s[i] != ';' && s[i] != '\n' {
      if |digits| < |s| && i > 0 { assert s[i] == digits[i - 1]; }
    }
  }

  lemma {:induction false} TrimEndKeeps(a: string, b: string)
    requires a != "" && !IsSpace(a[|a| - 1])
    ensures TrimEnd(a + b) == a + TrimEnd(b)
  {
    if b == "" {
      assert a + b == a && a + TrimEnd(b) == a;
    } else {
      assert (a + b)[..|a + b| - 1] == a + b[..|b| - 1];
      TrimEndKeeps(a, b[..|b| - 1]);
    }
  }

  lemma {:induction false} TokenIsSize(size: string, rest: string)
    requires forall i :: 0 <= i < |size| ==> size[i] != ';'
    requires rest == "" || rest[0] == ';'
    ensures BeforeSemicolon(size + rest) == size
  {
    if size == "" {
      assert size + rest == rest;
    } else {
      assert (size + rest)[1..] == size[1..] + rest;
      TokenIsSize(size[1..], rest);
    }
  }

  lemma {:induction false} TrimsAway(s: string)
    requires forall i :: 0 <= i < |s| ==> IsSpace(s[i])
    ensures TrimEnd(s) == ""
  {
    if s == "" {
    } else {
      TrimsAway(s[..|s| - 1]);
    }
  }

  lemma {:induction false} NoBlanksInHex(s: string, i: nat)
    requires i < |s| && IsSpace(s[i])
    ensures HexValue(s).None?
  {
    if i == |s| - 1 {
    } else {
      NoBlanksInHex(s[..|s| - 1], i);
    }
  }

  /** A size followed by a blank is no size. */
  lemma PaddedIsNoSize(size: string, padding: string)
    requires size != "" && padding != "" && Blanks(padding)
    ensures ParseHex(size + padding).None?
  {
    var s := size + padding;
    assert s[|size|] == padding[0] && IsSpace(padding[0]);
    NoBlanksInHex(s, |size|);
    if s[0] == '+' { NoBlanksInHex(s[1..], |size| - 1); }
  }

  /** The text of a size line: its extensions' text, the rest as it is. */
  lemma SizeLineText(h: Header, size: nat)
    requires Spells(h, size)
    ensures Decode(SizeLine(h)) == match Decode(h.extensions)
      case None => None
      case Some(text) => Some(h.size + h.padding + text + CRLF)
  {
    SizeIsAscii(h.size);
    hide ParseHex;
    DecodeThenAscii(h.extensions, CRLF);
    assert Ascii(h.size + h.padding);
    DecodeAscii(h.size + h.padding, h.extensions + CRLF);
    assert SizeLine(h) == (h.size + h.padding) + (h.extensions + CRLF);
    if Decode(h.extensions).Some? {
      var text := Decode(h.extensions).value;
      assert (h.size + h.padding) + (text + CRLF) == h.size + h.padding + text + CRLF;
    }
  }

  /** Text after a line's bytes stays as it is. */
  lemma {:induction false} DecodeThenAscii(a: string, b: string)
    requires Ascii(b)
    ensures Decode(a + b) == match Decode(a) case None => None case Some(text) => Some(text + b)
  {
    if a == "" {
      assert a + b == b + "" == b;
      DecodeAscii(b, "");
      assert "" + b == b;
    } else {
      FirstCharKeeps(a, b);
      if FirstChar(a).Some? {
        var (c, n) := FirstChar(a).value;
        hide FirstChar;
        assert (a + b)[n..] == a[n..] + b;
        DecodeThenAscii(a[n..], b);
        if Decode(a[n..]).Some? { assert [c] + (Decode(a[n..]).value + b) == ([c] + Decode(a[n..]).value) + b; }
      }
    }
  }

  /** ASCII bytes never complete a character begun before them. */
  lemma FirstCharKeeps(a: string, b: string)
    requires a != "" && Ascii(b)
    ensures FirstChar(a + b) == FirstChar(a)
  {
    var s := a + b;
    forall i: nat, lo, hi ensures Continuation(s, i, lo, hi) == Continuation(a, i, lo, hi) {
      if |a| <= i < |s| { assert s[i] == b[i - |a|]; }
    }
  }

  lemma SizeIsAscii(s: string)
    requires ParseHex(s).Some?
    ensures Ascii(s)
  {
    var digits := if |s| > 1 && s[0] == '+' then s[1..] else s;
    HexIsAscii(digits);
    forall i | 0 <= i < |s| ensures s[i] as int < 0x80 {
      if |digits| < |s| && i > 0 { assert s[i] == digits[i - 1]; }
    }
  }

  lemma {:induction false} HexIsAscii(s: string)
    requires HexValue(s).Some?
    ensures Ascii(s)
  {
    if s == "" {
    } else {
      HexIsAscii(s[..|s| - 1]);
    }
  }

  /** The size a well-formed size line's text gives: its size, unless blanks stand before extensions. */
  lemma SizeLineToken(h: Header, size: nat, text: string)
    requires Spells(h, size) && (text == "" <==> h.extensions == "") && (text != "" ==> text[0] == ';')
    ensures SizeOf(h.size + h.padding + text + CRLF) == if h.padding != "" && text != "" then None else Some(size)
  {
    SizeIsPlain(h.size);
    hide ParseHex;
    var line := h.size + h.padding + text + CRLF;
    if text == "" {
      var tail := h.padding + CRLF;
      assert line == h.size + tail;
      TrimEndKeeps(h.size, tail);
      TrimsAway(tail);
      assert TrimEnd(line) == h.size + "" == h.size;
      TokenIsSize(h.size, "");
    } else {
      var token, tail := h.size + h.padding, text + CRLF;
      var head := token + ";";
      assert tail == ";" + tail[1..] && line == head + tail[1..];
      TrimEndKeeps(head, tail[1..]);
      var rest := ";" + TrimEnd(tail[1..]);
      assert TrimEnd(line) == token + rest;
      forall i | 0 <= i < |token|
        ensures token[i] != ';'
      {
        if i >= |h.size| {
          assert token[i] == h.padding[i - |h.size|];
        }
      }
      TokenIsSize(token, rest);
      assert TrimStart(token + rest) == token + rest;
      if h.padding == "" { assert token == h.size; } else { PaddedIsNoSize(h.size, h.padding); }
    }
  }

  /** The text of extensions starts with their semicolon. */
  lemma ExtensionsText(h: Header, size: nat)
    requires Spells(h, size) && Decode(h.extensions).Some?
    ensures
      var text := Decode(h.extensions).value;
      (text == "" <==> h.extensions == "") && (text != "" ==> text[0] == ';')
  {
    if h.extensions == "" {
    } else {
      assert h.extensions == ";" + h.extensions[1..];
      DecodeAscii(";", h.extensions[1..]);
    }
  }

  lemma {:induction false} LineEndSkips(input: string, at: nat, n: nat)
    requires at + n < |input| && input[at + n] == '\n' && forall i :: at <= i < at + n ==> input[i] != '\n'
    ensures LineEnd(input, at) == at + n + 1
    decreases n
  {
    if n == 0 {
    } else {
      LineEndSkips(input, at + 1, n - 1);
    }
  }

  /** A size line at `at` is read whole, to its size or to its fault. */
  lemma SizeLineRead(input: string, at: nat, h: Header, size: nat)
    requires Spells(h, size) && at <= |input| && SizeLine(h) <= input[at..]
    ensures LineEnd(input, at) == at + |SizeLine(h)|
    ensures SizeAt(input, at) == match Fault(h) case None => Ok(size) case Some(e) => Err(e)
  {
    SizeLineEnds(input, at, h, size);
    SizeLineNames(h, size);
    hide *;
    SizeAtLine(input, at, SizeLine(h));
  }

  lemma SizeAtLine(input: string, at: nat, line: string)
    requires at <= |input| && LineEnd(input, at) == at + |line| && input[at..at + |line|] == line
    ensures SizeAt(input, at) == SizeOfBytes(line)
  {
    hide LineEnd, SizeOfBytes;
  }

  /** What a size line by itself gives. */
  lemma SizeLineNames(h: Header, size: nat)
    requires Spells(h, size)
    ensures SizeOfBytes(SizeLine(h)) == match Fault(h) case None => Ok(size) case Some(e) => Err(e)
  {
    SizeLineText(h, size);
    hide SizeOf, SizeLine;
    if Decode(h.extensions).Some? {
      ExtensionsText(h, size);
      hide Decode;
      SizeLineToken(h, size, Decode(h.extensions).value);
    }
  }

  lemma SizeLineEnds(input: string, at: nat, h: Header, size: nat)
    requires Spells(h, size) && at <= |input| && SizeLine(h) <= input[at..]
    ensures var line := SizeLine(h); LineEnd(input, at) == at + |line| && input[at..at + |line|] == line
  {
    SizeIsPlain(h.size);
    hide ParseHex;
    var line := SizeLine(h);
    var front := h.size + h.padding + h.extensions;
    forall i | 0 <= i < |line| ensures input[at + i] == line[i] { assert input[at..][i] == line[i]; }
    forall i | at <= i < at + |line| - 1 ensures input[i] != '\n' {
      assert input[i] == line[i - at];
      if i - at < |front| { FrontHasNoNewline(h, size, i - at); }
    }
    assert input[at + |line| - 1] == line[|line| - 1];
    LineEndSkips(input, at, |line| - 1);
  }

  lemma FrontHasNoNewline(h: Header, size: nat, i: nat)
    requires Spells(h, size) && i < |h.size + h.padding + h.extensions|
    ensures (h.size + h.padding + h.extensions)[i] != '\n'
  {
    SizeIsPlain(h.size);
    hide ParseHex;
    if i < |h.size| {
    } else if i < |h.size| + |h.padding| {
      assert (h.size + h.padding + h.extensions)[i] == h.padding[i - |h.size|];
    } else {
      assert (h.size + h.padding + h.extensions)[i] == h.extensions[i - |h.size| - |h.padding|];
    }
  }

  /** Whatever the body and however it is split into well-formed chunks, the reader delivers exactly
      the body, unless a size line has a fault; then it stops with the first one. */
  lemma {:induction false} EverySplitRead(input: string, at: nat, chunks: seq<Chunk>, last: Header, rest: string)
    requires (forall c :: c in chunks ==> WellFormed(c)) && Spells(last, 0)
    requires at <= |input| && input[at..] == Encode(chunks, last, rest)
    ensures ReadChunks(input, at) == match FirstFault(chunks, last) case None => Ok(Body(chunks)) case Some(e) => Err(e)
    decreases chunks
  {
    hide Spells, Fault, SizeAt, LineEnd, SizeLine;
    if chunks == [] {
      SizeLineRead(input, at, last, 0);
    } else {
      var c := chunks[0];
      assert WellFormed(c);
      var line, tail := SizeLine(c.header), Encode(chunks[1..], last, rest);
      SizeLineRead(input, at, c.header, |c.data|);
      ThreeSections(input, at, line, c.data, CRLF, tail);
      var after := at + |line| + |c.data|;
      CrLfEnds(input, after);
      EverySplitRead(input, after + 2, chunks[1..], last, rest);
    }
  }

  /** Delivery exactly when no size line puts blanks before extensions or extensions that are not
      text; a reader of section 7.1.1 of RFC 9112 would have to accept the blanks. */
  lemma {:induction false} EverySplitDelivered(input: string, at: nat, chunks: seq<Chunk>, last: Header, rest: string)
    requires (forall c :: c in chunks ==> WellFormed(c)) && Spells(last, 0)
    requires at <= |input| && input[at..] == Encode(chunks, last, rest)
    ensures ReadChunks(input, at) == Ok(Body(chunks)) <==>
        Faultless(last) && forall c :: c in chunks ==> Faultless(c.header)
  {
    EverySplitRead(input, at, chunks, last, rest);
    hide ReadChunks, Encode, WellFormed, Spells, Decode;
    FaultlessSplit(chunks, last);
  }

  predicate Faultless(h: Header) { (h.padding == "" || h.extensions == "") && Decode(h.extensions).Some? }

  lemma {:induction false} FaultlessSplit(chunks: seq<Chunk>, last: Header)
    ensures FirstFault(chunks, last).None? <==> Faultless(last) && forall c :: c in chunks ==> Faultless(c.header)
  {
    hide Decode;
    if chunks == [] {
    } else {
      FaultlessSplit(chunks[1..], last);
      assert chunks == [chunks[0]] + chunks[1..];
    }
  }

  const PADDED_BODY: string := "5 ;a\r\nhello\r\n0\r\n\r\n"

  lemma PaddedBodyIs(h: Header, last: Header)
    requires h == Header("5", " ", ";a") && last == Header("0", "", "")
    ensures PADDED_BODY == Encode([Chunk(h, "hello")], last, "\r\n")
  {
    assert SizeLine(h) == "5 ;a\r\n" && SizeLine(last) == "0\r\n";
    hide SizeLine;
    assert Encode([], last, "\r\n") == "0\r\n\r\n";
    assert [Chunk(h, "hello")][1..] == [];
  }

  lemma PaddedBodySpells(h: Header, last: Header)
    requires h == Header("5", " ", ";a") && last == Header("0", "", "")
    ensures Spells(h, 5) && Spells(last, 0) && Fault(h) == Some(MalformedChunkSize)
  {
    HexOfValue(5);
    HexOfValue(0);
    assert HexOf(5) == "5" && HexOf(0) == "0";
    DecodeAscii(";a", "");
    assert ";a" + "" == ";a";
  }

  /** A legal body, one chunk with a blank before its extension, that the reader refuses. */
  lemma PaddedExtensionRefused()
    ensures ReadChunks("5 ;a\r\nhello\r\n0\r\n\r\n", 0) == Err(MalformedChunkSize)
  {
    var h, last := Header("5", " ", ";a"), Header("0", "", "");
    PaddedBodySpells(h, last);
    PaddedBodyIs(h, last);
    hide ReadChunks, Encode, Spells, Fault;
    assert PADDED_BODY[0..] == PADDED_BODY;
    EverySplitRead(PADDED_BODY, 0, [Chunk(h, "hello")], last, "\r\n");
  }

  lemma Sections(input: string, at: nat, a: string, b: string)
    requires at <= |input| && input[at..] == a + b
    ensures at + |a| <= |input| && input[at..at + |a|] == a && input[at + |a|..] == b
  {
    assert input[at..at + |a|] == input[at..][..|a|];
    assert input[at + |a|..] == input[at..][|a|..];
  }

  lemma ThreeSections(input: string, at: nat, line: string, data: string, end: string, tail: string)
    requires at <= |input| && input[at..] == line + (data + (end + tail))
    ensures var mid := at + |line|; var after := mid + |data|;
      after + |end| <= |input| && input[mid..after] == data && input[after..after + |end|] == end
        && input[after + |end|..] == tail
  {
    Sections(input, at, line, data + (end + tail));
    var mid := at + |line|;
    Sections(input, mid, data, end + tail);
    var after := mid + |data|;
    Sections(input, after, end, tail);
  }

  lemma CrLfEnds(input: string, at: nat)
    requires at + 2 <= |input| && input[at..at + 2] == CRLF
    ensures LineEnd(input, at) == at + 2 && Decode(input[at..LineEnd(input, at)]).Some?
  {
    assert input[at] == CRLF[0] && input[at + 1] == CRLF[1];
    DecodeAscii(CRLF, "");
    assert CRLF + "" == CRLF;
  }

  /** Every size has a spelling the reader accepts. */
  function HexOf(n: nat): string {
    if n < 16 then [Digit(n)] else HexOf(n / 16) + [Digit(n % 16)]
  }

  function Digit(d: nat): char
    requires d < 16
  {
    if d < 10 then '0' + d as char else 'a' + (d - 10) as char
  }

  lemma {:induction false} HexOfValue(n: nat)
    ensures HexValue(HexOf(n)) == Some(n) && HexOf(n) != "" && HexOf(n)[0] != '+'
  {
    if n < 16 {
      assert HexOf(n)[..0] == "";
    } else {
      HexOfValue(n / 16);
      assert HexOf(n)[..|HexOf(n)| - 1] == HexOf(n / 16);
    }
  }

  const HEX_DIGITS: string := "0123456789abcdef0123456789ABCDEF"

  predicate IsHex(c: char) { c in HEX_DIGITS }

  /** Digits spelled again, letters in either case. */
  predicate SameDigits(a: string, b: string) {
    |a| == |b| && forall i :: 0 <= i < |a| ==> SameDigit(a[i], b[i])
  }

  predicate SameDigit(c: char, d: char) { c == d || ('a' <= c <= 'f' && c as int - d as int == 0x20) }

  lemma DigitAt(i: nat)
    requires i < 16
    ensures HexDigit(HEX_DIGITS[i]) == Some(i) && HexDigit(HEX_DIGITS[16 + i]) == Some(i)
  {
    assert HEX_DIGITS[i] == Digit(i);
  }

  lemma HexDigitIs(c: char)
    ensures HexDigit(c).Some? <==> IsHex(c)
  {
    if HexDigit(c).Some? { DigitAt(HexDigit(c).value); }
    if IsHex(c) {
      var i :| 0 <= i < |HEX_DIGITS| && HEX_DIGITS[i] == c;
      DigitAt(i % 16);
    }
  }

  lemma {:induction false} SameValue(a: string, b: string)
    requires SameDigits(a, b)
    ensures HexValue(a) == HexValue(b)
  {
    if a == "" {
    } else {
      var n := |a| - 1;
      hide HexDigit, SameDigit;
      SameValue(a[..n], b[..n]);
      SameDigitValue(a[n], b[n]);
    }
  }

  lemma SameDigitValue(c: char, d: char)
    requires SameDigit(c, d)
    ensures HexDigit(c) == HexDigit(d)
  {
  }

  /** A string is a number exactly when every character is a hexadecimal digit. */
  lemma {:induction false} HexValueIs(s: string)
    ensures HexValue(s).Some? <==> forall i :: 0 <= i < |s| ==> IsHex(s[i])
  {
    hide HexDigit, IsHex;
    if s == "" {
    } else {
      var n := |s| - 1;
      HexValueIs(s[..n]);
      HexDigitIs(s[n]);
      assert s == s[..n] + [s[n]];
    }
  }

  function Zeros(k: nat): string { if k == 0 then "" else Zeros(k - 1) + "0" }

  lemma {:induction false} ZerosThen(k: nat, s: string)
    ensures HexValue(Zeros(k) + s) == HexValue(s)
    decreases |s|, k
  {
    var z := Zeros(k) + s;
    if s == "" {
      assert z == Zeros(k);
      if k > 0 {
        ZerosThen(k - 1, "");
        assert z[..|z| - 1] == Zeros(k - 1) + "";
      }
    } else {
      ZerosThen(k, s[..|s| - 1]);
      assert z[..|z| - 1] == Zeros(k) + s[..|s| - 1];
    }
  }

  /** Every spelling of a size is read as that size, or refused where it leaves 64 bits: leading zeros,
      letters of either case, a plus sign. */
  lemma SizesHaveSpellings(n: nat, zeros: nat, spelled: string)
    requires SameDigits(HexOf(n), spelled)
    ensures ParseHex(Zeros(zeros) + spelled) == if n <= U64_MAX then Some(n) else None
    ensures ParseHex("+" + (Zeros(zeros) + spelled)) == if n <= U64_MAX then Some(n) else None
  {
    HexOfValue(n);
    hide HexOf, HexValue, SameDigits;
    SameValue(HexOf(n), spelled);
    ZerosThen(zeros, spelled);
    HexValueIs(Zeros(zeros) + spelled);
    assert spelled != "" by { SameLength(HexOf(n), spelled); }
    hide Zeros, IsHex;
    PlusIsNoDigit();
    assert IsHex((Zeros(zeros) + spelled)[0]);
    SignOrNot(Zeros(zeros) + spelled);
  }

  lemma SameLength(a: string, b: string)
    requires SameDigits(a, b)
    ensures |a| == |b|
  {}

  lemma SignOrNot(digits: string)
    requires digits != "" && digits[0] != '+'
    ensures ParseHex(digits) == ParseHex("+" + digits)
    ensures ParseHex(digits) == match HexValue(digits)
      case Some(v) => (if v <= U64_MAX then Some(v) else None)
      case None => None
  {
    assert ("+" + digits)[1..] == digits;
    hide HexValue;
  }

  lemma PlusIsNoDigit()
    ensures !IsHex('+')
  {
    HexDigitIs('+');
    hide IsHex;
  }

  /** And nothing else is read as a size. */
  lemma OnlySpellingsRead(s: string) returns (zeros: nat, spelled: string)
    requires ParseHex(s).Some?
    ensures SameDigits(HexOf(ParseHex(s).value), spelled)
    ensures s == Zeros(zeros) + spelled || s == "+" + (Zeros(zeros) + spelled)
  {
    var digits := if |s| > 1 && s[0] == '+' then s[1..] else s;
    hide HexOf, SameDigits, Zeros, HexValue;
    zeros, spelled := Spelled(digits);
    assert digits != s ==> s == "+" + digits;
  }

  lemma {:induction false} Spelled(digits: string) returns (zeros: nat, spelled: string)
    requires digits != "" && HexValue(digits).Some?
    ensures SameDigits(HexOf(HexValue(digits).value), spelled) && digits == Zeros(zeros) + spelled
  {
    hide *;
    var n := |digits| - 1;
    var front, last := digits[..n], digits[n];
    HexStep(digits);
    LastDigit(last);
    var d := HexDigit(last).value;
    if n == 0 {
      zeros, spelled := 0, [last];
      assert front == "";
      OneDigit(last);
      ZerosJoin(0, "", last);
    } else {
      var k, rest := Spelled(front);
      var v := HexValue(front).value;
      assert digits == front + [last];
      if v == 0 {
        SameDigitIsZero(rest);
        OneDigit(last);
        zeros, spelled := k + 1, [last];
        ZerosJoin(k, rest, last);
      } else {
        HexOfStep(v, d);
        JoinDigit(HexOf(v), rest, Digit(d), last);
        zeros, spelled := k, rest + [last];
        ZerosJoin(k, rest, last);
      }
    }
  }

  lemma HexStep(digits: string)
    requires digits != "" && HexValue(digits).Some?
    ensures var n := |digits| - 1;
      && HexValue(digits[..n]).Some? && HexDigit(digits[n]).Some?
      && HexValue(digits).value == 16 * HexValue(digits[..n]).value + HexDigit(digits[n]).value
      && (n == 0 ==> HexValue(digits[..n]).value == 0)
  {
    hide HexDigit;
  }

  lemma HexOfStep(v: nat, d: nat)
    requires v > 0 && d < 16
    ensures HexOf(16 * v + d) == HexOf(v) + [Digit(d)]
  {}

  lemma OneDigit(c: char)
    requires HexDigit(c).Some?
    ensures SameDigits(HexOf(HexDigit(c).value), [c])
  {}

  lemma JoinDigit(a: string, b: string, c: char, d: char)
    requires SameDigits(a, b) && SameDigit(c, d)
    ensures SameDigits(a + [c], b + [d])
  {
    hide SameDigit;
  }

  lemma ZerosJoin(k: nat, s: string, c: char)
    ensures Zeros(k) + s + [c] == Zeros(k) + (s + [c])
    ensures s == "" && k == 0 ==> Zeros(0) + [c] == [c]
    ensures s == "0" ==> Zeros(k) + s + [c] == Zeros(k + 1) + [c]
  {}

  lemma LastDigit(c: char)
    requires HexDigit(c).Some?
    ensures HexDigit(c).value < 16 && SameDigit(Digit(HexDigit(c).value), c)
  {}

  lemma SameDigitIsZero(s: string)
    requires SameDigits(HexOf(0), s)
    ensures s == "0"
  {
    assert HexOf(0) == "0";
    assert |s| == 1 && SameDigit('0', s[0]);
  }
}
