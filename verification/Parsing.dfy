/**
 Parsing a request in place: words are cut by writing NULs over the delimiters, and the request
 record keeps positions in the buffer.
 */
module Parsing {
  import opened Common
  import opened CStrings
  import opened Framing

  const MAX_HEADERS := 64

  const SPACE: set<octet> := {' '}
  const COLON: set<octet> := {':', ' '}
  const LINE: set<octet> := {'\r', '\n'}
  const CRLF: seq<octet> := ['\r', '\n']

  // Words of a text.

  function Word(text: seq<octet>, delims: set<octet>): seq<octet> {
    text[..Cut(text, delims)]
  }

  function Rest(text: seq<octet>, delims: set<octet>): seq<octet> {
    var cut := Cut(text, delims);
    text[cut + Run(text[cut..], delims)..]
  }

  /** Bytes from p up to end may have become NUL; no other byte has changed. */
  ghost predicate OnlyCut(before: seq<octet>, after: seq<octet>, p: nat, end: nat) {
    && |after| == |before|
    && forall i :: 0 <= i < |before| ==> after[i] == before[i] || (p <= i < end && after[i] == NUL)
  }

  /** A string that ends by p is still there. */
  lemma StrKept(before: seq<octet>, after: seq<octet>, p: nat, end: nat, w: nat, s: seq<octet>)
    requires OnlyCut(before, after, p, end) && IsStr(before, w, s) && w + |s| <= p
    ensures IsStr(after, w, s)
  {
  }

  method Strcspn(buf: array<octet>, p: nat, delims: set<octet>, ghost text: seq<octet>) returns (n: nat)
    requires IsStr(buf[..], p, text)
    ensures n == Cut(text, delims)
  {
    n := 0;
    while buf[p + n] != NUL && buf[p + n] !in delims
      invariant n <= Cut(text, delims)
      decreases |text| - n
    {
      assert buf[..][p + n] == text[n];
      n := n + 1;
    }
    assert n < |text| ==> text[n] == buf[..][p + n];
  }

  method Strspn(buf: array<octet>, p: nat, delims: set<octet>, ghost text: seq<octet>) returns (n: nat)
    requires IsStr(buf[..], p, text) && NUL !in delims
    ensures n == Run(text, delims)
  {
    n := 0;
    while buf[p + n] in delims
      invariant n <= Run(text, delims)
      decreases |text| - n
    {
      assert n < |text| ==> text[n] == buf[..][p + n];
      n := n + 1;
    }
    assert n < |text| ==> text[n] == buf[..][p + n];
  }

  /** Writing NULs over the delimiters leaves the word before them and the text after them. */
  lemma CutStrings(before: seq<octet>, after: seq<octet>, p: nat, text: seq<octet>, delims: set<octet>)
    requires IsStr(before, p, text) && |after| == |before|
    requires var from := p + Cut(text, delims);
             var to := from + Run(text[Cut(text, delims)..], delims);
             forall i :: 0 <= i < |before| ==> after[i] == if from <= i < to then NUL else before[i]
    ensures IsStr(after, p, Word(text, delims))
    ensures IsStr(after, p + (|text| - |Rest(text, delims)|), Rest(text, delims))
  {
    hide Cut, Run;
    StrTail(before, p, text, |text| - |Rest(text, delims)|);
  }

  method Skip(buf: array<octet>, p: nat, delims: set<octet>, ghost text: seq<octet>) returns (word: nat, next: nat)
    requires IsStr(buf[..], p, text) && NUL !in delims
    modifies buf
    ensures word == p && p + |Word(text, delims)| <= next && next + |Rest(text, delims)| == p + |text|
    ensures IsStr(buf[..], word, Word(text, delims)) && IsStr(buf[..], next, Rest(text, delims))
    ensures OnlyCut(old(buf[..]), buf[..], p, p + |text|)
  {
    hide Cut, Run;
    ghost var before := buf[..];
    word := p;
    var cut := Strcspn(buf, p, delims, text);
    StrTail(before, p, text, cut);
    var run := Strspn(buf, p + cut, delims, text[cut..]);
    var endWord := p + cut;
    next := endWord + run;
    forall i | endWord <= i < next {
      buf[i] := NUL;
    }
    CutStrings(before, buf[..], p, text, delims);
  }

  // Requests.

  datatype Header = Header(name: seq<octet>, value: seq<octet>)

  datatype Request = Request(verb: seq<octet>, uri: seq<octet>, version: seq<octet>, headers: seq<Header>)

  /** At most n headers, up to the first empty name. */
  function HeadersOf(text: seq<octet>, n: nat): (hs: seq<Header>)
    ensures |hs| <= n
  {
    if n == 0 then [] else
    var name, t := Word(text, COLON), Rest(text, COLON);
    if name == [] then [] else
    [Header(name, Word(t, LINE))] + HeadersOf(Rest(t, LINE), n - 1)
  }

  /** Positions of a header's name and value. */
  datatype Field = Field(name: nat, value: nat)

  ghost predicate FieldsAre(mem: seq<octet>, fields: seq<Field>, hs: seq<Header>) {
    && |fields| == |hs|
    && forall i :: 0 <= i < |hs| ==> IsStr(mem, fields[i].name, hs[i].name) && IsStr(mem, fields[i].value, hs[i].value)
  }

  ghost predicate FieldsEndBy(fields: seq<Field>, hs: seq<Header>, p: nat) {
    && |fields| == |hs|
    && forall i :: 0 <= i < |hs| ==> fields[i].name + |hs[i].name| <= p && fields[i].value + |hs[i].value| <= p
  }

  lemma FieldsKept(before: seq<octet>, after: seq<octet>, p: nat, end: nat, fields: seq<Field>, hs: seq<Header>)
    requires OnlyCut(before, after, p, end) && FieldsAre(before, fields, hs) && FieldsEndBy(fields, hs, p)
    ensures FieldsAre(after, fields, hs)
  {
    forall i | 0 <= i < |hs|
      ensures IsStr(after, fields[i].name, hs[i].name) && IsStr(after, fields[i].value, hs[i].value)
    {
      StrKept(before, after, p, end, fields[i].name, hs[i].name);
      StrKept(before, after, p, end, fields[i].value, hs[i].value);
    }
  }

  /** One turn of the header loop: a name, then a value. */
  method ParseField(buf: array<octet>, p: nat, ghost text: seq<octet>) returns (field: Field, next: nat)
    requires IsStr(buf[..], p, text)
    modifies buf
    ensures IsStr(buf[..], field.name, Word(text, COLON))
    ensures IsStr(buf[..], field.value, Word(Rest(text, COLON), LINE))
    ensures IsStr(buf[..], next, Rest(Rest(text, COLON), LINE))
    ensures OnlyCut(old(buf[..]), buf[..], p, p + |text|) && p <= next
    ensures next + |Rest(Rest(text, COLON), LINE)| == p + |text|
    ensures field.name + |Word(text, COLON)| <= next && field.value + |Word(Rest(text, COLON), LINE)| <= next
  {
    hide Word, Rest;
    var name, value;
    name, next := Skip(buf, p, COLON, text);
    ghost var middle, cut := buf[..], next;
    value, next := Skip(buf, next, LINE, Rest(text, COLON));
    StrKept(middle, buf[..], cut, p + |text|, name, Word(text, COLON));
    field := Field(name, value);
  }

  lemma CutTwice(a: seq<octet>, b: seq<octet>, c: seq<octet>, p: nat, q: nat, end: nat)
    requires OnlyCut(a, b, p, end) && OnlyCut(b, c, q, end) && p <= q
    ensures OnlyCut(a, c, p, end)
  {
  }

  lemma FirstByte(mem: seq<octet>, p: nat, s: seq<octet>)
    requires IsStr(mem, p, s)
    ensures p < |mem| && (mem[p] == NUL <==> s == [])
  {
    assert s != [] ==> mem[p + 0] == s[0];
  }

  lemma FieldAdded(mem: seq<octet>, fields: seq<Field>, hs: seq<Header>, f: Field, h: Header, p: nat)
    requires FieldsAre(mem, fields, hs) && FieldsEndBy(fields, hs, p)
    requires IsStr(mem, f.name, h.name) && IsStr(mem, f.value, h.value)
    ensures FieldsAre(mem, fields + [f], hs + [h])
    ensures forall q :: p <= q && f.name + |h.name| <= q && f.value + |h.value| <= q ==>
              FieldsEndBy(fields + [f], hs + [h], q)
  {
  }

  lemma NothingYet(mem: seq<octet>, p: nat, end: nat)
    ensures OnlyCut(mem, mem, p, end) && FieldsAre(mem, [], []) && FieldsEndBy([], [], p)
  {
  }

  method ParseHttpHeaders(buf: array<octet>, start: nat, ghost text: seq<octet>) returns (fields: seq<Field>)
    requires IsStr(buf[..], start, text)
    modifies buf
    ensures FieldsAre(buf[..], fields, HeadersOf(text, MAX_HEADERS))
    ensures OnlyCut(old(buf[..]), buf[..], start, start + |text|)
  {
    hide Word, Rest, IsStr, FieldsAre, FieldsEndBy, OnlyCut;
    ghost var end := start + |text|;
    NothingYet(buf[..], start, end);
    fields := [];
    var i: nat, p: nat := 0, start;
    ghost var rest, done := text, [];
    while i < MAX_HEADERS
      invariant i == |fields| <= MAX_HEADERS && start <= p && p + |rest| == end
      invariant IsStr(buf[..], p, rest) && OnlyCut(old(buf[..]), buf[..], start, end)
      invariant FieldsAre(buf[..], fields, done) && FieldsEndBy(fields, done, p)
      invariant HeadersOf(text, MAX_HEADERS) == done + HeadersOf(rest, MAX_HEADERS - i)
    {
      ghost var before, from := buf[..], p;
      var field;
      field, p := ParseField(buf, p, rest);
      FieldsKept(before, buf[..], from, end, fields, done);
      CutTwice(old(buf[..]), before, buf[..], start, from, end);
      ghost var h := Header(Word(rest, COLON), Word(Rest(rest, COLON), LINE));
      FirstByte(buf[..], field.name, h.name);
      if buf[field.name] == NUL {
        break;
      }
      FieldAdded(buf[..], fields, done, field, h, from);
      fields := fields + [field];
      done := done + [h];
      rest := Rest(Rest(rest, COLON), LINE);
      i := i + 1;
    }
    assert done + [] == done;
  }

  const GET: seq<octet> := ['G', 'E', 'T']
  const POST: seq<octet> := ['P', 'O', 'S', 'T']
  const HEAD: seq<octet> := ['H', 'E', 'A', 'D']
  const PUT: seq<octet> := ['P', 'U', 'T']
  const DELETE: seq<octet> := ['D', 'E', 'L', 'E', 'T', 'E']

  predicate KnownMethod(verb: seq<octet>) {
    verb == GET || verb == POST || verb == HEAD || verb == PUT || verb == DELETE
  }

  /** What a text means as a request; versionOk stands for the check of the version with sscanf. */
  function RequestOf(text: seq<octet>, versionOk: seq<octet> -> bool): Option<Request> {
    var verb, t1 := Word(text, SPACE), Rest(text, SPACE);
    var uri, t2 := Word(t1, SPACE), Rest(t1, SPACE);
    var version, t3 := Word(t2, LINE), Rest(t2, LINE);
    if KnownMethod(verb) && uri != [] && uri[0] == '/' && versionOk(version)
    then Some(Request(verb, uri, version, HeadersOf(t3, MAX_HEADERS)))
    else None
  }

  /** The request record: positions in the buffer. */
  datatype RequestInfo = RequestInfo(verb: nat, uri: nat, version: nat, fields: seq<Field>)

  ghost predicate InfoIs(mem: seq<octet>, ri: RequestInfo, r: Request) {
    && IsStr(mem, ri.verb, r.verb) && IsStr(mem, ri.uri, r.uri) && IsStr(mem, ri.version, r.version)
    && FieldsAre(mem, ri.fields, r.headers)
  }

  method StringAt(buf: array<octet>, p: nat, ghost text: seq<octet>) returns (s: seq<octet>)
    requires IsStr(buf[..], p, text)
    ensures s == text
  {
    var n := Strcspn(buf, p, {}, text);
    s := buf[p..p + n];
    assert forall i :: 0 <= i < n ==> s[i] == buf[..][p + i];
  }

  method ParseHttpRequest(buf: array<octet>, versionOk: seq<octet> -> bool, ghost text: seq<octet>)
    returns (ri: Option<RequestInfo>)
    requires IsStr(buf[..], 0, text)
    modifies buf
    ensures ri.Some? <==> RequestOf(text, versionOk).Some?
    ensures ri.Some? ==> InfoIs(buf[..], ri.value, RequestOf(text, versionOk).value)
    ensures OnlyCut(old(buf[..]), buf[..], 0, |text|)
  {
    hide Word, Rest;
    ghost var b0 := buf[..];
    ghost var v0, t1 := Word(text, SPACE), Rest(text, SPACE);
    ghost var u0, t2 := Word(t1, SPACE), Rest(t1, SPACE);
    ghost var w0, t3 := Word(t2, LINE), Rest(t2, LINE);
    var verb, uri, version, p;
    verb, p := Skip(buf, 0, SPACE, text);
    ghost var b1, p1 := buf[..], p;
    uri, p := Skip(buf, p, SPACE, t1);
    ghost var b2, p2 := buf[..], p;
    StrKept(b1, b2, p1, |text|, verb, v0);
    CutTwice(b0, b1, b2, 0, p1, |text|);
    version, p := Skip(buf, p, LINE, t2);
    ghost var b3, p3 := buf[..], p;
    StrKept(b2, b3, p2, |text|, verb, v0);
    StrKept(b2, b3, p2, |text|, uri, u0);
    CutTwice(b0, b2, b3, 0, p2, |text|);
    var verbText := StringAt(buf, verb, v0);
    var versionText := StringAt(buf, version, w0);
    assert u0 != [] ==> buf[..][uri + 0] == u0[0];
    if KnownMethod(verbText) && buf[uri] == '/' && versionOk(versionText) {
      var fields := ParseHttpHeaders(buf, p, t3);
      StrKept(b3, buf[..], p3, |text|, verb, v0);
      StrKept(b3, buf[..], p3, |text|, uri, u0);
      StrKept(b3, buf[..], p3, |text|, version, w0);
      CutTwice(b0, b3, buf[..], 0, p3, |text|);
      ri := Some(RequestInfo(verb, uri, version, fields));
    } else {
      ri := None;
    }
  }

  /** get_header: the first header of that name, in any case. */
  method GetHeader(mem: seq<octet>, fields: seq<Field>, name: seq<octet>, ghost hs: seq<Header>, ghost key: seq<octet>)
    returns (value: Option<nat>)
    requires FieldsAre(mem, fields, hs) && IsStr(name, 0, key)
    ensures value.None? ==> forall i :: 0 <= i < |hs| ==> LowerAll(hs[i].name) != LowerAll(key)
    ensures value.Some? ==>
              exists i :: 0 <= i < |hs| && LowerAll(hs[i].name) == LowerAll(key) && IsStr(mem, value.value, hs[i].value)
                          && forall j :: 0 <= j < i ==> LowerAll(hs[j].name) != LowerAll(key)
  {
    var i := 0;
    while i < |fields|
      invariant i <= |fields|
      invariant forall j :: 0 <= j < i ==> LowerAll(hs[j].name) != LowerAll(key)
    {
      var diff := MgStrcasecmp(name, 0, mem, fields[i].name, key, hs[i].name);
      if diff == 0 {
        return Some(fields[i].value);
      }
      i := i + 1;
    }
    return None;
  }

  // Printing a request, and reading it back.

  predicate Visible(s: seq<octet>) {
    forall i :: 0 <= i < |s| ==> ' ' <= s[i] <= '~' || 128 <= s[i] as int
  }

  predicate OneLine(s: seq<octet>) {
    '\r' !in s && '\n' !in s
  }

  /** Names are not empty and have no colon or space; values are on one line and do not start with either. */
  predicate PlainHeader(h: Header) {
    && h.name != [] && ':' !in h.name && ' ' !in h.name && h.name[0] != '\r' && h.name[0] != '\n'
    && OneLine(h.value) && (h.value != [] ==> h.value[0] != ':' && h.value[0] != ' ')
  }

  predicate PlainHeaders(hs: seq<Header>) {
    forall i :: 0 <= i < |hs| ==> PlainHeader(hs[i])
  }

  /** The methods the server knows. */
  predicate IsMethod(verb: seq<octet>) {
    || verb == ['G', 'E', 'T'] || verb == ['P', 'O', 'S', 'T'] || verb == ['H', 'E', 'A', 'D']
    || verb == ['P', 'U', 'T'] || verb == ['D', 'E', 'L', 'E', 'T', 'E']
  }

  /** A request whose text can be told apart, with any number of headers. */
  predicate Plain(r: Request) {
    && IsMethod(r.verb)
    && r.uri != [] && r.uri[0] == '/' && ' ' !in r.uri
    && OneLine(r.version) && (r.version != [] ==> r.version[0] != ' ')
    && PlainHeaders(r.headers)
  }

  predicate VisibleHeader(h: Header) {
    Visible(h.name) && Visible(h.value)
  }

  /** And with bytes only that may stand in a request. */
  predicate WellFormed(r: Request) {
    && Plain(r) && Visible(r.uri) && Visible(r.version)
    && forall i :: 0 <= i < |r.headers| ==> VisibleHeader(r.headers[i])
  }

  /** The request with its first sixty-four headers, which is all the record has room for. */
  function Recorded(r: Request): Request {
    if |r.headers| <= 64 then r else r.(headers := r.headers[..64])
  }

  function PrintHeader(h: Header): seq<octet> {
    h.name + [':', ' '] + h.value + CRLF
  }

  /** RFC 2616 section 4.2: a name, a colon, a space, a value, on a line. */
  function PrintHeaders(hs: seq<Header>): seq<octet> {
    if hs == [] then [] else PrintHeader(hs[0]) + PrintHeaders(hs[1..])
  }

  function Print(r: Request): seq<octet> {
    r.verb + [' '] + r.uri + [' '] + r.version + CRLF + PrintHeaders(r.headers) + CRLF
  }

  /** A word, some delimiters, and a text that does not go on with one. */
  lemma Tokens(word: seq<octet>, sep: seq<octet>, after: seq<octet>, delims: set<octet>)
    requires forall i :: 0 <= i < |word| ==> word[i] !in delims
    requires sep != [] && forall i :: 0 <= i < |sep| ==> sep[i] in delims
    requires after != [] ==> after[0] !in delims
    ensures Word(word + (sep + after), delims) == word && Rest(word + (sep + after), delims) == after
  {
    var text := word + (sep + after);
    CutAt(word, sep + after, delims);
    assert text[|word|..] == sep + after;
    RunAt(sep, after, delims);
    assert text[..|word|] == word && text[|word| + |sep|..] == after;
  }

  lemma VisibleIsNotLine(s: seq<octet>)
    requires Visible(s)
    ensures forall i :: 0 <= i < |s| ==> s[i] !in LINE && s[i] != NUL
  {
  }

  /** The text of headers and of the blank line, whose last byte is overwritten with NUL. */
  function HeaderText(hs: seq<Header>): seq<octet> {
    PrintHeaders(hs) + ['\r']
  }

  /** After the line end: the next header, or nothing once the blank line has gone too. */
  function AfterLine(hs: seq<Header>): seq<octet> {
    if hs == [] then [] else HeaderText(hs)
  }

  /** The bytes that end a line before these headers, the last line before the blank one included. */
  function LineEnd(hs: seq<Header>): seq<octet> {
    if hs == [] then ['\r', '\n', '\r'] else CRLF
  }

  lemma LineEndsThere(hs: seq<Header>)
    requires PlainHeaders(hs)
    ensures CRLF + HeaderText(hs) == LineEnd(hs) + AfterLine(hs)
    ensures AfterLine(hs) != [] ==> AfterLine(hs)[0] != '\r' && AfterLine(hs)[0] != '\n'
  {
    if hs != [] {
      assert HeaderText(hs)[0] == hs[0].name[0];
    }
  }

  lemma HeaderTextSplits(hs: seq<Header>)
    requires hs != []
    ensures HeaderText(hs) == hs[0].name + ([':', ' '] + (hs[0].value + (CRLF + HeaderText(hs[1..]))))
  {
  }

  /**
   One header of a text: a name, then colons and spaces, then a value, then line ends.  An empty name
   ends the headers, and so does the count.
   */
  lemma HeaderReads(name: seq<octet>, sep: seq<octet>, value: seq<octet>, ends: seq<octet>, rest: seq<octet>, n: nat)
    requires ':' !in name && ' ' !in name && OneLine(value)
    requires sep != [] && forall i :: 0 <= i < |sep| ==> sep[i] == ':' || sep[i] == ' '
    requires ends != [] && forall i :: 0 <= i < |ends| ==> ends[i] == '\r' || ends[i] == '\n'
    requires value != [] ==> value[0] != ':' && value[0] != ' '
    requires rest != [] ==> rest[0] != '\r' && rest[0] != '\n'
    ensures HeadersOf(name + (sep + (value + (ends + rest))), n) ==
            if name == [] || n == 0 then [] else [Header(name, value)] + HeadersOf(rest, n - 1)
  {
    hide Word, Rest;
    var tail := value + (ends + rest);
    assert tail[0] == if value == [] then ends[0] else value[0];
    Tokens(name, sep, tail, COLON);
    Tokens(value, ends, rest, LINE);
  }

  lemma {:induction false} HeadersReadBack(hs: seq<Header>, n: nat)
    requires PlainHeaders(hs)
    ensures HeadersOf(AfterLine(hs), n) == if |hs| <= n then hs else hs[..n]
    decreases |hs|
  {
    hide HeadersOf, AfterLine, PlainHeader;
    if hs == [] || n == 0 {
      NoHeaders(hs, n);
    } else {
      FirstHeader(hs, n);
      HeadersReadBack(hs[1..], n - 1);
      assert hs == [hs[0]] + hs[1..];
    }
  }

  lemma NoHeaders(hs: seq<Header>, n: nat)
    requires hs == [] || n == 0
    ensures HeadersOf(AfterLine(hs), n) == []
  {
    hide Word, Rest;
    NothingLeft(COLON);
  }

  lemma FirstHeader(hs: seq<Header>, n: nat)
    requires PlainHeaders(hs) && hs != [] && n > 0
    ensures HeadersOf(AfterLine(hs), n) == [hs[0]] + HeadersOf(AfterLine(hs[1..]), n - 1)
  {
    hide HeadersOf, LineEnd;
    var h, more := hs[0], hs[1..];
    HeaderTextSplits(hs);
    LineEndsThere(more);
    LineEndBytes(more);
    hide HeaderText;
    HeaderReads(h.name, [':', ' '], h.value, LineEnd(more), AfterLine(more), n);
  }

  lemma LineEndBytes(hs: seq<Header>)
    ensures LineEnd(hs) != [] && forall i :: 0 <= i < |LineEnd(hs)| ==> LineEnd(hs)[i] == '\r' || LineEnd(hs)[i] == '\n'
  {
  }

  lemma NothingLeft(delims: set<octet>)
    ensures Word([], delims) == []
  {
  }

  /** The printed request up to the byte that is overwritten. */
  function RequestText(r: Request): seq<octet> {
    r.verb + ([' '] + (r.uri + ([' '] + (r.version + (CRLF + HeaderText(r.headers))))))
  }

  lemma PrintIsText(r: Request)
    ensures Print(r) == RequestText(r) + ['\n']
  {
    hide PrintHeaders;
    var t := HeaderText(r.headers);
    assert PrintHeaders(r.headers) + CRLF == t + ['\n'];
    assert Print(r) == r.verb + [' '] + r.uri + [' '] + r.version + CRLF + (PrintHeaders(r.headers) + CRLF);
  }

  predicate AllSpaces(s: seq<octet>) {
    forall i :: 0 <= i < |s| ==> s[i] == ' '
  }

  /** What a text with a request line means; between its words there may be any number of spaces. */
  lemma RequestLine(verb: seq<octet>, s1: seq<octet>, uri: seq<octet>, s2: seq<octet>, version: seq<octet>,
                    ends: seq<octet>, rest: seq<octet>, versionOk: seq<octet> -> bool)
    requires ' ' !in verb && ' ' !in uri && uri != [] && OneLine(version) && (version != [] ==> version[0] != ' ')
    requires s1 != [] && AllSpaces(s1) && s2 != [] && AllSpaces(s2)
    requires ends != [] && (forall i :: 0 <= i < |ends| ==> ends[i] == '\r' || ends[i] == '\n')
    requires rest != [] ==> rest[0] != '\r' && rest[0] != '\n'
    ensures RequestOf(verb + (s1 + (uri + (s2 + (version + (ends + rest))))), versionOk) ==
            if IsMethod(verb) && uri[0] == '/' && versionOk(version)
            then Some(Request(verb, uri, version, HeadersOf(rest, 64))) else None
  {
    hide Word, Rest, HeadersOf;
    var t2 := version + (ends + rest);
    var t1 := uri + (s2 + t2);
    assert t1[0] == uri[0] && t2[0] == if version == [] then ends[0] else version[0];
    Tokens(verb, s1, t1, SPACE);
    Tokens(uri, s2, t2, SPACE);
    Tokens(version, ends, rest, LINE);
  }

  /** A text that is accepted starts with a method, a URI from the root and a good version, in this order. */
  lemma AcceptedText(text: seq<octet>, versionOk: seq<octet> -> bool)
    requires RequestOf(text, versionOk).Some?
    ensures var r := RequestOf(text, versionOk).value;
            && IsMethod(r.verb) && r.uri != [] && r.uri[0] == '/' && versionOk(r.version) && |r.headers| <= 64
            && exists s1, s2 :: AllSpaces(s1) && AllSpaces(s2) && r.verb + s1 + r.uri + s2 + r.version <= text
  {
    hide HeadersOf, Word, Rest, Gap;
    var r, t1 := RequestOf(text, versionOk).value, Rest(text, SPACE);
    var t2 := Rest(t1, SPACE);
    var s1, s2 := Gap(text, SPACE), Gap(t1, SPACE);
    WordGapRest(text, SPACE);
    WordGapRest(t1, SPACE);
    WordGapRest(t2, LINE);
    Nested(r.verb, s1, r.uri, s2, r.version, Gap(t2, LINE) + Rest(t2, LINE));
    assert text == r.verb + s1 + (r.uri + s2 + (r.version + Gap(t2, LINE) + Rest(t2, LINE)));
    assert t2 == r.version + (Gap(t2, LINE) + Rest(t2, LINE));
    assert AllSpaces(s1) && AllSpaces(s2);
    assert r.verb + s1 + r.uri + s2 + r.version <= text;
  }

  lemma Nested(a: seq<octet>, b: seq<octet>, c: seq<octet>, d: seq<octet>, e: seq<octet>, f: seq<octet>)
    ensures a + b + (c + d + (e + f)) == a + b + c + d + e + f && a + b + c + d + e <= a + b + c + d + e + f
  {
  }

  /** The delimiters after the first word. */
  function Gap(text: seq<octet>, delims: set<octet>): (gap: seq<octet>)
    ensures forall i :: 0 <= i < |gap| ==> gap[i] in delims
  {
    var after := text[Cut(text, delims)..];
    after[..Run(after, delims)]
  }

  lemma WordGapRest(text: seq<octet>, delims: set<octet>)
    ensures text == Word(text, delims) + Gap(text, delims) + Rest(text, delims)
  {
  }

  /** Parsing the printed text gives the request back, up to sixty-four headers. */
  lemma ParseInvertsPrint(r: Request, versionOk: seq<octet> -> bool)
    requires Plain(r) && versionOk(r.version)
    ensures RequestOf(RequestText(r), versionOk) == Some(Recorded(r))
  {
    hide RequestOf, HeadersOf, HeaderText, LineEnd, AfterLine;
    var hs := r.headers;
    LineEndsThere(hs);
    LineEndBytes(hs);
    RequestLine(r.verb, [' '], r.uri, [' '], r.version, LineEnd(hs), AfterLine(hs), versionOk);
    HeadersReadBack(hs, 64);
  }

  lemma {:induction false} NoMarkBetween(buf: seq<octet>, i: nat, j: nat)
    requires i <= j <= |buf| && forall k :: i <= k < j ==> buf[k] != '\n'
    ensures FirstEnd(buf, i) == FirstEnd(buf, j)
    decreases j - i
  {
    if i < j {
      NoMarkBetween(buf, i + 1, j);
    }
  }

  lemma LineHasNoMark(pre: seq<octet>, line: seq<octet>, buf: seq<octet>)
    requires pre + ['\n'] + line <= buf && '\n' !in line && line != [] && line[0] != '\r'
    ensures FirstEnd(buf, |pre|) == FirstEnd(buf, |pre| + 1 + |line|)
  {
    var head := pre + ['\n'] + line;
    assert forall k :: |pre| + 1 <= k < |head| ==> buf[k] == head[k] == line[k - (|pre| + 1)];
    NoMarkBetween(buf, |pre| + 1, |head|);
    assert buf[|pre| + 1] == line[0];
  }

  lemma BlankLine(pre: seq<octet>, body: seq<octet>)
    ensures FirstEnd(pre + ['\n'] + (CRLF + body), |pre|) == |pre| + 3
  {
    var buf := pre + ['\n'] + (CRLF + body);
    assert buf[|pre|] == '\n' && buf[|pre| + 1] == '\r' && buf[|pre| + 2] == '\n';
  }

  /** A header without its line feed. */
  function HeaderLine(h: Header): seq<octet> {
    h.name + [':', ' '] + h.value + ['\r']
  }

  lemma LinesSplit(hs: seq<Header>)
    requires hs != []
    ensures PrintHeaders(hs) == HeaderLine(hs[0]) + ['\n'] + PrintHeaders(hs[1..])
  {
  }

  lemma HeaderLineIs(h: Header)
    requires PlainHeader(h) && VisibleHeader(h)
    ensures '\n' !in HeaderLine(h) && HeaderLine(h) != [] && HeaderLine(h)[0] != '\r'
  {
    VisibleIsNotLine(h.name);
  }

  /** From the end of a line on, the first mark is the blank line after the headers. */
  lemma {:induction false} BlankLineIsFirst(pre: seq<octet>, hs: seq<Header>, body: seq<octet>)
    requires forall i :: 0 <= i < |hs| ==> PlainHeader(hs[i]) && VisibleHeader(hs[i])
    ensures FirstEnd(pre + ['\n'] + (PrintHeaders(hs) + (CRLF + body)), |pre|) ==
            |pre| + 1 + |PrintHeaders(hs)| + 2
    decreases |hs|
  {
    hide FirstEnd;
    if hs == [] {
      assert PrintHeaders(hs) + (CRLF + body) == CRLF + body;
      BlankLine(pre, body);
    } else {
      var line, more := HeaderLine(hs[0]), hs[1..];
      HeaderLineIs(hs[0]);
      LinesSplit(hs);
      hide PrintHeaders, HeaderLine, PlainHeader, VisibleHeader;
      var buf := pre + ['\n'] + (PrintHeaders(hs) + (CRLF + body));
      var pre' := pre + ['\n'] + line;
      assert buf == pre' + ['\n'] + (PrintHeaders(more) + (CRLF + body));
      LineHasNoMark(pre, line, buf);
      BlankLineIsFirst(pre', more, body);
    }
  }

  /** The framing of a printed request finds its own end, whatever follows. */
  lemma FramingFindsPrint(r: Request, body: seq<octet>)
    requires WellFormed(r)
    ensures RequestLen(Print(r) + body) == |Print(r)|
  {
    var pre := r.verb + [' '] + r.uri + [' '] + r.version + ['\r'];
    var buf := Print(r) + body;
    hide PrintHeaders, FirstEnd;
    VisibleIsNotLine(r.uri);
    VisibleIsNotLine(r.version);
    assert '\n' !in r.verb;
    assert forall i :: 0 <= i < |pre| ==> pre[i] != '\n';
    assert buf == pre + ['\n'] + (PrintHeaders(r.headers) + (CRLF + body));
    assert forall i :: 0 <= i < |pre| ==> buf[i] == pre[i];
    NoMarkBetween(buf, 0, |pre|);
    BlankLineIsFirst(pre, r.headers, body);
  }

  /**
   What process_new_connection makes of the bytes that fit its buffer when they arrive in pieces: the
   length that read_request gives, and the request up to it, whose last byte is overwritten.
   */
  ghost function Meaning(window: seq<octet>, sizes: seq<nat>, versionOk: seq<octet> -> bool):
    (r: (int, Option<Request>))
  {
    var len := ReadOutcome(window, 0, sizes);
    if 0 < len <= |window| then (len, RequestOf(UpToNul(window[..len - 1]), versionOk)) else (len, None)
  }

  /**
   process_new_connection up to the analysis of the request: reading, the terminating NUL, and the
   parse.  What was read past the request is the start of its body.
   */
  method ProcessNewConnection(peer: Peer, buf: array<octet>, versionOk: seq<octet> -> bool)
    returns (len: int, nread: nat, ri: Option<RequestInfo>)
    modifies peer, buf
    ensures len <= nread <= buf.Length && len <= |old(peer.incoming)|
    ensures var stream := old(peer.incoming);
            var window := stream[..if |stream| < buf.Length then |stream| else buf.Length];
            var (n, r) := Meaning(window, old(peer.sizes), versionOk);
            len == n && (ri.Some? <==> r.Some?) && (r.Some? ==> InfoIs(buf[..], ri.value, r.value))
    ensures len > 0 ==> buf[len..nread] + peer.incoming == old(peer.incoming)[len..]
  {
    hide *;
    ghost var stream := peer.incoming;
    ghost var window := stream[..if |stream| < buf.Length then |stream| else buf.Length];
    ri := None;
    assert buf[..0] + peer.incoming == stream;
    len, nread := ReadRequest(peer, buf, 0);
    assert nread >= len;
    MeaningOfLength(window, old(peer.sizes), versionOk);
    if len <= 0 {
      return;
    }
    ghost var read := buf[..nread];
    ReadPart(read, peer.incoming, len, stream, window);
    buf[len - 1] := NUL;
    ghost var text, before := UpToNul(window[..len - 1]), buf[..];
    TextInPlace(before, read, len, text);
    ri := ParseHttpRequest(buf, versionOk, text);
    BeyondTheCut(before, buf[..], |text|, len, nread);
    assert buf[len..nread] == buf[..][len..nread];
  }

  lemma MeaningOfLength(window: seq<octet>, sizes: seq<nat>, versionOk: seq<octet> -> bool)
    ensures var (n, r) := Meaning(window, sizes, versionOk);
            && n == ReadOutcome(window, 0, sizes) && (n <= 0 ==> r.None?)
            && (0 < n <= |window| ==> r == RequestOf(UpToNul(window[..n - 1]), versionOk))
  {
    hide RequestOf, ReadOutcome;
  }

  lemma ReadPart(read: seq<octet>, incoming: seq<octet>, len: nat, stream: seq<octet>, window: seq<octet>)
    requires 0 < len <= |read| <= |window| && window <= stream && read + incoming == stream
    ensures window[..len - 1] == read[..len - 1] && stream[len..] == read[len..] + incoming
  {
  }

  lemma TextInPlace(mem: seq<octet>, read: seq<octet>, len: nat, text: seq<octet>)
    requires 0 < len <= |read| <= |mem| && mem[..|read|] == read[len - 1 := NUL]
    requires text == UpToNul(read[..len - 1])
    ensures IsStr(mem, 0, text) && |text| < len && mem[len..|read|] == read[len..]
  {
    var cut := mem[..|read|];
    assert mem[len..|read|] == cut[len..];
    assert forall i :: 0 <= i < |text| ==> mem[0 + i] == cut[i] == text[i];
    assert mem[|text|] == cut[|text|];
  }

  lemma BeyondTheCut(before: seq<octet>, after: seq<octet>, end: nat, from: nat, to: nat)
    requires OnlyCut(before, after, 0, end) && end <= from <= to <= |before|
    ensures |after| == |before| && after[from..to] == before[from..to]
  {
  }

  /** A printed request is clean up to its end. */
  lemma PrintIsClean(r: Request, body: seq<octet>)
    requires WellFormed(r)
    ensures CleanToEnd(Print(r) + body)
  {
    hide FirstEnd;
    FramingFindsPrint(r, body);
    HeadersArePermitted(r.headers);
  }

  lemma {:induction false} HeadersArePermitted(hs: seq<Header>)
    requires forall i :: 0 <= i < |hs| ==> VisibleHeader(hs[i])
    ensures forall c :: c in PrintHeaders(hs) ==> Permitted(c)
  {
    if hs != [] {
      HeadersArePermitted(hs[1..]);
    }
  }

  /**
   Any well-formed request that fits the buffer, printed, followed by anything and sent in pieces of
   any sizes, is taken as exactly that request.
   */
  lemma RoundTrip(r: Request, body: seq<octet>, sizes: seq<nat>, versionOk: seq<octet> -> bool)
    requires WellFormed(r) && versionOk(r.version)
    ensures Meaning(Print(r) + body, sizes, versionOk) == (|Print(r)|, Some(Recorded(r)))
  {
    hide RequestLen, RequestText, RequestOf, ReadOutcome;
    FramingFindsPrint(r, body);
    PrintIsClean(r, body);
    PiecesDoNotMatter(Print(r) + body);
    PrintIsText(r);
    var text := RequestText(r);
    assert (Print(r) + body)[..|Print(r)| - 1] == text;
    TextHasNoNul(r);
    NoNulInside(text);
    ParseInvertsPrint(r, versionOk);
  }

  lemma {:induction false} HeadersHaveNoNul(hs: seq<Header>)
    requires forall i :: 0 <= i < |hs| ==> VisibleHeader(hs[i])
    ensures NUL !in PrintHeaders(hs)
  {
    if hs != [] {
      VisibleIsNotLine(hs[0].name);
      VisibleIsNotLine(hs[0].value);
      HeadersHaveNoNul(hs[1..]);
    }
  }

  lemma TextHasNoNul(r: Request)
    requires WellFormed(r)
    ensures NUL !in RequestText(r)
  {
    hide PrintHeaders;
    HeadersHaveNoNul(r.headers);
    VisibleIsNotLine(r.uri);
    VisibleIsNotLine(r.version);
    hide Visible, Plain;
    assert IsMethod(r.verb) ==> NUL !in r.verb;
  }
}
