/**
 Server-side includes: the buffered character scanner and its recursion through included pages,
 proved against a scanner with no buffer.
 */
module Ssi {
  import opened Common

  type Path = string

  /** What an #include tag leads to: nothing readable, a page to scan, or a file sent as it is. */
  datatype Target = BadTag | Missing | Page(path: Path) | Plain(path: Path)

  /** The files of a server, and how a tag met in a page is resolved. */
  datatype Site = Site(content: Path -> seq<octet>, resolve: (Path, seq<octet>) -> Target)

  /** What a scan does, in order: bytes sent, commands run, and lines logged. */
  datatype Event =
    | Sent(c: octet)
    | Exec(tag: seq<octet>)
    | UnknownTag(path: Path, tag: seq<octet>)
    | BadInclude(tag: seq<octet>)
    | CannotOpen(tag: seq<octet>)
    | TooDeep(path: Path)
    | TooLarge(path: Path)

  /** Some tag was reported as too large. */
  ghost predicate Overflowed(events: seq<Event>) {
    exists q :: TooLarge(q) in events
  }

  const OPENING: seq<octet> := ['<', '!', '-', '-', '#']
  const INCLUDE: seq<octet> := ['i', 'n', 'c', 'l', 'u', 'd', 'e']
  const EXEC: seq<octet> := ['e', 'x', 'e', 'c']
  const MAX_LEVEL := 10

  function Bytes(s: seq<octet>): (e: seq<Event>)
    ensures |e| == |s|
  {
    seq(|s|, i requires 0 <= i < |s| => Sent(s[i]))
  }

  // The scanner without a buffer.

  /** In text, or in a candidate tag that started with '<'. */
  datatype Mode = Text | Tag(pending: seq<octet>)

  /** The events, the longest candidate left open, and how deeply the scans nest. */
  datatype Trace = Trace(events: seq<Event>, longest: nat, depth: nat)

  function Max(a: nat, b: nat): nat {
    if a < b then b else a
  }

  function Then(a: Trace, b: Trace): Trace {
    Trace(a.events + b.events, Max(a.longest, b.longest), Max(a.depth, b.depth))
  }

  function Just(events: seq<Event>): Trace {
    Trace(events, 0, 0)
  }

  function Expand(site: Site, path: Path, level: nat): (t: Trace)
    requires level <= MAX_LEVEL + 1
    ensures t.depth <= MAX_LEVEL + 1 - level
    ensures !Overflowed(t.events)
    decreases MAX_LEVEL + 1 - level, 2, 0
  {
    if level > MAX_LEVEL then Just([TooDeep(path)]) else
    var t := Scan(site, path, level, site.content(path), Text);
    t.(depth := t.depth + 1)
  }

  function Scan(site: Site, path: Path, level: nat, rest: seq<octet>, mode: Mode): (t: Trace)
    requires level <= MAX_LEVEL
    ensures t.depth <= MAX_LEVEL - level
    ensures !Overflowed(t.events)
    decreases MAX_LEVEL + 1 - level, 1, |rest|
  {
    match mode
    case Text =>
      if rest == [] then Just([])
      else if rest[0] == '<' then Scan(site, path, level, rest[1..], Tag(['<']))
      else Then(Just([Sent(rest[0])]), Scan(site, path, level, rest[1..], Text))
    case Tag(p) =>
      if rest == [] then Just(Bytes(p))
      else if rest[0] == '>' then
        Then(Directive(site, path, level, p + ['>']), Scan(site, path, level, rest[1..], Text))
      else if |p| == 5 && p != OPENING then
        Then(Just(Bytes(p + [rest[0]])), Scan(site, path, level, rest[1..], Text))
      else
        Then(Trace([], |p| + 1, 0), Scan(site, path, level, rest[1..], Tag(p + [rest[0]])))
  }

  /** What a closed candidate does: it emits something, or includes a page. */
  datatype Effect = Emits(events: seq<Event>) | Includes(path: Path)

  function Obey(site: Site, path: Path, tag: seq<octet>): Effect {
    if |tag| < 6 || !(OPENING <= tag) then Emits(Bytes(tag))
    else if INCLUDE <= tag[5..] then
      match site.resolve(path, tag[12..])
      case BadTag => Emits([BadInclude(tag[12..])])
      case Missing => Emits([CannotOpen(tag[12..])])
      case Page(q) => Includes(q)
      case Plain(q) => Emits(Bytes(site.content(q)))
    else if EXEC <= tag[5..] then Emits([Exec(tag[9..])])
    else Emits([UnknownTag(path, tag)])
  }

  function Directive(site: Site, path: Path, level: nat, tag: seq<octet>): (t: Trace)
    requires level <= MAX_LEVEL
    ensures t.depth <= MAX_LEVEL - level
    ensures !Overflowed(t.events)
    decreases MAX_LEVEL + 1 - level, 0, 0
  {
    match Obey(site, path, tag)
    case Emits(events) => Just(events)
    case Includes(q) => Expand(site, q, level + 1)
  }

  // The scanner with a buffer that holds limit bytes of a tag: a longer one is reported and started anew.

  function BufferedExpand(site: Site, limit: nat, path: Path, level: nat): seq<Event>
    requires level <= MAX_LEVEL + 1
    decreases MAX_LEVEL + 1 - level, 2, 0
  {
    if level > MAX_LEVEL then [TooDeep(path)] else BufferedScan(site, limit, path, level, site.content(path), Text)
  }

  function BufferedScan(site: Site, limit: nat, path: Path, level: nat, rest: seq<octet>, mode: Mode): seq<Event>
    requires level <= MAX_LEVEL
    decreases MAX_LEVEL + 1 - level, 1, |rest|
  {
    match mode
    case Text =>
      if rest == [] then []
      else if rest[0] == '<' then BufferedScan(site, limit, path, level, rest[1..], Tag(['<']))
      else [Sent(rest[0])] + BufferedScan(site, limit, path, level, rest[1..], Text)
    case Tag(p) =>
      if rest == [] then Bytes(p)
      else if rest[0] == '>' then
        BufferedDirective(site, limit, path, level, p + ['>']) + BufferedScan(site, limit, path, level, rest[1..], Text)
      else if |p| == 5 && p != OPENING then
        Bytes(p + [rest[0]]) + BufferedScan(site, limit, path, level, rest[1..], Text)
      else if |p| == limit then
        [TooLarge(path)] + BufferedScan(site, limit, path, level, rest[1..], Tag([rest[0]]))
      else BufferedScan(site, limit, path, level, rest[1..], Tag(p + [rest[0]]))
  }

  function BufferedDirective(site: Site, limit: nat, path: Path, level: nat, tag: seq<octet>): seq<Event>
    requires level <= MAX_LEVEL
    decreases MAX_LEVEL + 1 - level, 0, 0
  {
    match Obey(site, path, tag)
    case Emits(events) => events
    case Includes(q) => BufferedExpand(site, limit, q, level + 1)
  }

  /** The events are those of the trace, unless a tag outgrew the buffer; then one of them says so. */
  ghost predicate Shows(added: seq<Event>, t: Trace, limit: nat) {
    if t.longest <= limit then added == t.events else Overflowed(added)
  }

  lemma OverflowStays(a: seq<Event>, b: seq<Event>)
    ensures Overflowed(a + b) <==> Overflowed(a) || Overflowed(b)
  {
    if Overflowed(a) {
      var q :| TooLarge(q) in a;
      assert TooLarge(q) in a + b;
    }
    if Overflowed(b) {
      var q :| TooLarge(q) in b;
      assert TooLarge(q) in a + b;
    }
  }

  lemma BytesOfConcat(a: seq<octet>, b: seq<octet>)
    ensures Bytes(a + b) == Bytes(a) + Bytes(b) && !Overflowed(Bytes(a))
  {
  }

  lemma ThenShows(a: seq<Event>, b: seq<Event>, s: Trace, t: Trace, limit: nat)
    requires Shows(a, s, limit) && Shows(b, t, limit)
    ensures Shows(a + b, Then(s, t), limit)
  {
    OverflowStays(a, b);
  }

  /** A buffer that holds every candidate makes no difference; a smaller one reports a tag as too large. */
  lemma {:induction false} BufferedExpandShows(site: Site, limit: nat, path: Path, level: nat)
    requires level <= MAX_LEVEL + 1 && limit >= 5
    ensures Shows(BufferedExpand(site, limit, path, level), Expand(site, path, level), limit)
    decreases MAX_LEVEL + 1 - level, 2, 0
  {
    if level <= MAX_LEVEL {
      BufferedScanShows(site, limit, path, level, site.content(path), Text);
    }
  }

  lemma {:induction false} BufferedScanShows(site: Site, limit: nat, path: Path, level: nat, rest: seq<octet>,
                                             mode: Mode)
    requires level <= MAX_LEVEL && limit >= 5 && (mode.Tag? ==> |mode.pending| <= limit)
    ensures Shows(BufferedScan(site, limit, path, level, rest, mode), Scan(site, path, level, rest, mode), limit)
    decreases MAX_LEVEL + 1 - level, 1, |rest|
  {
    hide Shows, BufferedDirective, Directive;
    if rest == [] {
      NothingShows(if mode.Tag? then Bytes(mode.pending) else [], limit);
    } else {
      var c, tail := rest[0], rest[1..];
      match mode
      case Text =>
        BufferedScanShows(site, limit, path, level, tail, if c == '<' then Tag(['<']) else Text);
        if c != '<' {
          NothingShows([Sent(c)], limit);
          ThenShows([Sent(c)], BufferedScan(site, limit, path, level, tail, Text),
                    Just([Sent(c)]), Scan(site, path, level, tail, Text), limit);
        }
      case Tag(p) =>
        BufferedTagShows(site, limit, path, level, rest, p);
    }
  }

  lemma {:induction false} BufferedTagShows(site: Site, limit: nat, path: Path, level: nat, rest: seq<octet>,
                                            p: seq<octet>)
    requires level <= MAX_LEVEL && limit >= 5 && |p| <= limit && rest != []
    ensures Shows(BufferedScan(site, limit, path, level, rest, Tag(p)), Scan(site, path, level, rest, Tag(p)), limit)
    decreases MAX_LEVEL + 1 - level, 1, |rest|, 0
  {
    hide Shows, BufferedDirective, Directive;
    var c, tail := rest[0], rest[1..];
    if c == '>' {
      BufferedDirectiveShows(site, limit, path, level, p + ['>']);
      BufferedScanShows(site, limit, path, level, tail, Text);
      ThenShows(BufferedDirective(site, limit, path, level, p + ['>']),
                BufferedScan(site, limit, path, level, tail, Text), Directive(site, path, level, p + ['>']),
                Scan(site, path, level, tail, Text), limit);
    } else if |p| == 5 && p != OPENING {
      NothingShows(Bytes(p + [c]), limit);
      BufferedScanShows(site, limit, path, level, tail, Text);
      ThenShows(Bytes(p + [c]), BufferedScan(site, limit, path, level, tail, Text),
                Just(Bytes(p + [c])), Scan(site, path, level, tail, Text), limit);
    } else if |p| == limit {
      ReportShows(site, limit, path, level, tail, p, c);
    } else {
      var held := Tag(p + [c]);
      BufferedScanShows(site, limit, path, level, tail, held);
      LongerShows(BufferedScan(site, limit, path, level, tail, held), Scan(site, path, level, tail, held), |p| + 1,
                  limit);
    }
  }

  lemma NothingShows(events: seq<Event>, limit: nat)
    ensures Shows(events, Just(events), limit)
  {
  }

  lemma LongerShows(a: seq<Event>, t: Trace, n: nat, limit: nat)
    requires Shows(a, t, limit) && n <= limit
    ensures Shows(a, Then(Trace([], n, 0), t), limit)
  {
    assert [] + t.events == t.events;
  }

  lemma ReportShows(site: Site, limit: nat, path: Path, level: nat, tail: seq<octet>, p: seq<octet>, c: octet)
    requires level <= MAX_LEVEL && |p| == limit
    ensures Shows([TooLarge(path)] + BufferedScan(site, limit, path, level, tail, Tag([c])),
                  Then(Trace([], |p| + 1, 0), Scan(site, path, level, tail, Tag(p + [c]))), limit)
  {
    hide Scan, BufferedScan;
    assert TooLarge(path) in [TooLarge(path)] + BufferedScan(site, limit, path, level, tail, Tag([c]));
  }

  lemma {:induction false} BufferedDirectiveShows(site: Site, limit: nat, path: Path, level: nat, tag: seq<octet>)
    requires level <= MAX_LEVEL && limit >= 5
    ensures Shows(BufferedDirective(site, limit, path, level, tag), Directive(site, path, level, tag), limit)
    decreases MAX_LEVEL + 1 - level, 0, 0
  {
    hide Obey;
    match Obey(site, path, tag)
    case Emits(events) => NothingShows(events, limit);
    case Includes(q) => BufferedExpandShows(site, limit, q, level + 1);
  }

  // How the code keeps in step with it.

  /** A page being scanned into a buffer that holds limit bytes of a tag. */
  datatype Job = Job(site: Site, path: Path, level: nat, limit: nat) {
    function From(rest: seq<octet>, mode: Mode): seq<Event>
      requires level <= MAX_LEVEL
    {
      BufferedScan(site, limit, path, level, rest, mode)
    }

    function Total(): seq<Event>
      requires level <= MAX_LEVEL
    {
      BufferedScan(site, limit, path, level, site.content(path), Text)
    }
  }

  /** Half way through a page: events so far, bytes of the page to come, bytes held in the buffer. */
  ghost predicate InStep(job: Job, added: seq<Event>, rest: seq<octet>, inTag: bool, held: seq<octet>)
    requires job.level <= MAX_LEVEL
  {
    job.Total() == added + (if inTag then job.From(rest, Tag(held)) else Bytes(held) + job.From(rest, Text))
  }

  lemma CloseTag(job: Job, added: seq<Event>, rest: seq<octet>, held: seq<octet>)
    requires job.level <= MAX_LEVEL && rest != [] && rest[0] == '>'
    requires InStep(job, added, rest, true, held)
    ensures InStep(job, added + BufferedDirective(job.site, job.limit, job.path, job.level, held + ['>']), rest[1..],
                   false, [])
  {
    hide BufferedDirective;
    var more := BufferedDirective(job.site, job.limit, job.path, job.level, held + ['>']);
    var t := job.From(rest[1..], Text);
    assert added + more + (Bytes([]) + t) == added + (more + t);
  }

  lemma NotATag(job: Job, added: seq<Event>, rest: seq<octet>, held: seq<octet>)
    requires job.level <= MAX_LEVEL && rest != [] && rest[0] != '>' && |held| == 5 && held != OPENING
    requires InStep(job, added, rest, true, held)
    ensures InStep(job, added, rest[1..], false, held + [rest[0]])
  {
  }

  lemma ExtendTag(job: Job, added: seq<Event>, rest: seq<octet>, held: seq<octet>)
    requires job.level <= MAX_LEVEL && rest != [] && rest[0] != '>' && !(|held| == 5 && held != OPENING)
    requires |held| < job.limit
    requires InStep(job, added, rest, true, held)
    ensures InStep(job, added, rest[1..], true, held + [rest[0]])
  {
  }

  lemma OverflowTag(job: Job, added: seq<Event>, rest: seq<octet>, held: seq<octet>)
    requires job.level <= MAX_LEVEL && rest != [] && rest[0] != '>' && !(|held| == 5 && held != OPENING)
    requires |held| == job.limit
    requires InStep(job, added, rest, true, held)
    ensures InStep(job, added + [TooLarge(job.path)], rest[1..], true, [rest[0]])
  {
    var t := job.From(rest[1..], Tag([rest[0]]));
    assert added + [TooLarge(job.path)] + t == added + ([TooLarge(job.path)] + t);
  }

  lemma OpenTag(job: Job, added: seq<Event>, rest: seq<octet>, held: seq<octet>)
    requires job.level <= MAX_LEVEL && rest != [] && rest[0] == '<'
    requires InStep(job, added, rest, false, held)
    ensures InStep(job, added + Bytes(held), rest[1..], true, ['<'])
  {
    var t := job.From(rest[1..], Tag(['<']));
    assert added + Bytes(held) + t == added + (Bytes(held) + t);
  }

  lemma TextByte(job: Job, added: seq<Event>, rest: seq<octet>, held: seq<octet>)
    requires job.level <= MAX_LEVEL && rest != [] && rest[0] != '<'
    requires InStep(job, added, rest, false, held)
    ensures InStep(job, added, rest[1..], false, held + [rest[0]])
  {
    BytesOfConcat(held, [rest[0]]);
    var t := job.From(rest[1..], Text);
    assert Bytes([rest[0]]) == [Sent(rest[0])];
    assert Bytes(held + [rest[0]]) + t == Bytes(held) + ([Sent(rest[0])] + t);
  }

  lemma Flush(job: Job, added: seq<Event>, rest: seq<octet>, held: seq<octet>)
    requires job.level <= MAX_LEVEL
    requires InStep(job, added, rest, false, held)
    ensures InStep(job, added + Bytes(held), rest, false, [])
  {
    hide BufferedScan;
    var t := job.From(rest, Text);
    assert added + Bytes(held) + (Bytes([]) + t) == added + (Bytes(held) + t);
  }

  // The scanner of the source.

  class Connection {
    var out: seq<Event>

    method Write(s: seq<octet>)
      modifies this
      ensures out == old(out) + Bytes(s)
    {
      out := out + Bytes(s);
    }

    method Log(e: Event)
      modifies this
      ensures out == old(out) + [e]
    {
      out := out + [e];
    }

    method SendSsiFile(site: Site, bufsiz: nat, path: Path, level: nat)
      requires bufsiz >= 256 && level <= MAX_LEVEL + 1
      modifies this
      ensures out == old(out) + BufferedExpand(site, bufsiz - 2, path, level)
      ensures Shows(out[|old(out)|..], Expand(site, path, level), bufsiz - 2)
      decreases MAX_LEVEL + 1 - level, 2
    {
      BufferedExpandShows(site, bufsiz - 2, path, level);
      if level > MAX_LEVEL {
        Log(TooDeep(path));
      } else {
        ScanPage(site, bufsiz, path, level);
      }
    }

    /** send_ssi_file past its level check. */
    method ScanPage(site: Site, bufsiz: nat, path: Path, level: nat)
      requires bufsiz >= 256 && level <= MAX_LEVEL
      modifies this
      ensures out == old(out) + BufferedScan(site, bufsiz - 2, path, level, site.content(path), Text)
      decreases MAX_LEVEL + 1 - level, 1
    {
      hide InStep, BufferedScan;
      var job := Job(site, path, level, bufsiz - 2);
      ghost var before := |out|;
      var buf := new octet[bufsiz];
      var inTag := false;
      var len: nat := 0;
      var rest := site.content(path);
      StartInStep(job);
      assert out[before..] == [] && buf[..len] == [];
      while rest != []
        invariant if inTag then 1 <= len <= bufsiz - 2 else len < bufsiz
        invariant old(out) <= out && fresh(buf) && buf.Length == bufsiz
        invariant InStep(job, out[before..], rest, inTag, buf[..len])
        decreases |rest|
      {
        if inTag && rest[0] == '>' {
          TagEnd(job, before, buf, len, rest);
          inTag, len := false, 0;
          assert buf[..len] == [];
        } else if inTag {
          inTag, len := TagByte(job, before, buf, len, rest);
        } else {
          inTag, len := PlainByte(job, before, buf, len, rest);
        }
        rest := rest[1..];
      }
      ghost var added := out[before..];
      if len > 0 {
        Write(buf[..len]);
      }
      assert out[before..] == added + Bytes(buf[..len]);
      PageEnds(job, added, inTag, buf[..len]);
    }

    /** The byte that closes a candidate tag. */
    method TagEnd(job: Job, ghost before: nat, buf: array<octet>, len: nat, ghost rest: seq<octet>)
      requires job.level <= MAX_LEVEL && buf.Length == job.limit + 2 && job.limit >= 254
      requires 1 <= len <= job.limit && rest != [] && rest[0] == '>' && before <= |out|
      requires InStep(job, out[before..], rest, true, buf[..len])
      modifies this, buf
      ensures old(out) <= out
      ensures InStep(job, out[before..], rest[1..], false, [])
      decreases MAX_LEVEL + 1 - job.level, 0, 1
    {
      hide InStep;
      ghost var held, added, mark := buf[..len], out[before..], |out|;
      buf[len] := '>';
      buf[len + 1] := NUL;
      assert len + 1 <= buf.Length;
      assert buf[..len + 1] == held + ['>'];
      RunDirective(job.site, job.limit + 2, job.path, job.level, buf, len + 1);
      assert out[before..] == added + out[mark..];
      CloseTag(job, added, rest, held);
    }

    /** Any other byte of a candidate tag. */
    method TagByte(job: Job, ghost before: nat, buf: array<octet>, len: nat, rest: seq<octet>)
      returns (inTag: bool, newLen: nat)
      requires job.level <= MAX_LEVEL && buf.Length == job.limit + 2 && job.limit >= 254
      requires 1 <= len <= job.limit && rest != [] && rest[0] != '>' && before <= |out|
      requires InStep(job, out[before..], rest, true, buf[..len])
      modifies this, buf
      ensures old(out) <= out
      ensures if inTag then 1 <= newLen <= job.limit else newLen < buf.Length
      ensures InStep(job, out[before..], rest[1..], inTag, buf[..newLen])
    {
      hide InStep;
      ghost var held, added := buf[..len], out[before..];
      inTag, newLen := true, len;
      if len == 5 && buf[..5] != OPENING {
        NotATag(job, added, rest, held);
        inTag := false;
      } else if len == buf.Length - 2 {
        OverflowTag(job, added, rest, held);
        Log(TooLarge(job.path));
        assert out[before..] == added + [TooLarge(job.path)];
        newLen := 0;
        held := [];
      } else {
        ExtendTag(job, added, rest, held);
      }
      buf[newLen] := rest[0];
      newLen := newLen + 1;
      assert buf[..newLen] == held + [rest[0]];
      assert [] + [rest[0]] == [rest[0]];
    }

    /** A byte of text, or the '<' that ends it. */
    method PlainByte(job: Job, ghost before: nat, buf: array<octet>, len: nat, rest: seq<octet>)
      returns (inTag: bool, newLen: nat)
      requires job.level <= MAX_LEVEL && buf.Length == job.limit + 2 && job.limit >= 254
      requires len < buf.Length && rest != [] && before <= |out|
      requires InStep(job, out[before..], rest, false, buf[..len])
      modifies this, buf
      ensures old(out) <= out
      ensures if inTag then 1 <= newLen <= job.limit else newLen < buf.Length
      ensures InStep(job, out[before..], rest[1..], inTag, buf[..newLen])
    {
      hide InStep;
      ghost var held, added := buf[..len], out[before..];
      if rest[0] == '<' {
        OpenTag(job, added, rest, held);
        if len > 0 {
          Write(buf[..len]);
        }
        assert out[before..] == added + Bytes(held);
        buf[0] := rest[0];
        inTag, newLen := true, 1;
        assert buf[..newLen] == ['<'];
      } else {
        TextByte(job, added, rest, held);
        buf[len] := rest[0];
        inTag, newLen := false, len + 1;
        assert buf[..newLen] == held + [rest[0]];
        if newLen == buf.Length {
          Flush(job, added, rest[1..], buf[..newLen]);
          Write(buf[..newLen]);
          assert out[before..] == added + Bytes(buf[..newLen]);
          newLen := 0;
          assert buf[..newLen] == [];
        }
      }
    }

    /** What follows the closing byte: the tag is sent as it is, or obeyed. */
    method RunDirective(site: Site, bufsiz: nat, path: Path, level: nat, buf: array<octet>, len: nat)
      requires bufsiz >= 256 && level <= MAX_LEVEL && buf.Length == bufsiz
      requires 0 < len < bufsiz && buf[len] == NUL && buf[len - 1] == '>'
      modifies this
      ensures out == old(out) + BufferedDirective(site, bufsiz - 2, path, level, buf[..len])
      decreases MAX_LEVEL + 1 - level, 0, 0
    {
      ghost var tag := buf[..len];
      CompareAtNul(buf[..], len, INCLUDE);
      CompareAtNul(buf[..], len, EXEC);
      if len < 6 || buf[..5] != OPENING {
        Write(buf[..len]);
      } else if buf[5..12] == INCLUDE {
        match site.resolve(path, buf[12..len])
        case BadTag => Log(BadInclude(buf[12..len]));
        case Missing => Log(CannotOpen(buf[12..len]));
        case Page(q) => SendSsiFile(site, bufsiz, q, level + 1);
        case Plain(q) => Write(site.content(q));
      } else if buf[5..9] == EXEC {
        Log(Exec(buf[9..len]));
      } else {
        Log(UnknownTag(path, buf[..len]));
      }
    }
  }

  /** Comparing with a word stops at the NUL after the tag, so it never sees what is left beyond it. */
  lemma CompareAtNul(buf: seq<octet>, len: nat, word: seq<octet>)
    requires len < |buf| && buf[len] == NUL && NUL !in word
    ensures 5 <= len && 5 + |word| <= |buf| ==>
              (buf[5..5 + |word|] == word <==> word <= buf[..len][5..])
  {
    if 5 <= len < 5 + |word| <= |buf| {
      assert buf[5..5 + |word|][len - 5] == NUL;
    }
  }

  lemma StartInStep(job: Job)
    requires job.level <= MAX_LEVEL
    ensures InStep(job, [], job.site.content(job.path), false, [])
  {
  }

  lemma PageEnds(job: Job, added: seq<Event>, inTag: bool, held: seq<octet>)
    requires job.level <= MAX_LEVEL && InStep(job, added, [], inTag, held)
    ensures added + Bytes(held) == job.Total()
  {
    assert Bytes(held) + [] == Bytes(held);
  }

  // What the scanner promises about pages.

  ghost predicate Contains(s: seq<octet>, word: seq<octet>) {
    exists i :: 0 <= i <= |s| && word <= s[i..]
  }

  lemma NotContained(s: seq<octet>, word: seq<octet>, k: nat)
    requires k <= |s| && !Contains(s, word)
    ensures !Contains(s[k..], word) && !(word <= s)
  {
    assert s[0..] == s;
    forall i | 0 <= i <= |s[k..]|
      ensures !(word <= s[k..][i..])
    {
      assert s[k..][i..] == s[k + i..];
    }
  }

  /** A page with no "<!--#" is sent byte for byte, and fits every buffer. */
  lemma {:induction false} PlainPage(site: Site, path: Path, level: nat, rest: seq<octet>, mode: Mode)
    requires level <= MAX_LEVEL
    requires mode.Tag? ==> |mode.pending| <= 5
    requires !Contains(if mode.Tag? then mode.pending + rest else rest, OPENING)
    ensures var t := Scan(site, path, level, rest, mode);
            t.events == Bytes(if mode.Tag? then mode.pending + rest else rest) && t.longest <= 5
    decreases |rest|
  {
    hide Contains;
    if rest == [] {
      assert mode.Tag? ==> mode.pending + rest == mode.pending;
      return;
    }
    var tail := rest[1..];
    assert rest == [rest[0]] + tail;
    match mode
    case Text =>
      NotContained(rest, OPENING, 1);
      PlainPage(site, path, level, tail, if rest[0] == '<' then Tag(['<']) else Text);
    case Tag(p) =>
      var all, held := p + rest, p + [rest[0]];
      assert all == held + tail && all[|held|..] == tail;
      NotContained(all, OPENING, |held|);
      BytesOfConcat(held, tail);
      PlainPage(site, path, level, tail, if rest[0] == '>' || |p| == 5 then Text else Tag(held));
  }

  /** A candidate tag that is still open at the end of the text started in its last five bytes. */
  ghost predicate EndsClosed(s: seq<octet>) {
    forall i :: 0 <= i < |s| && |s| - 5 <= i && s[i] == '<' ==> '>' in s[i..]
  }

  lemma EndsClosedTail(s: seq<octet>, k: nat)
    requires k <= |s| && EndsClosed(s)
    ensures EndsClosed(s[k..])
  {
    forall i | 0 <= i < |s[k..]| && |s[k..]| - 5 <= i && s[k..][i] == '<'
      ensures '>' in s[k..][i..]
    {
      assert s[k..][i..] == s[k + i..];
    }
  }

  lemma NoOpening(all: seq<octet>, held: seq<octet>, tail: seq<octet>)
    requires all == held + tail && !Contains(all, OPENING)
    ensures !(OPENING <= held) && !Contains(tail, OPENING)
  {
    hide Contains;
    NotContained(all, OPENING, |held|);
    assert all[|held|..] == tail;
    assert OPENING <= held ==> OPENING <= all;
  }

  /** One byte of a candidate that is no tag: it closes it, or shows that it is none, or belongs to it. */
  lemma CandidateByte(site: Site, path: Path, level: nat, p: seq<octet>, rest: seq<octet>)
    requires level <= MAX_LEVEL && rest != [] && |p| <= 5
    requires !(OPENING <= p + [rest[0]])
    ensures var held := p + [rest[0]];
            Scan(site, path, level, rest, Tag(p)).events ==
            if rest[0] == '>' || |p| == 5 then Bytes(held) + Scan(site, path, level, rest[1..], Text).events
            else Scan(site, path, level, rest[1..], Tag(held)).events
  {
    hide Expand;
    assert (p + [rest[0]])[..|p|] == p;
    if rest[0] == '>' || |p| < 5 {
      var t := Scan(site, path, level, rest[1..], Tag(p + [rest[0]]));
      assert [] + t.events == t.events;
    }
  }

  lemma TextByteEvents(site: Site, path: Path, level: nat, rest: seq<octet>)
    requires level <= MAX_LEVEL && rest != []
    ensures Scan(site, path, level, rest, Text).events ==
            if rest[0] == '<' then Scan(site, path, level, rest[1..], Tag(['<'])).events
            else [Sent(rest[0])] + Scan(site, path, level, rest[1..], Text).events
  {
    hide Directive;
  }

  lemma NotLeftOpen(p: seq<octet>)
    requires 1 <= |p| <= 5 && p[0] == '<' && '>' !in p
    ensures !EndsClosed(p)
  {
    assert p[0..] == p;
  }

  /** Text with no opening and no candidate left open is sent, and the scan goes on in text. */
  lemma {:induction false} PlainStart(site: Site, path: Path, level: nat, pre: seq<octet>, post: seq<octet>)
    requires level <= MAX_LEVEL && !Contains(pre, OPENING) && EndsClosed(pre)
    ensures Scan(site, path, level, pre + post, Text).events == Bytes(pre) + Scan(site, path, level, post, Text).events
    decreases |pre|, 6
  {
    hide Contains, EndsClosed, Scan, Bytes;
    if pre == [] {
      assert pre + post == post && Bytes([]) == [];
    } else {
      var tail := pre[1..];
      assert pre == [pre[0]] + tail && (pre + post)[1..] == tail + post;
      TextByteEvents(site, path, level, pre + post);
      if pre[0] == '<' {
        PlainCandidate(site, path, level, ['<'], tail, post);
      } else {
        NoOpening(pre, [pre[0]], tail);
        EndsClosedTail(pre, 1);
        PlainStart(site, path, level, tail, post);
        BytesOfConcat([pre[0]], tail);
        OneByte(pre[0]);
      }
    }
  }

  lemma OneByte(c: octet)
    ensures Bytes([c]) == [Sent(c)]
  {
  }

  lemma {:induction false} PlainCandidate(site: Site, path: Path, level: nat, p: seq<octet>, pre: seq<octet>,
                                          post: seq<octet>)
    requires level <= MAX_LEVEL && 1 <= |p| <= 5 && p[0] == '<' && '>' !in p
    requires !Contains(p + pre, OPENING) && EndsClosed(p + pre)
    ensures Scan(site, path, level, pre + post, Tag(p)).events ==
            Bytes(p + pre) + Scan(site, path, level, post, Text).events
    decreases |p + pre|, 6 - |p|
  {
    hide Contains, EndsClosed, Scan, Bytes;
    assert pre == [] ==> p + pre == p;
    if pre == [] {
      NotLeftOpen(p);
    } else {
      var held, tail := p + [pre[0]], pre[1..];
      assert p + pre == held + tail && (pre + post)[0] == pre[0] && (pre + post)[1..] == tail + post;
      NoOpening(p + pre, held, tail);
      CandidateByte(site, path, level, p, pre + post);
      if pre[0] == '>' || |p| == 5 {
        EndsClosedTail(p + pre, |held|);
        assert (p + pre)[|held|..] == tail;
        PlainStart(site, path, level, tail, post);
        BytesOfConcat(held, tail);
      } else {
        PlainCandidate(site, path, level, held, tail, post);
      }
    }
  }

  /** The scanner on the rest of a command, with more of the page after it. */
  lemma {:induction false} CommandRun(site: Site, path: Path, level: nat, p: seq<octet>, more: seq<octet>,
                                      post: seq<octet>)
    requires level <= MAX_LEVEL && '>' !in more && p != []
    requires OPENING <= p + more
    ensures Scan(site, path, level, more + (['>'] + post), Tag(p)).events ==
            Directive(site, path, level, p + more + ['>']).events + Scan(site, path, level, post, Text).events
    decreases |more|
  {
    hide Directive;
    var rest := more + (['>'] + post);
    if more == [] {
      assert rest[0] == '>' && rest[1..] == post && p + more == p;
    } else {
      assert rest[0] == more[0] && rest[1..] == more[1..] + (['>'] + post);
      assert p + [more[0]] + more[1..] == p + more;
      assert |p| == 5 ==> p == (p + more)[..5];
      CommandRun(site, path, level, p + [more[0]], more[1..], post);
    }
  }

  /**
   A tag in a page.  The text before it is sent as it is; then an include of a plain file sends that
   file, one of a page what that page expands to, one that leads nowhere is logged; a command is run;
   any other tag is logged.  Then the scan goes on behind the tag.
   */
  lemma TagInPage(site: Site, path: Path, level: nat, pre: seq<octet>, body: seq<octet>, post: seq<octet>)
    requires level <= 10 && !Contains(pre, OPENING) && EndsClosed(pre) && '>' !in body
    ensures var opening: seq<octet> := ['<', '!', '-', '-', '#'];
            var rest, close := pre + (opening + body + (['>'] + post)), body + ['>'];
            var effect :=
              if ['i', 'n', 'c', 'l', 'u', 'd', 'e'] <= body then
                match site.resolve(path, close[7..])
                case Plain(q) => Bytes(site.content(q))
                case Page(q) => Expand(site, q, level + 1).events
                case Missing => [CannotOpen(close[7..])]
                case BadTag => [BadInclude(close[7..])]
              else if ['e', 'x', 'e', 'c'] <= body then [Exec(close[4..])]
              else [UnknownTag(path, opening + close)];
            Scan(site, path, level, rest, Text).events ==
            Bytes(pre) + (effect + Scan(site, path, level, post, Text).events)
  {
    hide Contains, EndsClosed, Scan, Expand;
    var opening: seq<octet> := ['<', '!', '-', '-', '#'];
    var page, close := opening + body + (['>'] + post), body + ['>'];
    PlainStart(site, path, level, pre, page);
    var tag := opening + body;
    ScanOpens(site, path, level, page);
    assert page[1..] == tag[1..] + (['>'] + post);
    assert ['<'] + tag[1..] == tag;
    CommandRun(site, path, level, ['<'], tag[1..], post);
    assert tag + ['>'] == opening + close;
    WhatTagDoes(site, path, level, body);
  }

  lemma ScanOpens(site: Site, path: Path, level: nat, rest: seq<octet>)
    requires level <= MAX_LEVEL && rest != [] && rest[0] == '<'
    ensures Scan(site, path, level, rest, Text) == Scan(site, path, level, rest[1..], Tag(['<']))
  {
  }

  lemma WhatTagDoes(site: Site, path: Path, level: nat, body: seq<octet>)
    requires level <= MAX_LEVEL && '>' !in body
    ensures var tag, close := OPENING + (body + ['>']), body + ['>'];
            Directive(site, path, level, tag).events ==
              if INCLUDE <= body then
                match site.resolve(path, close[7..])
                case Plain(q) => Bytes(site.content(q))
                case Page(q) => Expand(site, q, level + 1).events
                case Missing => [CannotOpen(close[7..])]
                case BadTag => [BadInclude(close[7..])]
              else if EXEC <= body then [Exec(close[4..])]
              else [UnknownTag(path, tag)]
  {
    hide Expand;
    var tag, close := OPENING + (body + ['>']), body + ['>'];
    assert tag[5..] == close;
    WordInBody(INCLUDE, body);
    WordInBody(EXEC, body);
    assert INCLUDE <= close ==> tag[12..] == close[7..];
    assert EXEC <= close ==> tag[9..] == close[4..];
  }

  lemma WordInBody(word: seq<octet>, body: seq<octet>)
    requires '>' !in word
    ensures word <= body + ['>'] <==> word <= body
  {
    var close := body + ['>'];
    assert close[|body|] == '>' && forall i :: 0 <= i < |body| ==> close[i] == body[i];
    assert word <= close ==> forall i :: 0 <= i < |word| ==> word[i] == close[i];
  }

  /**
   A tag that outgrows the buffer: the bytes that filled it are neither sent nor obeyed, and the scan
   goes on as in a candidate that starts with the next byte.
   */
  lemma LongTag(site: Site, limit: nat, path: Path, level: nat, tag: seq<octet>, c: octet, post: seq<octet>)
    requires level <= MAX_LEVEL && |tag| == limit && OPENING < tag && '>' !in tag && c != '>'
    ensures BufferedScan(site, limit, path, level, tag + ([c] + post), Text) ==
            [TooLarge(path)] + BufferedScan(site, limit, path, level, post, Tag([c]))
  {
    var more := tag[1..];
    assert (tag + ([c] + post))[1..] == more + ([c] + post);
    assert ['<'] + more == tag;
    FillsBuffer(site, limit, path, level, ['<'], more, c, post);
  }

  lemma {:induction false} FillsBuffer(site: Site, limit: nat, path: Path, level: nat, p: seq<octet>,
                                       more: seq<octet>, c: octet, post: seq<octet>)
    requires level <= MAX_LEVEL && |p + more| == limit && OPENING < p + more && '>' !in more && c != '>' && p != []
    ensures BufferedScan(site, limit, path, level, more + ([c] + post), Tag(p)) ==
            [TooLarge(path)] + BufferedScan(site, limit, path, level, post, Tag([c]))
    decreases |more|
  {
    hide BufferedDirective;
    var rest := more + ([c] + post);
    assert |p| == 5 ==> p == (p + more)[..5];
    if more == [] {
      assert rest[0] == c && rest[1..] == post;
    } else {
      assert rest[0] == more[0] && rest[1..] == more[1..] + ([c] + post);
      assert p + [more[0]] + more[1..] == p + more;
      FillsBuffer(site, limit, path, level, p + [more[0]], more[1..], c, post);
    }
  }

  /** A page that includes a plain file between two texts sends the three one after the other. */
  lemma IncludedFile(site: Site, path: Path, level: nat, pre: seq<octet>, name: seq<octet>, post: seq<octet>, q: Path)
    requires level <= 10 && !Contains(pre, OPENING) && EndsClosed(pre) && '>' !in name && !Contains(post, OPENING)
    requires site.content(path) == pre + (OPENING + (INCLUDE + name) + (['>'] + post))
    requires site.resolve(path, name + ['>']) == Plain(q)
    ensures Expand(site, path, level).events == Bytes(pre) + (Bytes(site.content(q)) + Bytes(post))
  {
    hide Contains, EndsClosed, Scan;
    var body := INCLUDE + name;
    assert (body + ['>'])[7..] == name + ['>'];
    TagInPage(site, path, level, pre, body, post);
    PlainPage(site, path, level, post, Text);
  }

  /** A page that includes itself is scanned eleven deep, and then the level check stops it. */
  lemma {:induction false} SelfInclude(site: Site, path: Path, name: seq<octet>, level: nat)
    requires level <= MAX_LEVEL + 1 && '>' !in name
    requires site.content(path) == OPENING + INCLUDE + name + ['>']
    requires site.resolve(path, name + ['>']) == Page(path)
    ensures Expand(site, path, level) == Trace([TooDeep(path)], if level > 10 then 0 else 12 + |name|, 11 - level)
    decreases MAX_LEVEL + 1 - level
  {
    if level <= MAX_LEVEL {
      var tag := OPENING + INCLUDE + name;
      SelfInclude(site, path, name, level + 1);
      TagRun(site, path, level, ['<'], tag[1..]);
      assert ['<'] + tag[1..] == tag;
      assert tag[1..] + ['>'] == site.content(path)[1..];
      assert (tag + ['>'])[5..] == INCLUDE + (name + ['>']) && (tag + ['>'])[12..] == name + ['>'];
    }
  }

  /** The scanner on the rest of a real tag, up to the end of the page. */
  lemma {:induction false} TagRun(site: Site, path: Path, level: nat, p: seq<octet>, more: seq<octet>)
    requires level <= MAX_LEVEL && '>' !in more && p != []
    requires OPENING <= p + more && |p + more| >= 6
    ensures var d := Directive(site, path, level, p + more + ['>']);
            Scan(site, path, level, more + ['>'], Tag(p)) ==
            Trace(d.events, if more == [] then d.longest else Max(|p + more|, d.longest), d.depth)
    decreases |more|
  {
    var rest := more + ['>'];
    if more == [] {
      assert rest[1..] == [] && p + more == p;
    } else {
      assert rest[1..] == more[1..] + ['>'];
      assert p + [more[0]] + more[1..] == p + more;
      assert |p| == 5 ==> p == (p + more)[..5];
      TagRun(site, path, level, p + [more[0]], more[1..]);
    }
  }
}
