/** The passwords file: changing the record of a user, and finding it again when a user logs in. */
module Passwords {
  import opened Common
  import opened CStrings
  import opened Rfc1321
  import Md5

  const SPACES: set<octet> := {' ', '\t', '\n', '\U{b}', '\U{c}', '\r'}

  /** The sizes of the line buffers of the two functions that read the file. */
  const LOGIN_LINE: nat := 256
  const MODIFY_LINE: nat := 512

  datatype Who = Who(user: seq<octet>, domain: seq<octet>)

  datatype Record = Record(who: Who, hash: Option<seq<octet>>)

  // Lines and records as fgets and sscanf read them.

  /** How much of the file one call of fgets takes. */
  function LineLength(file: seq<octet>, size: nat): (n: nat)
    requires file != [] && size >= 2
    ensures 1 <= n <= |file| && n < size
  {
    var n := Find(file, '\n');
    var line := if n < |file| then n + 1 else n;
    if line < size then line else size - 1
  }

  /** The strings that calling fgets until the end of the file gives. */
  function Lines(file: seq<octet>, size: nat): (lines: seq<seq<octet>>)
    requires size >= 2
    ensures forall i :: 0 <= i < |lines| ==> |lines[i]| < size && NUL !in lines[i]
    decreases |file|
  {
    if file == [] then [] else
    var n := LineLength(file, size);
    [UpToNul(file[..n])] + Lines(file[n..], size)
  }

  /** The conversion %s: white space, then a word. */
  function ReadWord(s: seq<octet>): Option<seq<octet>> {
    var t := s[Run(s, SPACES)..];
    if t == [] then None else Some(t[..Cut(t, SPACES)])
  }

  /** The format %[^:]:%[^:]:%s; nothing if it gives less than two fields. */
  function ReadRecord(line: seq<octet>): Option<Record> {
    var u := Find(line, ':');
    if u == 0 || u == |line| then None else
    var more := line[u + 1..];
    var d := Find(more, ':');
    if d == 0 then None else
    Some(Record(Who(line[..u], more[..d]), if d == |more| then None else ReadWord(more[d + 1..])))
  }

  predicate IsFor(line: seq<octet>, who: Who) {
    ReadRecord(line).Some? && ReadRecord(line).value.who == who
  }

  /** The hash of the first complete record of a user. */
  function LookUp(lines: seq<seq<octet>>, who: Who): Option<seq<octet>> {
    if lines == [] then None
    else if IsFor(lines[0], who) && ReadRecord(lines[0]).value.hash.Some? then ReadRecord(lines[0]).value.hash
    else LookUp(lines[1..], who)
  }

  // Changing the file.

  function Entry(who: Who, hash: seq<octet>): seq<octet> {
    who.user + ([':'] + (who.domain + ([':'] + (hash + ['\n']))))
  }

  /** What a line becomes: nothing if it is no record, the new entry if it is the user's, else itself. */
  function NewLine(line: seq<octet>, who: Who, hash: Option<seq<octet>>): seq<seq<octet>> {
    if ReadRecord(line).None? then []
    else if ReadRecord(line).value.who != who then [line]
    else if hash.Some? then [Entry(who, hash.value)]
    else []
  }

  function Kept(lines: seq<seq<octet>>, who: Who, hash: Option<seq<octet>>): seq<seq<octet>> {
    if lines == [] then [] else Kept(lines[..|lines| - 1], who, hash) + NewLine(lines[|lines| - 1], who, hash)
  }

  predicate Known(lines: seq<seq<octet>>, who: Who) {
    exists i :: 0 <= i < |lines| && IsFor(lines[i], who)
  }

  /** A new user's entry comes last. */
  function NewLines(lines: seq<seq<octet>>, who: Who, hash: Option<seq<octet>>): seq<seq<octet>> {
    Kept(lines, who, hash) + (if hash.Some? && !Known(lines, who) then [Entry(who, hash.value)] else [])
  }

  function Changed(file: seq<octet>, who: Who, hash: Option<seq<octet>>): seq<octet> {
    Flat(NewLines(Lines(file, MODIFY_LINE), who, hash))
  }

  lemma {:induction false} KeptConcat(a: seq<seq<octet>>, b: seq<seq<octet>>, who: Who, hash: Option<seq<octet>>)
    ensures Kept(a + b, who, hash) == Kept(a, who, hash) + Kept(b, who, hash)
  {
    hide NewLine;
    if b == [] {
      assert a + b == a;
    } else {
      assert (a + b)[..|a + b| - 1] == a + b[..|b| - 1];
      KeptConcat(a, b[..|b| - 1], who, hash);
    }
  }

  lemma KeptOne(line: seq<octet>, who: Who, hash: Option<seq<octet>>)
    ensures Kept([line], who, hash) == NewLine(line, who, hash)
    ensures Flat([line]) == line && Flat(NewLine(line, who, hash)) ==
            if NewLine(line, who, hash) == [] then [] else NewLine(line, who, hash)[0]
  {
    assert [line][..0] == [] && Kept([], who, hash) == [] && Flat<octet>([]) == [];
    var next := NewLine(line, who, hash);
    assert next != [] ==> next[..0] == [] && |next| == 1;
  }

  lemma KnownConcat(a: seq<seq<octet>>, b: seq<seq<octet>>, who: Who)
    ensures Known(a + b, who) <==> Known(a, who) || Known(b, who)
  {
    hide IsFor;
    var all := a + b;
    if Known(a, who) {
      var i :| 0 <= i < |a| && IsFor(a[i], who);
      assert IsFor(all[i], who);
    }
    if Known(b, who) {
      var i :| 0 <= i < |b| && IsFor(b[i], who);
      assert IsFor(all[|a| + i], who);
    }
  }

  function ToByte(c: octet): (b: byte)
    ensures b as int == c as int
  {
    c as int as byte
  }

  function ToBytes(s: seq<octet>): (b: seq<byte>)
    ensures |b| == |s| && forall i :: 0 <= i < |s| ==> b[i] == ToByte(s[i])
  {
    seq(|s|, i requires 0 <= i < |s| => ToByte(s[i]))
  }

  /** The hash of RFC 2617 section 3.2.2.2 (A1), as the server keeps it. */
  function Hash(who: Who, pass: seq<octet>): seq<octet> {
    Md5.HexString(Digest(ToBytes(who.user + [':'] + who.domain + [':'] + pass)))
  }

  lemma {:induction false} BytesOfParts(parts: seq<seq<octet>>, bytes: seq<seq<byte>>)
    requires |bytes| == |parts| && forall i :: 0 <= i < |parts| ==> bytes[i] == ToBytes(parts[i])
    ensures Flat(bytes) == ToBytes(Flat(parts))
  {
    if parts != [] {
      var n := |parts| - 1;
      BytesOfParts(parts[..n], bytes[..n]);
      BytesConcat(Flat(parts[..n]), parts[n]);
    }
  }

  lemma BytesConcat(a: seq<octet>, b: seq<octet>)
    ensures ToBytes(a + b) == ToBytes(a) + ToBytes(b)
  {
  }

  lemma FiveParts(a: seq<octet>, b: seq<octet>, c: seq<octet>, d: seq<octet>, e: seq<octet>)
    ensures Flat([a, b, c, d, e]) == a + b + c + d + e
  {
    FlatConcat([a], [b]);
    FlatConcat([a, b], [c]);
    FlatConcat([a, b, c], [d]);
    FlatConcat([a, b, c, d], [e]);
    assert [a] + [b] == [a, b] && [a, b] + [c] == [a, b, c];
    assert [a, b, c] + [d] == [a, b, c, d] && [a, b, c, d] + [e] == [a, b, c, d, e];
    FlatOne(a);
    FlatOne(b);
    FlatOne(c);
    FlatOne(d);
    FlatOne(e);
  }

  lemma KnownNext(lines: seq<seq<octet>>, i: nat, who: Who)
    requires i < |lines|
    ensures Known(lines[..i + 1], who) <==> Known(lines[..i], who) || IsFor(lines[i], who)
    ensures lines[..i + 1][..i] == lines[..i]
  {
    hide IsFor;
    KnownConcat(lines[..i], [lines[i]], who);
    assert lines[..i + 1] == lines[..i] + [lines[i]];
    assert Known([lines[i]], who) <==> IsFor([lines[i]][0], who);
  }

  class PasswordsFile {
    var content: seq<octet>

    constructor (content: seq<octet>)
      ensures this.content == content
    {
      this.content := content;
    }

    /** mg_md5 of user, domain and password with colons between them. */
    method HashOf(host: Md5.Host, pointerWords: nat, who: Who, pass: seq<octet>) returns (hash: seq<octet>)
      requires 1 <= pointerWords <= 2
      requires |who.user| < 0x1_0000_0000 && |who.domain| < 0x1_0000_0000 && |pass| < 0x1_0000_0000
      ensures hash == Hash(who, pass)
      ensures hash == Md5.HexString(Digest(ToBytes(who.user + [':'] + who.domain + [':'] + pass)))
    {
      hide Digest, Md5.HexString, ToBytes;
      var colon: seq<octet> := [':'];
      var parts := [ToBytes(who.user), ToBytes(colon), ToBytes(who.domain), ToBytes(colon), ToBytes(pass)];
      hash := Md5.MgMd5(host, pointerWords, parts);
      BytesOfParts([who.user, colon, who.domain, colon, pass], parts);
      FiveParts(who.user, colon, who.domain, colon, pass);
    }

    /** fgets, and the string in its buffer. */
    method Fgets(rest: seq<octet>, size: nat) returns (line: seq<octet>, more: seq<octet>)
      requires rest != [] && size >= 2
      ensures Lines(rest, size) == [line] + Lines(more, size) && |more| < |rest|
    {
      var n := LineLength(rest, size);
      line, more := UpToNul(rest[..n]), rest[n..];
    }

    /** The loop over the lines, and the entry that may come last: what is written to the temporary file. */
    method Rewrite(host: Md5.Host, pointerWords: nat, who: Who, pass: seq<octet>) returns (out: seq<octet>)
      requires 1 <= pointerWords <= 2
      requires |who.user| < 0x1_0000_0000 && |who.domain| < 0x1_0000_0000 && |pass| < 0x1_0000_0000
      ensures out == Changed(content, who, if pass == [] then None else Some(Hash(who, pass)))
    {
      hide Hash, Entry, Lines, IsFor, Known, Flat, Kept;
      ghost var hash := if pass == [] then None else Some(Hash(who, pass));
      ghost var lines, i := Lines(content, MODIFY_LINE), 0;
      var rest, found := content, 0;
      out := [];
      NothingRead(who, hash);
      while rest != []
        invariant i <= |lines| && lines[i..] == Lines(rest, MODIFY_LINE)
        invariant out == Flat(Kept(lines[..i], who, hash)) && (found > 0 <==> Known(lines[..i], who)) && found >= 0
        decreases |rest|
      {
        var line;
        line, rest := Fgets(rest, MODIFY_LINE);
        assert lines[i] == line && lines[i + 1..] == Lines(rest, MODIFY_LINE);
        KnownNext(lines, i, who);
        NextKept(lines, i, who, hash);
        var r := ReadRecord(line);
        IsForMeans(line, who);
        if r.Some? {
          if r.value.who == who {
            found := found + 1;
            if pass != [] {
              var ha1 := HashOf(host, pointerWords, who, pass);
              out := out + Entry(who, ha1);
            }
          } else {
            out := out + line;
          }
        }
        i := i + 1;
      }
      NoLines(MODIFY_LINE);
      assert lines[..i] == lines;
      AppendNew(lines, who, hash);
      if found == 0 && pass != [] {
        var ha1 := HashOf(host, pointerWords, who, pass);
        out := out + Entry(who, ha1);
      }
    }

    /**
     mg_modify_passwords_file.  An empty password removes the user; the result is 0 in any case.  The
     file may not be readable, nor the temporary file writable.
     */
    method Modify(host: Md5.Host, pointerWords: nat, who: Who, pass: seq<octet>, opens: bool, tmpOpens: bool)
      returns (result: int)
      requires 1 <= pointerWords <= 2
      requires |who.user| < 0x1_0000_0000 && |who.domain| < 0x1_0000_0000 && |pass| < 0x1_0000_0000
      modifies this
      ensures result == 0
      ensures content == if opens && tmpOpens
                         then Changed(old(content), who, if pass == [] then None else Some(Hash(who, pass)))
                         else old(content)
    {
      hide *;
      if !opens {
        return 0;
      } else if !tmpOpens {
        return 0;
      }
      content := Rewrite(host, pointerWords, who, pass);
      return 0;
    }

    /** The search of authorize: the hash to check a password against. */
    method FindHash(who: Who) returns (hash: Option<seq<octet>>)
      ensures hash == Login(content, who)
    {
      hide Lines, ReadRecord;
      var rest := content;
      while rest != []
        invariant LookUp(Lines(rest, LOGIN_LINE), who) == LookUp(Lines(content, LOGIN_LINE), who)
        decreases |rest|
      {
        var line;
        ghost var lines := Lines(rest, LOGIN_LINE);
        line, rest := Fgets(rest, LOGIN_LINE);
        assert lines[0] == line && lines[1..] == Lines(rest, LOGIN_LINE);
        var r := ReadRecord(line);
        if r.Some? && r.value.hash.Some? && r.value.who.user == who.user && r.value.who.domain == who.domain {
          return r.value.hash;
        }
      }
      NoLines(LOGIN_LINE);
      return None;
    }
  }

  lemma NothingRead(who: Who, hash: Option<seq<octet>>)
    ensures Flat(Kept([], who, hash)) == [] && !Known([], who)
  {
  }

  lemma NoLines(size: nat)
    requires size >= 2
    ensures Lines([], size) == []
  {
  }

  lemma IsForMeans(line: seq<octet>, who: Who)
    ensures IsFor(line, who) <==> ReadRecord(line).Some? && ReadRecord(line).value.who == who
  {
  }

  lemma NextKept(lines: seq<seq<octet>>, i: nat, who: Who, hash: Option<seq<octet>>)
    requires i < |lines|
    ensures var next := NewLine(lines[i], who, hash);
            Flat(Kept(lines[..i + 1], who, hash)) ==
            Flat(Kept(lines[..i], who, hash)) + if next == [] then [] else next[0]
  {
    hide Flat, NewLine;
    assert lines[..i + 1][..i] == lines[..i] && lines[..i + 1][i] == lines[i];
    FlatConcat(Kept(lines[..i], who, hash), NewLine(lines[i], who, hash));
    KeptOne(lines[i], who, hash);
  }

  lemma AppendNew(lines: seq<seq<octet>>, who: Who, hash: Option<seq<octet>>)
    ensures Flat(NewLines(lines, who, hash)) ==
            Flat(Kept(lines, who, hash)) +
            if hash.Some? && !Known(lines, who) then Entry(who, hash.value) else []
  {
    hide Flat, Kept, Known, Entry;
    if hash.Some? && !Known(lines, who) {
      FlatConcat(Kept(lines, who, hash), [Entry(who, hash.value)]);
      FlatOne(Entry(who, hash.value));
    } else {
      assert Kept(lines, who, hash) + [] == Kept(lines, who, hash);
    }
  }

  // Looking up in what a change leaves.

  /** Names the format can hold. */
  predicate WellNamed(who: Who) {
    && who.user != [] && ':' !in who.user && '\n' !in who.user && NUL !in who.user
    && who.domain != [] && ':' !in who.domain && '\n' !in who.domain && NUL !in who.domain
  }

  /** What is left of such names when a line buffer cuts the user's; the user may be empty then. */
  predicate Named(who: Who) {
    && ':' !in who.user && '\n' !in who.user && NUL !in who.user
    && who.domain != [] && ':' !in who.domain && '\n' !in who.domain && NUL !in who.domain
  }

  predicate IsWord(hash: seq<octet>) {
    hash != [] && NUL !in hash && ':' !in hash && forall i :: 0 <= i < |hash| ==> hash[i] !in SPACES
  }

  lemma FieldSplits(field: seq<octet>, more: seq<octet>)
    requires ':' !in field
    ensures var line := field + ([':'] + more);
            Find(line, ':') == |field| && line[..|field|] == field && line[|field| + 1..] == more
  {
    FindIs(field + ([':'] + more), ':', |field|);
  }

  lemma ReadsAs(who: Who, rest: seq<octet>)
    requires WellNamed(who)
    ensures ReadRecord(who.user + ([':'] + (who.domain + ([':'] + rest)))) == Some(Record(who, ReadWord(rest)))
  {
    hide Find, ReadWord;
    var more := who.domain + ([':'] + rest);
    FieldSplits(who.user, more);
    FieldSplits(who.domain, rest);
    hide WellNamed;
    assert |who.user + ([':'] + more)| == |who.user| + 1 + |more| && |more| == |who.domain| + 1 + |rest|;
  }

  /** An entry reads back as what was written. */
  lemma EntryReadsBack(who: Who, hash: seq<octet>)
    requires WellNamed(who) && IsWord(hash)
    ensures ReadRecord(Entry(who, hash)) == Some(Record(who, Some(hash)))
  {
    hide ReadRecord, ReadWord, IsWord;
    ReadsAs(who, hash + ['\n']);
    WordBeforeNewline(hash);
  }

  lemma WordBeforeNewline(hash: seq<octet>)
    requires IsWord(hash)
    ensures ReadWord(hash + ['\n']) == Some(hash)
  {
    var s := hash + ['\n'];
    assert s[0] == hash[0] && s[0] !in SPACES && s[0..] == s;
    CutAt(hash, ['\n'], SPACES);
    assert s[..|hash|] == hash;
  }

  /** White space as the conversions skip it, and the word after it. */
  lemma WordAfterBlanks(blanks: seq<octet>, word: seq<octet>, after: seq<octet>)
    requires forall i :: 0 <= i < |blanks| ==> IsBlank(blanks[i])
    requires word != [] && forall i :: 0 <= i < |word| ==> !IsBlank(word[i])
    requires after != [] ==> IsBlank(after[0])
    ensures ReadWord(blanks) == None && ReadWord(blanks + (word + after)) == Some(word)
  {
    RunAt(blanks, [], SPACES);
    RunAt(blanks, word + after, SPACES);
    CutAt(word, after, SPACES);
    var s := blanks + (word + after);
    assert blanks + [] == blanks && s[|blanks|..] == word + after && (word + after)[..|word|] == word;
  }

  predicate IsBlank(c: octet) {
    c == ' ' || c == '\t' || c == '\n' || c == '\r' || c as int == 11 || c as int == 12
  }

  /** What is read of lines with no, one and two colons. */
  lemma RecordForms(user: seq<octet>, domain: seq<octet>, rest: seq<octet>)
    requires ':' !in user && ':' !in domain
    ensures ReadRecord(user) == None
    ensures user == [] ==> ReadRecord(user + ([':'] + rest)) == None
    ensures user != [] ==>
              var who := Who(user, domain);
              && ReadRecord(user + ([':'] + domain)) == (if domain == [] then None else Some(Record(who, None)))
              && ReadRecord(user + ([':'] + (domain + ([':'] + rest)))) ==
                 if domain == [] then None else Some(Record(who, ReadWord(rest)))
  {
    hide Find, ReadWord;
    FindIs(user, ':', |user|);
    FieldSplits(user, rest);
    FieldSplits(user, domain);
    FindIs(domain, ':', |domain|);
    assert domain[..|domain|] == domain;
    var more := domain + ([':'] + rest);
    FieldSplits(user, more);
    FieldSplits(domain, rest);
    assert |user + ([':'] + more)| == |user| + 1 + |more| && |more| == |domain| + 1 + |rest|;
    assert |user + ([':'] + domain)| == |user| + 1 + |domain|;
  }

  /** A buffer takes a line, or as much of it as fits; a NUL in it hides the rest. */
  lemma NextPiece(piece: seq<octet>, rest: seq<octet>, size: nat)
    requires size >= 2 && 0 < |piece| < size && '\n' !in piece[..|piece| - 1]
    requires piece[|piece| - 1] == '\n' || |piece| == size - 1 || rest == []
    ensures Lines(piece + rest, size) == [UpToNul(piece)] + Lines(rest, size)
  {
    hide UpToNul;
    var file, n := piece + rest, |piece|;
    assert forall i :: 0 <= i < n - 1 ==> file[i] == piece[..n - 1][i];
    assert file[n - 1] == piece[n - 1];
    assert LineLength(file, size) == n;
    assert file[..n] == piece && file[n..] == rest;
  }

  lemma HexDigitIsNoSpace(n: byte)
    requires n < 16
    ensures Md5.HexDigit(n) !in SPACES && Md5.HexDigit(n) != NUL && Md5.HexDigit(n) != ':'
  {
    Md5.HexDigitReads(n);
  }

  lemma {:induction false} HexIsNoSpace(p: seq<byte>)
    ensures forall i :: 0 <= i < 2 * |p| ==>
              Md5.HexString(p)[i] !in SPACES && Md5.HexString(p)[i] != NUL && Md5.HexString(p)[i] != ':'
  {
    hide Md5.HexDigit;
    if p != [] {
      HexDigitIsNoSpace(p[0] >> 4);
      HexDigitIsNoSpace(p[0] & 0x0f);
      HexIsNoSpace(p[1..]);
    }
  }

  lemma HashIsWord(who: Who, pass: seq<octet>)
    ensures |Hash(who, pass)| == 32 && IsWord(Hash(who, pass))
  {
    hide Digest, Md5.HexString;
    HexIsNoSpace(Digest(ToBytes(who.user + [':'] + who.domain + [':'] + pass)));
  }

  /** The first of two that is there. */
  function First(a: Option<seq<octet>>, b: Option<seq<octet>>): Option<seq<octet>> {
    if a.Some? then a else b
  }

  lemma {:induction false} LookUpConcat(a: seq<seq<octet>>, b: seq<seq<octet>>, who: Who)
    ensures LookUp(a + b, who) == First(LookUp(a, who), LookUp(b, who))
  {
    hide IsFor, ReadRecord;
    if a == [] {
      assert a + b == b;
    } else {
      assert (a + b)[1..] == a[1..] + b;
      LookUpConcat(a[1..], b, who);
    }
  }

  /** The lookup in one line. */
  function HashIn(line: seq<octet>, who: Who): Option<seq<octet>> {
    if IsFor(line, who) then ReadRecord(line).value.hash else None
  }

  lemma LookUpOne(line: seq<octet>, who: Who)
    ensures LookUp([line], who) == HashIn(line, who) && LookUp([], who) == None
  {
    assert [line][1..] == [];
  }

  // How login reads an entry of any length.

  /** What login finds for a user in a text. */
  function Login(text: seq<octet>, who: Who): Option<seq<octet>> {
    LookUp(Lines(text, LOGIN_LINE), who)
  }

  /** As much of the hash as fits. */
  function Visible(hash: seq<octet>, room: int): Option<seq<octet>> {
    if room <= 0 then None else if room < |hash| then Some(hash[..room]) else Some(hash)
  }

  /**
   What login finds for w in the entry of who: the line buffer takes 255 bytes at a time, so a longer
   user name is cut, and the entry is read as that of what is left of the name.
   */
  function LoginHash(who: Who, hash: seq<octet>, w: Who): Option<seq<octet>>
    decreases |who.user|
  {
    if |who.user| >= LOGIN_LINE - 1 then LoginHash(Who(who.user[LOGIN_LINE - 1..], who.domain), hash, w)
    else if w == who && who.user != [] then Visible(hash, LOGIN_LINE - 1 - |who.user| - |who.domain| - 2)
    else None
  }

  /** At most one colon. */
  predicate FewColons(text: seq<octet>) {
    forall i, j :: 0 <= i < j < |text| ==> !(text[i] == ':' && text[j] == ':')
  }

  lemma TwoColons(line: seq<octet>, w: Who)
    requires HashIn(line, w).Some?
    ensures !FewColons(line)
  {
    var u := Find(line, ':');
    var d := Find(line[u + 1..], ':');
    assert line[u] == ':' && line[u + 1 + d] == ':';
  }

  lemma FewColonsInLine(line: seq<octet>, w: Who)
    requires FewColons(line)
    ensures HashIn(line, w) == None
  {
    hide HashIn, FewColons;
    if HashIn(line, w).Some? {
      TwoColons(line, w);
    }
  }

  /** Pieces without two colons hold no complete record. */
  lemma {:induction false} FewColonsNoHash(text: seq<octet>, w: Who)
    requires FewColons(text)
    ensures Login(text, w) == None
    decreases |text|
  {
    hide HashIn, IsFor, ReadRecord, UpToNul;
    if text != [] {
      var n := LineLength(text, LOGIN_LINE);
      FewColonsInLine(UpToNul(text[..n]), w);
      FewColonsNoHash(text[n..], w);
      LookUpOne(UpToNul(text[..n]), w);
      LookUpConcat([UpToNul(text[..n])], Lines(text[n..], LOGIN_LINE), w);
    } else {
      NoLines(LOGIN_LINE);
    }
  }

  lemma TakeWord(hash: seq<octet>, n: nat)
    requires IsWord(hash) && n <= |hash| + 1
    ensures ReadWord((hash + ['\n'])[..n]) == Visible(hash, n)
  {
    if n == |hash| + 1 {
      assert (hash + ['\n'])[..n] == hash + ['\n'];
      WordBeforeNewline(hash);
    } else if n > 0 {
      var s := hash[..n];
      assert (hash + ['\n'])[..n] == s && s[0] !in SPACES && s[0..] == s;
      CutAt(s, [], SPACES);
      assert s + [] == s && s[..n] == s;
    }
  }

  /** Two fields or less, and no hash. */
  lemma NoHash(user: seq<octet>, x: seq<octet>, w: Who)
    requires ':' !in user && ':' !in x
    ensures HashIn(user + ([':'] + x), w) == None
  {
    hide Find, ReadWord;
    FieldSplits(user, x);
    FindIs(x, ':', |x|);
  }

  /** Three fields. */
  lemma ThreeFields(who: Who, y: seq<octet>, w: Who)
    requires ':' !in who.user && ':' !in who.domain && who.domain != []
    ensures HashIn(who.user + ([':'] + (who.domain + ([':'] + y))), w) ==
            if w == who && who.user != [] then ReadWord(y) else None
  {
    hide Find, ReadWord;
    var x := who.domain + ([':'] + y);
    FieldSplits(who.user, x);
    FieldSplits(who.domain, y);
    assert |who.user + ([':'] + x)| == |who.user| + 1 + |x| && |x| == |who.domain| + 1 + |y|;
  }

  /** The first bytes of an entry, beyond the user's name. */
  lemma HeadOfEntry(who: Who, hash: seq<octet>, n: nat, w: Who)
    requires ':' !in who.user && ':' !in who.domain && who.domain != [] && IsWord(hash)
    requires |who.user| < n <= |Entry(who, hash)|
    ensures HashIn(Entry(who, hash)[..n], w) ==
            if w == who && who.user != [] then Visible(hash, n - |who.user| - |who.domain| - 2) else None
  {
    hide HashIn, IsWord;
    var rest := who.domain + ([':'] + (hash + ['\n']));
    var x := rest[..n - |who.user| - 1];
    assert Entry(who, hash)[..n] == who.user + ([':'] + x);
    if |x| <= |who.domain| {
      assert x == who.domain[..|x|];
      NoHash(who.user, x, w);
    } else {
      var y := (hash + ['\n'])[..|x| - |who.domain| - 1];
      assert x == who.domain + ([':'] + y);
      ThreeFields(who, y, w);
      TakeWord(hash, |y|);
    }
  }

  lemma EntrySuffix(who: Who, hash: seq<octet>, k: nat)
    requires k <= |who.user|
    ensures Entry(who, hash)[k..] == Entry(Who(who.user[k..], who.domain), hash)
  {
  }

  lemma BeyondUser(who: Who, hash: seq<octet>, k: nat)
    requires Named(who) && IsWord(hash) && |who.user| < k <= |Entry(who, hash)|
    ensures FewColons(Entry(who, hash)[k..])
  {
    var d := |who.user| + 1 + |who.domain|;
    var text := Entry(who, hash)[k..];
    assert forall i :: 0 <= i < |text| && k + i != d ==> text[i] != ':' by {
      forall i | 0 <= i < |text| && k + i != d
        ensures text[i] != ':'
      {
        assert text[i] == Entry(who, hash)[k + i];
      }
    }
  }

  /** A text whose only newline is its last byte. */
  predicate EndsOnce(text: seq<octet>) {
    text != [] && text[|text| - 1] == '\n' && forall i :: 0 <= i < |text| - 1 ==> text[i] != '\n'
  }

  lemma FirstOfText(text: seq<octet>, size: nat)
    requires EndsOnce(text) && NUL !in text && size >= 2
    ensures var n := if |text| < size then |text| else size - 1;
            Lines(text, size) == [text[..n]] + Lines(text[n..], size)
  {
    FindIs(text, '\n', |text| - 1);
    NoNulInside(text[..if |text| < size then |text| else size - 1]);
  }

  lemma EntryEnds(who: Who, hash: seq<octet>)
    requires Named(who) && IsWord(hash)
    ensures EndsOnce(Entry(who, hash)) && NUL !in Entry(who, hash)
    ensures |Entry(who, hash)| == |who.user| + |who.domain| + |hash| + 3
  {
    assert '\n' in SPACES;
  }

  lemma FirstLine(text: seq<octet>, n: nat, w: Who)
    requires n <= |text| && Lines(text, LOGIN_LINE) == [text[..n]] + Lines(text[n..], LOGIN_LINE)
    ensures Login(text, w) == First(HashIn(text[..n], w), Login(text[n..], w))
  {
    hide HashIn, Lines;
    LookUpOne(text[..n], w);
    LookUpConcat([text[..n]], Lines(text[n..], LOGIN_LINE), w);
  }

  /** Login reads an entry of any length as LoginHash says. */
  lemma {:induction false} EntryLogin(who: Who, hash: seq<octet>, w: Who)
    requires Named(who) && IsWord(hash)
    ensures Login(Entry(who, hash), w) == LoginHash(who, hash, w)
    decreases |who.user|
  {
    hide HashIn, IsWord, Login, Lines, EndsOnce;
    var entry := Entry(who, hash);
    var n := if |entry| < LOGIN_LINE then |entry| else LOGIN_LINE - 1;
    EntryEnds(who, hash);
    FirstOfText(entry, LOGIN_LINE);
    FirstLine(entry, n, w);
    if |who.user| >= LOGIN_LINE - 1 {
      assert entry[..n] == who.user[..n];
      FewColonsInLine(entry[..n], w);
      EntrySuffix(who, hash, n);
      EntryLogin(Who(who.user[n..], who.domain), hash, w);
    } else {
      HeadOfEntry(who, hash, n, w);
      BeyondUser(who, hash, n);
      FewColonsNoHash(entry[n..], w);
    }
  }

  /** Nobody but the user finds anything in an entry, unless the user's name is cut. */
  lemma {:induction false} NobodyElse(who: Who, hash: seq<octet>, w: Who)
    requires |w.user| > |who.user| || (w != who && |who.user| < LOGIN_LINE)
    ensures LoginHash(who, hash, w) == None
    decreases |who.user|
  {
    if |who.user| >= LOGIN_LINE {
      NobodyElse(Who(who.user[LOGIN_LINE - 1..], who.domain), hash, w);
    }
  }

  // Texts in pieces.

  /** Nothing, or a text that ends in a newline. */
  predicate Whole(text: seq<octet>) {
    text == [] || text[|text| - 1] == '\n'
  }

  lemma NextLine(text: seq<octet>, size: nat)
    requires text != [] && size >= 2
    ensures var n := LineLength(text, size); Lines(text, size) == [UpToNul(text[..n])] + Lines(text[n..], size)
  {
    hide LineLength, UpToNul;
  }

  lemma SameStart(text: seq<octet>, rest: seq<octet>, size: nat)
    requires text != [] && Whole(text) && size >= 2
    ensures var n := LineLength(text, size);
            && LineLength(text + rest, size) == n && (text + rest)[..n] == text[..n]
            && (text + rest)[n..] == text[n..] + rest && Whole(text[n..])
  {
    FindIs(text + rest, '\n', Find(text, '\n'));
  }

  /** fgets starts afresh after a newline. */
  lemma {:induction false} LinesConcat(text: seq<octet>, rest: seq<octet>, size: nat)
    requires Whole(text) && size >= 2
    ensures Lines(text + rest, size) == Lines(text, size) + Lines(rest, size)
    decreases |text|
  {
    hide Lines, LineLength, Whole, UpToNul;
    if text == [] {
      NoLines(size);
      assert text + rest == rest;
    } else {
      var n := LineLength(text, size);
      NextLine(text, size);
      NextLine(text + rest, size);
      SameStart(text, rest, size);
      LinesConcat(text[n..], rest, size);
    }
  }

  /** What login finds in two texts, the first of which ends in a newline. */
  lemma LoginSplits(text: seq<octet>, rest: seq<octet>, w: Who)
    requires Whole(text)
    ensures Login(text + rest, w) == First(Login(text, w), Login(rest, w))
  {
    hide Lines, LookUp;
    LinesConcat(text, rest, LOGIN_LINE);
    LookUpConcat(Lines(text, LOGIN_LINE), Lines(rest, LOGIN_LINE), w);
  }

  lemma NoText(w: Who)
    ensures Login([], w) == None
  {
    NoLines(LOGIN_LINE);
  }

  /** Where the last line starts: behind the last newline. */
  function LineStart(text: seq<octet>): (n: nat)
    ensures n <= |text| && Whole(text[..n]) && '\n' !in text[n..]
  {
    if Whole(text) then assert text[..|text|] == text; |text|
    else
      var n := LineStart(text[..|text| - 1]);
      assert text[..|text| - 1][..n] == text[..n];
      assert text[n..] == text[..|text| - 1][n..] + [text[|text| - 1]];
      n
  }

  function Closed(text: seq<octet>): seq<octet> {
    text[..LineStart(text)]
  }

  function Open(text: seq<octet>): seq<octet> {
    text[LineStart(text)..]
  }

  lemma ClosedAndOpen(a: seq<octet>, t: seq<octet>)
    requires Whole(a) && '\n' !in t
    ensures Closed(a + t) == a && Open(a + t) == t
  {
    var text := a + t;
    assert text[..|a|] == a && text[|a|..] == t;
    NoNewlineFrom(text, |a|);
    NoNewlineFrom(text, LineStart(text));
  }

  lemma NoNewlineFrom(text: seq<octet>, n: nat)
    requires n <= |text| && Whole(text[..n]) && '\n' !in text[n..]
    ensures (forall i :: n <= i < |text| ==> text[i] != '\n') && (n > 0 ==> text[n - 1] == '\n')
  {
    assert forall i :: n <= i < |text| ==> text[i] == text[n..][i - n];
  }

  lemma WholeIsClosed(text: seq<octet>)
    requires Whole(text)
    ensures Closed(text) == text && Open(text) == []
  {
    assert text[..|text|] == text;
  }

  // An entry written behind an open line.

  function Start(text: seq<octet>, room: int): (t: seq<octet>)
    ensures t <= text
  {
    if room <= 0 then [] else if room < |text| then text[..room] else text
  }

  /** The first word of a field that goes on with the start of an entry. */
  function WordAcross(field: seq<octet>, head: seq<octet>): Option<seq<octet>> {
    var r := Run(field, SPACES);
    if r == |field| then ReadWord(head) else
    var n := Cut(field[r..], SPACES);
    if r + n < |field| then Some(field[r..r + n]) else Some(field[r..] + head[..Cut(head, SPACES)])
  }

  /**
   What login finds for w in the first 255 bytes of an open line t with an entry behind it, by the
   fields: without a colon t becomes part of the user's name, with one part of the domain; with two the
   record is that of t, and its hash goes on with the entry unless white space ends it.
   */
  function GluedFields(t: seq<octet>, who: Who, hash: seq<octet>, w: Who): Option<seq<octet>> {
    var k, room := Find(t, ':'), LOGIN_LINE - 1 - |t|;
    if k == |t| then
      if w == Who(t + who.user, who.domain) && t + who.user != []
      then Visible(hash, room - |who.user| - |who.domain| - 2) else None
    else
      var m := t[k + 1..];
      var d := Find(m, ':');
      if d == |m| then
        if w == Who(t[..k], m + who.user) && k > 0 && m + who.user != []
        then ReadWord(Start(who.domain + ([':'] + (hash + ['\n'])), room - |who.user| - 1)) else None
      else if w == Who(t[..k], m[..d]) && k > 0 && d > 0
      then WordAcross(m[d + 1..], Start(Entry(who, hash), room)) else None
  }

  /** What login finds for w in an open line with an entry behind it, 255 bytes at a time. */
  function GluedHash(t: seq<octet>, who: Who, hash: seq<octet>, w: Who): Option<seq<octet>>
    decreases |t|
  {
    if |t| >= LOGIN_LINE - 1 then First(HashIn(t[..LOGIN_LINE - 1], w), GluedHash(t[LOGIN_LINE - 1..], who, hash, w))
    else
      var room := LOGIN_LINE - 1 - |t|;
      First(GluedFields(t, who, hash, w),
            if room <= |who.user| then LoginHash(Who(who.user[room..], who.domain), hash, w) else None)
  }

  lemma SplitAt(line: seq<octet>, k: nat)
    requires k == Find(line, ':') < |line|
    ensures line == line[..k] + ([':'] + line[k + 1..]) && ':' !in line[..k]
  {
    hide Find;
    assert line[k] == ':';
  }

  lemma RunIs(s: seq<octet>, r: nat)
    requires r <= |s| && (forall i :: 0 <= i < r ==> s[i] in SPACES) && (r < |s| ==> s[r] !in SPACES)
    ensures Run(s, SPACES) == r
  {
    assert s == s[..r] + s[r..];
    RunAt(s[..r], s[r..], SPACES);
  }

  lemma CutIs(s: seq<octet>, n: nat)
    requires n <= |s| && (forall i :: 0 <= i < n ==> s[i] !in SPACES) && (n < |s| ==> s[n] in SPACES)
    ensures Cut(s, SPACES) == n
  {
    assert s == s[..n] + s[n..];
    CutAt(s[..n], s[n..], SPACES);
  }

  lemma WordOf(t: seq<octet>)
    ensures var rest := t[Run(t, SPACES)..];
            ReadWord(t) == if rest == [] then None else Some(rest[..Cut(rest, SPACES)])
  {
    hide Run, Cut;
  }

  lemma AcrossIsRead(field: seq<octet>, head: seq<octet>)
    ensures ReadWord(field + head) == WordAcross(field, head)
  {
    hide Run, Cut, ReadWord;
    var s, r := field + head, Run(field, SPACES);
    WordOf(s);
    if r == |field| {
      AllSpaces(field, head);
      WordOf(head);
    } else {
      assert forall i :: 0 <= i < |field| ==> s[i] == field[i];
      RunIs(s, r);
      var tail := field[r..];
      var n := Cut(tail, SPACES);
      assert s[r..] == tail + head;
      WordInside(tail, head, n);
      assert field[r..r + n] == tail[..n];
    }
  }

  lemma AllSpaces(field: seq<octet>, head: seq<octet>)
    requires Run(field, SPACES) == |field|
    ensures Run(field + head, SPACES) == |field| + Run(head, SPACES)
    ensures (field + head)[Run(field + head, SPACES)..] == head[Run(head, SPACES)..]
  {
    hide Run;
    var s, k := field + head, Run(head, SPACES);
    assert forall i :: 0 <= i < |field| + k ==> s[i] == if i < |field| then field[i] else head[i - |field|];
    RunIs(s, |field| + k);
  }

  lemma WordInside(tail: seq<octet>, head: seq<octet>, n: nat)
    requires n == Cut(tail, SPACES)
    ensures (tail + head)[..Cut(tail + head, SPACES)] ==
            if n < |tail| then tail[..n] else tail + head[..Cut(head, SPACES)]
  {
    hide Cut;
    var s, k := tail + head, Cut(head, SPACES);
    if n < |tail| {
      CutIs(s, n);
    } else {
      assert forall i :: 0 <= i < |tail| + k ==> s[i] == if i < |tail| then tail[i] else head[i - |tail|];
      CutIs(s, |tail| + k);
    }
  }

  lemma EmptyDomain(user: seq<octet>, y: seq<octet>, w: Who)
    requires ':' !in user
    ensures HashIn(user + ([':'] + ([':'] + y)), w) == None
  {
    hide Find;
    FieldSplits(user, [':'] + y);
    var empty: seq<octet> := [];
    FieldSplits(empty, y);
    assert empty + ([':'] + y) == [':'] + y;
  }

  /** Three fields, the first two possibly empty. */
  lemma AnyFields(u: seq<octet>, d: seq<octet>, y: seq<octet>, w: Who)
    requires ':' !in u && ':' !in d
    ensures HashIn(u + ([':'] + (d + ([':'] + y))), w) ==
            if w == Who(u, d) && u != [] && d != [] then ReadWord(y) else None
  {
    hide HashIn, ReadWord;
    if d == [] {
      EmptyDomain(u, y, w);
      assert d + ([':'] + y) == [':'] + y;
    } else {
      ThreeFields(Who(u, d), y, w);
    }
  }

  /** The piece ends as late as 255 bytes allow, or with the entry. */
  lemma PieceHead(t: seq<octet>, who: Who, hash: seq<octet>) returns (head: seq<octet>)
    requires |t| < LOGIN_LINE - 1
    ensures head == Start(Entry(who, hash), LOGIN_LINE - 1 - |t|)
    ensures var text := t + Entry(who, hash);
            text[..if |text| < LOGIN_LINE then |text| else LOGIN_LINE - 1] == t + head
    ensures |head| > 0 && (|head| == |Entry(who, hash)| || |head| == LOGIN_LINE - 1 - |t|)
    ensures head == Entry(who, hash)[..|head|]
  {
    head := Start(Entry(who, hash), LOGIN_LINE - 1 - |t|);
  }

  /** An open line without a colon: the entry of a longer name. */
  lemma NoColonFields(t: seq<octet>, who: Who, hash: seq<octet>, head: seq<octet>, w: Who)
    requires |t| < LOGIN_LINE - 1 && ':' !in t && Named(who) && IsWord(hash)
    requires head == Start(Entry(who, hash), LOGIN_LINE - 1 - |t|)
    ensures HashIn(t + head, w) ==
            if w == Who(t + who.user, who.domain) && t + who.user != []
            then Visible(hash, LOGIN_LINE - 1 - |t| - |who.user| - |who.domain| - 2) else None
  {
    hide HashIn, IsWord;
    var longer := Who(t + who.user, who.domain);
    assert Entry(longer, hash) == t + Entry(who, hash);
    EntrySize(who, hash);
    EntrySize(longer, hash);
    if |head| <= |who.user| {
      assert t + head == (t + who.user)[..|t| + |head|];
      FewColonsInLine(t + head, w);
    } else {
      assert t + head == Entry(longer, hash)[..|t| + |head|];
      HeadOfEntry(longer, hash, |t| + |head|, w);
    }
  }

  lemma EntrySize(who: Who, hash: seq<octet>)
    ensures |Entry(who, hash)| == |who.user| + |who.domain| + |hash| + 3
  {
  }

  /** An open line with one colon: the user's name ends its second field. */
  lemma OneColonFields(u: seq<octet>, m: seq<octet>, who: Who, hash: seq<octet>, head: seq<octet>, w: Who)
    requires ':' !in u && ':' !in m && Named(who)
    requires var room := LOGIN_LINE - 1 - |u| - 1 - |m|; room > 0 && head == Start(Entry(who, hash), room)
    ensures var rest := who.domain + ([':'] + (hash + ['\n']));
            HashIn(u + ([':'] + m) + head, w) ==
            if w == Who(u, m + who.user) && u != [] && m + who.user != []
            then ReadWord(Start(rest, LOGIN_LINE - 1 - |u| - 1 - |m| - |who.user| - 1)) else None
  {
    hide HashIn, ReadWord;
    var rest := who.domain + ([':'] + (hash + ['\n']));
    NoWord();
    if |head| <= |who.user| {
      assert head == who.user[..|head|];
      assert u + ([':'] + m) + head == u + ([':'] + (m + head));
      NoHash(u, m + head, w);
    } else {
      var y := rest[..|head| - |who.user| - 1];
      assert head == who.user + ([':'] + y);
      assert u + ([':'] + m) + head == u + ([':'] + ((m + who.user) + ([':'] + y)));
      assert rest[..|rest|] == rest && rest[..0] == [];
      assert y == Start(rest, LOGIN_LINE - 1 - |u| - 1 - |m| - |who.user| - 1);
      AnyFields(u, m + who.user, y, w);
    }
  }

  lemma NoWord()
    ensures ReadWord([]) == None
  {
  }

  lemma FieldsOfPiece(t: seq<octet>, who: Who, hash: seq<octet>, head: seq<octet>, w: Who)
    requires |t| < LOGIN_LINE - 1 && Named(who) && IsWord(hash)
    requires head == Start(Entry(who, hash), LOGIN_LINE - 1 - |t|)
    ensures HashIn(t + head, w) == GluedFields(t, who, hash, w)
  {
    hide HashIn, IsWord, Find, ReadWord, WordAcross, Named, Visible, Start;
    var k := Find(t, ':');
    if k == |t| {
      NoColonFields(t, who, hash, head, w);
    } else {
      var u, m := t[..k], t[k + 1..];
      SplitAt(t, k);
      var d := Find(m, ':');
      if d == |m| {
        OneColonFields(u, m, who, hash, head, w);
      } else {
        var field := m[d + 1..];
        SplitAt(m, d);
        assert t + head == u + ([':'] + (m[..d] + ([':'] + (field + head))));
        AnyFields(u, m[..d], field + head, w);
        AcrossIsRead(field, head);
      }
    }
  }

  lemma TextEnds(t: seq<octet>, entry: seq<octet>)
    requires '\n' !in t && NUL !in t && EndsOnce(entry) && NUL !in entry
    ensures EndsOnce(t + entry) && NUL !in t + entry
  {
  }

  lemma CutNamed(who: Who, k: nat)
    requires Named(who) && k <= |who.user|
    ensures Named(Who(who.user[k..], who.domain))
  {
  }

  /** Login reads an open line with an entry behind it as GluedHash says. */
  lemma {:induction false} GluedLogin(t: seq<octet>, who: Who, hash: seq<octet>, w: Who)
    requires '\n' !in t && NUL !in t && Named(who) && IsWord(hash)
    ensures Login(t + Entry(who, hash), w) == GluedHash(t, who, hash, w)
    decreases |t|
  {
    hide HashIn, Lines, LoginHash, Entry, IsWord, Named, EndsOnce, Login, GluedFields, Start;
    var entry := Entry(who, hash);
    var text := t + entry;
    var n := if |text| < LOGIN_LINE then |text| else LOGIN_LINE - 1;
    EntryEnds(who, hash);
    TextEnds(t, entry);
    FirstOfText(text, LOGIN_LINE);
    FirstLine(text, n, w);
    if |t| >= LOGIN_LINE - 1 {
      EntrySize(who, hash);
      assert text[..n] == t[..n] && text[n..] == t[n..] + entry;
      GluedLogin(t[n..], who, hash, w);
    } else {
      var head := PieceHead(t, who, hash);
      FieldsOfPiece(t, who, hash, head, w);
      GluedRest(t, who, hash, n, w);
    }
  }

  /** The pieces behind the first one. */
  lemma GluedRest(t: seq<octet>, who: Who, hash: seq<octet>, n: nat, w: Who)
    requires |t| < LOGIN_LINE - 1 && Named(who) && IsWord(hash)
    requires var text := t + Entry(who, hash); n == if |text| < LOGIN_LINE then |text| else LOGIN_LINE - 1
    ensures var room := LOGIN_LINE - 1 - |t|;
            Login((t + Entry(who, hash))[n..], w) ==
            if room <= |who.user| then LoginHash(Who(who.user[room..], who.domain), hash, w) else None
  {
    hide LoginHash, Entry, IsWord, Named, Login;
    var entry, cut := Entry(who, hash), n - |t|;
    EntrySize(who, hash);
    assert (t + entry)[n..] == entry[cut..];
    if cut <= |who.user| {
      EntrySuffix(who, hash, cut);
      CutNamed(who, cut);
      EntryLogin(Who(who.user[cut..], who.domain), hash, w);
    } else {
      BeyondUser(who, hash, cut);
      FewColonsNoHash(entry[cut..], w);
    }
  }

  /** Behind no open line at all it is the entry by itself. */
  lemma GluedToNothing(who: Who, hash: seq<octet>, w: Who)
    requires Named(who) && IsWord(hash)
    ensures GluedHash([], who, hash, w) == LoginHash(who, hash, w)
  {
    hide GluedHash, LoginHash, Login, Entry;
    GluedLogin([], who, hash, w);
    EntryLogin(who, hash, w);
    assert [] + Entry(who, hash) == Entry(who, hash);
  }

  // A change to any file.

  /** Where the first line of the user is, or the number of lines. */
  function FirstOf(lines: seq<seq<octet>>, who: Who): (n: nat)
    ensures n <= |lines| && (n < |lines| ==> IsFor(lines[n], who))
    ensures forall i :: 0 <= i < n ==> !IsFor(lines[i], who)
  {
    if lines == [] || IsFor(lines[0], who) then 0 else 1 + FirstOf(lines[1..], who)
  }

  /** The lines before it; all lines if there is none. */
  function Before(lines: seq<seq<octet>>, who: Who): seq<seq<octet>> {
    lines[..FirstOf(lines, who)]
  }

  /** The lines after it; none if there is none. */
  function After(lines: seq<seq<octet>>, who: Who): seq<seq<octet>> {
    var n := FirstOf(lines, who);
    if n < |lines| then lines[n + 1..] else []
  }

  /** The lines that are copied whoever's password is changed: the records of others. */
  function Copied(lines: seq<seq<octet>>, who: Who): seq<seq<octet>> {
    Kept(lines, who, None)
  }

  lemma {:induction false} UnknownKept(lines: seq<seq<octet>>, who: Who, hash: Option<seq<octet>>)
    requires !Known(lines, who)
    ensures Kept(lines, who, hash) == Copied(lines, who)
  {
    hide IsFor, Known, ReadRecord;
    if lines != [] {
      var n := |lines| - 1;
      assert lines[..n + 1] == lines;
      KnownNext(lines, n, who);
      UnknownKept(lines[..n], who, hash);
      IsForMeans(lines[n], who);
    }
  }

  lemma BeforeUnknown(lines: seq<seq<octet>>, who: Who)
    ensures !Known(Before(lines, who), who)
    ensures Known(lines, who) <==> FirstOf(lines, who) < |lines|
  {
    hide IsFor;
    var before := Before(lines, who);
    assert forall i :: 0 <= i < |before| ==> before[i] == lines[i];
  }

  /** The changed text: others' lines, the entry, and the rest with its own changes. */
  lemma ChangedText(lines: seq<seq<octet>>, who: Who, hash: seq<octet>)
    ensures Flat(NewLines(lines, who, Some(hash))) ==
            Flat(Copied(Before(lines, who), who)) + (Entry(who, hash) + Flat(Kept(After(lines, who), who, Some(hash))))
  {
    hide IsFor, Known, Kept, Flat, Entry, ReadRecord;
    var h, n, entry := Some(hash), FirstOf(lines, who), Entry(who, hash);
    var before, after := Before(lines, who), After(lines, who);
    BeforeUnknown(lines, who);
    UnknownKept(before, who, h);
    FlatOne(entry);
    if n < |lines| {
      var line := lines[n];
      assert lines == before + ([line] + after);
      KeptConcat(before, [line] + after, who, h);
      KeptConcat([line], after, who, h);
      KeptOne(line, who, h);
      IsForMeans(line, who);
      FlatConcat([entry], Kept(after, who, h));
      FlatConcat(Kept(before, who, h), [entry] + Kept(after, who, h));
      assert NewLines(lines, who, h) == Kept(before, who, h) + ([entry] + Kept(after, who, h));
    } else {
      assert before == lines;
      NothingKept(who, h);
      FlatConcat(Kept(before, who, h), [entry]);
      assert entry + [] == entry;
    }
  }

  lemma NothingKept(who: Who, hash: Option<seq<octet>>)
    ensures Kept([], who, hash) == [] && Flat<octet>([]) == []
  {
  }

  lemma {:induction false} CopiedHasNoNul(lines: seq<seq<octet>>, who: Who)
    requires forall i :: 0 <= i < |lines| ==> NUL !in lines[i]
    ensures NUL !in Flat(Copied(lines, who))
  {
    hide ReadRecord;
    if lines == [] {
      NothingKept(who, None);
    } else {
      var n := |lines| - 1;
      CopiedHasNoNul(lines[..n], who);
      FlatConcat(Copied(lines[..n], who), NewLine(lines[n], who, None));
      KeptOne(lines[n], who, None);
    }
  }

  /** The text in front of the entry in the changed file. */
  function Head(file: seq<octet>, who: Who): seq<octet> {
    Flat(Copied(Before(Lines(file, MODIFY_LINE), who), who))
  }

  /** The text behind it. */
  function Tail(file: seq<octet>, who: Who, hash: seq<octet>): seq<octet> {
    Flat(Kept(After(Lines(file, MODIFY_LINE), who), who, Some(hash)))
  }

  /**
   What login finds for anyone in any file after a change: first in the whole lines in front of the
   entry, then in the entry and the open line it may be glued to, then in what comes behind.
   */
  lemma ChangedFile(file: seq<octet>, who: Who, hash: seq<octet>, w: Who)
    requires Named(who) && IsWord(hash)
    ensures var head := Head(file, who);
            Login(Changed(file, who, Some(hash)), w) ==
            First(Login(Closed(head), w), First(GluedHash(Open(head), who, hash, w), Login(Tail(file, who, hash), w)))
  {
    hide Lines, Kept, Before, After, Flat, Entry, Named, IsWord, Login, GluedHash, NewLines, LineStart;
    var lines := Lines(file, MODIFY_LINE);
    var head, entry, rest := Head(file, who), Entry(who, hash), Tail(file, who, hash);
    ChangedText(lines, who, hash);
    BeforeHasNoNul(lines, who);
    assert head == Closed(head) + Open(head);
    assert NUL !in Open(head);
    assert head + (entry + rest) == Closed(head) + ((Open(head) + entry) + rest);
    EntryEnds(who, hash);
    EntryIsWhole(Open(head), entry);
    LoginSplits(Closed(head), (Open(head) + entry) + rest, w);
    LoginSplits(Open(head) + entry, rest, w);
    GluedLogin(Open(head), who, hash, w);
  }

  lemma BeforeHasNoNul(lines: seq<seq<octet>>, who: Who)
    requires forall i :: 0 <= i < |lines| ==> NUL !in lines[i]
    ensures NUL !in Flat(Copied(Before(lines, who), who))
  {
    hide FirstOf;
    CopiedHasNoNul(Before(lines, who), who);
  }

  lemma EntryIsWhole(t: seq<octet>, entry: seq<octet>)
    requires EndsOnce(entry)
    ensures Whole(t + entry)
  {
  }

  lemma WellNamedIsNamed(who: Who)
    requires WellNamed(who)
    ensures Named(who) && who.user != []
  {
  }

  /** How much of the user's own hash login sees in the entry. */
  lemma OwnHash(who: Who, hash: seq<octet>)
    requires WellNamed(who) && IsWord(hash)
    ensures LoginHash(who, hash, who) == Some(hash) <==> |Entry(who, hash)| <= LOGIN_LINE
  {
    WellNamedIsNamed(who);
    EntryEnds(who, hash);
    if |who.user| >= LOGIN_LINE - 1 {
      NobodyElse(Who(who.user[LOGIN_LINE - 1..], who.domain), hash, who);
    }
  }

  /**
   Login finds the new hash in the changed file, whatever the file was, exactly when the first thing it
   finds for the user is that hash: in the whole lines in front, in the entry and what it is glued to,
   or behind.  If the entry fits the login buffer, its newline apart, and starts a line, it does unless
   a line in front shows the user another hash.
   */
  lemma LoginFindsNewHash(file: seq<octet>, who: Who, hash: seq<octet>)
    requires WellNamed(who) && IsWord(hash)
    ensures var head := Head(file, who);
            var found := Login(Changed(file, who, Some(hash)), who);
            var before, shown := Login(Closed(head), who), GluedHash(Open(head), who, hash, who);
            && (found == Some(hash) <==>
                if before.Some? then before == Some(hash)
                else if shown.Some? then shown == Some(hash)
                else Login(Tail(file, who, hash), who) == Some(hash))
            && (Whole(head) && |Entry(who, hash)| <= 256 ==>
                (found == Some(hash) <==> Login(head, who) == None || Login(head, who) == Some(hash)))
  {
    hide Login, GluedHash, LineStart, Changed, Entry, WellNamed, Named, IsWord, LoginHash, Head, Tail;
    WellNamedIsNamed(who);
    ChangedFile(file, who, hash, who);
    if Whole(Head(file, who)) {
      WholeIsClosed(Head(file, who));
      GluedToNothing(who, hash, who);
      OwnHash(who, hash);
    }
  }

  /**
   Another user finds what they found before, whatever the file was, exactly when the first thing login
   finds for them now is that.  An entry that starts a line shows them nothing if the name has at most
   255 bytes.
   */
  lemma OthersAreKept(file: seq<octet>, who: Who, hash: seq<octet>, other: Who)
    requires WellNamed(who) && IsWord(hash) && other != who
    ensures var head := Head(file, who);
            var before, shown := Login(Closed(head), other), GluedHash(Open(head), who, hash, other);
            && (Login(Changed(file, who, Some(hash)), other) == Login(file, other) <==>
                Login(file, other) ==
                if before.Some? then before else if shown.Some? then shown else Login(Tail(file, who, hash), other))
            && (Whole(head) && |who.user| < 256 ==> shown == None)
  {
    hide Login, GluedHash, LineStart, Changed, Entry, WellNamed, Named, IsWord, LoginHash, Head, Tail;
    WellNamedIsNamed(who);
    ChangedFile(file, who, hash, other);
    if Whole(Head(file, who)) && |who.user| < LOGIN_LINE {
      WholeIsClosed(Head(file, who));
      GluedToNothing(who, hash, other);
      NobodyElse(who, hash, other);
    }
  }

  /** The changed file: every line of the user becomes the entry or nothing, every other record is as it was. */
  lemma ChangedLines(lines: seq<seq<octet>>, tail: seq<octet>, who: Who, hash: Option<seq<octet>>)
    requires AllFit(lines, 512) && TailFits(tail, 512)
    ensures var all, out := WithTail(lines, tail), LinesAfter(WithTail(lines, tail), who, hash);
            && |out| == |all|
            && (forall i :: 0 <= i < |all| ==>
                  out[i] == if ReadRecord(all[i]).None? then []
                            else if ReadRecord(all[i]).value.who != who then all[i]
                            else if hash.Some? then Entry(who, hash.value) else [])
            && Changed(Flat(all), who, hash) ==
               Flat(out) + if hash.Some? && !Known(all, who) then Entry(who, hash.value) else []
  {
    hide Lines, Flat, Known, Entry, ReadRecord, NewLines, AllFit, TailFits;
    var all := WithTail(lines, tail);
    LinesOfFile(lines, tail, 512);
    AppendNew(all, who, hash);
    KeptLines(all, who, hash);
  }

  function LineAfter(line: seq<octet>, who: Who, hash: Option<seq<octet>>): seq<octet> {
    if ReadRecord(line).None? then []
    else if ReadRecord(line).value.who != who then line
    else if hash.Some? then Entry(who, hash.value) else []
  }

  function LinesAfter(lines: seq<seq<octet>>, who: Who, hash: Option<seq<octet>>): (out: seq<seq<octet>>)
    ensures |out| == |lines| && forall i :: 0 <= i < |lines| ==> out[i] == LineAfter(lines[i], who, hash)
  {
    seq(|lines|, i requires 0 <= i < |lines| => LineAfter(lines[i], who, hash))
  }

  lemma {:induction false} KeptLines(all: seq<seq<octet>>, who: Who, hash: Option<seq<octet>>)
    ensures Flat(LinesAfter(all, who, hash)) == Flat(Kept(all, who, hash))
  {
    hide LineAfter, NewLine;
    if all == [] {
      assert LinesAfter(all, who, hash) == [];
    } else {
      var n := |all| - 1;
      var before, line := LinesAfter(all[..n], who, hash), LineAfter(all[n], who, hash);
      KeptLines(all[..n], who, hash);
      assert LinesAfter(all, who, hash) == before + [line];
      hide LinesAfter;
      OneLineAfter(all[n], who, hash);
      FlatConcat(before, [line]);
      FlatConcat(Kept(all[..n], who, hash), NewLine(all[n], who, hash));
    }
  }

  lemma OneLineAfter(line: seq<octet>, who: Who, hash: Option<seq<octet>>)
    ensures Flat([LineAfter(line, who, hash)]) == Flat(NewLine(line, who, hash))
  {
    hide ReadRecord, Entry;
    FlatOne(LineAfter(line, who, hash));
    KeptOne(line, who, hash);
  }

  /** In a file of records one of which is the user's, no byte outside that line changes. */
  lemma OnlyThatLine(before: seq<seq<octet>>, line: seq<octet>, after: seq<seq<octet>>, who: Who, hash: seq<octet>)
    requires AllFit(before + [line] + after, 512) && IsFor(line, who)
    requires forall l :: l in before + after ==> ReadRecord(l).Some? && !IsFor(l, who)
    ensures Changed(Flat(before) + line + Flat(after), who, Some(hash)) == Flat(before) + Entry(who, hash) + Flat(after)
    ensures Changed(Flat(before) + line + Flat(after), who, None) == Flat(before) + Flat(after)
  {
    hide *;
    var all, file := before + [line] + after, Flat(before) + line + Flat(after);
    FlatConcat(before + [line], after);
    FlatConcat(before, [line]);
    FlatOne(line);
    WholeFileChanged(all, who, Some(hash));
    WholeFileChanged(all, who, None);
    KnownThere(all, |before|, who);
    AroundKept(before, line, after, who, Some(hash));
    AroundKept(before, line, after, who, None);
    assert Flat(before) + [] == Flat(before);
  }

  lemma KnownThere(all: seq<seq<octet>>, i: nat, who: Who)
    requires i < |all| && IsFor(all[i], who)
    ensures Known(all, who)
  {
  }

  lemma WholeFileChanged(all: seq<seq<octet>>, who: Who, hash: Option<seq<octet>>)
    requires AllFit(all, 512)
    ensures Changed(Flat(all), who, hash) ==
            Flat(Kept(all, who, hash)) + if hash.Some? && !Known(all, who) then Entry(who, hash.value) else []
  {
    hide Lines, Flat, Kept, Known, Entry, AllFit;
    OneFits(all);
    LinesOfFile(all, [], 512);
    AppendNew(all, who, hash);
  }

  lemma AroundKept(before: seq<seq<octet>>, line: seq<octet>, after: seq<seq<octet>>, who: Who,
                   hash: Option<seq<octet>>)
    requires IsFor(line, who)
    requires forall l :: l in before + after ==> ReadRecord(l).Some? && !IsFor(l, who)
    ensures Flat(Kept(before + [line] + after, who, hash)) ==
            Flat(before) + (if hash.Some? then Entry(who, hash.value) else []) + Flat(after)
  {
    hide Flat, Entry, ReadRecord, Kept, IsFor;
    OthersKept(before, who);
    OthersKept(after, who);
    KeptConcat(before + [line], after, who, hash);
    KeptConcat(before, [line], who, hash);
    KeptOne(line, who, hash);
    IsForMeans(line, who);
    FlatConcat(before + Kept([line], who, hash), after);
    FlatConcat(before, Kept([line], who, hash));
  }

  lemma OneFits(all: seq<seq<octet>>)
    ensures WithTail(all, []) == all && TailFits([], 512)
  {
  }

  lemma {:induction false} OthersKept(lines: seq<seq<octet>>, who: Who)
    requires forall l :: l in lines ==> ReadRecord(l).Some? && !IsFor(l, who)
    ensures forall h :: Kept(lines, who, h) == lines
  {
    hide ReadRecord, IsFor;
    if lines != [] {
      var n := |lines| - 1;
      assert lines == lines[..n] + [lines[n]];
      OthersKept(lines[..n], who);
      IsForMeans(lines[n], who);
    }
  }

  /** A record of 511 bytes loses its newline, so that a new entry is glued to it. */
  lemma FullLineLosesNewline(line: seq<octet>, who: Who, hash: seq<octet>)
    requires |line| == 511 && '\n' !in line && NUL !in line && ReadRecord(line).Some? && !IsFor(line, who)
    ensures Changed(line + ['\n'], who, Some(hash)) == line + Entry(who, hash)
    ensures Changed(line + ['\n'], who, None) == line
  {
    hide Lines, Flat, Entry, ReadRecord, IsFor, UpToNul, Kept, LineLength;
    var newline: seq<octet> := ['\n'];
    NextPiece(line, newline, MODIFY_LINE);
    NextPiece(newline, [], MODIFY_LINE);
    NoLines(MODIFY_LINE);
    NoNulInside(line);
    NoNulInside(newline);
    assert newline + [] == newline;
    var lines := [line] + [newline];
    assert Lines(line + newline, MODIFY_LINE) == lines;
    RecordForms(newline, [], []);
    IsForMeans(line, who);
    IsForMeans(newline, who);
    assert !Known(lines, who);
    forall h: Option<seq<octet>>
      ensures Flat(Kept(lines, who, h)) == line
    {
      KeptConcat([line], [newline], who, h);
      KeptOne(line, who, h);
      KeptOne(newline, who, h);
      assert Kept([line], who, h) + [] == Kept([line], who, h);
    }
    AppendNew(lines, who, Some(hash));
    AppendNew(lines, who, None);
  }

  // The coincidence that a glued line reads as the new entry.

  lemma WordIsThere(t: seq<octet>, word: seq<octet>)
    requires ReadWord(t) == Some(word) && word != []
    ensures var r := Run(t, SPACES);
            && r + |word| <= |t| && t[r..r + |word|] == word && forall i :: 0 <= i < r ==> t[i] in SPACES
  {
    hide ReadWord, Run, Cut;
    WordOf(t);
    SliceTwice(t, Run(t, SPACES), |word|);
  }

  lemma SliceTwice(t: seq<octet>, r: nat, n: nat)
    requires r + n <= |t|
    ensures t[r..][..n] == t[r..r + n]
  {
  }

  /** A word of the domain and what follows it that is the hash is at the start of the domain. */
  lemma HashInDomain(domain: seq<octet>, hash: seq<octet>, room: int)
    requires ':' !in domain && IsWord(hash)
    requires ReadWord(Start(domain + ([':'] + (hash + ['\n'])), room)) == Some(hash)
    ensures hash <= domain[Run(domain, SPACES)..]
  {
    hide ReadWord, Run, Cut, Start, IsWord;
    var rest := [':'] + (hash + ['\n']);
    var t := Start(domain + rest, room);
    NotEmptyWord(hash);
    WordIsThere(t, hash);
    HashAtStart(domain, rest, hash, t, Run(t, SPACES));
  }

  lemma NotEmptyWord(hash: seq<octet>)
    requires IsWord(hash)
    ensures hash != [] && ':' !in hash
  {
  }

  lemma HashAtStart(domain: seq<octet>, rest: seq<octet>, hash: seq<octet>, t: seq<octet>, r: nat)
    requires IsWord(hash) && rest != [] && rest[0] == ':' && t <= domain + rest
    requires r + |hash| <= |t| && t[r..r + |hash|] == hash && forall i :: 0 <= i < r ==> t[i] in SPACES
    ensures Run(domain, SPACES) == r && hash <= domain[r..]
  {
    hide Run, IsWord;
    var s := t[..r + |hash|];
    NotEmptyWord(hash);
    SpacedWord(t, r, hash);
    BeforeColon(s, domain + rest, |domain|);
    PrefixOfFirst(s, domain, rest);
    WordInDomain(domain, r, hash, s);
  }

  lemma SpacedWord(t: seq<octet>, r: nat, hash: seq<octet>)
    requires r + |hash| <= |t| && t[r..r + |hash|] == hash && ':' !in hash
    requires forall i :: 0 <= i < r ==> t[i] in SPACES
    ensures var s := t[..r + |hash|];
            s <= t && s[r..] == hash && ':' !in s && forall i :: 0 <= i < r ==> s[i] in SPACES
  {
    var s := t[..r + |hash|];
    assert s == t[..r] + hash;
    assert ':' !in SPACES;
  }

  lemma PrefixOfFirst(s: seq<octet>, a: seq<octet>, b: seq<octet>)
    requires s <= a + b && |s| <= |a|
    ensures s == a[..|s|]
  {
  }

  lemma BeforeColon(s: seq<octet>, text: seq<octet>, k: nat)
    requires s <= text && ':' !in s && k < |text| && text[k] == ':'
    ensures |s| <= k
  {
    assert forall i :: 0 <= i < |s| ==> text[i] == s[i] && s[i] != ':';
  }

  lemma WordInDomain(d: seq<octet>, r: nat, hash: seq<octet>, s: seq<octet>)
    requires IsWord(hash) && |s| == r + |hash| <= |d| && s == d[..|s|]
    requires s[r..] == hash && forall i :: 0 <= i < r ==> s[i] in SPACES
    ensures Run(d, SPACES) == r && hash <= d[r..]
  {
    hide Run;
    assert d[r..][..|hash|] == s[r..];
    assert d == d[..r] + d[r..] && d[r..][0] == hash[0];
    RunAt(d[..r], d[r..], SPACES);
  }

  /**
   An entry glued to a line that is not the user's own is not found, unless the domain starts with the
   hash of its own record.
   */
  lemma GluedIsLost(t: seq<octet>, who: Who, hash: seq<octet>)
    requires 0 < |t| < LOGIN_LINE - 1 && !IsFor(t, who) && WellNamed(who) && IsWord(hash)
    requires !(hash <= who.domain[Run(who.domain, SPACES)..])
    ensures GluedHash(t, who, hash, who) != Some(hash)
  {
    hide HashIn, Find, ReadWord, LoginHash, IsWord, Run, WordAcross, Start, Entry, Visible, GluedFields;
    var room := LOGIN_LINE - 1 - |t|;
    if room <= |who.user| {
      NobodyElse(Who(who.user[room..], who.domain), hash, who);
    }
    FieldsAreLost(t, who, hash);
  }

  lemma FieldsAreLost(t: seq<octet>, who: Who, hash: seq<octet>)
    requires 0 < |t| < LOGIN_LINE - 1 && !IsFor(t, who) && WellNamed(who) && IsWord(hash)
    requires !(hash <= who.domain[Run(who.domain, SPACES)..])
    ensures GluedFields(t, who, hash, who) != Some(hash)
  {
    hide HashIn, Find, ReadWord, IsWord, Run, WordAcross, Start, Entry, Visible;
    var k := Find(t, ':');
    if k == |t| {
      assert |t + who.user| != |who.user|;
    } else {
      var m := t[k + 1..];
      var d := Find(m, ':');
      if d == |m| {
        var rest, room := who.domain + ([':'] + (hash + ['\n'])), LOGIN_LINE - 1 - |t| - |who.user| - 1;
        if ReadWord(Start(rest, room)) == Some(hash) {
          HashInDomain(who.domain, hash, room);
        }
      }
    }
  }

  // Text files: lines that the 512-byte buffer holds, and what may follow the last newline.

  predicate AllEnd(lines: seq<seq<octet>>) {
    forall i :: 0 <= i < |lines| ==> EndsOnce(lines[i])
  }

  /** Lines without NULs that a buffer of that size holds. */
  predicate AllFit(lines: seq<seq<octet>>, size: nat) {
    AllEnd(lines) && forall i :: 0 <= i < |lines| ==> |lines[i]| < size && NUL !in lines[i]
  }

  predicate TailFits(tail: seq<octet>, size: nat) {
    |tail| < size && '\n' !in tail && NUL !in tail
  }

  /** The lines with what follows them. */
  function WithTail(lines: seq<seq<octet>>, tail: seq<octet>): seq<seq<octet>> {
    if tail == [] then lines else lines + [tail]
  }

  lemma EndsIsWhole(line: seq<octet>)
    requires EndsOnce(line)
    ensures Whole(line) && line != []
  {
  }

  lemma {:induction false} FlatIsWhole(lines: seq<seq<octet>>)
    requires AllEnd(lines)
    ensures Whole(Flat(lines))
  {
    hide EndsOnce;
    if lines != [] {
      EndsIsWhole(lines[|lines| - 1]);
    }
  }

  lemma LineIsRead(line: seq<octet>, size: nat)
    requires EndsOnce(line) && NUL !in line && |line| < size && size >= 2
    ensures Lines(line, size) == [line]
  {
    FirstOfText(line, size);
    NoLines(size);
    assert line[..|line|] == line;
  }

  lemma {:induction false} LinesOfFlat(lines: seq<seq<octet>>, size: nat)
    requires AllFit(lines, size) && size >= 2
    ensures Lines(Flat(lines), size) == lines
  {
    hide Lines, EndsOnce, Whole;
    if lines == [] {
      NoLines(size);
    } else {
      var n := |lines| - 1;
      LinesOfFlat(lines[..n], size);
      LineIsRead(lines[n], size);
      FlatIsWhole(lines[..n]);
      LinesConcat(Flat(lines[..n]), lines[n], size);
      assert lines == lines[..n] + [lines[n]];
    }
  }

  lemma TailIsRead(tail: seq<octet>, size: nat)
    requires TailFits(tail, size) && size >= 2
    ensures Lines(tail, size) == if tail == [] then [] else [tail]
  {
    if tail != [] {
      FindIs(tail, '\n', |tail|);
      assert tail[..|tail|] == tail && tail[|tail|..] == [];
      NoNulInside(tail);
      NoLines(size);
    }
  }

  lemma FlatWithTail(lines: seq<seq<octet>>, tail: seq<octet>)
    ensures Flat(WithTail(lines, tail)) == Flat(lines) + tail
  {
    if tail != [] {
      FlatConcat(lines, [tail]);
      FlatOne(tail);
    }
  }

  /** A buffer that holds them reads them line by line. */
  lemma LinesOfFile(lines: seq<seq<octet>>, tail: seq<octet>, size: nat)
    requires AllFit(lines, size) && TailFits(tail, size) && size >= 2
    ensures Lines(Flat(WithTail(lines, tail)), size) == WithTail(lines, tail)
  {
    hide Lines, Flat, TailFits, Whole;
    FlatWithTail(lines, tail);
    FlatIsWhole(lines);
    LinesConcat(Flat(lines), tail, size);
    LinesOfFlat(lines, size);
    TailIsRead(tail, size);
    assert lines + [] == lines;
  }

  lemma EndConcat(a: seq<seq<octet>>, b: seq<seq<octet>>)
    requires AllEnd(a) && AllEnd(b)
    ensures AllEnd(a + b)
  {
    hide EndsOnce;
  }

  predicate GoodHash(hash: Option<seq<octet>>) {
    hash.Some? ==> IsWord(hash.value)
  }

  lemma {:induction false} KeptEnd(lines: seq<seq<octet>>, who: Who, hash: Option<seq<octet>>)
    requires AllEnd(lines) && Named(who) && GoodHash(hash)
    ensures AllEnd(Kept(lines, who, hash))
  {
    hide EndsOnce, Entry, Named, IsWord, ReadRecord;
    if lines != [] {
      KeptEnd(lines[..|lines| - 1], who, hash);
      if hash.Some? {
        EntryEnds(who, hash.value);
      }
      EndConcat(Kept(lines[..|lines| - 1], who, hash), NewLine(lines[|lines| - 1], who, hash));
    }
  }

  lemma KeptIsWhole(lines: seq<seq<octet>>, who: Who, hash: Option<seq<octet>>)
    requires AllEnd(lines) && Named(who) && GoodHash(hash)
    ensures Whole(Flat(Kept(lines, who, hash)))
  {
    hide Kept, Flat, AllEnd, Whole;
    KeptEnd(lines, who, hash);
    FlatIsWhole(Kept(lines, who, hash));
  }

  lemma NewLineLogin(line: seq<octet>, who: Who, hash: seq<octet>, w: Who)
    requires Named(who) && IsWord(hash) && LoginHash(who, hash, w) == None
    ensures Login(Flat(NewLine(line, who, Some(hash))), w) == Login(Flat(NewLine(line, who, None)), w)
  {
    hide Login, Entry, LoginHash, ReadRecord, Named, IsWord;
    NoText(w);
    NothingKept(who, None);
    EntryLogin(who, hash, w);
    FlatOne(Entry(who, hash));
  }

  /** One more line behind lines that end in newlines. */
  lemma KeptLogin(lines: seq<seq<octet>>, line: seq<octet>, who: Who, hash: Option<seq<octet>>, w: Who)
    requires AllEnd(lines) && Named(who) && GoodHash(hash)
    ensures Login(Flat(Kept(lines + [line], who, hash)), w) ==
            First(Login(Flat(Kept(lines, who, hash)), w), Login(Flat(NewLine(line, who, hash)), w))
  {
    hide Login, NewLine, Named, GoodHash, Kept, Flat, AllEnd, Whole;
    KeptIsWhole(lines, who, hash);
    KeptConcat(lines, [line], who, hash);
    KeptOne(line, who, hash);
    FlatConcat(Kept(lines, who, hash), NewLine(line, who, hash));
    LoginSplits(Flat(Kept(lines, who, hash)), Flat(NewLine(line, who, hash)), w);
  }

  /** Entries that show w nothing may as well be left out. */
  lemma {:induction false} EntriesShowNothing(lines: seq<seq<octet>>, who: Who, hash: seq<octet>, w: Who)
    requires AllEnd(lines) && Named(who) && IsWord(hash) && LoginHash(who, hash, w) == None
    ensures Login(Flat(Kept(lines, who, Some(hash))), w) == Login(Flat(Copied(lines, who)), w)
    decreases |lines|
  {
    hide Login, NewLine, Named, IsWord, Flat, LoginHash, EndsOnce;
    if lines == [] {
      NothingKept(who, Some(hash));
    } else {
      var n := |lines| - 1;
      assert lines == lines[..n] + [lines[n]];
      EntriesShowNothing(lines[..n], who, hash, w);
      KeptLogin(lines[..n], lines[n], who, Some(hash), w);
      KeptLogin(lines[..n], lines[n], who, None, w);
      NewLineLogin(lines[n], who, hash, w);
    }
  }

  /** The same with a last piece that need not end in a newline. */
  lemma EntriesShowNothingWithTail(lines: seq<seq<octet>>, tail: seq<octet>, who: Who, hash: seq<octet>, w: Who)
    requires AllEnd(lines) && Named(who) && IsWord(hash) && LoginHash(who, hash, w) == None
    ensures Login(Flat(Kept(WithTail(lines, tail), who, Some(hash))), w) ==
            Login(Flat(Copied(WithTail(lines, tail), who)), w)
  {
    hide Login, NewLine, Named, IsWord, Flat, LoginHash, EndsOnce, Kept;
    EntriesShowNothing(lines, who, hash, w);
    if tail != [] {
      KeptLogin(lines, tail, who, Some(hash), w);
      KeptLogin(lines, tail, who, None, w);
      NewLineLogin(tail, who, hash, w);
    }
  }

  /** A new entry is written right after somebody else's record that lacks its newline. */
  predicate Glues(lines: seq<seq<octet>>, tail: seq<octet>, who: Who) {
    !Known(lines, who) && tail != [] && ReadRecord(tail).Some? && !IsFor(tail, who)
  }

  lemma BeforeNext(lines: seq<seq<octet>>, line: seq<octet>, who: Who)
    ensures Before(lines + [line], who) ==
            if Known(lines, who) then Before(lines, who) else if IsFor(line, who) then lines else lines + [line]
    ensures Known(lines, who) ==> After(lines + [line], who) == After(lines, who) + [line]
    ensures !Known(lines, who) ==> After(lines + [line], who) == [] && Before(lines, who) == lines
    ensures Known(lines + [line], who) <==> Known(lines, who) || IsFor(line, who)
  {
    hide IsFor;
    KnownConcat(lines, [line], who);
    assert Known([line], who) <==> IsFor([line][0], who);
    var all := lines + [line];
    var n, m := FirstOf(all, who), FirstOf(lines, who);
    assert forall i :: 0 <= i < |lines| ==> all[i] == lines[i];
    assert m < |lines| ==> n == m;
    assert m == |lines| ==> n >= m;
    assert all[..|lines|] == lines;
  }

  /** Without glue the text in front of the entry ends in a newline, and so do all lines behind but the last. */
  lemma Parts(lines: seq<seq<octet>>, tail: seq<octet>, who: Who) returns (after: seq<seq<octet>>, last: seq<octet>)
    requires AllEnd(lines) && Named(who) && !Glues(lines, tail, who)
    ensures Whole(Flat(Copied(Before(WithTail(lines, tail), who), who)))
    ensures AllEnd(after) && After(WithTail(lines, tail), who) == WithTail(after, last)
  {
    hide Kept, Flat, Known, IsFor, Named, EndsOnce, FirstOf, ReadRecord, Whole;
    var all := WithTail(lines, tail);
    KeptIsWhole(lines, who, None);
    KeptIsWhole(Before(lines, who), who, None);
    after, last := After(lines, who), [];
    if tail != [] {
      BeforeNext(lines, tail, who);
      if Known(lines, who) {
        last := tail;
      } else {
        after := [];
        if !IsFor(tail, who) {
          KeptConcat(lines, [tail], who, None);
          KeptOne(tail, who, None);
          assert Kept(lines, who, None) + [] == Kept(lines, who, None);
        }
      }
    }
  }

  lemma GluedParts(lines: seq<seq<octet>>, tail: seq<octet>, who: Who)
    requires AllEnd(lines) && Named(who) && Glues(lines, tail, who) && '\n' !in tail
    ensures var head := Flat(Copied(Before(WithTail(lines, tail), who), who));
            Closed(head) == Flat(Copied(lines, who)) && Open(head) == tail
    ensures After(WithTail(lines, tail), who) == []
  {
    hide Kept, Flat, Known, Named, EndsOnce, FirstOf, LineStart, Whole, ReadRecord;
    BeforeNext(lines, tail, who);
    KeptIsWhole(lines, who, None);
    KeptConcat(lines, [tail], who, None);
    KeptOne(tail, who, None);
    IsForMeans(tail, who);
    FlatConcat(Kept(lines, who, None), [tail]);
    FlatOne(tail);
    ClosedAndOpen(Flat(Copied(lines, who)), tail);
  }

  lemma CopiedSplits(all: seq<seq<octet>>, who: Who)
    ensures Copied(all, who) == Copied(Before(all, who), who) + Copied(After(all, who), who)
  {
    hide Kept, FirstOf, ReadRecord, Known;
    var n := FirstOf(all, who);
    if n < |all| {
      assert all == Before(all, who) + ([all[n]] + After(all, who));
      KeptConcat(Before(all, who), [all[n]] + After(all, who), who, None);
      KeptConcat([all[n]], After(all, who), who, None);
      KeptOne(all[n], who, None);
      IsForMeans(all[n], who);
      assert [] + Copied(After(all, who), who) == Copied(After(all, who), who);
    } else {
      assert Before(all, who) == all;
      NothingKept(who, None);
      assert Copied(all, who) + [] == Copied(all, who);
    }
  }

  /**
   A text file: without glue, login finds for anyone first what the others' lines in front of the user's
   place show, then what the entry shows, then what all the others' lines show.
   */
  lemma ChangedTextFile(lines: seq<seq<octet>>, tail: seq<octet>, who: Who, hash: seq<octet>, w: Who)
    requires AllFit(lines, 512) && TailFits(tail, 512) && Named(who) && IsWord(hash)
    ensures var all := WithTail(lines, tail);
            Login(Changed(Flat(all), who, Some(hash)), w) ==
            if Glues(lines, tail, who)
            then First(Login(Flat(Copied(lines, who)), w), GluedHash(tail, who, hash, w))
            else First(Login(Flat(Copied(Before(all, who), who)), w),
                       First(LoginHash(who, hash, w), Login(Flat(Copied(all, who)), w)))
  {
    hide Lines, Flat, Kept, Named, IsWord, Glues, Login, LineStart, GluedHash, LoginHash, Changed, Before,
         After, EndsOnce, Copied, Whole;
    var all := WithTail(lines, tail);
    LinesOfFile(lines, tail, MODIFY_LINE);
    ChangedFile(Flat(all), who, hash, w);
    if Glues(lines, tail, who) {
      GluedParts(lines, tail, who);
      NothingKept(who, Some(hash));
      NoText(w);
    } else {
      var after, last := Parts(lines, tail, who);
      var head := Flat(Copied(Before(all, who), who));
      WholeIsClosed(head);
      GluedToNothing(who, hash, w);
      CopiedSplits(all, who);
      FlatConcat(Copied(Before(all, who), who), Copied(After(all, who), who));
      LoginSplits(head, Flat(Copied(After(all, who), who)), w);
      if LoginHash(who, hash, w) == None {
        EntriesShowNothingWithTail(after, last, who, hash, w);
      }
    }
  }

  lemma {:induction false} NothingShown(lines: seq<seq<octet>>, last: seq<octet>, w: Who)
    requires AllEnd(lines)
    ensures Login(Flat(WithTail(lines, last)), w) == None <==>
            (forall i :: 0 <= i < |lines| ==> Login(lines[i], w) == None) && Login(last, w) == None
    decreases |lines|
  {
    hide Login, EndsOnce, Whole;
    FlatWithTail(lines, last);
    FlatIsWhole(lines);
    LoginSplits(Flat(lines), last, w);
    NoText(w);
    if lines != [] {
      var n := |lines| - 1;
      NothingShown(lines[..n], [], w);
      FlatIsWhole(lines[..n]);
      LoginSplits(Flat(lines[..n]), lines[n], w);
      assert forall i :: 0 <= i < n ==> lines[..n][i] == lines[i];
    }
  }

  lemma NothingShownInAny(lines: seq<seq<octet>>, last: seq<octet>, w: Who)
    requires AllEnd(lines)
    ensures var all := WithTail(lines, last);
            Login(Flat(all), w) == None <==> forall i :: 0 <= i < |all| ==> Login(all[i], w) == None
  {
    hide Login, Flat, AllEnd;
    var all := WithTail(lines, last);
    NothingShown(lines, last, w);
    NoText(w);
    assert forall i :: 0 <= i < |lines| ==> all[i] == lines[i];
    assert last != [] ==> all[|lines|] == last;
  }

  lemma {:induction false} CopiedLines(lines: seq<seq<octet>>, who: Who)
    ensures forall line :: line in Copied(lines, who) <==>
                           line in lines && ReadRecord(line).Some? && !IsFor(line, who)
    decreases |lines|
  {
    hide ReadRecord;
    if lines != [] {
      CopiedLines(lines[..|lines| - 1], who);
      assert lines == lines[..|lines| - 1] + [lines[|lines| - 1]];
    }
  }

  /**
   A user removed from any file finds what the copied lines show them.  In a text file that is nothing
   exactly when none of its lines that are read as somebody else's record shows them a hash, and
   everybody else finds what the copied lines show them as well.
   */
  lemma RemovedUser(lines: seq<seq<octet>>, tail: seq<octet>, who: Who, w: Who)
    requires AllFit(lines, 512) && TailFits(tail, 512) && Named(who)
    ensures var all := WithTail(lines, tail);
            && Login(Changed(Flat(all), who, None), w) == Login(Flat(Copied(all, who)), w)
            && (Login(Changed(Flat(all), who, None), w) == None <==>
                forall i :: 0 <= i < |all| && ReadRecord(all[i]).Some? && !IsFor(all[i], who) ==>
                  Login(all[i], w) == None)
  {
    hide Lines, Flat, Kept, Named, Login, EndsOnce, Known, ReadRecord, IsFor;
    var all := WithTail(lines, tail);
    LinesOfFile(lines, tail, MODIFY_LINE);
    assert Kept(all, who, None) + [] == Kept(all, who, None);
    KeptEnd(lines, who, None);
    var last := [];
    if tail != [] {
      KeptConcat(lines, [tail], who, None);
      KeptOne(tail, who, None);
      IsForMeans(tail, who);
      if ReadRecord(tail).Some? && !IsFor(tail, who) {
        last := tail;
      }
    }
    assert Copied(all, who) == WithTail(Copied(lines, who), last);
    NothingShownInAny(Copied(lines, who), last, w);
    ShownInCopied(all, who, w);
  }

  lemma ShownInCopied(all: seq<seq<octet>>, who: Who, w: Who)
    ensures (forall i :: 0 <= i < |Copied(all, who)| ==> Login(Copied(all, who)[i], w) == None) <==>
            forall i :: 0 <= i < |all| && ReadRecord(all[i]).Some? && !IsFor(all[i], who) ==> Login(all[i], w) == None
  {
    hide Login, ReadRecord, IsFor, Kept;
    CopiedLines(all, who);
    var copied := Copied(all, who);
    if forall i :: 0 <= i < |copied| ==> Login(copied[i], w) == None {
      forall i | 0 <= i < |all| && ReadRecord(all[i]).Some? && !IsFor(all[i], who)
        ensures Login(all[i], w) == None
      {
        assert all[i] in all;
      }
    }
    if forall i :: 0 <= i < |all| && ReadRecord(all[i]).Some? && !IsFor(all[i], who) ==> Login(all[i], w) == None {
      forall i | 0 <= i < |copied|
        ensures Login(copied[i], w) == None
      {
        assert copied[i] in copied;
      }
    }
  }

  // Files whose lines the smaller buffer holds too: each line is read by itself at login.

  lemma {:induction false} LookUpCopied(lines: seq<seq<octet>>, who: Who, w: Who)
    ensures LookUp(Copied(lines, who), w) == if w == who then None else LookUp(lines, w)
  {
    hide ReadRecord, LookUp, IsFor;
    if lines == [] {
      LookUpOne([], w);
    } else {
      var n := |lines| - 1;
      var next := NewLine(lines[n], who, None);
      LookUpCopied(lines[..n], who, w);
      assert lines == lines[..n] + [lines[n]];
      LookUpConcat(lines[..n], [lines[n]], w);
      LookUpConcat(Copied(lines[..n], who), next, w);
      LookUpOne(lines[n], w);
      IsForMeans(lines[n], who);
      IsForMeans(lines[n], w);
    }
  }

  lemma {:induction false} CopiedFit(lines: seq<seq<octet>>, who: Who, size: nat)
    requires AllFit(lines, size)
    ensures AllFit(Copied(lines, who), size)
  {
    hide ReadRecord, EndsOnce;
    if lines != [] {
      CopiedFit(lines[..|lines| - 1], who, size);
    }
  }

  lemma ShortLogin(lines: seq<seq<octet>>, tail: seq<octet>, w: Who)
    requires AllFit(lines, LOGIN_LINE) && TailFits(tail, LOGIN_LINE)
    ensures Login(Flat(WithTail(lines, tail)), w) == LookUp(WithTail(lines, tail), w)
  {
    hide AllFit, TailFits, LookUp, Lines, Flat, WithTail;
    LinesOfFile(lines, tail, LOGIN_LINE);
  }

  lemma ShortCopied(lines: seq<seq<octet>>, tail: seq<octet>, who: Who, w: Who)
    requires AllFit(lines, LOGIN_LINE) && TailFits(tail, LOGIN_LINE)
    ensures Login(Flat(Copied(WithTail(lines, tail), who)), w) ==
            if w == who then None else LookUp(WithTail(lines, tail), w)
  {
    hide AllFit, Login, LookUp, Kept, Flat, ReadRecord;
    CopiedFit(lines, who, LOGIN_LINE);
    LookUpCopied(WithTail(lines, tail), who, w);
    if tail == [] {
      ShortLogin(Copied(lines, who), [], w);
    } else {
      KeptConcat(lines, [tail], who, None);
      KeptOne(tail, who, None);
      if NewLine(tail, who, None) == [] {
        assert Copied(lines, who) + [] == Copied(lines, who);
        ShortLogin(Copied(lines, who), [], w);
      } else {
        ShortLogin(Copied(lines, who), tail, w);
      }
    }
  }

  lemma ShortBefore(lines: seq<seq<octet>>, tail: seq<octet>, who: Who, w: Who)
    requires AllFit(lines, LOGIN_LINE) && TailFits(tail, LOGIN_LINE)
    ensures var before := Before(WithTail(lines, tail), who);
            Login(Flat(Copied(before, who)), w) == LookUp(before, w)
    ensures LookUp(Before(WithTail(lines, tail), who), who) == None
    ensures !Known(WithTail(lines, tail), who) ==> Before(WithTail(lines, tail), who) == WithTail(lines, tail)
  {
    hide Login, LookUp, Kept, Flat, Known, IsFor, FirstOf, EndsOnce, ReadRecord;
    var all := WithTail(lines, tail);
    BeforeUnknown(all, who);
    UnknownKept(Before(all, who), who, None);
    UnknownNotFound(Before(all, who), who);
    if tail != [] {
      BeforeNext(lines, tail, who);
    }
    if Before(all, who) == all {
      ShortCopied(lines, tail, who, w);
    } else {
      assert FirstOf(all, who) <= |lines|;
      assert Before(all, who) == lines[..FirstOf(all, who)];
      ShortCopied(lines[..FirstOf(all, who)], [], who, w);
    }
  }

  lemma {:induction false} UnknownNotFound(lines: seq<seq<octet>>, who: Who)
    requires !Known(lines, who)
    ensures LookUp(lines, who) == None
  {
    hide IsFor;
    if lines != [] {
      assert !IsFor(lines[0], who);
      assert forall i :: 0 <= i < |lines[1..]| ==> lines[1..][i] == lines[i + 1];
      UnknownNotFound(lines[1..], who);
    }
  }

  /** A tail that fills the login buffer is read by itself even with an entry behind it. */
  predicate GluesShort(lines: seq<seq<octet>>, tail: seq<octet>, who: Who) {
    Glues(lines, tail, who) && |tail| < LOGIN_LINE - 1
  }

  lemma FullTail(tail: seq<octet>, who: Who, hash: seq<octet>, w: Who)
    requires |tail| == LOGIN_LINE - 1 && Named(who) && IsWord(hash)
    ensures GluedHash(tail, who, hash, w) == First(HashIn(tail, w), LoginHash(who, hash, w))
  {
    hide HashIn, LoginHash, GluedFields;
    assert tail[..|tail|] == tail && tail[|tail|..] == [];
    GluedToNothing(who, hash, w);
  }

  /** What login finds, line by line: in front of the user's place, in the entry, anywhere. */
  lemma ChangedShortFile(lines: seq<seq<octet>>, tail: seq<octet>, who: Who, hash: seq<octet>, w: Who)
    requires AllFit(lines, LOGIN_LINE) && TailFits(tail, LOGIN_LINE) && Named(who) && IsWord(hash)
    ensures var all := WithTail(lines, tail);
            Login(Changed(Flat(all), who, Some(hash)), w) ==
            if GluesShort(lines, tail, who) then First(LookUp(lines, w), GluedHash(tail, who, hash, w))
            else First(LookUp(Before(all, who), w),
                       First(LoginHash(who, hash, w), if w == who then None else LookUp(all, w)))
  {
    hide Login, LookUp, Kept, Flat, Known, IsFor, Before, Named, IsWord, Changed, GluedHash, LoginHash,
         EndsOnce, ReadRecord;
    var all := WithTail(lines, tail);
    ChangedTextFile(lines, tail, who, hash, w);
    ShortBefore(lines, tail, who, w);
    ShortCopied(lines, tail, who, w);
    ShortCopied(lines, [], who, w);
    if Glues(lines, tail, who) {
      UnknownNotFound(lines, who);
      LookUpConcat(lines, [tail], w);
      LookUpOne(tail, w);
      IsForMeans(tail, who);
      BeforeNext(lines, tail, who);
      if |tail| == LOGIN_LINE - 1 {
        FullTail(tail, who, hash, w);
      }
    }
  }

  /** In such a file the new hash is found exactly when the login buffer holds the entry and it is not glued. */
  lemma ShortFileFound(lines: seq<seq<octet>>, tail: seq<octet>, who: Who, hash: seq<octet>)
    requires AllFit(lines, 256) && TailFits(tail, 256) && WellNamed(who) && IsWord(hash)
    ensures var found := Login(Changed(Flat(WithTail(lines, tail)), who, Some(hash)), who);
            && (found == Some(hash) <==>
                if GluesShort(lines, tail, who) then GluedHash(tail, who, hash, who) == Some(hash)
                else |Entry(who, hash)| <= 256)
            && (!(hash <= who.domain[Run(who.domain, SPACES)..]) ==>
                (found == Some(hash) <==> !GluesShort(lines, tail, who) && |Entry(who, hash)| <= 256))
  {
    hide Login, LookUp, Flat, Known, Before, WellNamed, Named, IsWord, Changed, GluedHash, LoginHash, EndsOnce, Entry,
         ReadRecord, IsFor, Run;
    WellNamedIsNamed(who);
    ChangedShortFile(lines, tail, who, hash, who);
    ShortBefore(lines, tail, who, who);
    if GluesShort(lines, tail, who) {
      UnknownNotFound(lines, who);
      if !(hash <= who.domain[Run(who.domain, SPACES)..]) {
        GluedIsLost(tail, who, hash);
      }
    } else {
      OwnHash(who, hash);
    }
  }

  /** And exactly when another user finds what they found before. */
  lemma ShortFileKept(lines: seq<seq<octet>>, tail: seq<octet>, who: Who, hash: seq<octet>, other: Who)
    requires AllFit(lines, 256) && TailFits(tail, 256) && WellNamed(who) && IsWord(hash) && other != who
    ensures var all, file := WithTail(lines, tail), Flat(WithTail(lines, tail));
            var e := LoginHash(who, hash, other);
            Login(Changed(file, who, Some(hash)), other) == Login(file, other) <==>
            if GluesShort(lines, tail, who) then
              LookUp(lines, other).Some? || GluedHash(tail, who, hash, other) == HashIn(tail, other)
            else
              e == None || LookUp(Before(all, who), other).Some? || e == LookUp(all, other)
  {
    hide Login, LookUp, Flat, Known, Before, WellNamed, Named, IsWord, Changed, GluedHash, LoginHash, EndsOnce, HashIn,
         ReadRecord, IsFor;
    WellNamedIsNamed(who);
    ChangedShortFile(lines, tail, who, hash, other);
    ShortLogin(lines, tail, other);
    BeforeIsPart(WithTail(lines, tail), who, other);
    if tail != [] {
      LookUpConcat(lines, [tail], other);
      LookUpOne(tail, other);
    }
  }

  lemma BeforeIsPart(all: seq<seq<octet>>, who: Who, w: Who)
    ensures LookUp(Before(all, who), w).Some? ==> LookUp(all, w) == LookUp(Before(all, who), w)
  {
    hide FirstOf, LookUp;
    var n := FirstOf(all, who);
    LookUpConcat(all[..n], all[n..], w);
    assert all == all[..n] + all[n..];
  }

  /** There a user whose password is set is found with the new hash, everyone else as before. */
  lemma ChangedUser(lines: seq<seq<octet>>, tail: seq<octet>, who: Who, hash: seq<octet>, other: Who)
    requires AllFit(lines, 256) && TailFits(tail, 256) && WellNamed(who) && IsWord(hash)
    requires !GluesShort(lines, tail, who) && |Entry(who, hash)| <= 256
    ensures var file := Flat(WithTail(lines, tail));
            Login(Changed(file, who, Some(hash)), other) == if other == who then Some(hash) else Login(file, other)
  {
    hide Changed, Flat, LoginHash, GluedHash, GluesShort, AllFit, TailFits, IsWord, LookUp, Before, Login, HashIn;
    ShortFileFound(lines, tail, who, hash);
    if other != who {
      EntrySize(who, hash);
      ShortFileKept(lines, tail, who, hash, other);
      NobodyElse(who, hash, other);
    }
  }

  /** And a removed user is not found, everyone else as before. */
  lemma RemovedShortUser(lines: seq<seq<octet>>, tail: seq<octet>, who: Who, other: Who)
    requires AllFit(lines, 256) && TailFits(tail, 256) && WellNamed(who)
    ensures var file := Flat(WithTail(lines, tail));
            Login(Changed(file, who, None), other) == if other == who then None else Login(file, other)
  {
    hide Changed, Flat, LookUp, Login, EndsOnce, Kept, ReadRecord, IsFor;
    WellNamedIsNamed(who);
    RemovedUser(lines, tail, who, other);
    ShortCopied(lines, tail, who, other);
    ShortLogin(lines, tail, other);
  }

  // Inputs on which the file is not what was asked for.

  /**
   The common case of glue: a complete record with nothing behind its hash.  Unless the added name
   starts with white space or there is an earlier record, the owner's hash is another one afterwards.
   */
  lemma GluedNeighbour(lines: seq<seq<octet>>, owner: Who, was: seq<octet>, who: Who, hash: seq<octet>)
    requires AllFit(lines, LOGIN_LINE) && WellNamed(owner) && IsWord(was) && WellNamed(who) && IsWord(hash)
    requires owner != who
    requires !Known(lines, who) && LookUp(lines, owner) == None && who.user[0] !in SPACES
    requires |owner.user| + |owner.domain| + |was| + 2 < LOGIN_LINE - 1
    ensures var tail := owner.user + ([':'] + (owner.domain + ([':'] + was)));
            var file := Flat(WithTail(lines, tail));
            && Login(file, owner) == Some(was)
            && Login(Changed(file, who, Some(hash)), owner) != Some(was)
            && Login(Changed(file, who, Some(hash)), owner).Some?
  {
    hide Flat, AllFit, Known, LookUp, Changed, ReadRecord, LoginHash, ReadWord, Entry, HashIn, Login;
    var tail := owner.user + ([':'] + (owner.domain + ([':'] + was)));
    assert '\n' in SPACES;
    WordAlone(was);
    ReadsAs(owner, was);
    ThreeFields(owner, was, owner);
    assert TailFits(tail, LOGIN_LINE) && GluesShort(lines, tail, who);
    ChangedShortFile(lines, tail, who, hash, owner);
    ShortLogin(lines, tail, owner);
    LookUpConcat(lines, [tail], owner);
    LookUpOne(tail, owner);
    LongerWord(owner, was, who, hash);
  }

  lemma WordAlone(word: seq<octet>)
    requires IsWord(word)
    ensures ReadWord(word) == Some(word)
  {
    assert word[0] !in SPACES && word[0..] == word;
    CutAt(word, [], SPACES);
    assert word + [] == word && word[..|word|] == word;
  }

  lemma LongerWord(owner: Who, was: seq<octet>, who: Who, hash: seq<octet>)
    requires WellNamed(owner) && IsWord(was) && WellNamed(who) && IsWord(hash) && who.user[0] !in SPACES
    requires |owner.user| + |owner.domain| + |was| + 2 < LOGIN_LINE - 1
    ensures var tail := owner.user + ([':'] + (owner.domain + ([':'] + was)));
            GluedHash(tail, who, hash, owner).Some? && GluedHash(tail, who, hash, owner) != Some(was)
  {
    hide LoginHash, GluedFields, WordAcross, IsWord, Start, Entry;
    var tail := owner.user + ([':'] + (owner.domain + ([':'] + was)));
    var room := LOGIN_LINE - 1 - |tail|;
    CompleteRecord(owner, was, who, hash);
    StartsWithName(who, hash, room);
    WordGoesOn(was, Start(Entry(who, hash), room));
  }

  /** Glue behind the third field goes on with its word. */
  lemma CompleteRecord(owner: Who, field: seq<octet>, who: Who, hash: seq<octet>)
    requires WellNamed(owner)
    ensures var t := owner.user + ([':'] + (owner.domain + ([':'] + field)));
            GluedFields(t, who, hash, owner) == WordAcross(field, Start(Entry(who, hash), LOGIN_LINE - 1 - |t|))
  {
    hide Find, WordAcross, Start, Entry, ReadWord, Visible;
    FieldSplits(owner.user, owner.domain + ([':'] + field));
    FieldSplits(owner.domain, field);
  }

  lemma StartsWithName(who: Who, hash: seq<octet>, room: nat)
    requires WellNamed(who) && room > 0
    ensures var head := Start(Entry(who, hash), room);
            head != [] && head[0] == who.user[0]
  {
  }

  lemma WordGoesOn(was: seq<octet>, head: seq<octet>)
    requires IsWord(was) && head != [] && head[0] !in SPACES
    ensures WordAcross(was, head).Some? && WordAcross(was, head) != Some(was)
  {
    assert Run(was, SPACES) == 0 && was[0..] == was;
    CutAt(was, [], SPACES);
    assert was + [] == was;
    var n := Cut(head, SPACES);
    assert n > 0 && |was + head[..n]| == |was| + n;
  }

  /** A file with one record and no newline: a user added to it is not found, and the record's hash is spoilt. */
  lemma GluedExample(hash: seq<octet>)
    requires IsWord(hash)
    ensures var file: seq<octet> := ['a', ':', 'b', ':', 'c'];
            var who := Who(['u'], ['d']);
            var out := Changed(file, who, Some(hash));
            && Login(file, Who(['a'], ['b'])) == Some(['c'])
            && (!(hash <= ['d']) ==> Login(out, who) != Some(hash))
            && Login(out, Who(['a'], ['b'])) != Some(['c'])
  {
    hide IsWord, Changed, ReadRecord, Flat, Entry, Login, LookUp, GluedHash;
    var a: seq<octet> := ['a'];
    var b: seq<octet> := ['b'];
    var c: seq<octet> := ['c'];
    var who, first := Who(['u'], ['d']), Who(a, b);
    var file: seq<octet> := ['a', ':', 'b', ':', 'c'];
    assert file == a + ([':'] + (b + ([':'] + c)));
    WordC();
    ReadsAs(first, c);
    assert who.user[0] != first.user[0];
    FlatOne(file);
    assert WithTail([], file) == [file];
    LookUpOne(file, first);
    GluedNeighbour([], first, c, who, hash);
    assert Run(who.domain, SPACES) == 0 && who.domain[0..] == who.domain;
    ShortFileFound([], file, who, hash);
  }

  lemma WordC()
    ensures IsWord(['c'])
  {
  }

  /** A name of 256 bytes: its owner is not found, and the user named by its last byte is given the hash. */
  lemma CutNameExample(hash: seq<octet>)
    requires IsWord(hash) && |hash| == 32
    ensures var who := Who(seq(256, _ => 'u'), ['d']);
            var out := Changed([], who, Some(hash));
            && Login(out, who) == None
            && Login([], Who(['u'], ['d'])) == None && Login(out, Who(['u'], ['d'])) == Some(hash)
  {
    hide Lines, Changed, LoginHash, Login;
    var who, other := Who(seq(256, _ => 'u'), ['d']), Who(['u'], ['d']);
    OnlyEntry(who, hash);
    EntryLogin(who, hash, who);
    EntryLogin(who, hash, other);
    NoText(other);
    CutNameHash(who, other, hash, who);
    CutNameHash(who, other, hash, other);
  }

  /** An entry added to nothing is the whole file. */
  lemma OnlyEntry(who: Who, hash: seq<octet>)
    ensures Changed([], who, Some(hash)) == Entry(who, hash)
  {
    hide Entry;
    NoLines(MODIFY_LINE);
    FlatOne(Entry(who, hash));
    assert [] + [Entry(who, hash)] == [Entry(who, hash)];
  }

  lemma CutNameHash(who: Who, other: Who, hash: seq<octet>, w: Who)
    requires |who.user| == LOGIN_LINE && |other.user| == 1 && other.user[0] == who.user[LOGIN_LINE - 1]
    requires other.domain == who.domain && |who.domain| == 1 && |hash| == 32
    ensures LoginHash(who, hash, w) == LoginHash(other, hash, w) == if w == other then Some(hash) else None
  {
    assert who.user[LOGIN_LINE - 1..] == other.user;
  }

  /**
   Two calls: a password for a name of 256 bytes, then one for the user named by its last byte.  Login
   finds the first hash for that user and not the second, and still finds it when they are removed.
   */
  lemma TwoCallsExample(first: seq<octet>, second: seq<octet>)
    requires IsWord(first) && |first| == 32 && IsWord(second) && |second| == 32
    ensures var who, u := Who(seq(256, _ => 'u'), ['d']), Who(['u'], ['d']);
            var file := Changed([], who, Some(first));
            && |Entry(u, second)| <= 256
            && Login(Changed(file, u, Some(second)), u) == Some(first)
            && Login(Changed(file, u, None), u) == Some(first)
  {
    hide Lines, Changed, LoginHash, Login, ReadRecord, Entry;
    var who, u := Who(seq(256, _ => 'u'), ['d']), Who(['u'], ['d']);
    var entry := Entry(who, first);
    OnlyEntry(who, first);
    EntrySize(who, first);
    EntrySize(u, second);
    EntryEnds(who, first);
    EntryReadsBack(who, first);
    EntryLogin(who, first, u);
    CutNameHash(who, u, first, u);
    FlatOne(entry);
    assert |who.user| != |u.user|;
    IsForMeans(entry, u);
    AloneIsCopied(entry, u);
    assert WithTail([entry], []) == [entry];
    ChangedTextFile([entry], [], u, second, u);
    RemovedUser([entry], [], u, u);
  }

  /** The only line of a file is somebody else's record. */
  lemma AloneIsCopied(line: seq<octet>, who: Who)
    requires ReadRecord(line).Some? && !IsFor(line, who)
    ensures Copied([line], who) == [line] && Before([line], who) == [line]
  {
    hide ReadRecord, IsFor;
    KeptOne(line, who, None);
    IsForMeans(line, who);
  }
}
