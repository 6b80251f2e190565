/** The environment block of a CGI program: strings packed into one buffer, with pointers to each. */
module Cgi {
  import opened Common
  import opened CStrings

  const CGI_ENVIRONMENT_SIZE: nat := 4096
  const MAX_CGI_ENVIR_VARS: nat := 64

  /** The strings one after the other, each with its NUL. */
  function Pack(vars: seq<seq<octet>>): seq<octet> {
    if vars == [] then [] else Pack(vars[..|vars| - 1]) + vars[|vars| - 1] + [NUL]
  }

  /** How much of a string of n bytes vsnprintf leaves room for: all of it, or all but the last byte. */
  function Written(n: nat, space: nat): (k: nat)
    ensures k <= n && (space > 0 ==> k < space)
  {
    if space == 0 then 0 else if n >= space then space - 1 else n
  }

  /** The variables after one more addenv call. */
  function Added(vars: seq<seq<octet>>, s: seq<octet>): seq<seq<octet>>
    requires |Pack(vars)| <= CGI_ENVIRONMENT_SIZE - 2
  {
    var n := Written(|s|, CGI_ENVIRONMENT_SIZE - 2 - |Pack(vars)|);
    if n > 0 && |vars| < MAX_CGI_ENVIR_VARS - 2 then vars + [s[..n]] else vars
  }

  /** The strings take their own bytes and one NUL each. */
  function Size(vars: seq<seq<octet>>): nat {
    if vars == [] then 0 else |vars[0]| + 1 + Size(vars[1..])
  }

  lemma {:induction false} SizeOfMore(vars: seq<seq<octet>>, s: seq<octet>)
    ensures Size(vars + [s]) == Size(vars) + |s| + 1
  {
    if vars == [] {
      assert [s][1..] == [];
    } else {
      assert (vars + [s])[1..] == vars[1..] + [s];
      SizeOfMore(vars[1..], s);
    }
  }

  /** They lie in the buffer without gaps. */
  lemma {:induction false} NoGaps(vars: seq<seq<octet>>)
    ensures |Pack(vars)| == Size(vars)
  {
    if vars != [] {
      var before, last := vars[..|vars| - 1], vars[|vars| - 1];
      NoGaps(before);
      SizeOfMore(before, last);
      assert vars == before + [last];
    }
  }

  /**
   What a call adds: the string, if it and its NUL fit the 4094 bytes and there are less than sixty-two;
   if they do not fit, as much of it as does, which is nothing when one byte or none is left.
   */
  lemma WhatIsAdded(vars: seq<seq<octet>>, s: seq<octet>)
    requires Size(vars) <= 4094 && s != []
    ensures |Pack(vars)| <= 4094
    ensures var room := 4094 - Size(vars);
            Added(vars, s) ==
            if |vars| >= 62 || room < 2 then vars
            else vars + [if |s| < room then s else s[..room - 1]]
  {
    hide Pack, Size;
    NoGaps(vars);
    assert s[..|s|] == s;
  }

  lemma PackMore(vars: seq<seq<octet>>, s: seq<octet>)
    ensures Pack(vars + [s]) == Pack(vars) + s + [NUL]
  {
    assert (vars + [s])[..|vars|] == vars;
  }

  lemma {:induction false} PackPrefix(vars: seq<seq<octet>>, i: nat)
    requires i < |vars|
    ensures Pack(vars[..i]) + vars[i] + [NUL] <= Pack(vars)
    decreases |vars|
  {
    var last := |vars| - 1;
    if i < last {
      assert vars[..last][..i] == vars[..i];
      PackPrefix(vars[..last], i);
    }
  }

  class CgiEnvBlock {
    const buf: array<octet>
    const vars: array<Option<nat>>
    var len: nat
    var nvars: nat

    /** The variables in the block. */
    ghost var strings: seq<seq<octet>>

    ghost predicate Shape()
      reads this
    {
      buf.Length == CGI_ENVIRONMENT_SIZE && vars.Length == MAX_CGI_ENVIR_VARS
    }

    /** The pointers lead to the packed strings. */
    ghost predicate PointersOk()
      reads this, vars
    {
      && vars.Length == MAX_CGI_ENVIR_VARS && |strings| <= MAX_CGI_ENVIR_VARS
      && forall i :: 0 <= i < |strings| ==> vars[i] == Some(|Pack(strings[..i])|)
    }

    ghost predicate Valid()
      reads this, buf, vars
    {
      && Shape() && PointersOk()
      && len <= CGI_ENVIRONMENT_SIZE - 2 && nvars <= MAX_CGI_ENVIR_VARS - 2
      && nvars == |strings| && buf[..len] == Pack(strings)
      && forall i :: 0 <= i < |strings| ==> strings[i] != [] && NUL !in strings[i]
    }

    constructor ()
      ensures Valid() && strings == [] && fresh(buf) && fresh(vars)
    {
      buf := new octet[CGI_ENVIRONMENT_SIZE];
      vars := new Option<nat>[MAX_CGI_ENVIR_VARS](_ => None);
      len, nvars := 0, 0;
      strings := [];
    }

    /** mg_vsnprintf of the formatted string s into the free space. */
    method Format(s: seq<octet>, space: nat) returns (n: nat)
      requires buf.Length == CGI_ENVIRONMENT_SIZE && len + space <= buf.Length
      modifies buf
      ensures n == Written(|s|, space)
      ensures buf[..len] == old(buf[..len])
      ensures space > 0 ==> buf[len..len + n + 1] == s[..n] + [NUL]
    {
      if space == 0 {
        return 0;
      }
      n := if |s| >= space then space - 1 else |s|;
      forall i | 0 <= i < n {
        buf[len + i] := s[i];
      }
      buf[len + n] := NUL;
      assert buf[len..len + n] == s[..n];
      assert buf[len..len + n + 1] == buf[len..len + n] + [NUL];
    }

    /** The result is where the string was written, recorded or not; it may have been cut. */
    method AddEnv(s: seq<octet>) returns (added: nat)
      requires Valid() && NUL !in s
      modifies this, buf, vars
      ensures Valid() && strings == Added(old(strings), s)
      ensures added == old(len) && (old(len) < CGI_ENVIRONMENT_SIZE - 2 ==>
                IsStr(buf[..], added, s[..Written(|s|, CGI_ENVIRONMENT_SIZE - 2 - old(len))]))
    {
      hide Pack;
      added := len;
      var space: nat := CGI_ENVIRONMENT_SIZE - len - 2;
      var n := Format(s, space);
      ghost var mem := buf[..];
      if space > 0 {
        assert mem[added..added + n] == buf[added..added + n + 1][..n] == s[..n];
        assert mem[added + n] == buf[added..added + n + 1][n];
        SliceIsStr(mem, added, s[..n]);
      }
      if 0 < n < space && nvars < MAX_CGI_ENVIR_VARS - 2 {
        Record(n, s[..n]);
      }
      assert buf[..] == mem;
    }

    /** A pointer to the string just written, and the space it takes. */
    method Record(n: nat, ghost s: seq<octet>)
      requires Valid() && 0 < n == |s| && len + n + 1 <= CGI_ENVIRONMENT_SIZE - 2 && NUL !in s
      requires nvars < MAX_CGI_ENVIR_VARS - 2 && buf[len..len + n + 1] == s + [NUL]
      modifies this, vars
      ensures Valid() && strings == old(strings) + [s]
    {
      hide Pack;
      vars[nvars] := Some(len);
      nvars := nvars + 1;
      PackMore(strings, s);
      assert buf[..len + n + 1] == buf[..len] + buf[len..len + n + 1];
      ghost var more := strings + [s];
      assert forall i :: 0 <= i <= |strings| ==> more[..i] == strings[..i];
      assert strings[..|strings|] == strings;
      strings := more;
      len := len + n + 1;
    }

    /** The two writes that close the block. */
    method Close()
      requires Valid()
      modifies this, buf, vars
      ensures strings == old(strings) && Shape() && PointersOk()
      ensures nvars == |strings| + 1 < MAX_CGI_ENVIR_VARS && vars[|strings|] == None
      ensures 0 < len < CGI_ENVIRONMENT_SIZE && buf[..len] == Pack(strings) + [NUL]
    {
      vars[nvars] := None;
      nvars := nvars + 1;
      ghost var packed := buf[..len];
      buf[len] := NUL;
      assert buf[..len + 1] == packed + [NUL];
      len := len + 1;
      assert nvars < MAX_CGI_ENVIR_VARS;
      assert len > 0;
      assert len < CGI_ENVIRONMENT_SIZE;
    }
  }

  /** What the CGI program finds at its pointers: the variables, whole strings, in order. */
  lemma PointersRead(mem: seq<octet>, strings: seq<seq<octet>>, i: nat)
    requires i < |strings| && Pack(strings) + [NUL] <= mem && NUL !in strings[i]
    ensures IsStr(mem, |Pack(strings[..i])|, strings[i])
  {
    PackPrefix(strings, i);
    var head := Pack(strings[..i]) + strings[i] + [NUL];
    assert head <= mem;
    forall k | 0 <= k < |strings[i]|
      ensures mem[|Pack(strings[..i])| + k] == strings[i][k]
    {
      assert head[|Pack(strings[..i])| + k] == strings[i][k];
    }
    assert mem[|head| - 1] == head[|head| - 1] == NUL;
  }

  /** A block with a variable in it ends in two NULs. */
  lemma EndsInTwoNuls(strings: seq<seq<octet>>)
    requires strings != []
    ensures var all := Pack(strings) + [NUL];
            |all| >= 2 && all[|all| - 1] == NUL && all[|all| - 2] == NUL
  {
  }

  /** The variables after a list of addenv calls. */
  function AddedAll(calls: seq<seq<octet>>): (vars: seq<seq<octet>>)
    ensures |Pack(vars)| <= CGI_ENVIRONMENT_SIZE - 2 && |vars| <= MAX_CGI_ENVIR_VARS - 2
    ensures |vars| <= |calls|
  {
    if calls == [] then [] else
    var before := AddedAll(calls[..|calls| - 1]);
    PackedFits(before, calls[|calls| - 1]);
    Added(before, calls[|calls| - 1])
  }

  lemma PackedFits(vars: seq<seq<octet>>, s: seq<octet>)
    requires |Pack(vars)| <= CGI_ENVIRONMENT_SIZE - 2
    ensures |Pack(Added(vars, s))| <= CGI_ENVIRONMENT_SIZE - 2
  {
    PackMore(vars, s[..Written(|s|, CGI_ENVIRONMENT_SIZE - 2 - |Pack(vars)|)]);
  }

  predicate NoneEmpty(calls: seq<seq<octet>>) {
    forall i :: 0 <= i < |calls| ==> calls[i] != []
  }

  /** Every call adds its string whole, in order, exactly when none is empty and there is room for all. */
  lemma {:induction false} NothingLost(calls: seq<seq<octet>>)
    ensures AddedAll(calls) == calls <==>
            NoneEmpty(calls) && |calls| <= 62 && |Pack(calls)| <= 4094
    decreases |calls|
  {
    if calls != [] {
      var before, s := calls[..|calls| - 1], calls[|calls| - 1];
      NothingLost(before);
      assert calls == before + [s] && s[..|s|] == s;
      assert NoneEmpty(calls) <==> NoneEmpty(before) && s != [];
      PackMore(before, s);
      NeverMore(before, s);
    }
  }

  /** What was added is no longer than the calls, so if it is all of them nothing was lost before either. */
  lemma NeverMore(before: seq<seq<octet>>, s: seq<octet>)
    ensures AddedAll(before + [s]) == before + [s] ==> AddedAll(before) == before && s != []
  {
    hide Pack, Written;
    var vars, all := AddedAll(before), before + [s];
    assert all[..|before|] == before && all[|before|] == s;
    assert AddedAll(all) == Added(vars, s);
    hide AddedAll;
    if Added(vars, s) == all {
      assert |vars| == |before|;
      assert vars == all[..|before|];
      assert Added(vars, s)[|vars|] == s;
    }
  }
}
