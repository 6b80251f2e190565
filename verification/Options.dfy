/** Comma-separated lists of options, and access control lists as one use of them. */
module Options {
  import opened Common
  import opened CStrings

  /** A piece of memory. */
  datatype Vec = Vec(ptr: nat, len: nat)

  ghost predicate VecIs(mem: seq<octet>, v: Vec, s: seq<octet>) {
    v.ptr + v.len <= |mem| && mem[v.ptr..v.ptr + v.len] == s
  }

  /** An option as x=y, or as x alone. */
  datatype Item = Item(key: seq<octet>, value: Option<seq<octet>>)

  function SplitItem(s: seq<octet>): Item {
    var n := Find(s, '=');
    if n == |s| then Item(s, None) else Item(s[..n], Some(s[n + 1..]))
  }

  /** An item without an equals sign is all key; else the first one divides it. */
  lemma SplitItemDivides(key: seq<octet>, value: seq<octet>)
    requires '=' !in key
    ensures SplitItem(key) == Item(key, None)
    ensures SplitItem(key + (['='] + value)) == Item(key, Some(value))
  {
    var s := key + (['='] + value);
    FindIs(key, '=', |key|);
    FindIs(s, '=', |key|);
    assert s[..|key|] == key && s[|key| + 1..] == value;
  }

  /** The items that walking a list with next_option visits. */
  function Items(t: seq<octet>): seq<seq<octet>>
    decreases |t|
  {
    if t == [] then [] else
    var n := Find(t, ',');
    [t[..n]] + Items(if n < |t| then t[n + 1..] else [])
  }

  function Join(items: seq<seq<octet>>): seq<octet> {
    if items == [] then [] else if |items| == 1 then items[0] else items[0] + [','] + Join(items[1..])
  }

  lemma JoinSplits(items: seq<seq<octet>>)
    requires |items| > 1 && ',' !in items[0]
    ensures Items(Join(items)) == [items[0]] + Items(Join(items[1..]))
  {
    var t, n := Join(items), |items[0]|;
    FindIs(t, ',', n);
    assert t[..n] == items[0] && t[n + 1..] == Join(items[1..]);
  }

  lemma OneItem(t: seq<octet>)
    requires t != [] && ',' !in t
    ensures Items(t) == [t]
  {
    FindIs(t, ',', |t|);
    assert t[..|t|] == t;
  }

  /** All the items, but not an empty one at the very end. */
  function Walked(items: seq<seq<octet>>): seq<seq<octet>>
    requires items != []
  {
    if items[|items| - 1] == [] then items[..|items| - 1] else items
  }

  lemma WalkedMore(items: seq<seq<octet>>)
    requires |items| > 1
    ensures Walked(items) == [items[0]] + Walked(items[1..])
  {
    var more := items[1..];
    assert items[..|items| - 1] == [items[0]] + more[..|more| - 1];
  }

  /** Walking a joined list visits every item, except an empty one at the very end. */
  lemma {:induction false} WalkVisitsAll(items: seq<seq<octet>>)
    requires items != [] && forall i :: 0 <= i < |items| ==> ',' !in items[i]
    ensures Items(Join(items)) == Walked(items)
    decreases |items|
  {
    if |items| == 1 {
      if items[0] == [] {
        NoItems();
      } else {
        OneItem(items[0]);
      }
    } else {
      hide *;
      JoinSplits(items);
      WalkVisitsAll(items[1..]);
      WalkedMore(items);
    }
  }

  lemma NoItems()
    ensures Items([]) == []
  {
  }

  /** Distance from p to the first c among the next len bytes, or len. */
  method Search(mem: seq<octet>, p: nat, len: nat, c: octet) returns (n: nat)
    requires p + len <= |mem|
    ensures n == Find(mem[p..p + len], c)
  {
    n := 0;
    while n < len && mem[p + n] != c
      invariant n <= len && forall k :: p <= k < p + n ==> mem[k] != c
    {
      n := n + 1;
    }
    FindIs(mem[p..p + len], c, n);
  }

  lemma SlicePrefix(mem: seq<octet>, p: nat, text: seq<octet>, n: nat)
    requires p + |text| <= |mem| && mem[p..p + |text|] == text && n <= |text|
    ensures mem[p..p + n] == text[..n]
  {
    assert mem[p..p + n] == mem[p..p + |text|][..n];
  }

  /** The first item lies at the start of the list, and the list goes on after the comma. */
  lemma ItemSlice(mem: seq<octet>, p: nat, text: seq<octet>)
    requires IsStr(mem, p, text)
    ensures VecIs(mem, Vec(p, Find(text, ',')), text[..Find(text, ',')])
  {
    hide IsStr, Find;
    StrIsSlice(mem, p, text);
    SlicePrefix(mem, p, text, Find(text, ','));
  }

  lemma ListAfterItem(mem: seq<octet>, p: nat, text: seq<octet>)
    requires IsStr(mem, p, text)
    ensures var n := Find(text, ',');
            if n < |text| then IsStr(mem, p + n + 1, text[n + 1..]) else IsStr(mem, p + |text|, [])
  {
    hide IsStr, Find;
    var n := Find(text, ',');
    StrTail(mem, p, text, if n < |text| then n + 1 else |text|);
    assert text[|text|..] == [];
  }

  lemma SlicePart(mem: seq<octet>, p: nat, text: seq<octet>, i: nat, j: nat)
    requires p + |text| <= |mem| && mem[p..p + |text|] == text && i <= j <= |text|
    ensures mem[p + i..p + j] == text[i..j]
  {
    forall k | 0 <= k < j - i
      ensures mem[p + i..p + j][k] == text[i..j][k]
    {
      assert mem[p..p + |text|][i + k] == mem[p + (i + k)];
    }
  }

  /** The x and the y of an item x=y. */
  method SplitVec(mem: seq<octet>, p: nat, len: nat, ghost s: seq<octet>) returns (val: Vec, eqVal: Option<Vec>)
    requires VecIs(mem, Vec(p, len), s)
    ensures var item := SplitItem(s);
            && VecIs(mem, val, item.key) && (eqVal.Some? <==> item.value.Some?)
            && (eqVal.Some? ==> VecIs(mem, eqVal.value, item.value.value))
  {
    hide Find;
    val, eqVal := Vec(p, len), None;
    var k := Search(mem, p, len, '=');
    if k < len {
      eqVal := Some(Vec(p + k + 1, len - (k + 1)));
      val := Vec(p, k);
      SlicePart(mem, p, s, 0, k);
      SlicePart(mem, p, s, k + 1, len);
    }
  }

  lemma ItemsSplit(t: seq<octet>)
    requires t != []
    ensures var n := Find(t, ','); Items(t) == [t[..n]] + Items(if n < |t| then t[n + 1..] else [])
  {
    hide Find;
  }

  /** next_option where the list has not ended. */
  method NextItem(mem: seq<octet>, p: nat, splits: bool, ghost text: seq<octet>)
    returns (next: nat, val: Vec, eqVal: Option<Vec>, ghost rest: seq<octet>)
    requires IsStr(mem, p, text) && text != []
    ensures IsStr(mem, next, rest) && |rest| < |text|
    ensures Items(text) == [text[..Find(text, ',')]] + Items(rest)
    ensures !splits ==> VecIs(mem, val, text[..Find(text, ',')]) && eqVal.None?
    ensures splits ==> var item := SplitItem(text[..Find(text, ',')]);
                       && VecIs(mem, val, item.key) && (eqVal.Some? <==> item.value.Some?)
                       && (eqVal.Some? ==> VecIs(mem, eqVal.value, item.value.value))
  {
    hide *;
    ItemSlice(mem, p, text);
    ListAfterItem(mem, p, text);
    StrIsSlice(mem, p, text);
    ItemsSplit(text);
    var total := Strlen(mem, p, text);
    var len := Search(mem, p, total, ',');
    rest := if len < total then text[len + 1..] else [];
    next := if len < total then p + len + 1 else p + total;
    val, eqVal := Vec(p, len), None;
    if splits {
      val, eqVal := SplitVec(mem, p, len, text[..len]);
    }
  }

  /** next_option: the next item, its value part if asked for, and where the list goes on. */
  method NextOption(mem: seq<octet>, list: Option<nat>, splits: bool, ghost text: seq<octet>)
    returns (next: Option<nat>, val: Vec, eqVal: Option<Vec>, ghost rest: seq<octet>)
    requires list.Some? ==> IsStr(mem, list.value, text)
    ensures next.None? <==> list.None? || text == []
    ensures next.Some? ==> IsStr(mem, next.value, rest) && |rest| < |text|
    ensures next.Some? ==> Items(text) == [text[..Find(text, ',')]] + Items(rest)
    ensures next.Some? && !splits ==> VecIs(mem, val, text[..Find(text, ',')]) && eqVal.None?
    ensures next.Some? && splits ==>
              var item := SplitItem(text[..Find(text, ',')]);
              && VecIs(mem, val, item.key) && (eqVal.Some? <==> item.value.Some?)
              && (eqVal.Some? ==> VecIs(mem, eqVal.value, item.value.value))
  {
    hide Items, SplitItem, VecIs, Find;
    next, val, eqVal, rest := None, Vec(0, 0), None, [];
    if list.Some? {
      var p := list.value;
      assert text != [] ==> mem[p + 0] == text[0];
      if mem[p] != NUL {
        var after;
        after, val, eqVal, rest := NextItem(mem, p, splits, text);
        next := Some(after);
      }
    }
  }

  // Access control lists.

  /** An address as a number, in the host's order. */
  type Address = bv32

  /** What sscanf makes of one entry: a sign, an address, and a prefix length. */
  datatype Entry = Malformed | Entry(allow: bool, subnet: Address, bits: int)

  /** A prefix length outside the word is malformed too. */
  predicate WellFormed(e: Entry) {
    e.Entry? && 0 <= e.bits <= 32
  }

  /** The number as the amount of a shift. */
  function Amount(n: nat): bv6
    requires n <= 32
  {
    n as bv6
  }

  lemma OneMore(n: nat)
    requires n < 32
    ensures Amount(n + 1) == Amount(n) + 1
  {
  }

  lemma NextAmount(n: nat)
    requires n < 32
    ensures Amount(n + 1) == Amount(n) + 1 && Amount(n) < 32
  {
    OneMore(n);
  }

  lemma {:induction false} AmountsGrow(n: nat, i: nat)
    requires n < i <= 32
    ensures Amount(n) < Amount(i) <= 32
    decreases i
  {
    hide Amount;
    NextAmount(i - 1);
    if n < i - 1 {
      AmountsGrow(n, i - 1);
    }
  }

  /** How many low bits a prefix leaves free, as a shift amount. */
  function FreeBits(bits: int): (t: bv6)
    requires 0 < bits <= 32
    ensures t < 32
  {
    NextAmount(32 - bits);
    Amount(32 - bits)
  }

  /** acl_mask: no shift for no bits, where C would leave it undefined. */
  function Mask(bits: int): Address
    requires 0 <= bits <= 32
  {
    if bits != 0 then 0xffff_ffff << FreeBits(bits) else 0
  }

  function And(x: Address, y: Address): Address {
    x & y
  }

  predicate Matches(e: Entry, ip: Address)
    requires WellFormed(e)
  {
    e.subnet == And(ip, Mask(e.bits))
  }

  /** Bit i of an address, bit 31 being the highest. */
  function Bit(x: Address, i: nat): bool
    requires i < 32
  {
    NextAmount(i);
    BitAt(x, Amount(i))
  }

  function BitAt(x: Address, i: bv6): bool
    requires i < 32
  {
    (x >> i) & 1 == 1
  }

  lemma MaskBits(x: Address, t: bv6, i: bv6)
    requires t < 32 && i < 32
    ensures BitAt(And(x, 0xffff_ffff << t), i) == (i >= t && BitAt(x, i))
  {
  }

  lemma NoBits(x: Address, i: bv6)
    requires i < 32
    ensures And(x, 0) == 0 && !BitAt(0, i)
  {
  }

  function Shifted(x: Address, t: bv6): Address
    requires t < 32
  {
    x >> t
  }

  lemma Below(x: Address, y: Address, t: bv6)
    requires t < 31 && Shifted(x, t + 1) == Shifted(y, t + 1) && BitAt(x, t) == BitAt(y, t)
    ensures Shifted(x, t) == Shifted(y, t)
  {
  }

  lemma Ends(x: Address, y: Address)
    ensures BitAt(x, 31) == BitAt(y, 31) ==> Shifted(x, 31) == Shifted(y, 31)
    ensures Shifted(x, 0) == x && Amount(0) == 0 && Amount(31) == 31
  {
  }

  lemma {:induction false} SameFrom(x: Address, y: Address, n: nat)
    requires n < 32 && forall i :: n <= i < 32 ==> Bit(x, i) == Bit(y, i)
    ensures Amount(n) < 32 && Shifted(x, Amount(n)) == Shifted(y, Amount(n))
    decreases 32 - n
  {
    hide Amount, BitAt, Shifted;
    NextAmount(n);
    assert Bit(x, n) == Bit(y, n);
    if n == 31 {
      Ends(x, y);
    } else {
      SameFrom(x, y, n + 1);
      NextAmount(n + 1);
      Below(x, y, Amount(n));
    }
  }

  lemma SameBits(x: Address, y: Address)
    requires forall i :: 0 <= i < 32 ==> Bit(x, i) == Bit(y, i)
    ensures x == y
  {
    hide Amount, Bit, Shifted;
    SameFrom(x, y, 0);
    Ends(x, y);
    Ends(y, x);
  }

  lemma MaskIs(bits: int)
    requires 0 <= bits <= 32
    ensures if bits == 0 then Mask(bits) == 0 else Mask(bits) == 0xffff_ffff << FreeBits(bits)
  {
    hide FreeBits;
  }

  /** What the mask leaves of an address: its top bits. */
  lemma MaskedBit(bits: int, ip: Address, i: nat)
    requires 0 <= bits <= 32 && i < 32
    ensures Bit(And(ip, Mask(bits)), i) == (i >= 32 - bits && Bit(ip, i))
  {
    hide Mask, And, BitAt, Amount;
    MaskIs(bits);
    NextAmount(i);
    assert forall x :: Bit(x, i) == BitAt(x, Amount(i));
    hide Bit;
    if bits == 0 {
      NoBits(ip, Amount(i));
    } else {
      assert FreeBits(bits) == Amount(32 - bits);
      hide FreeBits;
      MaskBits(ip, FreeBits(bits), Amount(i));
      if i < 32 - bits {
        AmountsGrow(i, 32 - bits);
      } else if i > 32 - bits {
        AmountsGrow(32 - bits, i);
      }
    }
  }

  /**
   An entry with prefix length m matches the addresses with the same top m bits, if none is set below
   them in its own; so with no prefix it matches all addresses if its own is 0, and else none.
   */
  lemma MatchesIsPrefix(e: Entry, ip: Address)
    requires WellFormed(e)
    ensures Matches(e, ip) <==> forall i :: 0 <= i < 32 ==> Bit(e.subnet, i) == (i >= 32 - e.bits && Bit(ip, i))
  {
    hide Mask, And, Bit;
    var masked := And(ip, Mask(e.bits));
    forall i | 0 <= i < 32
      ensures Bit(masked, i) == (i >= 32 - e.bits && Bit(ip, i))
    {
      MaskedBit(e.bits, ip, i);
    }
    if forall i :: 0 <= i < 32 ==> Bit(e.subnet, i) == Bit(masked, i) {
      SameBits(e.subnet, masked);
    }
  }

  datatype Verdict = BadList | Denied | Allowed

  predicate AllWellFormed(entries: seq<Entry>) {
    forall i :: 0 <= i < |entries| ==> WellFormed(entries[i])
  }

  /** The last entry that matches decides; without one the address is denied. */
  ghost predicate LastMatchAllows(entries: seq<Entry>, ip: Address)
    requires AllWellFormed(entries)
  {
    exists i :: 0 <= i < |entries| && Matches(entries[i], ip) && entries[i].allow
                && forall j :: i < j < |entries| ==> !Matches(entries[j], ip)
  }

  function Parsed(items: seq<seq<octet>>, parse: seq<octet> -> Entry): (es: seq<Entry>)
    ensures |es| == |items|
  {
    seq(|items|, i requires 0 <= i < |items| => parse(items[i]))
  }

  lemma NotTheLast(entries: seq<Entry>, e: Entry, ip: Address)
    requires AllWellFormed(entries) && WellFormed(e) && AllWellFormed(entries + [e])
    requires LastMatchAllows(entries + [e], ip) && !Matches(e, ip)
    ensures LastMatchAllows(entries, ip)
  {
    hide Matches;
    var all := entries + [e];
    var i :| 0 <= i < |all| && Matches(all[i], ip) && all[i].allow
             && forall j :: i < j < |all| ==> !Matches(all[j], ip);
    assert i < |entries| && all[i] == entries[i];
    assert forall j :: i < j < |entries| ==> entries[j] == all[j];
  }

  /** One more entry takes over if it matches, and changes nothing if it does not. */
  lemma OneMoreEntry(entries: seq<Entry>, e: Entry, ip: Address)
    requires AllWellFormed(entries) && WellFormed(e)
    ensures AllWellFormed(entries + [e])
    ensures LastMatchAllows(entries + [e], ip) <==> if Matches(e, ip) then e.allow else LastMatchAllows(entries, ip)
  {
    hide Matches;
    var all := entries + [e];
    assert AllWellFormed(all);
    assert all[|entries|] == e;
    if !Matches(e, ip) {
      if LastMatchAllows(all, ip) {
        NotTheLast(entries, e, ip);
      }
      if LastMatchAllows(entries, ip) {
        var i :| 0 <= i < |entries| && Matches(entries[i], ip) && entries[i].allow
                 && forall j :: i < j < |entries| ==> !Matches(entries[j], ip);
        assert Matches(all[i], ip) && all[i].allow;
      }
    } else {
      assert Matches(all[|entries|], ip);
    }
  }

  /** The text of a vector. */
  function VecText(mem: seq<octet>, v: Vec, ghost s: seq<octet>): (r: seq<octet>)
    requires VecIs(mem, v, s)
    ensures r == s
  {
    mem[v.ptr..v.ptr + v.len]
  }

  lemma ParsedOneMore(items: seq<seq<octet>>, item: seq<octet>, parse: seq<octet> -> Entry)
    ensures Parsed(items + [item], parse) == Parsed(items, parse) + [parse(item)]
  {
  }

  /** A malformed entry in the middle of the list makes the list malformed. */
  lemma AnyItem(items: seq<seq<octet>>, item: seq<octet>, later: seq<octet>, parse: seq<octet> -> Entry)
    requires !WellFormed(parse(item))
    ensures !AllWellFormed(Parsed(items + ([item] + Items(later)), parse))
  {
    var es := Parsed(items + ([item] + Items(later)), parse);
    assert es[|items|] == parse(item);
  }

  /** check_acl, what sscanf reads of an entry given as a function of the entry's text. */
  method CheckAcl(mem: seq<octet>, list: nat, parse: seq<octet> -> Entry, ip: Address, ghost text: seq<octet>)
    returns (verdict: Verdict)
    requires IsStr(mem, list, text)
    ensures var es := Parsed(Items(text), parse);
            if AllWellFormed(es) then verdict == if LastMatchAllows(es, ip) then Allowed else Denied
            else verdict == BadList
    ensures var es := Parsed(Items(text), parse);
            verdict == BadList <==> exists i :: 0 <= i < |es| && (es[i].Malformed? || es[i].bits < 0 || es[i].bits > 32)
  {
    hide LastMatchAllows, Matches, IsStr, VecIs, Items, AllWellFormed, Parsed;
    ghost var items, rest := [], text;
    var p, allowed := Some(list), false;
    NoEntries(parse, ip);
    while p.Some?
      invariant p.Some? ==> IsStr(mem, p.value, rest) && Items(text) == items + Items(rest)
      invariant p.None? ==> rest == [] && Items(text) == items
      invariant AllWellFormed(Parsed(items, parse)) && allowed == LastMatchAllows(Parsed(items, parse), ip)
      decreases p.Some?, |rest|
    {
      var val, eq;
      ghost var item, later := rest[..Find(rest, ',')], [];
      p, val, eq, later := NextOption(mem, p, false, rest);
      if p.None? {
        NoItems();
        assert items + [] == items;
      } else {
        var e := parse(VecText(mem, val, item));
        ParsedOneMore(items, item, parse);
        if !WellFormed(e) {
          AnyItem(items, item, later, parse);
          BadEntry(Parsed(Items(text), parse));
          return BadList;
        }
        OneMoreEntry(Parsed(items, parse), e, ip);
        if Matches(e, ip) {
          allowed := e.allow;
        }
        items := items + [item];
        rest := later;
      }
    }
    BadEntry(Parsed(Items(text), parse));
    verdict := if allowed then Allowed else Denied;
  }

  lemma BadEntry(es: seq<Entry>)
    ensures AllWellFormed(es) <==>
            !exists i :: 0 <= i < |es| && (es[i].Malformed? || es[i].bits < 0 || es[i].bits > 32)
  {
  }

  lemma NoEntries(parse: seq<octet> -> Entry, ip: Address)
    ensures Parsed([], parse) == [] && AllWellFormed([]) && !LastMatchAllows([], ip)
  {
  }
}
