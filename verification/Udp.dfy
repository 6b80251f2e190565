/** The channels of a UDP socket: binding addresses, sending to a channel, labelling what arrives. */
module Udp {
  import opened Common

  const MAX_CHANNELS: nat := 32
  const MAX_ADDRESSES: nat := 4

  datatype IPaddress = IPaddress(host: bv32, port: bv16)

  /** For each channel the addresses bound to it, the primary one first. */
  type Table = t: seq<seq<IPaddress>> |
      |t| == MAX_CHANNELS && (forall c :: 0 <= c < MAX_CHANNELS ==> |t[c]| <= MAX_ADDRESSES)
    witness seq(MAX_CHANNELS, _ => [])

  function EmptyTable(): Table {
    seq(MAX_CHANNELS, _ => [])
  }

  /** The lowest channel from c on with room for an address, or the number of channels. */
  function Roomy(t: Table, c: nat): (r: nat)
    requires c <= MAX_CHANNELS
    ensures c <= r <= MAX_CHANNELS
    ensures r < MAX_CHANNELS ==> |t[r]| < MAX_ADDRESSES
    ensures forall k :: c <= k < r ==> |t[k]| == MAX_ADDRESSES
    decreases MAX_CHANNELS - c
  {
    if c == MAX_CHANNELS || |t[c]| < MAX_ADDRESSES then c else Roomy(t, c + 1)
  }

  /** The channel a bind goes to: the one asked for, or the first with room; none if there is no room. */
  function BindChannel(t: Table, channel: int): (r: Option<nat>)
    ensures r.Some? ==> r.value < MAX_CHANNELS && |t[r.value]| < MAX_ADDRESSES
  {
    if channel == -1 then
      var c := Roomy(t, 0);
      if c < MAX_CHANNELS then Some(c) else None
    else if 0 <= channel < MAX_CHANNELS && |t[channel]| < MAX_ADDRESSES then Some(channel)
    else None
  }

  function Bound(t: Table, channel: int, a: IPaddress): Table {
    var c := BindChannel(t, channel);
    if c.None? then t else t[c.value := t[c.value] + [a]]
  }

  function Unbound(t: Table, channel: int): Table {
    if 0 <= channel < MAX_CHANNELS then t[channel := []] else t
  }

  /** The highest channel below c that holds the address, or -1. */
  function Label(t: Table, a: IPaddress, c: nat): int
    requires c <= MAX_CHANNELS
  {
    if c == 0 then -1 else if a in t[c - 1] then c - 1 else Label(t, a, c - 1)
  }

  /** A packet; a channel below zero means the address is used instead. */
  class UDPpacket {
    var channel: int
    var address: IPaddress
    var status: int
    var data: seq<bv8>
    const maxlen: nat

    constructor (channel: int, address: IPaddress, data: seq<bv8>, maxlen: nat)
      ensures this.channel == channel && this.address == address && this.data == data && this.maxlen == maxlen
    {
      this.channel, this.address, this.data, this.maxlen, status := channel, address, data, maxlen, 0;
    }
  }

  /** One call of sendto, for which packet, and what it returned. */
  datatype Sending = Sending(packet: UDPpacket, to: IPaddress, data: seq<bv8>, result: int)

  /** How many calls succeeded. */
  function Successes(log: seq<Sending>): nat {
    if log == [] then 0 else
    Successes(log[..|log| - 1]) + (if log[|log| - 1].result >= 0 then 1 else 0)
  }

  /** The status of a packet after some calls: the last success decides, failures leave it. */
  function StatusAfter(p: UDPpacket, status: int, log: seq<Sending>): int {
    if log == [] then status else
    var last := log[|log| - 1];
    if last.packet == p && last.result >= 0 then last.result else StatusAfter(p, status, log[..|log| - 1])
  }

  function Reversed(s: seq<IPaddress>): (r: seq<IPaddress>)
    ensures |r| == |s|
  {
    if s == [] then [] else [s[|s| - 1]] + Reversed(s[..|s| - 1])
  }

  /** Where a packet goes: to its address, or to every address of its channel, the primary one last. */
  function Targets(t: Table, channel: int, address: IPaddress): seq<IPaddress>
    requires channel < MAX_CHANNELS
  {
    if channel < 0 then [address] else Reversed(t[channel])
  }

  /** The calls made for one packet. */
  ghost predicate IsBatch(batch: seq<Sending>, p: UDPpacket, data: seq<bv8>, targets: seq<IPaddress>) {
    && |batch| == |targets|
    && forall i :: 0 <= i < |batch| ==> batch[i].packet == p && batch[i].to == targets[i] && batch[i].data == data
  }

  lemma OneMoreEntry(log: seq<Sending>, entry: Sending, p: UDPpacket, status: int)
    ensures Successes(log + [entry]) == Successes(log) + (if entry.result >= 0 then 1 else 0)
    ensures StatusAfter(p, status, log + [entry]) ==
            if entry.packet == p && entry.result >= 0 then entry.result else StatusAfter(p, status, log)
  {
    assert (log + [entry])[..|log|] == log;
  }

  lemma BatchMore(batch: seq<Sending>, p: UDPpacket, data: seq<bv8>, targets: seq<IPaddress>, entry: Sending)
    requires |batch| < |targets| && IsBatch(batch, p, data, targets[..|batch|])
    requires entry.packet == p && entry.to == targets[|batch|] && entry.data == data
    ensures IsBatch(batch + [entry], p, data, targets[..|batch| + 1])
  {
  }

  lemma NoBatch(p: UDPpacket, data: seq<bv8>)
    ensures IsBatch([], p, data, [])
  {
  }

  lemma BatchIsFor(batch: seq<Sending>, p: UDPpacket, data: seq<bv8>, targets: seq<IPaddress>)
    requires IsBatch(batch, p, data, targets)
    ensures forall i :: 0 <= i < |batch| ==> batch[i].packet == p
  {
  }

  lemma NothingSent(packets: seq<UDPpacket>)
    ensures Flat<Sending>([]) == [] && Successes([]) == 0
    ensures forall p, status {:trigger StatusAfter(p, status, [])} ::
              p in packets ==> StatusAfter(p, status, []) == status
  {
  }

  lemma {:induction false} CountsOfConcat(a: seq<Sending>, b: seq<Sending>)
    ensures Successes(a + b) == Successes(a) + Successes(b)
  {
    if b == [] {
      assert a + b == a;
    } else {
      assert (a + b)[..|a + b| - 1] == a + b[..|b| - 1];
      CountsOfConcat(a, b[..|b| - 1]);
    }
  }

  lemma {:induction false} StatusOfConcat(p: UDPpacket, status: int, a: seq<Sending>, b: seq<Sending>)
    ensures StatusAfter(p, status, a + b) == StatusAfter(p, StatusAfter(p, status, a), b)
  {
    if b == [] {
      assert a + b == a;
    } else {
      assert (a + b)[..|a + b| - 1] == a + b[..|b| - 1];
      StatusOfConcat(p, status, a, b[..|b| - 1]);
    }
  }

  lemma {:induction false} OthersUntouched(p: UDPpacket, status: int, batch: seq<Sending>)
    requires forall i :: 0 <= i < |batch| ==> batch[i].packet != p
    ensures StatusAfter(p, status, batch) == status
  {
    if batch != [] {
      OthersUntouched(p, status, batch[..|batch| - 1]);
    }
  }

  lemma {:induction false} ReversedAt(s: seq<IPaddress>, k: nat)
    requires k < |s|
    ensures Reversed(s)[k] == s[|s| - 1 - k]
  {
    if k > 0 {
      ReversedAt(s[..|s| - 1], k - 1);
    }
  }

  /** What recvfrom gives: a datagram and its source, or an error. */
  datatype Arrival = Datagram(from: IPaddress, data: seq<bv8>) | Failure

  function Good(arrivals: seq<Arrival>): seq<Arrival> {
    if arrivals == [] then []
    else (if arrivals[0].Datagram? then [arrivals[0]] else []) + Good(arrivals[1..])
  }

  lemma GoodStep(arrivals: seq<Arrival>)
    requires arrivals != []
    ensures Good(arrivals) == if arrivals[0].Datagram? then [arrivals[0]] + Good(arrivals[1..]) else Good(arrivals[1..])
  {
  }

  /** The packet holds the datagram, cut to its size, and is labelled. */
  ghost predicate Filled(p: UDPpacket, d: Arrival, t: Table)
    reads p
  {
    && d.Datagram? && p.address == d.from && p.channel == Label(t, d.from, MAX_CHANNELS)
    && p.data == (if |d.data| <= p.maxlen then d.data else d.data[..p.maxlen]) && p.status == |p.data|
  }

  /** What a failure leaves in the packet it was meant for. */
  ghost predicate Emptied(p: UDPpacket)
    reads p
  {
    p.status == -1 && p.data == []
  }

  /** The last recvfrom failed, and there was a packet it was meant for. */
  predicate FailedLast(arrivals: seq<Arrival>, packets: seq<UDPpacket>) {
    && arrivals != [] && arrivals[|arrivals| - 1].Failure? && |Good(arrivals)| < |packets|
  }

  /**
   The first n packets hold the first n datagrams, where no packet before n is the same one and, if the
   last call failed, packet n is not.
   */
  ghost predicate FilledUpTo(packets: seq<UDPpacket>, good: seq<Arrival>, n: nat, failed: bool, t: Table)
    reads packets
  {
    && n <= |packets| && n <= |good| && (failed ==> n < |packets|)
    && forall i :: 0 <= i < n && packets[i] !in packets[i + 1..n] && !(failed && packets[i] == packets[n]) ==>
         Filled(packets[i], good[i], t)
  }

  class UDPsocket {
    const numbound: array<nat>
    const address: array2<IPaddress>
    const own: IPaddress

    /** What is bound, as a value, and the calls of sendto made so far. */
    ghost var table: Table
    var log: seq<Sending>

    /** What recvfrom will give, in order. */
    var arrivals: seq<Arrival>

    ghost predicate Valid()
      reads this, numbound, address
    {
      && numbound.Length == MAX_CHANNELS && address.Length0 == MAX_CHANNELS && address.Length1 == MAX_ADDRESSES
      && (forall c :: 0 <= c < MAX_CHANNELS ==> numbound[c] == |table[c]|)
      && forall c, i :: 0 <= c < MAX_CHANNELS && 0 <= i < |table[c]| ==> address[c, i] == table[c][i]
    }

    constructor (own: IPaddress, arrivals: seq<Arrival>)
      ensures this.arrivals == arrivals && log == []
      ensures Valid() && table == EmptyTable() && this.own == own
      ensures fresh(numbound) && fresh(address)
    {
      this.own := own;
      numbound := new nat[MAX_CHANNELS](_ => 0);
      address := new IPaddress[MAX_CHANNELS, MAX_ADDRESSES]((_, _) => own);
      table := EmptyTable();
      log := [];
      this.arrivals := arrivals;
    }

    /** The system's sendto, which may succeed or fail. */
    method Sendto(packet: UDPpacket, to: IPaddress) returns (status: int)
      requires Valid()
      modifies this`log
      ensures Valid() && log == old(log) + [Sending(packet, to, packet.data, status)]
    {
      status := *;
      log := log + [Sending(packet, to, packet.data, status)];
    }

    /** One call and the update of the packet's status, which a failure leaves as it was. */
    method SendAndNote(packet: UDPpacket, to: IPaddress) returns (sent: nat, ghost entry: Sending)
      requires Valid()
      modifies this`log, packet`status
      ensures Valid() && log == old(log) + [entry]
      ensures entry.packet == packet && entry.to == to && entry.data == packet.data
      ensures sent == if entry.result >= 0 then 1 else 0
      ensures packet.status == if entry.result >= 0 then entry.result else old(packet.status)
    {
      var status := Sendto(packet, to);
      entry := Sending(packet, to, packet.data, status);
      sent := 0;
      if status >= 0 {
        packet.status := status;
        sent := 1;
      }
    }

    /** The search for a channel with room; the second result is the last one looked at. */
    method FirstRoomy() returns (channel: nat, binding: nat)
      requires Valid()
      ensures channel == Roomy(table, 0) && binding < MAX_CHANNELS
      ensures if channel < MAX_CHANNELS then binding == channel else |table[binding]| == MAX_ADDRESSES
    {
      channel, binding := 0, 0;
      while channel < MAX_CHANNELS
        invariant channel <= MAX_CHANNELS && binding < MAX_CHANNELS
        invariant channel > 0 ==> binding == channel - 1 && |table[binding]| == MAX_ADDRESSES
        invariant Roomy(table, 0) == Roomy(table, channel)
      {
        binding := channel;
        if numbound[binding] < MAX_ADDRESSES {
          return;
        }
        channel := channel + 1;
      }
    }

    method AddAddress(binding: nat, a: IPaddress)
      requires Valid() && binding < MAX_CHANNELS && |table[binding]| < MAX_ADDRESSES
      modifies this, numbound, address
      ensures Valid() && table == old(table)[binding := old(table)[binding] + [a]]
    {
      address[binding, numbound[binding]] := a;
      numbound[binding] := numbound[binding] + 1;
      table := table[binding := table[binding] + [a]];
    }

    method Bind(requested: int, a: IPaddress) returns (channel: int)
      requires Valid()
      modifies this, numbound, address
      ensures Valid() && table == Bound(old(table), requested, a)
      ensures var c := BindChannel(old(table), requested);
              channel == if c.Some? then c.value else -1
    {
      hide Roomy;
      var binding: nat;
      channel := requested;
      if channel == -1 {
        channel, binding := FirstRoomy();
      } else {
        if !(0 <= channel < MAX_CHANNELS) {
          return -1;
        }
        binding := channel;
      }
      if numbound[binding] == MAX_ADDRESSES {
        return -1;
      }
      AddAddress(binding, a);
    }

    method Unbind(channel: int)
      requires Valid()
      modifies this, numbound
      ensures Valid() && table == Unbound(old(table), channel)
    {
      if 0 <= channel < MAX_CHANNELS {
        numbound[channel] := 0;
        table := table[channel := []];
      }
    }

    /** The socket's own address for -1, else the primary address of the channel. */
    method GetPeerAddress(channel: int) returns (a: Option<IPaddress>)
      requires Valid()
      ensures channel == -1 ==> a == Some(own)
      ensures 0 <= channel < 32 ==>
                a == if table[channel] == [] then None else Some(table[channel][0])
      ensures channel < -1 || 32 <= channel ==> a == None
    {
      if channel == -1 {
        return Some(own);
      }
      if 0 <= channel < MAX_CHANNELS && numbound[channel] > 0 {
        return Some(address[channel, 0]);
      }
      return None;
    }

    /** The calls for a packet with a channel: downwards through the channel's addresses. */
    method SendToChannel(packet: UDPpacket) returns (numsent: nat, ghost batch: seq<Sending>)
      requires Valid() && 0 <= packet.channel < MAX_CHANNELS
      modifies this`log, packet`status
      ensures Valid() && log == old(log) + batch
      ensures IsBatch(batch, packet, packet.data, Reversed(table[packet.channel]))
      ensures numsent == Successes(batch) && packet.status == StatusAfter(packet, old(packet.status), batch)
    {
      hide Reversed, IsBatch;
      var c: nat := packet.channel;
      var j: int := numbound[c] as int - 1;
      ghost var targets, first := Reversed(table[c]), packet.status;
      numsent, batch := 0, [];
      NoBatch(packet, packet.data);
      assert targets[..0] == [];
      while j >= 0
        invariant -1 <= j && |batch| + j + 1 == |targets| && Valid() && log == old(log) + batch
        invariant IsBatch(batch, packet, packet.data, targets[..|batch|])
        invariant numsent == Successes(batch) && packet.status == StatusAfter(packet, first, batch)
      {
        ReversedAt(table[c], |batch|);
        var sent, entry := SendAndNote(packet, address[c, j]);
        OneMoreEntry(batch, entry, packet, first);
        BatchMore(batch, packet, packet.data, targets, entry);
        numsent, batch, j := numsent + sent, batch + [entry], j - 1;
      }
      assert targets[..|batch|] == targets;
    }

    /** One packet of SDLNet_UDP_SendV. */
    method SendPacket(packet: UDPpacket) returns (numsent: nat, ghost batch: seq<Sending>)
      requires Valid() && packet.channel < MAX_CHANNELS
      modifies this`log, packet`status
      ensures Valid() && log == old(log) + batch
      ensures IsBatch(batch, packet, packet.data, Targets(table, packet.channel, packet.address))
      ensures numsent == Successes(batch) && packet.status == StatusAfter(packet, old(packet.status), batch)
    {
      if packet.channel < 0 {
        var sent, entry := SendAndNote(packet, packet.address);
        numsent, batch := sent, [entry];
        OneMoreEntry([], entry, packet, old(packet.status));
        assert [] + [entry] == [entry];
      } else {
        numsent, batch := SendToChannel(packet);
      }
    }

    /**
     SDLNet_UDP_SendV: every packet goes to each of its targets, one call each, and the result counts
     the calls that succeeded.
     */
    method SendV(packets: seq<UDPpacket>) returns (numsent: nat, ghost batches: seq<seq<Sending>>)
      requires Valid() && forall p :: p in packets ==> p.channel < MAX_CHANNELS
      modifies this`log, (set p | p in packets)`status
      ensures Valid() && log == old(log) + Flat(batches) && |batches| == |packets|
      ensures forall i :: 0 <= i < |packets| ==>
                IsBatch(batches[i], packets[i], packets[i].data,
                        Targets(table, packets[i].channel, packets[i].address))
      ensures numsent == Successes(Flat(batches))
      ensures forall p :: p in packets ==> p.status == StatusAfter(p, old(p.status), Flat(batches))
    {
      hide IsBatch, Targets, Flat, Successes, StatusAfter;
      NothingSent(packets);
      numsent, batches := 0, [];
      var i := 0;
      while i < |packets|
        invariant i == |batches| <= |packets| && Valid() && log == old(log) + Flat(batches)
        invariant forall k :: 0 <= k < i ==>
                    IsBatch(batches[k], packets[k], packets[k].data,
                            Targets(table, packets[k].channel, packets[k].address))
        invariant numsent == Successes(Flat(batches))
        invariant forall p :: p in packets ==> p.status == StatusAfter(p, old(p.status), Flat(batches))
      {
        label turn:
        var sent, batch := SendPacket(packets[i]);
        FlatConcat(batches, [batch]);
        FlatOne(batch);
        CountsOfConcat(Flat(batches), batch);
        BatchIsFor(batch, packets[i], packets[i].data, Targets(table, packets[i].channel, packets[i].address));
        forall p | p in packets
          ensures p.status == StatusAfter(p, old(p.status), Flat(batches + [batch]))
        {
          StatusOfConcat(p, old(p.status), Flat(batches), batch);
          if p != packets[i] {
            OthersUntouched(p, old@turn(p.status), batch);
          }
        }
        numsent, batches, i := numsent + sent, batches + [batch], i + 1;
      }
    }

    /**
     The search at the end of receiving a packet: downwards through the channels, and downwards
     through the addresses of each.
     */
    method LabelPacket(packet: UDPpacket)
      requires Valid()
      modifies packet`channel
      ensures packet.channel == Label(table, packet.address, MAX_CHANNELS)
    {
      packet.channel := -1;
      var i: int := MAX_CHANNELS as int - 1;
      while i >= 0
        invariant -1 <= i < MAX_CHANNELS && packet.channel == -1
        invariant Label(table, packet.address, MAX_CHANNELS) == Label(table, packet.address, i + 1)
      {
        var j: int := numbound[i] as int - 1;
        while j >= 0
          invariant -1 <= j < numbound[i]
          invariant forall k :: j < k < |table[i]| ==> table[i][k] != packet.address
        {
          if packet.address.host == address[i, j].host && packet.address.port == address[i, j].port {
            assert table[i][j] == packet.address;
            packet.channel := i;
            return;
          }
          j := j - 1;
        }
        i := i - 1;
      }
    }

    /** One recvfrom into a packet; a failure empties it. */
    method ReceiveInto(packet: UDPpacket) returns (received: bool)
      requires Valid() && arrivals != []
      modifies this`arrivals, packet
      ensures Valid() && arrivals == old(arrivals)[1..]
      ensures received <==> old(arrivals)[0].Datagram?
      ensures received ==> Filled(packet, old(arrivals)[0], table)
      ensures received ==>
                var d := old(arrivals)[0];
                && packet.address == d.from && packet.channel == Label(table, d.from, 32)
                && packet.data <= d.data && packet.status == |packet.data|
                && |packet.data| == if |d.data| <= packet.maxlen then |d.data| else packet.maxlen
      ensures !received ==> Emptied(packet) && packet.status == -1 && packet.data == []
    {
      hide Label;
      var next := arrivals[0];
      arrivals := arrivals[1..];
      match next
      case Failure =>
        packet.status, packet.data := -1, [];
        received := false;
      case Datagram(from, data) =>
        packet.data := if |data| <= packet.maxlen then data else data[..packet.maxlen];
        packet.status, packet.address := |packet.data|, from;
        LabelPacket(packet);
        received := true;
    }

    /** One turn of the loop of SDLNet_UDP_RecvV. */
    method ReceiveNext(packets: seq<UDPpacket>, n: nat, ghost good: seq<Arrival>, ghost failed: bool)
      returns (received: bool)
      requires Valid() && arrivals != [] && n < |packets| && n <= |good| && Good(arrivals) == good[n..]
      requires FilledUpTo(packets, good, n, failed, table)
      modifies this`arrivals, packets[n]
      ensures Valid() && arrivals == old(arrivals)[1..] && (received <==> old(arrivals)[0].Datagram?)
      ensures received ==> n < |good| && Good(arrivals) == good[n + 1..]
      ensures !received ==> Good(arrivals) == good[n..] && Emptied(packets[n])
      ensures FilledUpTo(packets, good, if received then n + 1 else n, !received, table)
    {
      hide Filled, Emptied, Good, Label;
      GoodStep(arrivals);
      ghost var rest := good[n..];
      LaterOnes(packets, n);
      received := ReceiveInto(packets[n]);
      if received {
        assert good[n] == rest[0] && good[n + 1..] == rest[1..];
      }
    }

    /**
     SDLNet_UDP_RecvV: the packets are filled in order with the datagrams that arrive without an
     error, each labelled with the highest channel that holds its source.  A packet listed twice keeps
     the last datagram, and the packet a last failure was meant for is left empty.
     */
    method RecvV(packets: seq<UDPpacket>) returns (numrecv: nat)
      requires Valid()
      modifies this`arrivals, packets
      ensures Valid()
      ensures numrecv == var good := Good(old(arrivals)); if |packets| < |good| then |packets| else |good|
      ensures var failed := FailedLast(old(arrivals), packets);
              && (failed ==> Emptied(packets[numrecv]))
              && FilledUpTo(packets, Good(old(arrivals)), numrecv, failed, table)
    {
      hide FilledUpTo, Emptied, Good;
      ghost var good, all, k, failed := Good(arrivals), arrivals, 0, false;
      numrecv := 0;
      NothingFilled(packets, good, table);
      while numrecv < |packets| && arrivals != []
        invariant numrecv <= |packets| && numrecv <= |good| && Valid() && Good(arrivals) == good[numrecv..]
        invariant k <= |all| && arrivals == all[k..] && (failed <==> k > 0 && all[k - 1].Failure?)
        invariant failed ==> numrecv < |packets| && Emptied(packets[numrecv])
        invariant FilledUpTo(packets, good, numrecv, failed, table)
        decreases |arrivals|
      {
        assert arrivals[0] == all[k];
        var received := ReceiveNext(packets, numrecv, good, failed);
        k := k + 1;
        failed := !received;
        if received {
          numrecv := numrecv + 1;
        }
      }
      NoArrivals();
    }
  }

  lemma NothingFilled(packets: seq<UDPpacket>, good: seq<Arrival>, t: Table)
    ensures FilledUpTo(packets, good, 0, false, t)
  {
  }

  /** A packet that does not come again up to and with the next one does not come again before it either. */
  lemma LaterOnes(packets: seq<UDPpacket>, n: nat)
    requires n < |packets|
    ensures forall i :: 0 <= i < n && packets[i] !in packets[i + 1..n + 1] ==>
              packets[i] != packets[n] && packets[i] !in packets[i + 1..n]
  {
    forall i | 0 <= i < n && packets[i] !in packets[i + 1..n + 1]
      ensures packets[i] != packets[n] && packets[i] !in packets[i + 1..n]
    {
      assert packets[i + 1..n + 1] == packets[i + 1..n] + [packets[n]];
    }
  }

  lemma NoArrivals()
    ensures Good([]) == []
  {
  }

  // What a caller can rely on over any sequence of binds and unbinds.

  datatype Op = BindOp(channel: int, a: IPaddress) | UnbindOp(channel: int)

  function ApplyOp(t: Table, op: Op): Table {
    match op
    case BindOp(channel, a) => Bound(t, channel, a)
    case UnbindOp(channel) => Unbound(t, channel)
  }

  function Replay(ops: seq<Op>): Table {
    if ops == [] then EmptyTable() else ApplyOp(Replay(ops[..|ops| - 1]), ops[|ops| - 1])
  }

  /** Operation i bound the address to channel c while nothing was bound to it. */
  ghost predicate BindsFirst(ops: seq<Op>, i: nat, c: nat, a: IPaddress)
    requires i < |ops| && c < MAX_CHANNELS
  {
    && ops[i].BindOp? && ops[i].a == a
    && BindChannel(Replay(ops[..i]), ops[i].channel) == Some(c) && Replay(ops[..i])[c] == []
  }

  lemma PrimaryAfterOp(t: Table, op: Op, c: nat)
    requires c < MAX_CHANNELS && ApplyOp(t, op)[c] != []
    ensures if t[c] == [] then op.BindOp? && BindChannel(t, op.channel) == Some(c) && ApplyOp(t, op)[c] == [op.a]
            else op != UnbindOp(c) && ApplyOp(t, op)[c][0] == t[c][0]
  {
    hide BindChannel;
  }

  /** The primary address of a channel is the first one bound to it since it was last unbound. */
  lemma {:induction false} PrimaryIsFirstBound(ops: seq<Op>, c: nat)
    requires c < MAX_CHANNELS && Replay(ops)[c] != []
    ensures exists i :: 0 <= i < |ops| && BindsFirst(ops, i, c, Replay(ops)[c][0])
                        && forall j :: i < j < |ops| ==> ops[j] != UnbindOp(c)
    decreases |ops|
  {
    hide ApplyOp, BindChannel;
    var n := |ops| - 1;
    var prefix, op := ops[..n], ops[n];
    var before := Replay(prefix);
    PrimaryAfterOp(before, op, c);
    if before[c] == [] {
      assert BindsFirst(ops, n, c, Replay(ops)[c][0]);
    } else {
      PrimaryIsFirstBound(prefix, c);
      var i :| 0 <= i < n && BindsFirst(prefix, i, c, before[c][0])
               && forall j :: i < j < n ==> prefix[j] != UnbindOp(c);
      assert prefix[..i] == ops[..i] && prefix[i] == ops[i];
      assert BindsFirst(ops, i, c, Replay(ops)[c][0]);
      forall j | i < j < |ops|
        ensures ops[j] != UnbindOp(c)
      {
        assert j < n ==> prefix[j] == ops[j];
      }
    }
  }

  /** Receiving finds the highest channel that holds the source, or none. */
  lemma {:induction false} LabelIsHighest(t: Table, a: IPaddress, c: nat)
    requires c <= MAX_CHANNELS
    ensures var l := Label(t, a, c);
            if l == -1 then forall k :: 0 <= k < c ==> a !in t[k]
            else 0 <= l < c && a in t[l] && forall k :: l < k < c ==> a !in t[k]
  {
    if c > 0 {
      LabelIsHighest(t, a, c - 1);
    }
  }

  /** A bind on -1 takes the lowest channel with room, and changes nothing if there is none. */
  lemma BindAnyTakesLowest(t: Table, a: IPaddress)
    ensures var c := BindChannel(t, -1);
            if c.None? then Bound(t, -1, a) == t && forall k :: 0 <= k < 32 ==> |t[k]| == 4
            else Bound(t, -1, a) == t[c.value := t[c.value] + [a]] && |t[c.value]| < 4
                 && forall k :: 0 <= k < c.value ==> |t[k]| == 4
  {
  }

  /** A bind on a channel goes there if there is room for one of four addresses, and else nowhere. */
  lemma BindTakesItsChannel(t: Table, channel: int, a: IPaddress)
    requires channel != -1
    ensures if 0 <= channel < 32 && |t[channel]| < 4
            then BindChannel(t, channel) == Some(channel) && Bound(t, channel, a) == t[channel := t[channel] + [a]]
            else BindChannel(t, channel) == None && Bound(t, channel, a) == t
  {
  }

  /** An unbind empties its channel and leaves the others; a number out of range changes nothing. */
  lemma UnbindEmpties(t: Table, channel: int, c: nat)
    requires c < 32
    ensures Unbound(t, channel)[c] == if c == channel then [] else t[c]
  {
  }

  /** Without a channel a packet goes to its own address, with one to its addresses from the last to the first. */
  lemma TargetsAre(t: Table, channel: int, address: IPaddress)
    requires channel < 32
    ensures channel < 0 ==> Targets(t, channel, address) == [address]
    ensures channel >= 0 ==>
              && |Targets(t, channel, address)| == |t[channel]|
              && forall k :: 0 <= k < |t[channel]| ==>
                   Targets(t, channel, address)[k] == t[channel][|t[channel]| - 1 - k]
  {
    hide Reversed;
    if channel >= 0 {
      forall k | 0 <= k < |t[channel]|
        ensures Reversed(t[channel])[k] == t[channel][|t[channel]| - 1 - k]
      {
        ReversedAt(t[channel], k);
      }
    }
  }

  /** The count is that of the calls that returned no error. */
  lemma {:induction false} SuccessesCount(log: seq<Sending>)
    ensures Successes(log) == |set i | 0 <= i < |log| && log[i].result >= 0|
  {
    var all := set i | 0 <= i < |log| && log[i].result >= 0;
    if log != [] {
      var n := |log| - 1;
      SuccessesCount(log[..n]);
      var before := set i | 0 <= i < |log[..n]| && log[..n][i].result >= 0;
      assert forall i :: 0 <= i < n ==> log[..n][i] == log[i];
      assert all == if log[n].result >= 0 then before + {n} else before;
    }
  }

  /** The status is what the last successful call for the packet returned; without one it stays. */
  lemma {:induction false} StatusIsLastSuccess(p: UDPpacket, status: int, log: seq<Sending>)
    ensures var s := StatusAfter(p, status, log);
            || (s == status && forall i :: 0 <= i < |log| && log[i].packet == p ==> log[i].result < 0)
            || exists i :: 0 <= i < |log| && log[i].packet == p && log[i].result >= 0 && s == log[i].result
                           && forall j :: i < j < |log| && log[j].packet == p ==> log[j].result < 0
  {
    if log != [] {
      var n := |log| - 1;
      var prefix := log[..n];
      assert forall i :: 0 <= i < n ==> prefix[i] == log[i];
      if !(log[n].packet == p && log[n].result >= 0) {
        StatusIsLastSuccess(p, status, prefix);
        if exists i :: 0 <= i < n && prefix[i].packet == p && prefix[i].result >= 0 {
          var s := StatusAfter(p, status, prefix);
          var i :| 0 <= i < n && prefix[i].packet == p && prefix[i].result >= 0 && s == prefix[i].result
                   && forall j :: i < j < n && prefix[j].packet == p ==> prefix[j].result < 0;
          assert log[i].packet == p && log[i].result >= 0;
        }
      }
    }
  }

  /** What arrived without an error: the datagrams, in order. */
  lemma {:induction false} GoodAreTheDatagrams(a: seq<Arrival>, b: seq<Arrival>, from: IPaddress, data: seq<bv8>)
    ensures Good([]) == [] && Good([Failure]) == [] && Good([Datagram(from, data)]) == [Datagram(from, data)]
    ensures Good(a + b) == Good(a) + Good(b)
  {
    assert [Failure][1..] == [] && [Datagram(from, data)][1..] == [];
    if a == [] {
      assert a + b == b;
    } else {
      assert (a + b)[1..] == a[1..] + b;
      GoodAreTheDatagrams(a[1..], b, from, data);
    }
  }

  /** A reply from an address that a channel sends to is labelled with that channel or a higher one. */
  lemma RepliesComeBack(t: Table, channel: nat, k: nat)
    requires channel < MAX_CHANNELS && k < |Reversed(t[channel])|
    ensures Label(t, Reversed(t[channel])[k], MAX_CHANNELS) >= channel
  {
    ReversedAt(t[channel], k);
    LabelIsHighest(t, Reversed(t[channel])[k], MAX_CHANNELS);
  }

  // Where the documentation promises something else.

  /** The lowest channel with no address, or the number of channels. */
  function FirstUnbound(t: Table, c: nat): (r: nat)
    requires c <= MAX_CHANNELS
    ensures c <= r <= MAX_CHANNELS && (r < MAX_CHANNELS ==> t[r] == [])
    ensures forall k :: c <= k < r ==> t[k] != []
    decreases MAX_CHANNELS - c
  {
    if c == MAX_CHANNELS || t[c] == [] then c else FirstUnbound(t, c + 1)
  }

  /** A bind on -1 takes the first unbound channel exactly when every channel below it is full. */
  lemma BindAnyIsFirstUnbound(t: Table)
    ensures var u := FirstUnbound(t, 0);
            u < MAX_CHANNELS ==>
              (BindChannel(t, -1) == Some(u) <==> forall k :: 0 <= k < u ==> |t[k]| == MAX_ADDRESSES)
    ensures FirstUnbound(t, 0) == MAX_CHANNELS && BindChannel(t, -1).Some? ==> t[BindChannel(t, -1).value] != []
  {
    var u, c := FirstUnbound(t, 0), Roomy(t, 0);
    if u < MAX_CHANNELS {
      assert |t[u]| < MAX_ADDRESSES && c <= u;
    }
  }

  /** With one address on channel 0, the next bind on -1 joins it there. */
  lemma BindAnyExample(a: IPaddress, b: IPaddress)
    ensures var t := Replay([BindOp(-1, a)]);
            FirstUnbound(t, 0) == 1 && BindChannel(t, -1) == Some(0) && Bound(t, -1, b)[0] == [a, b]
  {
    var ops := [BindOp(-1, a)];
    assert ops[..0] == [] && Replay([]) == EmptyTable();
    var t := Replay(ops);
    assert t[0] == [a] && t[1] == [];
    assert FirstUnbound(t, 1) == 1;
  }

  /** After some calls the status is -1 exactly when it was -1 before and no call for the packet succeeded. */
  lemma {:induction false} StatusMeansFailure(p: UDPpacket, status: int, log: seq<Sending>)
    ensures StatusAfter(p, status, log) == -1 <==>
            status == -1 && forall i :: 0 <= i < |log| && log[i].packet == p ==> log[i].result < 0
  {
    if log != [] {
      var n := |log| - 1;
      StatusMeansFailure(p, status, log[..n]);
      assert forall i :: 0 <= i < n ==> log[..n][i] == log[i];
    }
  }

  /** A call that fails for a packet whose status was zero leaves it zero. */
  lemma FailureExample(p: UDPpacket, to: IPaddress, data: seq<bv8>)
    ensures StatusAfter(p, 0, [Sending(p, to, data, -1)]) == 0
  {
    StatusMeansFailure(p, 0, [Sending(p, to, data, -1)]);
    assert [Sending(p, to, data, -1)][..0] == [];
  }
}
