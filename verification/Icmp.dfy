/** processICMPPacket: an echo request is turned into its reply in place and sent back.  The frame is the
    Ethernet header of 14 bytes, the IPv4 header of ihl * 4 bytes, and the ICMP message. */
module Icmp {
  import opened Words
  import opened Checksum

  const ETH_HLEN := 14
  const MAC_SIZE := 6
  const ICMP_ECHO := 8

  // ---------------------------------------------------------------- fields of a frame

  function HeaderLength(frame: seq<Byte>): nat
    requires |frame| > ETH_HLEN
  {
    frame[ETH_HLEN] % 16 * 4
  }

  /** tot_len is stored in network order. */
  function TotalLength(frame: seq<Byte>): nat
    requires |frame| > ETH_HLEN + 3
  {
    Word16(frame[ETH_HLEN + 3], frame[ETH_HLEN + 2])
  }

  function IcmpStart(frame: seq<Byte>): nat
    requires |frame| > ETH_HLEN
  {
    ETH_HLEN + HeaderLength(frame)
  }

  /** The lengths in the headers are consistent with the frame; the code relies on this. */
  predicate WellFormed(frame: seq<Byte>) {
    && |frame| > ETH_HLEN + 20 && 20 <= HeaderLength(frame)
    && HeaderLength(frame) + 4 <= TotalLength(frame) && ETH_HLEN + TotalLength(frame) <= |frame|
  }

  // ---------------------------------------------------------------- what a reply is

  /** Byte k keeps its value when the message starts at m: protocol type, version to protocol, IP options,
      ICMP payload and padding. */
  predicate IsKept(m: nat, k: nat) { 12 <= k < 24 || 34 <= k < m || m + 4 <= k }

  /** The reply to `request` of a machine with this address: back to the sender, from this machine, IP addresses
      exchanged, type and code zero, both checksums verifying, everything else unchanged. */
  ghost predicate IsReply(request: seq<Byte>, reply: seq<Byte>, mac: seq<Byte>)
    requires WellFormed(request) && |reply| == |request|
  {
    var ihl: nat, high: nat, low: nat := request[14] % 16, request[16], request[17];
    var m, end := 14 + ihl * 4, 14 + 256 * high + low;
    && reply[..6] == request[6..12] && reply[6..12] == mac
    && reply[26..30] == request[30..34] && reply[30..34] == request[26..30]
    && (forall k :: 0 <= k < |reply| && IsKept(m, k) ==> reply[k] == request[k])
    && reply[m] == 0 && reply[m + 1] == 0
    && WellFormed(reply) && Calc(reply[14..m]) == 0 && Calc(reply[m..end]) == 0
  }

  /** The byte the code leaves at position k, outside the checksum fields. */
  function NewByte(request: seq<Byte>, mac: seq<Byte>, k: nat): Byte
    requires WellFormed(request) && |mac| == MAC_SIZE && k < |request|
  {
    var m := IcmpStart(request);
    if k < 6 then request[k + 6]
    else if k < 12 then mac[k - 6]
    else if ETH_HLEN + 12 <= k < ETH_HLEN + 16 then request[k + 4]
    else if ETH_HLEN + 16 <= k < ETH_HLEN + 20 then request[k - 4]
    else if m <= k < m + 2 then 0
    else request[k]
  }

  predicate ChecksumByte(request: seq<Byte>, k: nat)
    requires WellFormed(request)
  {
    ETH_HLEN + 10 <= k < ETH_HLEN + 12 || IcmpStart(request) + 2 <= k < IcmpStart(request) + 4
  }

  ghost predicate Rewritten(request: seq<Byte>, reply: seq<Byte>, mac: seq<Byte>)
    requires WellFormed(request) && |reply| == |request| && |mac| == MAC_SIZE
  {
    forall k :: 0 <= k < |reply| && !ChecksumByte(request, k) ==> reply[k] == NewByte(request, mac, k)
  }

  lemma Piece(request: seq<Byte>, reply: seq<Byte>, mac: seq<Byte>, from: nat, end: nat, bytes: seq<Byte>)
    requires WellFormed(request) && |reply| == |request| && |mac| == MAC_SIZE && Rewritten(request, reply, mac)
    requires from <= end <= |reply| && |bytes| == end - from
    requires forall k :: from <= k < end ==> !ChecksumByte(request, k) && NewByte(request, mac, k) == bytes[k - from]
    ensures reply[from..end] == bytes
  {
    hide WellFormed, NewByte, ChecksumByte;
  }

  lemma RewrittenIsReply(request: seq<Byte>, reply: seq<Byte>, mac: seq<Byte>)
    requires WellFormed(request) && |reply| == |request| && |mac| == MAC_SIZE && Rewritten(request, reply, mac)
    requires var m := IcmpStart(request); Calc(reply[ETH_HLEN..m]) == 0 && Calc(reply[m..ETH_HLEN + TotalLength(request)]) == 0
    ensures IsReply(request, reply, mac)
  {
    hide Calc;
    assert reply[ETH_HLEN] == request[ETH_HLEN] && reply[ETH_HLEN + 2] == request[ETH_HLEN + 2] && reply[ETH_HLEN + 3] == request[ETH_HLEN + 3];
    Piece(request, reply, mac, 0, 6, request[6..12]);
    Piece(request, reply, mac, 6, 12, mac);
    Piece(request, reply, mac, ETH_HLEN + 12, ETH_HLEN + 16, request[ETH_HLEN + 16..ETH_HLEN + 20]);
    Piece(request, reply, mac, ETH_HLEN + 16, ETH_HLEN + 20, request[ETH_HLEN + 12..ETH_HLEN + 16]);
    forall k | 0 <= k < |reply| && IsKept(IcmpStart(request), k)
      ensures reply[k] == request[k]
    {
      assert reply[k] == NewByte(request, mac, k);
    }
    assert HeaderLength(reply) == HeaderLength(request) && TotalLength(reply) == TotalLength(request);
  }

  class NetworkPacket {
    const frame: array<Byte>
    /** What was handed to the driver's send function. */
    var sent: seq<seq<Byte>>

    constructor (content: seq<Byte>)
      ensures fresh(frame) && frame[..] == content && sent == []
    {
      frame := new Byte[|content|](i requires 0 <= i < |content| => content[i]);
      sent := [];
    }

    /** memcpy into the frame */
    method Write(at: nat, bytes: seq<Byte>)
      requires at + |bytes| <= frame.Length
      modifies frame
      ensures forall k :: 0 <= k < frame.Length ==> frame[k] == if at <= k < at + |bytes| then bytes[k - at] else old(frame[k])
    {
      for i := 0 to |bytes|
        invariant forall k :: 0 <= k < frame.Length ==> frame[k] == if at <= k < at + i then bytes[k - at] else old(frame[k])
      {
        frame[at + i] := bytes[i];
      }
    }

    /** fast_memswap */
    method Swap(a: nat, b: nat, length: nat)
      requires a + length <= b && b + length <= frame.Length
      modifies frame
      ensures forall k :: 0 <= k < frame.Length ==> 
        frame[k] == if a <= k < a + length then old(frame[k - a + b]) else if b <= k < b + length then old(frame[k - b + a]) else old(frame[k])
    {
      var x, y := frame[a..a + length], frame[b..b + length];
      Write(a, y);
      Write(b, x);
    }

    /** Exchanges the addresses with fast_memswap and exchanges them again byte by byte, so that the frame stays
        as it was. */
    method ReverseSourceAndDestination(source: nat, destination: nat)
      requires destination + MAC_SIZE <= source && source + MAC_SIZE <= frame.Length
      modifies frame
      ensures forall k :: 0 <= k < frame.Length ==> frame[k] == old(frame[k])
    {
      Swap(destination, source, MAC_SIZE);
      var temp := frame[source..source + MAC_SIZE];
      Write(source, frame[destination..destination + MAC_SIZE]);
      Write(destination, temp);
    }

    /** reverseIPSourceAndDestination */
    method ReverseIPSourceAndDestination()
      requires frame.Length >= ETH_HLEN + 20
      modifies frame
      ensures forall k :: 0 <= k < frame.Length ==> 
        frame[k] == if ETH_HLEN + 12 <= k < ETH_HLEN + 16 then old(frame[k + 4])
                    else if ETH_HLEN + 16 <= k < ETH_HLEN + 20 then old(frame[k - 4])
                    else old(frame[k])
    {
      var temp := frame[ETH_HLEN + 16..ETH_HLEN + 20];
      Write(ETH_HLEN + 16, frame[ETH_HLEN + 12..ETH_HLEN + 16]);
      Write(ETH_HLEN + 12, temp);
    }

    /** Zeroes the checksum field, computes the checksum from `start` to `end`, and stores it. */
    method StoreChecksum(start: nat, end: nat, at: nat)
      requires start <= at && (at - start) % 2 == 0 && at + 2 <= end <= frame.Length && end - start <= 0xFFFF
      modifies frame
      ensures Calc(frame[start..end]) == 0
      ensures forall k :: 0 <= k < frame.Length && k != at && k != at + 1 ==> frame[k] == old(frame[k])
    {
      hide Calc;
      frame[at], frame[at + 1] := 0, 0;
      ghost var before := frame[start..end];
      var c := CalcSum(frame, start, end - start);
      frame[at], frame[at + 1] := c % 256, c / 256;
      assert frame[start..end] == Stored(before, at - start, c);
      StoredChecksumVerifies(before, at - start);
    }

    /** processICMPPacket */
    method ProcessICMPPacket(mac: seq<Byte>)
      requires |mac| == MAC_SIZE && WellFormed(frame[..])
      modifies this, frame
      ensures var request := old(frame[..]);
        if request[14 + request[14] % 16 * 4] == 8
        then IsReply(request, frame[..], mac) && sent == old(sent) + [frame[..]]
        else frame[..] == request && sent == old(sent)
    {
      hide Calc, IsReply;
      ghost var request := frame[..];
      var ihl := frame[ETH_HLEN] % 16 * 4;
      var total: nat := TotalLength(frame[..]);
      var payloadSize := total - ihl;
      var icmp := ETH_HLEN + ihl;
      if frame[icmp] == ICMP_ECHO {
        var destinationMACAddress := frame[6..12];
        ReverseSourceAndDestination(6, 0);
        Write(6, mac);
        Write(0, destinationMACAddress);
        ReverseIPSourceAndDestination();
        frame[icmp] := 0;
        frame[icmp + 1] := 0;
        StoreChecksum(icmp, icmp + payloadSize, icmp + 2);
        ghost var message := frame[icmp..icmp + payloadSize];
        StoreChecksum(ETH_HLEN, icmp, ETH_HLEN + 10);
        assert frame[icmp..icmp + payloadSize] == message;
        assert Rewritten(request, frame[..], mac);
        assert frame[..][ETH_HLEN..icmp] == frame[ETH_HLEN..icmp] && frame[..][icmp..icmp + payloadSize] == message;
        RewrittenIsReply(request, frame[..], mac);
        sent := sent + [frame[..]];
      }
    }
  }
}
