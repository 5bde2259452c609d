/** SmartLink: a message sent in the lengths of broadcast packets. */
module SmartLinks {
  import opened Machine

  const BUFFER: nat := 2000

  /** Whether `sendto` succeeds with the last of the packets sent so far. */
  type Network = seq<int> -> bool

  /** The value of `errno` at each call of the sender. */
  type ErrorNumbers = nat -> int

  // ----- The packets of a message

  /** A message the encoding is made for. */
  predicate Printable(m: seq<int>)
  {
    |m| <= 44 && forall k :: 0 <= k < |m| ==> 32 <= m[k] < 127
  }

  function Tens(c: int): int
  {
    (c - 32) / 10
  }

  function Ones(c: int): int
  {
    (c - 32) % 10
  }

  function Header(n: int): seq<int>
  {
    [276, 341, 276, 341, 276, 341, 342 + n, 1302 + n, 342 + n, 1302 + n]
  }

  function TensLength(k: int, c: int): int
  {
    402 + 20 * k + Tens(c)
  }

  function OnesLength(k: int, c: int): int
  {
    402 + 20 * k + 10 + Ones(c)
  }

  /** The packets of the character at `k`. */
  function CharPackets(k: int, c: int): seq<int>
  {
    [TensLength(k, c), TensLength(k, c), OnesLength(k, c), OnesLength(k, c)]
  }

  function DataPackets(m: seq<int>): seq<int>
  {
    if m == [] then [] else DataPackets(m[..|m| - 1]) + CharPackets(|m| - 1, m[|m| - 1])
  }

  /** All packets, in the order they are sent. */
  function Packets(m: seq<int>): seq<int>
  {
    Header(|m| - 1) + DataPackets(m)
  }

  lemma PacketsMore(header: seq<int>, m: seq<int>, k: nat)
    requires k < |m|
    ensures header + DataPackets(m[..k]) + CharPackets(k, m[k]) == header + DataPackets(m[..k + 1])
  {
    assert m[..k + 1][..k] == m[..k];
  }

  // ----- Which lengths there are

  /** A data length is that of a digit of some character. */
  lemma {:induction false} DataLengths(m: seq<int>, x: int)
    ensures x in DataPackets(m) <==> exists k :: 0 <= k < |m| && (x == TensLength(k, m[k]) || x == OnesLength(k, m[k]))
    decreases |m|
  {
    if m != [] {
      var n := |m| - 1;
      DataLengths(m[..n], x);
      if x in DataPackets(m[..n]) {
        var k :| 0 <= k < n && (x == TensLength(k, m[..n][k]) || x == OnesLength(k, m[..n][k]));
        assert m[..n][k] == m[k];
      }
      if k :| 0 <= k < |m| && (x == TensLength(k, m[k]) || x == OnesLength(k, m[k])) {
        assert k < n ==> m[..n][k] == m[k];
        assert k == n ==> x in CharPackets(n, m[n]);
      }
    }
  }

  /** The intervals: lengths of headers, of counts, and of each digit of each place. */
  lemma DataBounds(m: seq<int>, x: int)
    requires Printable(m) && x in DataPackets(m)
    ensures 402 <= x < 402 + 20 * |m| <= 1282
  {
    DataLengths(m, x);
    var k :| 0 <= k < |m| && (x == TensLength(k, m[k]) || x == OnesLength(k, m[k]));
    Digits(m[k]);
  }

  lemma Digits(c: int)
    requires 32 <= c < 127
    ensures 0 <= Tens(c) < 10 && 0 <= Ones(c) < 10 && c == 32 + 10 * Tens(c) + Ones(c)
  {
  }

  /** Every packet fits the buffer. */
  lemma PacketsFit(m: seq<int>, x: int)
    requires Printable(m) && x in Packets(m)
    ensures 276 <= x <= 1345 < BUFFER
  {
    if x in DataPackets(m) {
      DataBounds(m, x);
    }
  }

  /** A length in the interval of a place's digit is that digit's. */
  lemma DigitAlone(m: seq<int>, k: nat, d: nat)
    requires Printable(m) && k < |m| && d < 10
    ensures 402 + 20 * k + d in Packets(m) <==> d == Tens(m[k])
    ensures 402 + 20 * k + 10 + d in Packets(m) <==> d == Ones(m[k])
  {
    var x, y := 402 + 20 * k + d, 402 + 20 * k + 10 + d;
    DataLengths(m, x);
    DataLengths(m, y);
    Digits(m[k]);
    forall j | 0 <= j < |m|
      ensures TensLength(j, m[j]) == x ==> j == k && d == Tens(m[k])
      ensures OnesLength(j, m[j]) == y ==> j == k && d == Ones(m[k])
      ensures OnesLength(j, m[j]) != x && TensLength(j, m[j]) != y
    {
      Digits(m[j]);
    }
    assert d == Tens(m[k]) ==> x == TensLength(k, m[k]);
    assert d == Ones(m[k]) ==> y == OnesLength(k, m[k]);
    NotHeader(|m| - 1, x);
    NotHeader(|m| - 1, y);
  }

  lemma NotHeader(n: int, x: int)
    requires -1 <= n < 44 && 402 <= x < 1282
    ensures x !in Header(n)
  {
  }

  lemma CountAlone(m: seq<int>, n: nat)
    requires Printable(m) && n <= 44
    ensures 1301 + n in Packets(m) <==> n == |m|
  {
    if 1301 + n in DataPackets(m) {
      DataBounds(m, 1301 + n);
    }
    assert 1302 + (|m| - 1) in Header(|m| - 1);
  }

  /** The count can be read below the data as well. */
  lemma CountBelow(m: seq<int>, n: nat)
    requires Printable(m) && 1 <= n <= 60
    ensures 341 + n in Packets(m) <==> n == |m|
  {
    if 341 + n in DataPackets(m) {
      DataBounds(m, 341 + n);
    }
    assert 342 + (|m| - 1) in Header(|m| - 1);
  }

  /** How often and where each header length is sent: the marks three times at the
      beginning, one after the other, and then each count twice. */
  lemma HeaderPlaces(m: seq<int>, i: nat)
    requires Printable(m) && m != [] && i < |Packets(m)|
    ensures Packets(m)[i] == 276 <==> i == 0 || i == 2 || i == 4
    ensures Packets(m)[i] == 341 <==> i == 1 || i == 3 || i == 5
    ensures Packets(m)[i] == 341 + |m| <==> i == 6 || i == 8
    ensures Packets(m)[i] == 1301 + |m| <==> i == 7 || i == 9
  {
    if i >= 10 {
      assert Packets(m)[i] == DataPackets(m)[i - 10];
      DataBounds(m, Packets(m)[i]);
    }
  }

  // ----- Reading the message back

  /** The first of the lengths in an interval, or its end. */
  function Find(lengths: set<int>, lo: int, hi: int): (x: int)
    requires lo <= hi
    ensures lo <= x <= hi && (x < hi ==> x in lengths) && forall y :: lo <= y < x ==> y !in lengths
    decreases hi - lo
  {
    if lo == hi || lo in lengths then lo else Find(lengths, lo + 1, hi)
  }

  /** The character that a place holds. */
  function CharAt(lengths: set<int>, k: nat): int
  {
    var tens, ones := 402 + 20 * k, 402 + 20 * k + 10;
    32 + 10 * (Find(lengths, tens, tens + 10) - tens) + (Find(lengths, ones, ones + 10) - ones)
  }

  /** What a listener makes of the lengths it has heard. */
  function Decode(lengths: set<int>): seq<int>
  {
    seq(Find(lengths, 1301, 1346) - 1301, (k: nat) => CharAt(lengths, k))
  }

  function Heard(ps: seq<int>): set<int>
  {
    set x | x in ps
  }

  /** The lengths alone determine the message. */
  lemma DecodeSent(m: seq<int>)
    requires Printable(m)
    ensures Decode(Heard(Packets(m))) == m
  {
    var l := Heard(Packets(m));
    var x := Find(l, 1301, 1346);
    CountAlone(m, |m|);
    assert 1301 + |m| in l;
    if x < 1346 {
      CountAlone(m, x - 1301);
    }
    forall k | 0 <= k < |m|
      ensures CharAt(l, k) == m[k]
    {
      PlaceRead(m, k);
    }
  }

  lemma PlaceRead(m: seq<int>, k: nat)
    requires Printable(m) && k < |m|
    ensures CharAt(Heard(Packets(m)), k) == m[k]
  {
    var l := Heard(Packets(m));
    var tens, ones := 402 + 20 * k, 402 + 20 * k + 10;
    Digits(m[k]);
    forall y | tens <= y < tens + 10
      ensures y in l <==> y == tens + Tens(m[k])
    {
      DigitAlone(m, k, y - tens);
    }
    forall y | ones <= y < ones + 10
      ensures y in l <==> y == ones + Ones(m[k])
    {
      DigitAlone(m, k, y - ones);
    }
    FindOnly(l, tens, tens + Tens(m[k]));
    FindOnly(l, ones, ones + Ones(m[k]));
  }

  lemma FindOnly(l: set<int>, lo: int, x: int)
    requires lo <= x < lo + 10 && forall y :: lo <= y < lo + 10 ==> (y in l <==> y == x)
    ensures Find(l, lo, lo + 10) == x
  {
    assert x in l;
  }

  /** Every data packet is sent exactly twice. */
  lemma SentTwice(m: seq<int>, x: int)
    requires Printable(m) && x in DataPackets(m)
    ensures multiset(Packets(m))[x] == 2
  {
    DataBounds(m, x);
    NotHeader(|m| - 1, x);
    DataTwice(m, x);
    assert multiset(Packets(m)) == multiset(Header(|m| - 1)) + multiset(DataPackets(m));
  }

  lemma {:induction false} DataTwice(m: seq<int>, x: int)
    requires Printable(m)
    ensures multiset(DataPackets(m))[x] == if x in DataPackets(m) then 2 else 0
    decreases |m|
  {
    if m != [] {
      var n := |m| - 1;
      DataTwice(m[..n], x);
      var ps := CharPackets(n, m[n]);
      assert multiset(DataPackets(m)) == multiset(DataPackets(m[..n])) + multiset(ps);
      CharTwice(n, m[n], x);
      if x in ps && x in DataPackets(m[..n]) {
        DataBounds(m[..n], x);
      }
    }
  }

  lemma CharTwice(k: nat, c: int, x: int)
    requires 32 <= c < 127
    ensures multiset(CharPackets(k, c))[x] == if x in CharPackets(k, c) then 2 else 0
    ensures x in CharPackets(k, c) ==> 402 + 20 * k <= x < 402 + 20 * k + 20
  {
    Digits(c);
    var t, o := TensLength(k, c), OnesLength(k, c);
    assert multiset([t, t, o, o])[t] == 2 && multiset([t, t, o, o])[o] == 2;
  }

  /** In whatever order packets arrive, and if one copy of any data packet is lost,
      the message is read back. */
  lemma {:induction false} LossTolerated(m: seq<int>, got: seq<int>)
    requires Printable(m) && multiset(got) <= multiset(Packets(m))
    requires forall x :: x in Header(|m| - 1) ==> x in got
    requires forall x :: x in DataPackets(m) ==> multiset(got)[x] + 1 >= multiset(Packets(m))[x]
    ensures Decode(Heard(got)) == m
  {
    forall x
      ensures x in got <==> x in Packets(m)
    {
      if x in DataPackets(m) {
        SentTwice(m, x);
        assert x in multiset(got);
      }
      if x in got {
        assert x in multiset(got);
        assert x in multiset(Packets(m));
      }
    }
    assert Heard(got) == Heard(Packets(m));
    DecodeSent(m);
  }

  // ----- Sending

  /** What is sent of `ps` after `t` when sending stops at the first failure, and
      whether there was none. */
  ghost function Sent(net: Network, t: seq<int>, ps: seq<int>): (seq<int>, bool)
    decreases |ps|
  {
    if ps == [] then (t, true)
    else if !net(t + [ps[0]]) then (t + [ps[0]], false)
    else Sent(net, t + [ps[0]], ps[1..])
  }

  lemma {:induction false} SentConcat(net: Network, t: seq<int>, a: seq<int>, b: seq<int>)
    ensures var r := Sent(net, t, a); Sent(net, t, a + b) == if r.1 then Sent(net, r.0, b) else r
    decreases |a|
  {
    if a == [] {
      assert a + b == b;
    } else {
      assert (a + b)[1..] == a[1..] + b;
      SentConcat(net, t + [a[0]], a[1..], b);
    }
  }

  /** If no packet fails, all are sent; otherwise exactly those up to the first that
      fails. */
  lemma {:induction false} SentExact(net: Network, t: seq<int>, ps: seq<int>) returns (n: nat)
    ensures n <= |ps| && Sent(net, t, ps).0 == t + ps[..n]
    ensures forall k :: 0 < k < n ==> net(t + ps[..k])
    ensures Sent(net, t, ps).1 ==> n == |ps|
    ensures !Sent(net, t, ps).1 ==> 0 < n && !net(t + ps[..n])
    decreases |ps|
  {
    if ps == [] {
      n := 0;
    } else {
      assert ps[..1] == [ps[0]];
      if !net(t + [ps[0]]) {
        n := 1;
      } else {
        var m := SentExact(net, t + [ps[0]], ps[1..]);
        n := m + 1;
        forall k | 0 < k <= |ps|
          ensures t + ps[..k] == t + [ps[0]] + ps[1..][..k - 1]
        {
        }
      }
    }
  }

  lemma {:induction false} PacketCount(m: seq<int>)
    ensures |DataPackets(m)| == 4 * |m|
    decreases |m|
  {
    if m != [] {
      PacketCount(m[..|m| - 1]);
    }
  }

  /** The sender's static variables. */
  class SmartLink {
    const network: Network
    const errno: ErrorNumbers
    /** `fabao`. */
    var enabled: bool
    /** Whether `sendto_ret` is negative. */
    var failed: bool
    /** `shibai`. */
    var failure: int
    /** The calls of `smart_link_sendto`, and the packets handed to the network. */
    var calls: nat
    var sent: seq<int>

    /** Where sending is after `n` calls that were to end with `r`: after a failure
        every call takes the error number again. */
    ghost predicate Stands(r: (seq<int>, bool), n: nat)
      reads this
    {
      sent == r.0 && enabled == r.1 && failed == !r.1 && calls == n && failure == if r.1 then 0 else errno(n)
    }

    constructor (network: Network, errno: ErrorNumbers)
      ensures this.network == network && this.errno == errno && sent == [] && calls == 0 && !enabled && !failed && failure == 0
    {
      this.network, this.errno := network, errno;
      enabled, failed, failure, calls, sent := false, false, 0, 0, [];
    }

    /** The part of `nk_smart_link_init` that matters here; what an earlier failure left
        stays until the next packet. */
    method Init()
      modifies this`enabled
      ensures enabled
    {
      enabled := true;
    }

    /** `smart_link_sendto`. */
    method SendTo(length: int)
      requires enabled || failed
      modifies this
      ensures Stands(if old(enabled) then Sent(network, old(sent), [length]) else (old(sent), false), old(calls) + 1)
    {
      calls := calls + 1;
      if enabled {
        sent := sent + [length];
        failed := !network(sent);
        failure := 0;
      }
      if failed {
        failure := errno(calls);
        enabled := false;
      }
    }

    /** Sends some packets one by one. */
    method SendFour(a: int, b: int, c: int, d: int)
      requires enabled || failed
      modifies this
      ensures Stands(if old(enabled) then Sent(network, old(sent), [a, b, c, d]) else (old(sent), false), old(calls) + 4)
    {
      SendTo(a);
      SendTo(b);
      SendTo(c);
      SendTo(d);
      ghost var t := old(sent);
      SentConcat(network, t, [a], [b]);
      SentConcat(network, t, [a] + [b], [c]);
      SentConcat(network, t, [a] + [b] + [c], [d]);
      assert [a] + [b] + [c] + [d] == [a, b, c, d];
    }

    /** `smart_link_send_baotou`. */
    method SendHeader(n: int)
      requires enabled || failed
      modifies this
      ensures Stands(if old(enabled) then Sent(network, old(sent), Header(n)) else (old(sent), false), old(calls) + 10)
    {
      ghost var t := old(sent);
      ghost var a, b := [276, 341, 276, 341], [276, 341, 342 + n, 1302 + n];
      SendFour(276, 341, 276, 341);
      SendFour(276, 341, 342 + n, 1302 + n);
      SendTo(342 + n);
      SendTo(1302 + n);
      SentConcat(network, t, a, b);
      SentConcat(network, t, a + b, [342 + n]);
      SentConcat(network, t, a + b + [342 + n], [1302 + n]);
      assert a + b + [342 + n] + [1302 + n] == Header(n);
    }

    /** The digits of the message, two for each character. */
    static method SplitDigits(message: seq<int>) returns (digits: seq<int>)
      requires |message| <= 44
      ensures |digits| == 90
      ensures forall k :: 0 <= k < |message| ==> digits[2 * k] == Tens(message[k]) && digits[2 * k + 1] == Ones(message[k])
    {
      digits := seq(90, _ => 0);
      for k := 0 to |message|
        invariant |digits| == 90
        invariant forall j :: 0 <= j < k ==> digits[2 * j] == Tens(message[j]) && digits[2 * j + 1] == Ones(message[j])
      {
        digits := digits[2 * k := (message[k] - 32) / 10][2 * k + 1 := (message[k] - 32) % 10];
      }
    }

    /** The packets of one character, after those before it. */
    method SendChar(k: nat, c: int, tens: int, ones: int, ghost t: seq<int>, ghost before: seq<int>)
      requires tens == Tens(c) && ones == Ones(c) && Stands(Sent(network, t, before), calls)
      modifies this
      ensures Stands(Sent(network, t, before + CharPackets(k, c)), old(calls) + 4)
    {
      var a, b := 402 + 20 * k + tens, 402 + 20 * k + 10 + ones;
      SentConcat(network, t, before, CharPackets(k, c));
      assert CharPackets(k, c) == [a, a, b, b];
      SendFour(a, a, b, b);
    }

    /** `nk_smart_link_send`: the packets of the message up to the first failure; the
        result is the error number as the last call found it. */
    method Send(message: seq<int>) returns (result: int)
      requires enabled && Printable(message)
      modifies this
      ensures var r := Sent(network, old(sent), Packets(message));
              && Stands(r, old(calls) + |Packets(message)|)
              && result == if r.1 then 0 else errno(calls)
    {
      var digits := SplitDigits(message);
      SendHeader(|message| - 1);
      SendData(message, digits, old(sent), Header(|message| - 1));
      PacketCount(message);
      result := failure;
    }

    /** Its second loop. */
    method SendData(message: seq<int>, digits: seq<int>, ghost t: seq<int>, ghost header: seq<int>)
      requires |message| <= 44 && |digits| == 90 && Stands(Sent(network, t, header), calls)
      requires forall k :: 0 <= k < |message| ==> digits[2 * k] == Tens(message[k]) && digits[2 * k + 1] == Ones(message[k])
      modifies this
      ensures Stands(Sent(network, t, header + DataPackets(message)), old(calls) + 4 * |message|)
    {
      assert header + DataPackets(message[..0]) == header;
      for k := 0 to |message|
        invariant Stands(Sent(network, t, header + DataPackets(message[..k])), old(calls) + 4 * k)
      {
        SendChar(k, message[k], digits[2 * k], digits[2 * k + 1], t, header + DataPackets(message[..k]));
        PacketsMore(header, message, k);
      }
      assert message[..|message|] == message;
    }

    /** `JA_smartlink_sendpacket`, where setting up the socket answers `ready`: an
        earlier failure makes no difference. */
    method SendPacket(message: seq<int>, ready: int) returns (result: int)
      requires Printable(message)
      modifies this
      ensures ready != 0 ==> result == ready && sent == old(sent)
      ensures ready == 0 ==>
                var r := Sent(network, old(sent), Packets(message)); sent == r.0 && result == if r.1 then 0 else errno(calls)
    {
      Init();
      if ready != 0 {
        return ready;
      }
      result := Send(message);
    }
  }
}
