/**
 Sending and receiving arrays of numbers in network byte order (communication/Sender.hpp,
 communication/Receiver.hpp, helpers/Endianness.hpp). The sender reverses the bytes of every element chunk
 by chunk, the receiver in the whole array at the end, each only on a little-endian host; the socket takes
 and gives bytes in pieces of any size.
 */
module Codec {
  import opened Wrappers

  type Byte = x: int | 0 <= x < 256

  /** The size of the buffers on both sides. */
  const LEN: nat := 4096

  // ------------------------------------------------------------------------
  // Numbers and bytes.

  /** The w lowest bytes of v, the highest first. */
  function BigEndian(v: nat, w: nat): (b: seq<Byte>)
    ensures |b| == w
  {
    if w == 0 then [] else BigEndian(v / 256, w - 1) + [v % 256]
  }

  function LittleEndian(v: nat, w: nat): (b: seq<Byte>)
    ensures |b| == w
  {
    if w == 0 then [] else [v % 256] + LittleEndian(v / 256, w - 1)
  }

  function Number(b: seq<Byte>): nat {
    if b == [] then 0 else 256 * Number(b[..|b| - 1]) + b[|b| - 1]
  }

  function Power(w: nat): nat { if w == 0 then 1 else 256 * Power(w - 1) }

  /** The byte at k counts for the power 256^(w - 1 - k). */
  lemma {:induction false} BigEndianAt(v: nat, w: nat, k: nat)
    requires k < w
    ensures Power(w - 1 - k) > 0 && BigEndian(v, w)[k] == (v / Power(w - 1 - k)) % 256
  {
    PowerPositive(w - 1 - k);
    if k < w - 1 {
      BigEndianAt(v / 256, w - 1, k);
      DivideTwice(v, Power(w - 2 - k));
    }
  }

  lemma {:induction false} PowerPositive(w: nat)
    ensures Power(w) > 0
  {
    if w > 0 { PowerPositive(w - 1); }
  }

  lemma DivideTwice(v: nat, p: nat)
    requires p > 0
    ensures (v / 256) / p == v / (256 * p)
  {
    var q := v / (256 * p);
    var r := v % (256 * p);
    assert v == 256 * (p * q) + r;
    assert v / 256 == p * q + r / 256;
    assert r / 256 < p;
    DivideExact(v / 256, p, q, r / 256);
  }

  lemma DivideExact(x: nat, p: nat, q: nat, r: nat)
    requires p > 0 && x == p * q + r && r < p
    ensures x / p == q
  {
    var d := x / p - q;
    assert p * (x / p) + x % p == p * q + r;
    assert p * d == r - x % p;
    Multiple(p, d);
  }

  lemma Multiple(p: int, d: int)
    requires p > 0
    ensures d >= 1 ==> p * d >= p
    ensures d <= -1 ==> p * d <= -p
  {
  }

  /** The memory of a host that holds these numbers. */
  function InMemory(little: bool, values: seq<nat>, w: nat): (m: seq<Byte>)
    ensures |m| == |values| * w
  {
    if values == [] then [] else Encoded(little, values[0], w) + InMemory(little, values[1..], w)
  }

  function Encoded(little: bool, v: nat, w: nat): (b: seq<Byte>)
    ensures |b| == w
  {
    if little then LittleEndian(v, w) else BigEndian(v, w)
  }

  /** The numbers lie one behind the other, each in the byte order of the host. */
  lemma {:induction false} InMemoryPush(little: bool, values: seq<nat>, v: nat, w: nat)
    ensures InMemory(little, values + [v], w) == InMemory(little, values, w) + Encoded(little, v, w)
  {
    if values == [] {
      InMemoryStep(little, v, [], w);
      assert [] + [v] == [v] + [];
      AddNothing(Encoded(little, v, w));
    } else {
      var x, rest := values[0], values[1..];
      InMemoryPush(little, rest, v, w);
      InMemoryStep(little, x, rest + [v], w);
      InMemoryStep(little, x, rest, w);
      assert values == [x] + rest && values + [v] == [x] + (rest + [v]);
      Reassociate(Encoded(little, x, w), InMemory(little, rest, w), Encoded(little, v, w));
    }
  }

  lemma InMemoryStep(little: bool, x: nat, rest: seq<nat>, w: nat)
    ensures InMemory(little, [x] + rest, w) == Encoded(little, x, w) + InMemory(little, rest, w)
  {
    assert ([x] + rest)[1..] == rest;
  }

  function Reverse(b: seq<Byte>): (r: seq<Byte>)
    ensures |r| == |b| && forall i | 0 <= i < |b| :: r[i] == b[|b| - 1 - i]
  {
    seq(|b|, i requires 0 <= i < |b| => b[|b| - 1 - i])
  }

  /** Every element of w bytes reversed; what is left over at the end stays as it is. */
  function ReverseEach(m: seq<Byte>, w: nat): (r: seq<Byte>)
    requires w > 0
    ensures |r| == |m|
  {
    if |m| < w then m else Reverse(m[..w]) + ReverseEach(m[w..], w)
  }

  /** What is on the wire for the memory of the sender, and in the memory of the receiver for the wire. */
  function Converted(little: bool, isChar: bool, w: nat, m: seq<Byte>): (r: seq<Byte>)
    requires w > 0
    ensures |r| == |m|
  {
    if !isChar && little then ReverseEach(m, w) else m
  }

  lemma {:induction false} NumberOfBigEndian(v: nat, w: nat)
    requires v < Power(w)
    ensures Number(BigEndian(v, w)) == v
  {
    if w > 0 {
      NumberOfBigEndian(v / 256, w - 1);
      assert BigEndian(v, w)[..w - 1] == BigEndian(v / 256, w - 1);
    }
  }

  lemma {:induction false} ReversedBigEndian(v: nat, w: nat)
    ensures Reverse(BigEndian(v, w)) == LittleEndian(v, w)
    ensures Reverse(LittleEndian(v, w)) == BigEndian(v, w)
  {
    if w > 0 {
      ReversedBigEndian(v / 256, w - 1);
      ReversePush(BigEndian(v / 256, w - 1), v % 256);
      ReversePush(LittleEndian(v / 256, w - 1), v % 256);
    }
  }

  lemma ReversePush(b: seq<Byte>, x: Byte)
    ensures Reverse(b + [x]) == [x] + Reverse(b)
    ensures Reverse([x] + b) == Reverse(b) + [x]
  {
  }

  lemma ReverseFirst(x: seq<Byte>, rest: seq<Byte>, w: nat)
    requires w > 0 && |x| == w
    ensures ReverseEach(x + rest, w) == Reverse(x) + ReverseEach(rest, w)
  {
    assert (x + rest)[..w] == x && (x + rest)[w..] == rest;
  }

  /** So many bytes are a number of whole elements. */
  ghost predicate Whole(n: nat, w: nat) {
    n == 0 || (w > 0 && n >= w && Whole(n - w, w))
  }

  lemma {:induction false} WholeTimes(q: nat, w: nat)
    requires w > 0
    ensures Whole(q * w, w)
  {
    if q > 0 {
      WholeTimes(q - 1, w);
      Minus(q, w);
    }
  }

  lemma Minus(q: nat, w: nat)
    requires q > 0
    ensures q * w >= w && q * w - w == (q - 1) * w
  {
  }

  lemma DivMod(n: nat, w: nat)
    requires w > 0
    ensures 0 <= (n / w) * w == n - n % w && n % w < w
  {
  }

  lemma {:induction false} WholeSum(n: nat, k: nat, w: nat)
    requires Whole(n, w) && Whole(k, w)
    ensures Whole(n + k, w)
    decreases k
  {
    if k > 0 {
      WholeSum(n + w, k - w, w);
    }
  }

  /** The next element fits. */
  lemma {:induction false} WholeNext(n: nat, k: nat, w: nat)
    requires Whole(n, w) && Whole(k, w) && n < k
    ensures n + w <= k && Whole(n + w, w)
  {
    if n > 0 {
      WholeNext(n - w, k - w, w);
    }
  }

  /** A chunk of whole elements can be converted by itself. */
  lemma {:induction false} ReverseEachConcat(a: seq<Byte>, b: seq<Byte>, w: nat)
    requires w > 0 && Whole(|a|, w)
    ensures ReverseEach(a + b, w) == ReverseEach(a, w) + ReverseEach(b, w)
    decreases |a|
  {
    if a == [] {
      AddNothing(b);
      AddNothing(ReverseEach(b, w));
    } else {
      var x, rest := a[..w], a[w..];
      ReverseEachConcat(rest, b, w);
      assert a == x + rest && a + b == x + (rest + b);
      ReverseFirst(x, rest + b, w);
      ReverseFirst(x, rest, w);
      Reassociate(Reverse(x), ReverseEach(rest, w), ReverseEach(b, w));
    }
  }

  lemma ReverseEachSplits(m: seq<Byte>, w: nat, n: nat)
    requires w > 0 && Whole(n, w) && n <= |m|
    ensures ReverseEach(m, w) == ReverseEach(m[..n], w) + ReverseEach(m[n..], w)
  {
    ReverseEachConcat(m[..n], m[n..], w);
    assert m[..n] + m[n..] == m;
  }

  /** Converting twice gives the bytes back, also behind the last whole element. */
  lemma {:induction false} ReverseEachTwice(m: seq<Byte>, w: nat)
    requires w > 0
    ensures ReverseEach(ReverseEach(m, w), w) == m
    decreases |m|
  {
    if |m| >= w {
      ReverseEachTwice(m[w..], w);
      ReverseFirst(Reverse(m[..w]), ReverseEach(m[w..], w), w);
      assert Reverse(Reverse(m[..w])) == m[..w];
    }
  }

  /** Reversing every element turns one memory layout into the other. */
  lemma {:induction false} ReverseEachOfMemory(little: bool, values: seq<nat>, w: nat)
    requires w > 0
    ensures ReverseEach(InMemory(little, values, w), w) == InMemory(!little, values, w)
    decreases |values|
  {
    if values != [] {
      var m := InMemory(little, values, w);
      var rest := InMemory(little, values[1..], w);
      assert m[w..] == rest;
      ReverseEachOfMemory(little, values[1..], w);
      ReversedBigEndian(values[0], w);
      assert m[..w] == Encoded(little, values[0], w);
    }
  }

  lemma {:induction false} BytesHaveNoOrder(values: seq<nat>)
    ensures InMemory(true, values, 1) == InMemory(false, values, 1)
  {
    if values != [] {
      BytesHaveNoOrder(values[1..]);
      assert LittleEndian(values[0], 1) == [values[0] % 256] + LittleEndian(values[0] / 256, 0);
    }
  }

  /** The wire is big endian whatever the host of the sender, and any host reads its own layout from it. */
  lemma WireIsBigEndian(little: bool, isChar: bool, w: nat, values: seq<nat>)
    requires w > 0 && (isChar ==> w == 1)
    ensures Converted(little, isChar, w, InMemory(little, values, w)) == InMemory(false, values, w)
    ensures Converted(little, isChar, w, InMemory(false, values, w)) == InMemory(little, values, w)
  {
    ReverseEachOfMemory(true, values, w);
    ReverseEachOfMemory(false, values, w);
    if isChar { BytesHaveNoOrder(values); }
  }

  /** Between hosts of one kind the bytes come back for any length, also behind the last whole element. */
  lemma ConvertedTwice(little: bool, isChar: bool, w: nat, m: seq<Byte>)
    requires w > 0
    ensures Converted(little, isChar, w, Converted(little, isChar, w, m)) == m
  {
    ReverseEachTwice(m, w);
  }

  // ------------------------------------------------------------------------
  // The socket.

  class Socket {
    /** The bytes that have been sent and not yet received. */
    var wire: seq<Byte>
    /** Some call has returned 0 or less. */
    ghost var failed: bool

    constructor ()
      ensures wire == [] && !failed
    {
      wire, failed := [], false;
    }

    /** Takes as many of the bytes as it likes; 0 or less is an error. */
    method SendBytes(bytes: seq<Byte>) returns (n: int)
      modifies this
      ensures n <= |bytes|
      ensures wire == old(wire) + if n > 0 then bytes[..n] else []
      ensures failed <==> old(failed) || n <= 0
    {
      n := *;
      if n > |bytes| {
        n := |bytes|;
      }
      if n > 0 {
        wire := wire + bytes[..n];
      } else {
        failed := true;
      }
    }

    /** Writes as many bytes as it likes into the buffer, but at most `max`; 0 or less is an error. */
    method ReceiveBytes(buf: array<Byte>, at: nat, max: nat) returns (n: int)
      requires at + max <= buf.Length
      modifies this, buf
      ensures n <= max && n <= |old(wire)|
      ensures var got: nat := if n > 0 then n else 0;
        && wire == old(wire)[got..]
        && buf[..] == old(buf[..at]) + old(wire)[..got] + old(buf[at + got..])
      ensures failed <==> old(failed) || n <= 0
    {
      n := *;
      if n > max {
        n := max;
      }
      if n > |wire| {
        n := |wire|;
      }
      if n > 0 {
        forall k | 0 <= k < n {
          buf[at + k] := wire[k];
        }
        wire := wire[n..];
      } else {
        failed := true;
      }
    }
  }

  // ------------------------------------------------------------------------
  // Reversing in place.

  /** Of the bytes from lo on, those outside of i..j have been exchanged. */
  ghost predicate Swapped(now: seq<Byte>, was: seq<Byte>, lo: nat, w: nat, i: nat, j: nat) {
    && |now| == |was| && lo <= i <= j <= lo + w <= |was| && i - lo == lo + w - j
    && forall k {:trigger now[k]} | 0 <= k < |was| ::
         now[k] == if lo <= k < i || j <= k < lo + w then was[lo + (lo + w - 1 - k)] else was[k]
  }

  lemma SwapNext(now: seq<Byte>, was: seq<Byte>, lo: nat, w: nat, i: nat, j: nat)
    requires Swapped(now, was, lo, w, i, j) && i < j - 1
    ensures Swapped(now[i := now[j - 1]][j - 1 := now[i]], was, lo, w, i + 1, j - 1)
  {
  }

  /** When at most one byte is left in the middle, all are reversed. */
  lemma SwappedAll(now: seq<Byte>, was: seq<Byte>, lo: nat, w: nat, i: nat, j: nat)
    requires Swapped(now, was, lo, w, i, j) && j <= i + 1
    ensures now == was[..lo] + Reverse(was[lo..lo + w]) + was[lo + w..]
  {
    assert now[..lo] == was[..lo] && now[lo..lo + w] == Reverse(was[lo..lo + w]) && now[lo + w..] == was[lo + w..];
    assert now == now[..lo] + now[lo..lo + w] + now[lo + w..];
  }

  /** reverse_byte_order: std::reverse on the bytes of one element. */
  method ReverseByteOrder(a: array<Byte>, lo: nat, w: nat)
    requires lo + w <= a.Length
    modifies a
    ensures a[..] == old(a[..lo]) + Reverse(old(a[lo..lo + w])) + old(a[lo + w..])
  {
    var i: nat, j: nat := lo, lo + w;
    ghost var was := a[..];
    assert was[..lo] == a[..lo] && was[lo..lo + w] == a[lo..lo + w] && was[lo + w..] == a[lo + w..];
    while i < j && i < j - 1
      invariant Swapped(a[..], was, lo, w, i, j)
      decreases j - i
    {
      ghost var now := a[..];
      a[i], a[j - 1] := a[j - 1], a[i];
      assert a[..] == now[i := now[j - 1]][j - 1 := now[i]];
      SwapNext(now, was, lo, w, i, j);
      i, j := i + 1, j - 1;
    }
    SwappedAll(a[..], was, lo, w, i, j);
  }

  /** The whole elements up to this byte are reversed. */
  ghost predicate ReversedUpTo(a: seq<Byte>, m: seq<Byte>, w: nat, at: nat) {
    w > 0 && Whole(at, w) && at <= |m| && a == PartlyReversed(m, w, at)
  }

  ghost function PartlyReversed(m: seq<Byte>, w: nat, at: nat): seq<Byte>
    requires w > 0 && at <= |m|
  {
    ReverseEach(m[..at], w) + m[at..]
  }

  lemma NothingReversed(m: seq<Byte>, w: nat)
    requires w > 0
    ensures ReversedUpTo(m, m, w, 0)
  {
    assert m[..0] == [] && m[0..] == m && [] + m == m;
  }

  lemma ReversedMore(a: seq<Byte>, a': seq<Byte>, m: seq<Byte>, w: nat, at: nat)
    requires ReversedUpTo(a, m, w, at) && at + w <= |m| && Whole(at + w, w)
    requires a' == a[..at] + Reverse(a[at..at + w]) + a[at + w..]
    ensures ReversedUpTo(a', m, w, at + w)
  {
    var done, x := ReverseEach(m[..at], w), m[at..at + w];
    assert a[..at] == done && a[at..at + w] == x && a[at + w..] == m[at + w..];
    ReverseEachSplits(m[..at + w], w, at);
    assert m[..at + w][..at] == m[..at] && m[..at + w][at..] == x;
    ReverseFirst(x, [], w);
    assert x + [] == x && Reverse(x) + ReverseEach([], w) == Reverse(x);
  }

  /** _data + size / sizeof(T), in bytes. */
  method EndOfElements(size: nat, w: nat) returns (end: nat)
    requires w > 0
    ensures Whole(end, w) && end <= size < end + w
  {
    DivMod(size, w);
    WholeTimes(size / w, w);
    end := (size / w) * w;
  }

  method ReverseNext(a: array<Byte>, at: nat, w: nat, ghost m: seq<Byte>)
    requires ReversedUpTo(a[..], m, w, at) && at + w <= a.Length && Whole(at + w, w)
    modifies a
    ensures ReversedUpTo(a[..], m, w, at + w)
  {
    ghost var before := a[..];
    ReverseByteOrder(a, at, w);
    ReversedMore(before, a[..], m, w, at);
  }

  /** std::for_each over the whole elements in the first `size` bytes. */
  method ReverseAll(a: array<Byte>, size: nat, w: nat)
    requires w > 0 && size <= a.Length
    modifies a
    ensures a[..] == ReverseEach(old(a[..size]), w) + old(a[size..])
  {
    ghost var m := a[..];
    var end := EndOfElements(size, w);
    ReverseElements(a, end, w, m);
    Remainder(m, size, w, end);
  }

  method ReverseElements(a: array<Byte>, end: nat, w: nat, ghost m: seq<Byte>)
    requires w > 0 && Whole(end, w) && end <= a.Length && a[..] == m
    modifies a
    ensures ReversedUpTo(a[..], m, w, end)
  {
    var at: nat := 0;
    NothingReversed(m, w);
    while at < end
      invariant at <= end && ReversedUpTo(a[..], m, w, at)
    {
      WholeNext(at, end, w);
      ReverseNext(a, at, w, m);
      at := at + w;
    }
  }

  /** What is left over behind the last whole element stays as it is. */
  lemma Remainder(m: seq<Byte>, size: nat, w: nat, end: nat)
    requires w > 0 && Whole(end, w) && end <= size <= |m| && size - end < w
    ensures ReverseEach(m[..end], w) + m[end..] == ReverseEach(m[..size], w) + m[size..]
  {
    ReverseEachSplits(m[..size], w, end);
    assert m[..size][..end] == m[..end];
    var tail := m[..size][end..];
    assert ReverseEach(tail, w) == tail;
    assert m[end..] == tail + m[size..];
    Reassociate(ReverseEach(m[..end], w), tail, m[size..]);
  }

  // ------------------------------------------------------------------------
  // Sending.

  /** A chunk that begins and ends between elements, or ends with the data, is converted by itself. */
  lemma ChunkConverted(little: bool, isChar: bool, w: nat, m: seq<Byte>, j: nat, k: nat)
    requires w > 0 && Whole(j, w) && j <= k <= |m| && (k == |m| || Whole(k - j, w))
    ensures Converted(little, isChar, w, m[j..k]) == Converted(little, isChar, w, m)[j..k]
  {
    if !isChar && little {
      ChunkReversed(w, m, j, k);
    }
  }

  lemma ChunkReversed(w: nat, m: seq<Byte>, j: nat, k: nat)
    requires w > 0 && Whole(j, w) && j <= k <= |m| && (k == |m| || Whole(k - j, w))
    ensures ReverseEach(m[j..k], w) == ReverseEach(m, w)[j..k]
  {
    var front, chunk, tail := m[..j], m[j..k], m[k..];
    assert m == front + (chunk + tail);
    ReverseEachConcat(front, chunk + tail, w);
    if k == |m| {
      assert tail == [] && chunk + tail == chunk;
      assert ReverseEach(chunk, w) + [] == ReverseEach(chunk, w);
    } else {
      ReverseEachConcat(chunk, tail, w);
    }
    Middle(ReverseEach(front, w), ReverseEach(chunk, w), ReverseEach(tail, w));
  }

  lemma Middle<T>(a: seq<T>, b: seq<T>, c: seq<T>)
    ensures (a + (b + c))[|a|..|a| + |b|] == b
  {
  }

  /** The bytes at the front of c have been sent. */
  ghost predicate Sent(wire: seq<Byte>, wire0: seq<Byte>, c: seq<Byte>, n: nat) {
    n <= |c| && wire == wire0 + c[..n]
  }

  /** The loop around sendBytes, which gives up only when the socket fails. */
  method Drain(buf: array<Byte>, socket: Socket) returns (ok: bool)
    requires !socket.failed
    modifies socket
    ensures ok <==> !socket.failed
    ensures if ok then socket.wire == old(socket.wire) + buf[..]
            else exists n: nat :: Sent(socket.wire, old(socket.wire), buf[..], n)
  {
    var sent: nat := 0;
    while sent < buf.Length
      invariant sent <= buf.Length && !socket.failed && Sent(socket.wire, old(socket.wire), buf[..], sent)
    {
      var n := socket.SendBytes(buf[sent..]);
      if n <= 0 {
        assert Sent(socket.wire, old(socket.wire), buf[..], sent);
        return false;
      }
      assert buf[..sent] + buf[sent..][..n] == buf[..sent + n];
      sent := sent + n;
    }
    assert buf[..sent] == buf[..];
    return true;
  }

  /** One chunk: filled from the data, converted, and sent. */
  method SendChunk(little: bool, isChar: bool, w: nat, data: array<Byte>, j: nat, buf: array<Byte>, socket: Socket,
                   ghost chunk: seq<Byte>)
    returns (ok: bool)
    requires w > 0 && buf != data && j + buf.Length <= data.Length && data[j..j + buf.Length] == chunk
    requires !socket.failed
    modifies buf, socket
    ensures ok <==> !socket.failed
    ensures var c := Converted(little, isChar, w, chunk);
      if ok then socket.wire == old(socket.wire) + c
      else exists n: nat :: Sent(socket.wire, old(socket.wire), c, n)
  {
    var i := 0;
    while i < buf.Length
      modifies buf
      invariant i <= buf.Length && forall k | 0 <= k < i :: buf[k] == data[j + k]
    {
      buf[i] := data[j + i];
      i := i + 1;
    }
    assert buf[..] == buf[..buf.Length] == chunk;
    if !isChar && little {
      ReverseAll(buf, buf.Length, w);
    }
    assert buf[..] == Converted(little, isChar, w, chunk);
    ok := Drain(buf, socket);
  }

  lemma PartOfPrefix(a: seq<Byte>, m: seq<Byte>, j: nat, k: nat)
    requires j <= k <= |m| <= |a| && a[..|m|] == m
    ensures a[j..k] == m[j..k]
  {
    assert a[..|m|][j..k] == a[j..k];
  }

  method SendNext(little: bool, isChar: bool, w: nat, data: array<Byte>, j: nat, buf: array<Byte>, socket: Socket,
                  ghost m: seq<Byte>, ghost wire0: seq<Byte>)
    returns (ok: bool)
    requires w > 0 && buf != data && |m| <= data.Length && data[..|m|] == m && Whole(j, w)
    requires j + buf.Length == |m| || (j + buf.Length <= |m| && Whole(buf.Length, w))
    requires Sent(socket.wire, wire0, Converted(little, isChar, w, m), j) && !socket.failed
    modifies buf, socket
    ensures ok <==> !socket.failed
    ensures var c := Converted(little, isChar, w, m);
      if ok then Sent(socket.wire, wire0, c, j + buf.Length) else exists n: nat :: Sent(socket.wire, wire0, c, n)
  {
    ghost var before, k := socket.wire, j + buf.Length;
    assert data[j..k] == data[..][j..k];
    assert data[..][..|m|] == data[..|m|];
    PartOfPrefix(data[..], m, j, k);
    ChunkConverted(little, isChar, w, m, j, k);
    ok := SendChunk(little, isChar, w, data, j, buf, socket, m[j..k]);
    SentMore(socket.wire, before, wire0, Converted(little, isChar, w, m), j, k, ok);
  }

  /** The buffer holds whole elements, so no element is split between two chunks. */
  lemma LenIsWhole(w: nat)
    requires w > 0 && LEN % w == 0
    ensures Whole(LEN, w)
  {
    DivMod(LEN, w);
    WholeTimes(LEN / w, w);
  }

  /** send: everything is on the wire in network byte order, or a part of it exactly when the socket fails. */
  method Send(little: bool, isChar: bool, w: nat, data: array<Byte>, size: nat, socket: Socket) returns (ok: bool)
    requires w > 0 && LEN % w == 0 && size <= data.Length && !socket.failed
    modifies socket
    ensures ok <==> !socket.failed
    ensures var c := Converted(little, isChar, w, data[..size]);
      if ok then socket.wire == old(socket.wire) + c
      else exists n: nat :: Sent(socket.wire, old(socket.wire), c, n)
  {
    var j: nat := 0;
    var buf := new Byte[LEN](_ => 0);
    ghost var m, wire0 := data[..size], socket.wire;
    ghost var c := Converted(little, isChar, w, m);
    LenIsWhole(w);
    while true
      invariant j <= size && (j == size || (buf.Length == LEN && Whole(j, w))) && fresh(buf)
      invariant data[..size] == m && !socket.failed
      invariant Sent(socket.wire, wire0, c, j)
      decreases size - j
    {
      var currentLen := if LEN < size - j then LEN else size - j;
      if currentLen == 0 {
        break;
      }
      if currentLen != LEN {
        buf := new Byte[currentLen](_ => 0);
      }
      ok := SendNext(little, isChar, w, data, j, buf, socket, m, wire0);
      if !ok {
        return;
      }
      WholeSum(j, LEN, w);
      j := j + currentLen;
    }
    assert c[..size] == c;
    return true;
  }

  lemma SentMore(wire: seq<Byte>, before: seq<Byte>, wire0: seq<Byte>, c: seq<Byte>, j: nat, k: nat, ok: bool)
    requires j <= k <= |c| && Sent(before, wire0, c, j)
    requires if ok then wire == before + c[j..k] else exists n: nat :: Sent(wire, before, c[j..k], n)
    ensures if ok then Sent(wire, wire0, c, k) else exists n: nat :: Sent(wire, wire0, c, n)
  {
    if ok {
      assert c[..j] + c[j..k] == c[..k];
    } else {
      var n: nat :| Sent(wire, before, c[j..k], n);
      assert c[..j] + c[j..k][..n] == c[..j + n];
      assert Sent(wire, wire0, c, j + n);
    }
  }

  // ------------------------------------------------------------------------
  // Receiving.

  /** The loop around receiveBytes: the buffer is filled from the front of the wire, unless the socket fails. */
  method FillBuffer(buf: array<Byte>, socket: Socket) returns (ok: bool)
    requires !socket.failed
    modifies buf, socket
    ensures ok <==> !socket.failed
    ensures ok ==> buf.Length <= |old(socket.wire)| && buf[..] == old(socket.wire)[..buf.Length]
    ensures ok ==> socket.wire == old(socket.wire)[buf.Length..]
  {
    var received: nat := 0;
    ghost var wire0 := socket.wire;
    while received < buf.Length
      invariant received <= buf.Length && received <= |wire0| && !socket.failed
      invariant socket.wire == wire0[received..] && buf[..received] == wire0[..received]
    {
      var n := socket.ReceiveBytes(buf, received, buf.Length - received);
      if n <= 0 {
        return false;
      }
      received := received + n;
    }
    assert buf[..received] == buf[..];
    return true;
  }

  /** recv: the memory of the host gets the elements at the front of the wire. */
  method Recv(little: bool, isChar: bool, w: nat, size: nat, socket: Socket, data: array<Byte>) returns (ok: bool)
    requires w > 0 && size <= data.Length && !socket.failed
    modifies socket, data
    ensures ok <==> !socket.failed
    ensures ok ==> size <= |old(socket.wire)| && socket.wire == old(socket.wire)[size..]
    ensures ok ==> data[..] == Converted(little, isChar, w, old(socket.wire)[..size]) + old(data[size..])
    ensures !ok ==> exists n: nat :: n < size && Arrived(data[..], old(socket.wire), old(data[..]), n)
  {
    ghost var front, back := if size <= |socket.wire| then socket.wire[..size] else [], data[size..];
    ok := RecvChunks(size, socket, data);
    if ok && !isChar && little {
      assert data[..size] == front && data[size..] == back;
      ReverseAll(data, size, w);
    }
  }

  /** The loop of recv, which copies the wire chunk by chunk. */
  method RecvChunks(size: nat, socket: Socket, data: array<Byte>) returns (ok: bool)
    requires size <= data.Length && !socket.failed
    modifies socket, data
    ensures ok <==> !socket.failed
    ensures ok ==> size <= |old(socket.wire)| && socket.wire == old(socket.wire)[size..]
    ensures ok ==> data[..] == old(socket.wire)[..size] + old(data[size..])
    ensures !ok ==> exists n: nat :: n < size && Arrived(data[..], old(socket.wire), old(data[..]), n)
  {
    var j: nat := 0;
    var buf := new Byte[LEN](_ => 0);
    ghost var wire0, data0 := socket.wire, data[..];
    while true
      invariant j <= size && (j == size || buf.Length == LEN) && fresh(buf)
      invariant Copied(socket.wire, data[..], wire0, data0, j) && !socket.failed
      decreases size - j
    {
      var currentLen := if LEN < size - j then LEN else size - j;
      if currentLen == 0 {
        break;
      }
      if currentLen != LEN {
        buf := new Byte[currentLen](_ => 0);
      }
      ok := RecvChunk(buf, socket, data, j, wire0, data0);
      if !ok {
        assert Arrived(data[..], wire0, data0, j);
        return;
      }
      j := j + currentLen;
    }
    assert data0[size..] == old(data[size..]);
    return true;
  }

  /** One chunk: received into the buffer, and copied out. */
  method RecvChunk(buf: array<Byte>, socket: Socket, data: array<Byte>, j: nat, ghost wire0: seq<Byte>,
      ghost data0: seq<Byte>)
    returns (ok: bool)
    requires buf != data && j + buf.Length <= data.Length && Copied(socket.wire, data[..], wire0, data0, j)
    requires !socket.failed
    modifies buf, socket, data
    ensures ok <==> !socket.failed
    ensures if ok then Copied(socket.wire, data[..], wire0, data0, j + buf.Length) else data[..] == old(data[..])
  {
    ghost var wire, before := socket.wire, data[..];
    ok := FillBuffer(buf, socket);
    if ok {
      CopyOut(buf, data, j);
      CopiedMore(wire, before, socket.wire, data[..], wire0, data0, j, buf.Length);
    }
  }

  /** The first n bytes of the wire are at the front of the data, and the rest of the data is as it was. */
  ghost predicate Arrived(data: seq<Byte>, wire0: seq<Byte>, data0: seq<Byte>, n: nat) {
    n <= |wire0| && n <= |data0| && data == wire0[..n] + data0[n..]
  }

  ghost predicate Copied(wire: seq<Byte>, data: seq<Byte>, wire0: seq<Byte>, data0: seq<Byte>, n: nat) {
    Arrived(data, wire0, data0, n) && wire == wire0[n..]
  }

  lemma CopiedMore(wire: seq<Byte>, data: seq<Byte>, wire': seq<Byte>, data': seq<Byte>,
                   wire0: seq<Byte>, data0: seq<Byte>, j: nat, n: nat)
    requires Copied(wire, data, wire0, data0, j) && n <= |wire| && j + n <= |data|
    requires wire' == wire[n..] && data' == data[..j] + wire[..n] + data[j + n..]
    ensures Copied(wire', data', wire0, data0, j + n)
  {
    assert wire0[..j] + wire0[j..][..n] == wire0[..j + n];
    assert data[..j] == wire0[..j] && data[j + n..] == data0[j + n..];
    assert wire0[j..][n..] == wire0[j + n..];
  }

  method CopyOut(buf: array<Byte>, data: array<Byte>, j: nat)
    requires buf != data && j + buf.Length <= data.Length
    modifies data
    ensures data[..] == old(data[..j]) + buf[..] + old(data[j + buf.Length..])
  {
    var i := 0;
    while i < buf.Length
      invariant i <= buf.Length
      invariant forall k | 0 <= k < data.Length :: data[k] == if j <= k < j + i then buf[k - j] else old(data[k])
    {
      data[j + i] := buf[i];
      i := i + 1;
    }
  }

  /** Whatever the two hosts are, and however the socket cuts the bytes up: if it never fails, all is received. */
  method Transfer(little1: bool, little2: bool, isChar: bool, w: nat, values: seq<nat>, data: array<Byte>,
      socket: Socket)
    returns (ok: bool, received: array<Byte>)
    requires w > 0 && LEN % w == 0 && (isChar ==> w == 1)
    requires data[..] == InMemory(little1, values, w) && socket.wire == [] && !socket.failed
    modifies socket
    ensures ok <==> !socket.failed
    ensures ok ==> received[..] == InMemory(little2, values, w) && socket.wire == []
  {
    received := new Byte[data.Length](_ => 0);
    ok := Send(little1, isChar, w, data, data.Length, socket);
    if ok {
      assert data[..data.Length] == data[..];
      WireIsBigEndian(little1, isChar, w, values);
      WireIsBigEndian(little2, isChar, w, values);
      assert socket.wire == InMemory(false, values, w);
      assert socket.wire[..data.Length] == socket.wire;
      ok := Recv(little2, isChar, w, data.Length, socket, received);
    }
  }
}
