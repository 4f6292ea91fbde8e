/** Octets, big-endian integers and the bounds-checked buffer accessors of `amqp_private.h`. */
module Wire {
  type byte = b: int | 0 <= b < 0x100

  type Bytes = seq<byte>

  /** The status codes of the library that the model returns. */
  datatype Status =
    | Ok
    | NoMemory
    | BadAmqpData
    | UnknownClass
    | UnknownMethod
    | ConnectionClosed
    | SocketError
    | InvalidParameter
    | BadUrl
    | TableTooBig
    | WrongMethod
    | Timeout
    | HeartbeatTimeout
    | UnexpectedState

  datatype Option<+T> = None | Some(value: T)

  const UINT32_MODULUS: nat := 0x1_0000_0000

  /** The index of the first element that satisfies `p`, or the number of elements. */
  function FirstWhere<T>(s: seq<T>, p: T -> bool): (k: nat)
    ensures k <= |s|
    ensures k < |s| ==> p(s[k])
    ensures forall i | 0 <= i < k :: !p(s[i])
  {
    if s == [] || p(s[0]) then 0
    else
      var k := FirstWhere(s[1..], p);
      assert forall i | 1 <= i < k + 1 :: s[i] == s[1..][i - 1];
      k + 1
  }

  //////////////////////////////////////////////////////////////////////////////
  // Big-endian integers
  //////////////////////////////////////////////////////////////////////////////

  function Pow2(n: nat): (p: nat)
    ensures p >= 1
  {
    if n == 0 then 1 else 2 * Pow2(n - 1)
  }

  lemma Powers(bit: nat)
    requires bit < 8
    ensures Pow2(bit) == [1, 2, 4, 8, 16, 32, 64, 128][bit]
  {
    assert Pow2(0) == 1;
    assert Pow2(1) == 2 * Pow2(0);
    assert Pow2(2) == 2 * Pow2(1);
    assert Pow2(3) == 2 * Pow2(2);
    assert Pow2(4) == 2 * Pow2(3);
    assert Pow2(5) == 2 * Pow2(4);
    assert Pow2(6) == 2 * Pow2(5);
    assert Pow2(7) == 2 * Pow2(6);
  }

  function Pow256(n: nat): (p: nat)
    ensures p >= 1
  {
    if n == 0 then 1 else 256 * Pow256(n - 1)
  }

  /** The `n` low-order octets of `v`, most significant first; higher octets are cast away. */
  function Be(n: nat, v: nat): (s: Bytes)
    ensures |s| == n
  {
    if n == 0 then [] else Be(n - 1, v / 256) + [v % 256]
  }

  function Unbe(s: Bytes): nat
  {
    if s == [] then 0 else Unbe(s[..|s| - 1]) * 256 + s[|s| - 1]
  }

  lemma Pow256Values()
    ensures Pow256(1) == 0x100
    ensures Pow256(2) == 0x1_0000
    ensures Pow256(4) == 0x1_0000_0000
    ensures Pow256(8) == 0x1_0000_0000_0000_0000
  {
    assert Pow256(3) == 0x100_0000;
    assert Pow256(5) == 0x100_0000_0000;
    assert Pow256(6) == 0x1_0000_0000_0000;
    assert Pow256(7) == 0x100_0000_0000_0000;
  }

  lemma {:induction false} UnbeBe(n: nat, v: nat)
    requires v < Pow256(n)
    ensures Unbe(Be(n, v)) == v
  {
    if n > 0 {
      UnbeBe(n - 1, v / 256);
      assert Be(n, v)[..n - 1] == Be(n - 1, v / 256);
    }
  }

  lemma {:induction false} BeUnbe(s: Bytes)
    ensures Unbe(s) < Pow256(|s|)
    ensures Be(|s|, Unbe(s)) == s
  {
    if s != [] {
      BeUnbe(s[..|s| - 1]);
      assert s == s[..|s| - 1] + [s[|s| - 1]];
    }
  }

  /** The last two and the last four octets, digit by digit. */
  lemma BeTail(n: nat, v: nat)
    ensures Be(n + 2, v) == Be(n, v / 0x1_0000) + [v / 0x100 % 256, v % 256]
  {
    var w := v / 0x100;
    assert Be(n + 2, v) == Be(n + 1, w) + [v % 256];
    assert w / 256 == v / 0x1_0000;
    assert Be(n + 1, w) == Be(n, w / 256) + [w % 256];
  }

  lemma BeLongTail(n: nat, v: nat)
    ensures Be(n + 4, v)
            == Be(n, v / 0x1_0000_0000) + [v / 0x100_0000 % 256, v / 0x1_0000 % 256, v / 0x100 % 256, v % 256]
  {
    hide Be;
    var w := v / 0x1_0000;
    BeTail(n + 2, v);
    BeTail(n, w);
    assert w / 0x1_0000 == v / 0x1_0000_0000 && w / 0x100 == v / 0x100_0000;
  }

  /** Integers of the protocol are big-endian. */
  lemma BigEndian(v: nat)
    ensures Be(1, v) == [v % 256]
    ensures Be(2, v) == [v / 0x100 % 256, v % 256]
    ensures Be(4, v) == [v / 0x100_0000 % 256, v / 0x1_0000 % 256, v / 0x100 % 256, v % 256]
    ensures Be(8, v) == Be(4, v / 0x1_0000_0000) + Be(4, v)
  {
    hide Be;
    NoOctets(v);
    NoOctets(v / 0x1_0000);
    NoOctets(v / 0x1_0000_0000);
    BeTail(0, v);
    BeLongTail(0, v);
    BeLongTail(4, v);
  }

  /** And so they are read. */
  lemma ReadBigEndian(s: Bytes)
    ensures |s| == 1 ==> Unbe(s) == s[0]
    ensures |s| == 2 ==> Unbe(s) == 0x100 * (s[0] as int) + s[1]
    ensures |s| == 4 ==> Unbe(s) == 0x100_0000 * (s[0] as int) + 0x1_0000 * (s[1] as int) + 0x100 * (s[2] as int) + s[3]
    ensures |s| == 8 ==> Unbe(s) == 0x1_0000_0000 * Unbe(s[..4]) + Unbe(s[4..])
  {
    if |s| == 8 {
      UnbeLongTail(s);
      BeforeTail(s[4..]);
    } else if |s| <= 4 {
      BeforeTail(s);
    }
  }

  lemma BeforeTail(s: Bytes)
    requires |s| <= 4
    ensures |s| == 1 ==> Unbe(s) == s[0]
    ensures |s| == 2 ==> Unbe(s) == 0x100 * (s[0] as int) + s[1]
    ensures |s| == 4 ==> Unbe(s) == 0x100_0000 * (s[0] as int) + 0x1_0000 * (s[1] as int) + 0x100 * (s[2] as int) + s[3]
  {
    if |s| >= 1 {
      var t := s[..|s| - 1];
      if |t| >= 1 {
        var u := t[..|t| - 1];
        if |u| >= 1 {
          var v := u[..|u| - 1];
          assert |v| == 1 ==> v[..0] == [];
        }
      }
    }
  }

  lemma UnbeLongTail(s: Bytes)
    requires |s| == 8
    ensures Unbe(s) == 0x1_0000_0000 * Unbe(s[..4]) + 0x100_0000 * (s[4] as int) + 0x1_0000 * (s[5] as int) + 0x100 * (s[6] as int) + s[7]
  {
    assert s[..7][..6] == s[..6] && s[..6][..5] == s[..5] && s[..5][..4] == s[..4];
    assert Unbe(s) == Unbe(s[..7]) * 256 + s[7];
    assert Unbe(s[..7]) == Unbe(s[..6]) * 256 + s[6];
    assert Unbe(s[..6]) == Unbe(s[..5]) * 256 + s[5];
    assert Unbe(s[..5]) == Unbe(s[..4]) * 256 + s[4];
  }

  lemma NoOctets(v: nat)
    ensures Be(0, v) == [] && Be(1, v) == [v % 256]
  {
  }

  /** The octets of all chunks, in order. */
  function Flatten(chunks: seq<Bytes>): Bytes {
    if chunks == [] then [] else chunks[0] + Flatten(chunks[1..])
  }

  //////////////////////////////////////////////////////////////////////////////
  // Writing into a buffer
  //////////////////////////////////////////////////////////////////////////////

  /** `s` with `w` stored at offset `o`; `s` itself when `w` does not fit. */
  function Write(s: Bytes, o: nat, w: Bytes): (r: Bytes)
    ensures |r| == |s|
  {
    if o + |w| <= |s| then s[..o] + w + s[o + |w|..] else s
  }

  /** `a` and `b` differ at most at the indices from `lo` up to, not including, `hi`. */
  ghost predicate SameOutside(a: Bytes, b: Bytes, lo: nat, hi: nat)
  {
    |a| == |b| && forall k | 0 <= k < |a| && !(lo <= k < hi) :: a[k] == b[k]
  }

  lemma WriteNothing(s: Bytes, o: nat)
    ensures Write(s, o, []) == s
  {
  }

  /** Two adjacent writes are one write. */
  lemma WriteAppend(s: Bytes, o: nat, w1: Bytes, w2: Bytes)
    requires o + |w1| + |w2| <= |s|
    ensures Write(Write(s, o, w1), o + |w1|, w2) == Write(s, o, w1 + w2)
  {
  }

  /** Filling in a reserved prefix after the rest has been written is one write. */
  lemma WriteBackPatch(s: Bytes, o: nat, w1: Bytes, w2: Bytes)
    requires o + |w1| + |w2| <= |s|
    ensures Write(Write(s, o + |w1|, w2), o, w1) == Write(s, o, w1 + w2)
  {
  }

  /** A write between `lo` and `hi` changes nothing else. */
  lemma WriteInside(s: Bytes, o: nat, w: Bytes, lo: nat, hi: nat)
    requires lo <= o && o + |w| <= hi
    ensures SameOutside(Write(s, o, w), s, lo, hi)
  {
  }

  /** Changes confined to the room left behind a write are confined to the room of that write. */
  lemma ChangesBehindWrite(s: Bytes, o: nat, w: Bytes, hi: nat, t: Bytes)
    requires w == [] || o + |w| <= hi
    requires SameOutside(t, Write(s, o, w), o + |w|, hi)
    ensures SameOutside(t, s, o, hi)
  {
  }

  /** `memcpy` into `buf`. */
  method CopyIn(buf: array<byte>, o: nat, src: Bytes)
    requires o + |src| <= buf.Length
    modifies buf
    ensures buf[..] == Write(old(buf[..]), o, src)
  {
    forall i | 0 <= i < |src| {
      buf[o + i] := src[i];
    }
  }

  /** `amqp_encode_8`, `_16`, `_32` and `_64`: the offset moves even when the check fails. */
  method PutUint(buf: array<byte>, limit: nat, o: nat, width: nat, v: nat) returns (ok: bool, offset: nat)
    requires limit <= buf.Length
    modifies buf
    ensures offset == o + width
    ensures ok == (o + width <= limit)
    ensures buf[..] == if ok then Write(old(buf[..]), o, Be(width, v)) else old(buf[..])
  {
    offset := o + width;
    ok := offset <= limit;
    if ok {
      CopyIn(buf, o, Be(width, v));
    }
  }

  /** `amqp_encode_bytes`: a zero-length string is accepted without a check. */
  method PutBytes(buf: array<byte>, limit: nat, o: nat, src: Bytes) returns (ok: bool, offset: nat)
    requires limit <= buf.Length
    modifies buf
    ensures offset == o + |src|
    ensures ok == (src == [] || o + |src| <= limit)
    ensures buf[..] == if ok then Write(old(buf[..]), o, src) else old(buf[..])
  {
    offset := o;
    if src == [] {
      WriteNothing(buf[..], o);
      return true, offset;
    }
    offset := o + |src|;
    ok := offset <= limit;
    if ok {
      CopyIn(buf, o, src);
    }
  }

  //////////////////////////////////////////////////////////////////////////////
  // Encoders that write at an offset
  //////////////////////////////////////////////////////////////////////////////

  /** The outcome of writing `enc` at `start`: either all of it, or a failure that touched no octet
      outside the room from `start` to `limit`. */
  ghost predicate Wrote(before: Bytes, after: Bytes, limit: nat, start: nat, enc: Bytes,
                        encodable: bool, status: Status, offset: nat)
  {
    && (status.Ok? <==> encodable && start + |enc| <= limit)
    && (status.Ok? ==> offset == start + |enc| && after == Write(before, start, enc))
    && SameOutside(after, before, start, limit)
    && status in {Ok, BadAmqpData, TableTooBig, InvalidParameter, UnknownClass, UnknownMethod}
  }

  /** Writing `w1` and then writing, or failing to write, `w2` right behind it. */
  lemma WroteThen(s0: Bytes, limit: nat, start: nat, w1: Bytes, s2: Bytes, w2: Bytes,
                  encodable: bool, status: Status, offset: nat)
    requires limit <= |s0| && (w1 == [] || start + |w1| <= limit)
    requires Wrote(Write(s0, start, w1), s2, limit, start + |w1|, w2, encodable, status, offset)
    ensures Wrote(s0, s2, limit, start, w1 + w2, encodable, status, offset)
  {
    ChangesBehindWrite(s0, start, w1, limit, s2);
    if status.Ok? {
      WriteAppend(s0, start, w1, w2);
    }
  }

  /** A failure part way through a longer encoding is a failure of the longer encoding. */
  lemma WroteShort(s0: Bytes, s1: Bytes, limit: nat, start: nat, w: Bytes, more: Bytes,
                   encodable: bool, all: bool, status: Status, offset: nat)
    requires Wrote(s0, s1, limit, start, w, encodable, status, offset) && !status.Ok?
    requires all ==> encodable
    ensures Wrote(s0, s1, limit, start, w + more, all, status, offset)
  {
  }

  lemma WroteAll(s0: Bytes, s1: Bytes, limit: nat, start: nat, w: Bytes, encodable: bool, status: Status, offset: nat)
    requires Wrote(s0, s1, limit, start, w, encodable, status, offset) && status.Ok?
    ensures encodable && start + |w| <= limit && offset == start + |w| && s1 == Write(s0, start, w)
  {
  }

  lemma WroteStatus(s0: Bytes, s1: Bytes, limit: nat, start: nat, w: Bytes, encodable: bool, status: Status, offset: nat)
    requires Wrote(s0, s1, limit, start, w, encodable, status, offset)
    ensures status.Ok? <==> encodable && start + |w| <= limit
  {
  }

  /** A failure, seen as the failure to write something that cannot be encoded. */
  lemma WroteUnencodable(s0: Bytes, s1: Bytes, limit: nat, start: nat, w: Bytes, encodable: bool, other: Bytes,
                         status: Status, offset: nat)
    requires Wrote(s0, s1, limit, start, w, encodable, status, offset) && !status.Ok?
    ensures Wrote(s0, s1, limit, start, other, false, status, offset)
  {
  }

  /** A failure inside the body of a table or array. */
  lemma WroteShortBody(s0: Bytes, s1: Bytes, limit: nat, start: nat, part: Bytes, more: Bytes,
                       encodable: bool, all: bool, status: Status, offset: nat)
    requires Wrote(s0, s1, limit, start + 4, part, encodable, status, offset) && !status.Ok?
    requires all ==> encodable
    ensures Wrote(s0, s1, limit, start, Be(4, |part + more|) + (part + more), all, status, offset)
  {
  }

  /** A failure to write `enc` behind the part `done` of such a body. */
  lemma WroteShortElement(s0: Bytes, s1: Bytes, limit: nat, start: nat, done: Bytes, enc: Bytes, tail: Bytes,
                          encodable: bool, all: bool, status: Status, offset: nat)
    requires limit <= |s0| && (done == [] || start + 4 + |done| <= limit)
    requires Wrote(Write(s0, start + 4, done), s1, limit, start + 4 + |done|, enc, encodable, status, offset)
    requires !status.Ok? && (all ==> encodable)
    ensures var body := done + (enc + tail); Wrote(s0, s1, limit, start, Be(4, |body|) + body, all, status, offset)
  {
    hide Wrote, Write;
    WroteThen(s0, limit, start + 4, done, s1, enc, encodable, status, offset);
    WroteShortBody(s0, s1, limit, start, done + enc, tail, encodable, all, status, offset);
    assert (done + enc) + tail == done + (enc + tail);
  }

  /** A size that is filled in last. */
  lemma WroteSized(s0: Bytes, limit: nat, start: nat, size: Bytes, body: Bytes, s2: Bytes, encodable: bool,
                   status: Status, offset: nat)
    requires limit <= |s0| && (body == [] || start + |size| + |body| <= limit) && encodable
    requires status == (if start + |size| <= limit then Ok else TableTooBig)
    requires s2 == if status.Ok? then Write(Write(s0, start + |size|, body), start, size) else Write(s0, start + |size|, body)
    requires offset == start + |size| + |body|
    ensures Wrote(s0, s2, limit, start, size + body, encodable, status, offset)
  {
    hide Write, Wrote;
    if status.Ok? {
      WriteBackPatch(s0, start, size, body);
      WroteDone(s0, limit, start, size + body);
    } else {
      WriteNothing(s0, start + |size|);
      WroteNone(s0, limit, start, size + body, encodable, status, offset);
    }
  }

  /** Nothing was written, and nothing would have fitted. */
  lemma WroteNone(s: Bytes, limit: nat, start: nat, enc: Bytes, encodable: bool, status: Status, offset: nat)
    requires !(encodable && start + |enc| <= limit)
    requires status in {BadAmqpData, TableTooBig, InvalidParameter, UnknownClass, UnknownMethod}
    ensures Wrote(s, s, limit, start, enc, encodable, status, offset)
  {
  }

  lemma WroteDone(s: Bytes, limit: nat, start: nat, w: Bytes)
    requires start + |w| <= limit <= |s|
    ensures Wrote(s, Write(s, start, w), limit, start, w, true, Ok, start + |w|)
  {
    WriteInside(s, start, w, start, limit);
  }

  lemma BeOctet(tag: byte)
    ensures Be(1, tag) == [tag]
  {
  }

  //////////////////////////////////////////////////////////////////////////////
  // Reading from an encoded byte string
  //////////////////////////////////////////////////////////////////////////////

  /** The outcome of a decoder: the value with the offset behind it, or malformed data. */
  datatype Decoded<+T> = Got(value: T, next: nat) | Bad

  /** The octets `w` stand in `encoded` at offset `o`. */
  predicate At(encoded: Bytes, o: nat, w: Bytes)
  {
    o + |w| <= |encoded| && encoded[o..o + |w|] == w
  }

  lemma AtSplit(encoded: Bytes, o: nat, w1: Bytes, w2: Bytes)
    ensures At(encoded, o, w1 + w2) <==> At(encoded, o, w1) && At(encoded, o + |w1|, w2)
  {
    var w := w1 + w2;
    if At(encoded, o, w) {
      assert encoded[o..o + |w|][..|w1|] == encoded[o..o + |w1|];
      assert encoded[o..o + |w|][|w1|..] == encoded[o + |w1|..o + |w|];
      assert w[..|w1|] == w1 && w[|w1|..] == w2;
    }
  }

  lemma AtOctet(encoded: Bytes, o: nat, octet: byte)
    requires At(encoded, o, [octet])
    ensures o < |encoded| && encoded[o] == octet
  {
    assert encoded[o] == encoded[o..o + 1][0];
  }

  /** `amqp_decode_8`, `_16`, `_32` and `_64`. */
  function GetUint(encoded: Bytes, o: nat, width: nat): (r: Decoded<nat>)
    ensures r.Got? <==> o + width <= |encoded|
    ensures r.Got? ==> r.next == o + width && r.value < Pow256(width)
  {
    if o + width <= |encoded| then
      BeUnbe(encoded[o..o + width]);
      Got(Unbe(encoded[o..o + width]), o + width)
    else
      Bad
  }

  /** `amqp_decode_bytes`. */
  function GetBytes(encoded: Bytes, o: nat, len: nat): (r: Decoded<Bytes>)
    ensures r.Got? <==> o + len <= |encoded|
    ensures r.Got? ==> r.next == o + len && |r.value| == len
  {
    if o + len <= |encoded| then Got(encoded[o..o + len], o + len) else Bad
  }

  /** Reading back an integer that was written at `o`. */
  lemma GetPutUint(encoded: Bytes, o: nat, width: nat, v: nat)
    requires At(encoded, o, Be(width, v)) && v < Pow256(width)
    ensures GetUint(encoded, o, width) == Got(v, o + width)
  {
    UnbeBe(width, v);
  }
}
