/** Addresses as the Go net and bytes packages see them: a net.IP is a byte
    slice, To16 brings it to the 16-byte form, bytes.Compare orders byte
    slices lexicographically, and big.Int.SetBytes reads them as unsigned
    big-endian integers. */
module NetIP {
  import opened Wrappers

  type Byte = b: int | 0 <= b < 256

  /** A non-nil net.IP; a possibly nil one is an `Option<IP>`. */
  type IP = seq<Byte>

  /** The first twelve bytes of an IPv4-mapped IPv6 address, ::ffff:0:0/96
      (section 2.5.5.2 of RFC 4291). */
  const V4InV6Prefix: seq<Byte> := [0, 0, 0, 0, 0, 0, 0, 0, 0, 0, 0xff, 0xff]

  /** The value the mapped prefix adds to an IPv4 address: 0xffff shifted by 32 bits. */
  const V4InV6Offset: nat := 0xffff_0000_0000

  /** k copies of the byte b. */
  function Fill(k: nat, b: Byte): (s: seq<Byte>)
    ensures |s| == k
    ensures forall i :: 0 <= i < k ==> s[i] == b
  {
    seq(k, _ => b)
  }

  function Pow256(k: nat): (p: nat)
    ensures p >= 1
  {
    if k == 0 then 1 else 256 * Pow256(k - 1)
  }

  /** The unsigned integer whose big-endian bytes are s. */
  function Value(s: seq<Byte>): nat
  {
    if s == [] then 0 else Value(s[..|s| - 1]) * 256 + s[|s| - 1]
  }

  lemma {:induction false} ValueBound(s: seq<Byte>)
    ensures Value(s) < Pow256(|s|)
  {
    if s != [] {
      var init := s[..|s| - 1];
      ValueBound(init);
      assert Value(init) * 256 <= (Pow256(|init|) - 1) * 256;
    }
  }

  /** Appending bytes shifts the value of the prefix left. */
  lemma {:induction false} ValueAppend(x: seq<Byte>, y: seq<Byte>)
    ensures Value(x + y) == Value(x) * Pow256(|y|) + Value(y)
  {
    if y == [] {
      assert x + y == x;
    } else {
      var y' := y[..|y| - 1];
      var last := y[|y| - 1];
      assert (x + y)[..|x + y| - 1] == x + y';
      ValueAppend(x, y');
      var vx, p := Value(x), Pow256(|y'|);
      calc {
        Value(x + y);
        Value(x + y') * 256 + last;
        (vx * p + Value(y')) * 256 + last;
        { assert (vx * p) * 256 == vx * (p * 256); }
        vx * (p * 256) + (Value(y') * 256 + last);
        vx * Pow256(|y|) + Value(y);
      }
    }
  }

  lemma ValueCons(c: Byte, t: seq<Byte>)
    ensures Value([c] + t) == c * Pow256(|t|) + Value(t)
  {
    assert Value([c]) == c by { assert [c][..0] == []; }
    ValueAppend([c], t);
  }

  /** The value of four bytes: the 32-bit number of an IPv4 address. */
  lemma ValueOfFour(a: Byte, b: Byte, c: Byte, d: Byte)
    ensures Value([a, b, c, d]) == a * 0x100_0000 + b * 0x1_0000 + c * 0x100 + d
  {
    assert Value([a]) == a by { assert [a][..0] == []; }
    assert Value([a, b]) == a * 0x100 + b by { assert [a, b][..1] == [a]; }
    assert Value([a, b, c]) == a * 0x1_0000 + b * 0x100 + c by { assert [a, b, c][..2] == [a, b]; }
    assert [a, b, c, d][..3] == [a, b, c];
  }

  lemma ValueOfZeros(k: nat)
    ensures Value(Fill(k, 0)) == 0
  {
    if k > 0 {
      assert Fill(k, 0)[..k - 1] == Fill(k - 1, 0);
      ValueOfZeros(k - 1);
    }
  }

  /** net.IPv4(a, b, c, d): the 16-byte IPv4-mapped form, whose number is the
      32-bit number of a.b.c.d plus 0xffff << 32. */
  function IPv4(a: Byte, b: Byte, c: Byte, d: Byte): (r: IP)
    ensures |r| == 16 && r[12..] == [a, b, c, d]
    ensures Value(r) == V4InV6Offset + Value([a, b, c, d])
  {
    var tail := [a, b, c, d];
    ValueAppend(V4InV6Prefix, tail);
    assert V4InV6Prefix == Fill(10, 0) + [0xff, 0xff];
    ValueAppend(Fill(10, 0), [0xff, 0xff]);
    ValueOfZeros(10);
    assert Value([0xff, 0xff]) == 0xffff by {
      assert [0xff, 0xff][..1] == [0xff];
      assert Value([0xff]) == Value([0xff][..0]) * 256 + 0xff;
    }
    V4InV6Prefix + tail
  }

  /** net.IP.To16: a 4-byte address becomes its IPv4-mapped form, a 16-byte
      address stays as it is, anything else has no 16-byte form. Numerically,
      mapping adds 0xffff << 32. */
  function To16(ip: IP): (r: Option<IP>)
    ensures r.Some? <==> |ip| == 4 || |ip| == 16
    ensures r.Some? ==> |r.value| == 16
    ensures r.Some? ==> Value(r.value) == if |ip| == 4 then V4InV6Offset + Value(ip) else Value(ip)
  {
    if |ip| == 4 then
      assert ip == [ip[0], ip[1], ip[2], ip[3]];
      Some(IPv4(ip[0], ip[1], ip[2], ip[3]))
    else if |ip| == 16 then Some(ip)
    else None
  }

  /** To16 is a normal form: applying it again changes nothing. */
  lemma To16Idempotent(ip: IP)
    requires To16(ip).Some?
    ensures To16(To16(ip).value) == To16(ip)
  {
  }

  function Sign(n: int): int
  {
    if n < 0 then -1 else if n > 0 then 1 else 0
  }

  /** bytes.Compare: lexicographic order of byte strings, a proper prefix
      ordering first; -1, 0 or 1. */
  function Compare(a: seq<Byte>, b: seq<Byte>): (r: int)
    ensures -1 <= r <= 1
    ensures r == 0 <==> a == b
    decreases |a|
  {
    if a == [] then (if b == [] then 0 else -1)
    else if b == [] then 1
    else if a[0] < b[0] then -1
    else if a[0] > b[0] then 1
    else
      assert a == [a[0]] + a[1..] && b == [b[0]] + b[1..];
      Compare(a[1..], b[1..])
  }

  lemma MulMonotone(x: int, y: int, p: nat)
    requires x <= y
    ensures x * p <= y * p
  {
    assert y * p - x * p == (y - x) * p;
  }

  /** On strings of one length, the lexicographic order of bytes.Compare is
      the numeric order of the big-endian values. */
  lemma {:induction false} CompareIsNumeric(a: seq<Byte>, b: seq<Byte>)
    requires |a| == |b|
    ensures Compare(a, b) == Sign(Value(a) - Value(b))
  {
    if a != [] {
      var p := Pow256(|a| - 1);
      var x, y := a[0], b[0];
      var va, vb := Value(a[1..]), Value(b[1..]);
      assert a == [x] + a[1..] && b == [y] + b[1..];
      ValueCons(x, a[1..]);
      ValueCons(y, b[1..]);
      ValueBound(a[1..]);
      ValueBound(b[1..]);
      assert Value(a) == x * p + va && Value(b) == y * p + vb;
      if x < y {
        LeadingByteDecides(x, y, va, vb, p);
      } else if x > y {
        LeadingByteDecides(y, x, vb, va, p);
      } else {
        CompareIsNumeric(a[1..], b[1..]);
      }
    }
  }

  lemma LeadingByteDecides(x: nat, y: nat, va: nat, vb: nat, p: nat)
    requires x < y && va < p
    ensures x * p + va < y * p + vb
  {
    MulMonotone(x + 1, y, p);
    assert (x + 1) * p == x * p + p;
  }

  /** Comparing two concatenations whose first parts have one length: the
      first parts decide unless they are equal. */
  lemma {:induction false} CompareAppend(x1: seq<Byte>, x2: seq<Byte>, y1: seq<Byte>, y2: seq<Byte>)
    requires |x1| == |y1|
    ensures Compare(x1 + x2, y1 + y2) == if x1 == y1 then Compare(x2, y2) else Compare(x1, y1)
    decreases |x1|
  {
    if x1 == [] {
      assert x1 + x2 == x2 && y1 + y2 == y2;
    } else {
      assert (x1 + x2)[0] == x1[0] && (x1 + x2)[1..] == x1[1..] + x2;
      assert (y1 + y2)[0] == y1[0] && (y1 + y2)[1..] == y1[1..] + y2;
      assert x1 == [x1[0]] + x1[1..] && y1 == [y1[0]] + y1[1..];
      if x1[0] == y1[0] {
        CompareAppend(x1[1..], x2, y1[1..], y2);
      }
    }
  }

  /** An all-zero string is the least of its length, an all-0xff one the greatest. */
  lemma {:induction false} CompareWithFill(s: seq<Byte>)
    ensures Compare(s, Fill(|s|, 0)) >= 0
    ensures Compare(s, Fill(|s|, 0xff)) <= 0
  {
    if s != [] {
      assert Fill(|s|, 0)[1..] == Fill(|s| - 1, 0);
      assert Fill(|s|, 0xff)[1..] == Fill(|s| - 1, 0xff);
      CompareWithFill(s[1..]);
    }
  }
}
