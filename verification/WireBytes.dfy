/** Bytes and the big-endian 32-bit words of the wire format. */
module WireBytes {
  type byte = b: int | 0 <= b < 256
  type word = w: int | 0 <= w < 0x1_0000_0000

  /** put_u32: a word in network order. */
  function U32(n: word): (s: seq<byte>)
    ensures |s| == 4
  {
    [n / 0x100_0000, n / 0x1_0000 % 0x100, n / 0x100 % 0x100, n % 0x100]
  }

  /** get_u32: the word four bytes stand for. */
  function Num(s: seq<byte>): (n: word)
    requires |s| == 4
  {
    (s[0] as int) * 0x100_0000 + (s[1] as int) * 0x1_0000 + (s[2] as int) * 0x100 + s[3] as int
  }

  lemma NumOfU32(n: word)
    ensures Num(U32(n)) == n
  {
    assert n == n / 0x100 * 0x100 + n % 0x100;
    assert n / 0x100 == n / 0x1_0000 * 0x100 + n / 0x100 % 0x100;
    assert n / 0x1_0000 == n / 0x100_0000 * 0x100 + n / 0x1_0000 % 0x100;
  }

  lemma U32OfNum(s: seq<byte>)
    requires |s| == 4
    ensures U32(Num(s)) == s
  {
    var n := Num(s);
    assert n / 0x100 == (s[0] as int) * 0x1_0000 + (s[1] as int) * 0x100 + s[2] as int;
    assert n / 0x1_0000 == (s[0] as int) * 0x100 + s[1] as int;
    assert n / 0x100_0000 == s[0];
  }

  /** At the first place where they differ, a has the smaller byte. */
  ghost predicate Precedes(a: seq<byte>, b: seq<byte>) {
    exists k :: 0 <= k < |a| == |b| && a[..k] == b[..k] && a[k] < b[k]
  }

  lemma PrecedesAt(a: seq<byte>, b: seq<byte>, k: nat)
    requires k < |a| == |b| && a[k] < b[k] && forall i :: 0 <= i < k ==> a[i] == b[i]
    ensures Precedes(a, b)
  {
    assert a[..k] == b[..k];
  }

  lemma SmallerPrecedes(a: seq<byte>, b: seq<byte>)
    requires |a| == |b| == 4 && Num(a) < Num(b)
    ensures Precedes(a, b)
  {
    if a[0] != b[0] {
      PrecedesAt(a, b, 0);
    } else if a[1] != b[1] {
      PrecedesAt(a, b, 1);
    } else if a[2] != b[2] {
      PrecedesAt(a, b, 2);
    } else {
      PrecedesAt(a, b, 3);
    }
  }

  lemma PrecedingIsSmaller(a: seq<byte>, b: seq<byte>)
    requires |a| == |b| == 4 && Precedes(a, b)
    ensures Num(a) < Num(b)
  {
    var k :| 0 <= k < 4 && a[..k] == b[..k] && a[k] < b[k];
    assert forall i :: 0 <= i < k ==> a[i] == a[..k][i] == b[..k][i] == b[i];
  }

  /** Network order: words compare as their bytes do, the first byte first. */
  lemma BytesCompareAsWords(n: word, m: word)
    ensures n < m <==> Precedes(U32(n), U32(m))
  {
    NumOfU32(n);
    NumOfU32(m);
    if n < m {
      SmallerPrecedes(U32(n), U32(m));
    } else if Precedes(U32(n), U32(m)) {
      PrecedingIsSmaller(U32(n), U32(m));
    }
  }

  /** The cast to uint32_t. */
  function Low32(n: nat): word { n % 0x1_0000_0000 }

  /** A buffer with the bytes from an offset on overwritten by a piece. */
  function Splice(s: seq<byte>, at: nat, piece: seq<byte>): (r: seq<byte>)
    requires at + |piece| <= |s|
    ensures |r| == |s|
  {
    s[..at] + piece + s[at + |piece|..]
  }

  lemma SpliceTwice(s: seq<byte>, at: nat, a: seq<byte>, b: seq<byte>)
    requires at + |a| + |b| <= |s|
    ensures Splice(Splice(s, at, a), at + |a|, b) == Splice(s, at, a + b)
  {
    var t := Splice(s, at, a);
    assert t[..at + |a|] == s[..at] + a;
    assert t[at + |a| + |b|..] == s[at + |a| + |b|..];
  }

  /** memcpy into a buffer at an offset. */
  method Store(buf: array<byte>, at: nat, data: seq<byte>)
    requires at + |data| <= buf.Length
    modifies buf
    ensures buf[..] == Splice(old(buf[..]), at, data)
    ensures buf[..at + |data|] == old(buf[..at]) + data
  {
    forall i | 0 <= i < |data| {
      buf[at + i] := data[i];
    }
  }
}
