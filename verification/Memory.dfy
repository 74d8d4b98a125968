/** The byte-wise memory routines. A pointer is an array and an offset; comparing two pointers
    into one array compares their offsets. */
module Memory {
  import opened Bits

  /** `buf` with `part` copied over it at `at`. */
  function Splice(buf: seq<byte>, at: nat, part: seq<byte>): (r: seq<byte>)
    requires at + |part| <= |buf|
    ensures |r| == |buf|
    ensures forall i | 0 <= i < |buf| :: r[i] == if at <= i < at + |part| then part[i - at] else buf[i]
  {
    buf[..at] + part + buf[at + |part|..]
  }

  lemma SpliceSlice(buf: seq<byte>, at: nat, part: seq<byte>, lo: nat, hi: nat)
    requires at + |part| <= |buf| && lo <= hi <= |buf|
    ensures hi <= at || at + |part| <= lo ==> Splice(buf, at, part)[lo..hi] == buf[lo..hi]
    ensures lo == at && hi == at + |part| ==> Splice(buf, at, part)[lo..hi] == part
  {
  }

  /** memmove inside one array: the copy goes upwards or downwards so that a byte is read
      before it is overwritten, however the two ranges overlap. */
  method Memmove(a: array<byte>, dest: nat, src: nat, n: nat)
    requires dest + n <= a.Length && src + n <= a.Length
    modifies a
    ensures a[..] == Splice(old(a[..]), dest, old(a[src..src + n]))
  {
    if src > dest {
      var i := 0;
      while i < n
        invariant 0 <= i <= n
        invariant forall k | dest <= k < dest + i :: a[k] == old(a[k - dest + src])
        invariant forall k | 0 <= k < a.Length && !(dest <= k < dest + i) :: a[k] == old(a[k])
      {
        a[dest + i] := a[src + i];
        i := i + 1;
      }
    } else if src < dest {
      var i := n;
      while i > 0
        invariant 0 <= i <= n
        invariant forall k | dest + i <= k < dest + n :: a[k] == old(a[k - dest + src])
        invariant forall k | 0 <= k < a.Length && !(dest + i <= k < dest + n) :: a[k] == old(a[k])
      {
        a[dest + i - 1] := a[src + i - 1];
        i := i - 1;
      }
    }
  }

  /** memcpy between ranges that do not overlap. */
  method Memcpy(dest: array<byte>, d: nat, src: array<byte>, s: nat, n: nat)
    requires d + n <= dest.Length && s + n <= src.Length
    requires dest != src || d + n <= s || s + n <= d
    modifies dest
    ensures dest[d..d + n] == old(src[s..s + n])
    ensures forall i | 0 <= i < dest.Length && !(d <= i < d + n) :: dest[i] == old(dest[i])
  {
    for i := 0 to n
      invariant forall k | d <= k < d + i :: dest[k] == old(src[k - d + s])
      invariant forall k | 0 <= k < dest.Length && !(d <= k < d + i) :: dest[k] == old(dest[k])
    {
      dest[d + i] := src[s + i];
    }
  }

  /** memcpy from a structure, given as its bytes, into a buffer. */
  method CopyIn(dest: array<byte>, d: nat, bytes: seq<byte>)
    requires d + |bytes| <= dest.Length
    modifies dest
    ensures dest[..] == Splice(old(dest[..]), d, bytes)
  {
    for i := 0 to |bytes|
      invariant forall k | 0 <= k < dest.Length :: dest[k] == if d <= k < d + i then bytes[k - d] else old(dest[k])
    {
      dest[d + i] := bytes[i];
    }
  }

  /** memset; the fill value is converted to a byte. */
  method Memset(a: array<byte>, s: nat, c: int, n: nat)
    requires s + n <= a.Length
    modifies a
    ensures forall i | 0 <= i < a.Length :: a[i] == if s <= i < s + n then c % 256 else old(a[i])
  {
    for i := 0 to n
      invariant forall k | 0 <= k < a.Length :: a[k] == if s <= k < s + i then c % 256 else old(a[k])
    {
      a[s + i] := c % 256;
    }
  }

  /** memcmp: the sign of the first difference. */
  method Memcmp(a: seq<byte>, b: seq<byte>, n: nat) returns (r: int)
    requires n <= |a| && n <= |b|
    ensures r == 0 <==> a[..n] == b[..n]
    ensures r != 0 ==> exists i ::
              0 <= i < n && a[..i] == b[..i] && (if r == -1 then a[i] < b[i] else r == 1 && a[i] > b[i])
  {
    for i := 0 to n
      invariant a[..i] == b[..i]
    {
      if a[i] != b[i] {
        assert a[..n][i] != b[..n][i];
        return if a[i] < b[i] then -1 else 1;
      }
    }
    return 0;
  }
}
