/**
 * The circular byte buffer of an engine, on values: positions relative to a cursor that wrap at the
 * end of the region, the bytes read starting at a cursor, and the region after bytes are written
 * starting at a cursor.
 */
module Ring {
  import opened Common

  /** The position `j` bytes after `at` in a region of `size` bytes. */
  function Index(at: nat, j: nat, size: nat): (i: nat)
    requires at < size && j < size
    ensures i < size
  {
    if at + j < size then at + j else at + j - size
  }

  /** Where a cursor at `at` ends after moving over `n` bytes, wrapping to 0 at the end. */
  function Advance(at: nat, n: nat, size: nat): (r: nat)
    requires at < size && n <= size
    ensures r < size
  {
    if at + n < size then at + n else at + n - size
  }

  /** How many bytes after `at` the position `i` lies. */
  function Distance(at: nat, i: nat, size: nat): (d: nat)
    requires at < size && i < size
    ensures d < size
  {
    if i >= at then i - at else i + size - at
  }

  /** The cursor arithmetic is addition modulo the region size. */
  lemma AdvanceIsMod(at: nat, n: nat, size: nat)
    requires at < size && n <= size
    ensures Advance(at, n, size) == (at + n) % size
  {
    if at + n < size {
      DivUnique(at + n, size, 0, at + n);
    } else {
      DivUnique(at + n, size, 1, at + n - size);
    }
  }

  /** `Distance` undoes `Index`, and the other way round. */
  lemma IndexDistance(at: nat, j: nat, i: nat, size: nat)
    requires at < size && j < size && i < size
    ensures Distance(at, Index(at, j, size), size) == j
    ensures Index(at, Distance(at, i, size), size) == i
  {
  }

  /** The `n` bytes of `s` starting at the cursor `at`. */
  function Read(s: seq<Byte>, at: nat, n: nat): (r: seq<Byte>)
    requires at < |s| && n <= |s|
    ensures |r| == n
  {
    seq(n, j requires 0 <= j < n => s[Index(at, j, |s|)])
  }

  /** `s` with `data` written starting at the cursor `at`. */
  function Write(s: seq<Byte>, at: nat, data: seq<Byte>): (r: seq<Byte>)
    requires at < |s| && |data| <= |s|
    ensures |r| == |s|
  {
    seq(|s|, i requires 0 <= i < |s| => if Distance(at, i, |s|) < |data| then data[Distance(at, i, |s|)] else s[i])
  }

  /** Bytes written at a cursor are read back at that cursor. */
  lemma ReadWrite(s: seq<Byte>, at: nat, data: seq<Byte>)
    requires at < |s| && |data| <= |s|
    ensures Read(Write(s, at, data), at, |data|) == data
  {
    forall j | 0 <= j < |data|
      ensures Read(Write(s, at, data), at, |data|)[j] == data[j]
    {
      IndexDistance(at, j, 0, |s|);
    }
  }

  /** A write leaves the bytes past its end, up to the cursor, as they were. */
  lemma WriteKeepsRest(s: seq<Byte>, at: nat, data: seq<Byte>, j: nat)
    requires at < |s| && |data| <= j < |s|
    ensures Read(Write(s, at, data), at, |s|)[j] == s[Index(at, j, |s|)]
  {
    IndexDistance(at, j, 0, |s|);
  }

  /** Reading n more bytes from where the cursor stands after m extends the bytes read. */
  lemma ReadExtend(s: seq<Byte>, at: nat, m: nat, n: nat)
    requires at < |s| && m + n <= |s|
    requires Advance(at, m, |s|) + n <= |s|
    ensures var p := Advance(at, m, |s|); Read(s, at, m + n) == Read(s, at, m) + s[p..p + n]
  {
    var p := Advance(at, m, |s|);
    var r, r' := Read(s, at, m + n), Read(s, at, m) + s[p..p + n];
    forall j | 0 <= j < m + n
      ensures r[j] == r'[j]
    {
      if j >= m {
        assert Index(at, j, |s|) == p + (j - m);
      }
    }
  }

  /**
   * Writing `x` where the cursor stands after `data` extends the write: `next` is `cur` with the
   * contiguous run at that position replaced by `x`.
   */
  lemma WriteExtend(s: seq<Byte>, at: nat, data: seq<Byte>, x: seq<Byte>, cur: seq<Byte>, next: seq<Byte>)
    requires at < |s| && |data| + |x| <= |s| && cur == Write(s, at, data)
    requires Advance(at, |data|, |s|) + |x| <= |s| && |next| == |s|
    requires var p := Advance(at, |data|, |s|);
      forall i :: 0 <= i < |s| ==> next[i] == if p <= i < p + |x| then x[i - p] else cur[i]
    ensures next == Write(s, at, data + x)
  {
    var p := Advance(at, |data|, |s|);
    var w := Write(s, at, data + x);
    forall i | 0 <= i < |s|
      ensures next[i] == w[i]
    {
      var d := Distance(at, i, |s|);
      if p <= i < p + |x| {
        assert d == |data| + (i - p);
      } else {
        assert !(|data| <= d < |data| + |x|);
      }
    }
  }
}
