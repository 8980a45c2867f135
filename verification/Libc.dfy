/** panda/board/libc.h: the word-blocked memcpy, on a memory whose indices are its addresses. */
module Libc {
  import opened Words

  /** Copying one byte after another, each read after the writes before it. */
  function ForwardCopy(m: seq<byte>, dest: nat, src: nat, n: nat): (r: seq<byte>)
    requires dest + n <= |m| && src + n <= |m|
    ensures |r| == |m|
    decreases n
  {
    if n == 0 then m else ForwardCopy(m[dest := m[src]], dest + 1, src + 1, n - 1)
  }

  /** What a copy is meant to leave: the source bytes as they were, and nothing else changed. */
  function Moved(m: seq<byte>, dest: nat, src: nat, n: nat): seq<byte>
    requires dest + n <= |m| && src + n <= |m|
  {
    m[..dest] + m[src..src + n] + m[dest + n..]
  }

  /** The destination does not start strictly inside the source. */
  predicate Forwardable(dest: nat, src: nat, n: nat) {
    dest <= src || src + n <= dest
  }

  lemma {:induction false} ForwardCopyConcat(m: seq<byte>, dest: nat, src: nat, a: nat, b: nat)
    requires dest + a + b <= |m| && src + a + b <= |m|
    ensures ForwardCopy(ForwardCopy(m, dest, src, a), dest + a, src + a, b) == ForwardCopy(m, dest, src, a + b)
    decreases a
  {
    if a != 0 {
      ForwardCopyConcat(m[dest := m[src]], dest + 1, src + 1, a - 1, b);
    }
  }

  lemma {:induction false} ForwardCopyAt(m: seq<byte>, dest: nat, src: nat, n: nat, k: nat)
    requires dest + n <= |m| && src + n <= |m| && Forwardable(dest, src, n) && k < |m|
    ensures ForwardCopy(m, dest, src, n)[k] == if dest <= k < dest + n then m[src + (k - dest)] else m[k]
    decreases n
  {
    if n != 0 {
      ForwardCopyAt(m[dest := m[src]], dest + 1, src + 1, n - 1, k);
    }
  }

  /** Byte by byte, unless the destination starts inside the source, is the ideal move. */
  lemma ForwardCopyMoves(m: seq<byte>, dest: nat, src: nat, n: nat)
    requires dest + n <= |m| && src + n <= |m| && Forwardable(dest, src, n)
    ensures ForwardCopy(m, dest, src, n) == Moved(m, dest, src, n)
  {
    forall k | 0 <= k < |m|
      ensures ForwardCopy(m, dest, src, n)[k] == Moved(m, dest, src, n)[k]
    {
      ForwardCopyAt(m, dest, src, n, k);
      MovedAt(m, dest, src, n, k);
    }
  }

  lemma MovedAt(m: seq<byte>, dest: nat, src: nat, n: nat, k: nat)
    requires dest + n <= |m| && src + n <= |m| && k < |m|
    ensures Moved(m, dest, src, n)[k] == if dest <= k < dest + n then m[src + (k - dest)] else m[k]
  {}

  /** Bytes of the source below the destination survive until they are read. */
  lemma {:induction false} ForwardCopyBelow(m: seq<byte>, dest: nat, src: nat, n: nat, k: nat)
    requires dest + n <= |m| && src + n <= |m| && k < |m|
    ensures k < dest ==> ForwardCopy(m, dest, src, n)[k] == m[k]
    ensures 0 < n && k == dest ==> ForwardCopy(m, dest, src, n)[k] == m[src]
    decreases n
  {
    if n != 0 {
      ForwardCopyBelow(m[dest := m[src]], dest + 1, src + 1, n - 1, k);
    }
  }

  /** When the destination starts inside the source some memory is copied wrongly: its first byte
      comes out a second time one overlap distance further on. */
  lemma OverlapRepeats(size: nat, dest: nat, src: nat, n: nat) returns (m: seq<byte>)
    requires src < dest < src + n && dest + n <= size
    ensures |m| == size && ForwardCopy(m, dest, src, n) != Moved(m, dest, src, n)
  {
    m := seq(size, i => if i == src then 1 else 0);
    var gap := dest - src;
    var half := ForwardCopy(m, dest, src, gap);
    ForwardCopyConcat(m, dest, src, gap, n - gap);
    ForwardCopyBelow(m, dest, src, gap, dest);
    ForwardCopyBelow(half, dest + gap, dest, n - gap, dest + gap);
    assert ForwardCopy(m, dest, src, n)[dest + gap] == 1;
    assert Moved(m, dest, src, n)[dest + gap] == m[src + gap] == 0;
  }

  /** The overlap that comms_can_read relies on is exactly the safe one. */
  lemma MovesExactlyWhenForwardable(size: nat, dest: nat, src: nat, n: nat)
    requires dest + n <= size && src + n <= size
    ensures Forwardable(dest, src, n)
        <==> forall m: seq<byte> :: |m| == size ==> ForwardCopy(m, dest, src, n) == Moved(m, dest, src, n)
  {
    if Forwardable(dest, src, n) {
      forall m: seq<byte> | |m| == size
        ensures ForwardCopy(m, dest, src, n) == Moved(m, dest, src, n)
      {
        ForwardCopyMoves(m, dest, src, n);
      }
    } else {
      var m := OverlapRepeats(size, dest, src, n);
    }
  }

  /** Two addresses are equal or at least a word apart. */
  predicate WordsApart(dest: nat, src: nat) {
    dest == src || dest + 4 <= src || src + 4 <= dest
  }

  /** A word loaded whole and then stored a word apart is four bytes in a row. */
  lemma WordIsFourBytes(m: seq<byte>, dest: nat, src: nat)
    requires dest + 4 <= |m| && src + 4 <= |m| && WordsApart(dest, src)
    ensures m[dest := m[src]][dest + 1 := m[src + 1]][dest + 2 := m[src + 2]][dest + 3 := m[src + 3]]
         == ForwardCopy(m, dest, src, 4)
  {
    var m1 := m[dest := m[src]];
    var m2 := m1[dest + 1 := m1[src + 1]];
    var m3 := m2[dest + 2 := m2[src + 2]];
    var m4 := m3[dest + 3 := m3[src + 3]];
    assert ForwardCopy(m4, dest + 4, src + 4, 0) == m4;
    assert ForwardCopy(m3, dest + 3, src + 3, 1) == m4;
    assert ForwardCopy(m2, dest + 2, src + 2, 2) == m4;
    assert ForwardCopy(m1, dest + 1, src + 1, 3) == m4;
  }

  /** *d32 = *s32, after k bytes of a copy. */
  method CopyWord(mem: array<byte>, d: nat, s: nat, ghost m: seq<byte>, ghost dest: nat, ghost src: nat, ghost k: nat)
    requires d == dest + k && s == src + k && d + 4 <= mem.Length == |m| && s + 4 <= mem.Length
    requires WordsApart(dest, src)
    requires mem[..] == ForwardCopy(m, dest, src, k)
    modifies mem
    ensures mem[..] == ForwardCopy(m, dest, src, k + 4)
  {
    ghost var now := mem[..];
    WordIsFourBytes(now, d, s);
    mem[d], mem[d + 1], mem[d + 2], mem[d + 3] := mem[s], mem[s + 1], mem[s + 2], mem[s + 3];
    assert mem[..] == now[d := now[s]][d + 1 := now[s + 1]][d + 2 := now[s + 2]][d + 3 := now[s + 3]];
    ForwardCopyConcat(m, dest, src, k, 4);
  }

  /** *d8 = *s8, after k bytes of a copy. */
  method CopyByte(mem: array<byte>, d: nat, s: nat, ghost m: seq<byte>, ghost dest: nat, ghost src: nat, ghost k: nat)
    requires d == dest + k && s == src + k && d < mem.Length == |m| && s < mem.Length
    requires mem[..] == ForwardCopy(m, dest, src, k)
    modifies mem
    ensures mem[..] == ForwardCopy(m, dest, src, k + 1)
  {
    ghost var now := mem[..];
    mem[d] := mem[s];
    assert mem[..] == now[d := now[s]] == ForwardCopy(now[d := now[s]], d + 1, s + 1, 0);
    assert ForwardCopy(now, d, s, 1) == now[d := now[s]];
    ForwardCopyConcat(m, dest, src, k, 1);
  }

  /** Four words in a row, after k bytes of a copy. */
  method CopyBlock(mem: array<byte>, d: nat, s: nat, ghost m: seq<byte>, ghost dest: nat, ghost src: nat, ghost k: nat)
    requires d == dest + k && s == src + k && d + 16 <= mem.Length == |m| && s + 16 <= mem.Length
    requires WordsApart(dest, src)
    requires mem[..] == ForwardCopy(m, dest, src, k)
    modifies mem
    ensures mem[..] == ForwardCopy(m, dest, src, k + 16)
  {
    CopyWord(mem, d, s, m, dest, src, k);
    CopyWord(mem, d + 4, s + 4, m, dest, src, k + 4);
    CopyWord(mem, d + 8, s + 8, m, dest, src, k + 8);
    CopyWord(mem, d + 12, s + 12, m, dest, src, k + 12);
  }

  /** The 16-byte, 4-byte and byte loops copy byte by byte, whatever the alignment and the overlap. */
  method Memcpy(mem: array<byte>, dest: nat, src: nat, len: nat)
    requires dest + len <= mem.Length && src + len <= mem.Length
    modifies mem
    ensures mem[..] == ForwardCopy(old(mem[..]), dest, src, len)
    ensures Forwardable(dest, src, len) ==> mem[..] == Moved(old(mem[..]), dest, src, len)
  {
    ghost var m := mem[..];
    var n := len;
    var d, s := dest, src;
    if n >= 4 && s % 4 == 0 && d % 4 == 0 {
      assert WordsApart(dest, src);
      while n >= 16
        invariant 0 <= n <= len && d == dest + (len - n) && s == src + (len - n)
        invariant mem[..] == ForwardCopy(m, dest, src, len - n)
      {
        CopyBlock(mem, d, s, m, dest, src, len - n);
        d, s := d + 16, s + 16;
        n := n - 16;
      }
      while n >= 4
        invariant 0 <= n <= len && d == dest + (len - n) && s == src + (len - n)
        invariant mem[..] == ForwardCopy(m, dest, src, len - n)
      {
        CopyWord(mem, d, s, m, dest, src, len - n);
        d, s := d + 4, s + 4;
        n := n - 4;
      }
    }
    while n > 0
      invariant 0 <= n <= len && d == dest + (len - n) && s == src + (len - n)
      invariant mem[..] == ForwardCopy(m, dest, src, len - n)
    {
      CopyByte(mem, d, s, m, dest, src, len - n);
      d, s := d + 1, s + 1;
      n := n - 1;
    }
    ForwardedIsMoved(m, dest, src, len);
  }

  lemma ForwardedIsMoved(m: seq<byte>, dest: nat, src: nat, len: nat)
    requires dest + len <= |m| && src + len <= |m|
    ensures Forwardable(dest, src, len) ==> ForwardCopy(m, dest, src, len) == Moved(m, dest, src, len)
  {
    if Forwardable(dest, src, len) {
      ForwardCopyMoves(m, dest, src, len);
    }
  }
}
