/** memset, memcpy and memmove: a head of bytes up to alignment, a body of double words
    and a tail of bytes, each the same as setting or copying at once. */
module Memory {
  import opened Bytes

  function Repeated(b: Byte, n: nat): seq<Byte> {
    seq(n, _ => b)
  }

  /** The i-th byte of a little-endian double word. */
  function DwordByte(v: nat, i: nat): Byte {
    if i == 0 then v % 0x100 else DwordByte(v / 0x100, i - 1)
  }

  lemma LowByte(q: nat, c: Byte)
    ensures (0x100 * q + c) / 0x100 == q && (0x100 * q + c) % 0x100 == c
  {
  }

  /** A byte times 0x01010101 is a double word of four such bytes. */
  lemma SpreadBytes(c: Byte)
    ensures var v := c * 0x1010101;
            DwordByte(v, 0) == DwordByte(v, 1) == DwordByte(v, 2) == DwordByte(v, 3) == c
  {
    LowByte(c * 0x10101, c);
    LowByte(c * 0x101, c);
    LowByte(c, c);
    assert DwordByte(c * 0x1010101, 1) == DwordByte(c * 0x10101, 0);
    assert DwordByte(c * 0x1010101, 2) == DwordByte(c * 0x10101, 1) == DwordByte(c * 0x101, 0);
    assert DwordByte(c * 0x1010101, 3) == DwordByte(c * 0x10101, 2) == DwordByte(c * 0x101, 1) == DwordByte(c, 0);
  }

  /** Before position `to` the new bytes are there; from it on nothing has changed. */
  ghost predicate Done(was: seq<Byte>, now: seq<Byte>, at: nat, data: seq<Byte>, to: nat) {
    && |was| == |now| && at <= to <= at + |data| <= |was|
    && forall j :: 0 <= j < |now| ==> now[j] == if at <= j < to then data[j - at] else was[j]
  }

  lemma NoneDone(was: seq<Byte>, at: nat, data: seq<Byte>)
    requires at + |data| <= |was|
    ensures Done(was, was, at, data, at)
  {
  }

  lemma AllDone(was: seq<Byte>, now: seq<Byte>, at: nat, data: seq<Byte>)
    requires Done(was, now, at, data, at + |data|)
    ensures Stored(was, now, at, data)
  {
  }

  /** One byte further. */
  lemma ByteDone(was: seq<Byte>, now: seq<Byte>, at: nat, data: seq<Byte>, to: nat)
    requires Done(was, now, at, data, to) && to < at + |data|
    ensures Done(was, now[to := data[to - at]], at, data, to + 1)
  {
  }

  lemma DwordDone(was: seq<Byte>, now: seq<Byte>, next: seq<Byte>, at: nat, data: seq<Byte>, to: nat)
    requires Done(was, now, at, data, to) && to + 4 <= at + |data|
    requires next == now[to := data[to - at]][to + 1 := data[to + 1 - at]][to + 2 := data[to + 2 - at]][to + 3 := data[to + 3 - at]]
    ensures Done(was, next, at, data, to + 4)
  {
    ByteDone(was, now, at, data, to);
    var n1 := now[to := data[to - at]];
    ByteDone(was, n1, at, data, to + 1);
    var n2 := n1[to + 1 := data[to + 1 - at]];
    ByteDone(was, n2, at, data, to + 2);
    ByteDone(was, n2[to + 2 := data[to + 2 - at]], at, data, to + 3);
  }

  /** stosl and movsl: four bytes stored at once. */
  method StoreDword(dst: array<Byte>, at: nat, b0: Byte, b1: Byte, b2: Byte, b3: Byte)
    requires at + 4 <= dst.Length
    modifies dst
    ensures dst[..] == old(dst[..])[at := b0][at + 1 := b1][at + 2 := b2][at + 3 := b3]
  {
    dst[at], dst[at + 1], dst[at + 2], dst[at + 3] := b0, b1, b2, b3;
  }

  /** memset of n bytes at place d, where base is the address of the array. */
  method MemSet(dst: array<Byte>, base: nat, d: nat, c: int, n: nat)
    requires d + n <= dst.Length
    modifies dst
    ensures Stored(old(dst[..]), dst[..], d, Repeated(c % 0x100, n))
  {
    hide DwordByte, Done, Stored;
    ghost var was, data := dst[..], Repeated(c % 0x100, n);
    NoneDone(was, d, data);
    var v := c % 0x100 * 0x1010101;
    SpreadBytes(c % 0x100);
    var edi: nat, ecx: nat := d, n;
    while ecx != 0 && (base + edi) % 4 != 0
      invariant edi + ecx == d + n && Done(was, dst[..], d, data, edi)
    {
      ByteDone(was, dst[..], d, data, edi);
      dst[edi] := DwordByte(v, 0);
      edi, ecx := edi + 1, ecx - 1;
    }
    var edx: nat := ecx % 4;
    ecx := ecx / 4;
    while ecx != 0
      invariant edi + 4 * ecx + edx == d + n && Done(was, dst[..], d, data, edi)
    {
      ghost var now := dst[..];
      StoreDword(dst, edi, DwordByte(v, 0), DwordByte(v, 1), DwordByte(v, 2), DwordByte(v, 3));
      DwordDone(was, now, dst[..], d, data, edi);
      edi, ecx := edi + 4, ecx - 1;
    }
    while edx != 0
      invariant edi + edx == d + n && Done(was, dst[..], d, data, edi)
    {
      ByteDone(was, dst[..], d, data, edi);
      dst[edi] := DwordByte(v, 0);
      edi, edx := edi + 1, edx - 1;
    }
    AllDone(was, dst[..], d, data);
  }

  /** k bytes of the source, whose first contents were data, have been copied; the others
      have not been overwritten. */
  ghost predicate Copying(dst: array<Byte>, d: nat, src: array<Byte>, s: nat, was: seq<Byte>, data: seq<Byte>, k: nat)
    reads dst, src
  {
    && s + |data| <= src.Length && k <= |data| && Done(was, dst[..], d, data, d + k)
    && forall j :: s + k <= j < s + |data| ==> src[j] == data[j - s]
  }

  /** The destination does not begin inside the source, after its start. */
  ghost predicate CopiesUp(dst: array<Byte>, d: nat, src: array<Byte>, s: nat, n: nat) {
    dst != src || d <= s || s + n <= d
  }

  method CopyByte(dst: array<Byte>, d: nat, src: array<Byte>, s: nat, k: nat, ghost was: seq<Byte>, ghost data: seq<Byte>)
    requires Copying(dst, d, src, s, was, data, k) && k < |data| && CopiesUp(dst, d, src, s, |data|)
    modifies dst
    ensures Copying(dst, d, src, s, was, data, k + 1)
  {
    ByteDone(was, dst[..], d, data, d + k);
    dst[d + k] := src[s + k];
  }

  method CopyDword(dst: array<Byte>, d: nat, src: array<Byte>, s: nat, k: nat, ghost was: seq<Byte>, ghost data: seq<Byte>)
    requires Copying(dst, d, src, s, was, data, k) && k + 4 <= |data| && CopiesUp(dst, d, src, s, |data|)
    modifies dst
    ensures Copying(dst, d, src, s, was, data, k + 4)
  {
    DwordDone(was, dst[..], dst[..][d + k := data[k]][d + k + 1 := data[k + 1]][d + k + 2 := data[k + 2]][d + k + 3 := data[k + 3]],
              d, data, d + k);
    StoreDword(dst, d + k, src[s + k], src[s + k + 1], src[s + k + 2], src[s + k + 3]);
  }

  /** memcpy: right unless the destination begins inside the source, after its start. */
  method MemCpy(dst: array<Byte>, base: nat, d: nat, src: array<Byte>, s: nat, n: nat)
    requires d + n <= dst.Length && s + n <= src.Length
    requires CopiesUp(dst, d, src, s, n)
    modifies dst
    ensures Stored(old(dst[..]), dst[..], d, old(src[s..s + n]))
  {
    ghost var was, data := dst[..], src[s..s + n];
    NoneDone(was, d, data);
    assert Copying(dst, d, src, s, was, data, 0);
    var k := CopyAll(dst, base, d, src, s, n, was, data);
    AllDone(was, dst[..], d, data);
  }

  /** The three phases. */
  method CopyAll(dst: array<Byte>, base: nat, d: nat, src: array<Byte>, s: nat, n: nat, ghost was: seq<Byte>, ghost data: seq<Byte>)
    returns (k: nat)
    requires |data| == n && CopiesUp(dst, d, src, s, n) && Copying(dst, d, src, s, was, data, 0)
    modifies dst
    ensures k == n && Copying(dst, d, src, s, was, data, k)
  {
    hide Copying, CopiesUp;
    k := 0;
    var ecx: nat := n;
    while ecx != 0 && (base + d + k) % 4 != 0
      invariant k + ecx == n && Copying(dst, d, src, s, was, data, k)
    {
      CopyByte(dst, d, src, s, k, was, data);
      k, ecx := k + 1, ecx - 1;
    }
    var edx: nat := ecx % 4;
    ecx := ecx / 4;
    while ecx != 0
      invariant k + 4 * ecx + edx == n && Copying(dst, d, src, s, was, data, k)
    {
      CopyDword(dst, d, src, s, k, was, data);
      k, ecx := k + 4, ecx - 1;
    }
    while edx != 0
      invariant k + edx == n && Copying(dst, d, src, s, was, data, k)
    {
      CopyByte(dst, d, src, s, k, was, data);
      k, edx := k + 1, edx - 1;
    }
  }

  /** memmove copies forward when the source is not before the destination, else backward;
      either way the result is as if the source had been put aside first. */
  method MemMove(mem: array<Byte>, d: nat, s: nat, n: nat)
    requires d + n <= mem.Length && s + n <= mem.Length
    modifies mem
    ensures Stored(old(mem[..]), mem[..], d, old(mem[s..s + n]))
  {
    ghost var was, data := mem[..], mem[s..s + n];
    var ecx := n;
    if s >= d {
      var esi, edi := s, d;
      while ecx != 0
        invariant 0 <= ecx && edi + ecx == d + n && esi + ecx == s + n && d <= edi
        invariant forall j :: d <= j < edi ==> mem[j] == data[j - d]
        invariant forall j :: 0 <= j < mem.Length && !(d <= j < edi) ==> mem[j] == was[j]
      {
        mem[edi] := mem[esi];
        esi, edi, ecx := esi + 1, edi + 1, ecx - 1;
      }
    } else {
      var esi, edi := s + n - 1, d + n - 1;
      while ecx != 0
        invariant 0 <= ecx <= n && edi + 1 == d + ecx && esi + 1 == s + ecx
        invariant forall j :: edi < j < d + n ==> mem[j] == data[j - d]
        invariant forall j :: 0 <= j < mem.Length && !(edi < j < d + n) ==> mem[j] == was[j]
      {
        mem[edi] := mem[esi];
        esi, edi, ecx := esi - 1, edi - 1, ecx - 1;
      }
    }
  }
}
