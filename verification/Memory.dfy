/** The word-at-a-time `memset` and `memcpy` of student-distrib/lib.c, over memory indexed by address. */
module Memory {
  import opened Bytes

  /** Memory after the byte-by-byte definition of each. */
  ghost function Filled(m: seq<byte>, s: nat, c: byte, n: nat): (r: seq<byte>)
    requires s + n <= |m|
  {
    m[..s] + seq(n, _ => c) + m[s + n..]
  }

  ghost function Copied(m: seq<byte>, dst: nat, src: nat, n: nat): (r: seq<byte>)
    requires dst + n <= |m| && src + n <= |m|
  {
    m[..dst] + m[src..src + n] + m[dst + n..]
  }

  /** `memset`: bytes until the address is aligned, then words, then the bytes left over. */
  method Memset(mem: array<byte>, s: nat, c: byte, n: nat)
    requires s + n <= mem.Length
    modifies mem
    ensures mem[..] == Filled(old(mem[..]), s, c, n)
    ensures forall j | 0 <= j < mem.Length :: mem[j] == if s <= j < s + n then c else old(mem[j])
  {
    var edi, ecx := s, n;
    ghost var end := s + n;
    while ecx != 0 && edi % 4 != 0
      invariant s <= edi && 0 <= ecx && edi + ecx == end
      invariant forall j | 0 <= j < mem.Length :: mem[j] == if s <= j < edi then c else old(mem[j])
    {
      mem[edi] := c;
      edi, ecx := edi + 1, ecx - 1;
    }
    var edx := ecx % 4;
    ecx := ecx / 4;
    while ecx != 0
      invariant s <= edi && 0 <= ecx && 0 <= edx && edi + 4 * ecx + edx == end
      invariant forall j | 0 <= j < mem.Length :: mem[j] == if s <= j < edi then c else old(mem[j])
    {
      mem[edi], mem[edi + 1], mem[edi + 2], mem[edi + 3] := c, c, c, c;
      edi, ecx := edi + 4, ecx - 1;
    }
    while edx != 0
      invariant s <= edi && edi + edx == end && edx >= 0
      invariant forall j | 0 <= j < mem.Length :: mem[j] == if s <= j < edi then c else old(mem[j])
    {
      mem[edi] := c;
      edi, edx := edi + 1, edx - 1;
    }
  }

  /** `movsl`: four bytes are read, then written. */
  method MoveWord(mem: array<byte>, edi: nat, esi: nat)
    requires edi + 4 <= mem.Length && esi + 4 <= mem.Length
    modifies mem
    ensures forall j | 0 <= j < mem.Length :: mem[j] == if edi <= j < edi + 4 then old(mem[esi + (j - edi)]) else old(mem[j])
  {
    mem[edi], mem[edi + 1], mem[edi + 2], mem[edi + 3] := mem[esi], mem[esi + 1], mem[esi + 2], mem[esi + 3];
  }

  /** The bytes from `dst` up to `edi` have been copied from `shift` further on; all others are as they were. */
  ghost predicate CopiedSoFar(mem: array<byte>, was: seq<byte>, dst: nat, edi: nat, shift: int)
    reads mem
  {
    && mem.Length == |was| && dst <= edi <= |was| && 0 <= dst + shift && edi + shift <= |was|
    && (forall j {:trigger mem[j]} | 0 <= j < dst :: mem[j] == was[j])
    && (forall j {:trigger mem[j]} | dst <= j < edi :: mem[j] == was[j + shift])
    && (forall j {:trigger mem[j]} | edi <= j < mem.Length :: mem[j] == was[j])
  }

  /** One byte, or one word, more: what is read has not been overwritten. */
  lemma SourceIntact(mem: array<byte>, was: seq<byte>, dst: nat, edi: nat, shift: int, j: nat)
    requires CopiedSoFar(mem, was, dst, edi, shift) && 0 <= edi + shift <= j < |was| && (0 <= shift || j < dst)
    ensures mem[j] == was[j]
  {
  }

  /** The byte loops: `count` bytes, or up to the next aligned address. */
  method MoveBytes(mem: array<byte>, edi0: nat, esi0: nat, count: nat, align: bool,
                   ghost was: seq<byte>, ghost dst: nat, ghost shift: int)
    returns (edi: nat, esi: nat, left: nat)
    requires CopiedSoFar(mem, was, dst, edi0, shift) && esi0 == edi0 + shift
    requires edi0 + count <= |was| && esi0 + count <= |was| && (0 <= shift || esi0 + count <= dst)
    modifies mem
    ensures CopiedSoFar(mem, was, dst, edi, shift) && esi == edi + shift && edi + left == edi0 + count
    ensures left == 0 || (align && edi % 4 == 0)
  {
    edi, esi, left := edi0, esi0, count;
    while left != 0 && !(align && edi % 4 == 0)
      invariant edi0 <= edi && edi + left == edi0 + count && esi == edi + shift
      invariant CopiedSoFar(mem, was, dst, edi, shift)
    {
      SourceIntact(mem, was, dst, edi, shift, esi);
      mem[edi] := mem[esi];
      edi, esi, left := edi + 1, esi + 1, left - 1;
    }
  }

  method MoveWords(mem: array<byte>, edi0: nat, esi0: nat, words: nat,
                   ghost was: seq<byte>, ghost dst: nat, ghost shift: int)
    returns (edi: nat, esi: nat)
    requires CopiedSoFar(mem, was, dst, edi0, shift) && esi0 == edi0 + shift
    requires edi0 + 4 * words <= |was| && esi0 + 4 * words <= |was| && (0 <= shift || esi0 + 4 * words <= dst)
    modifies mem
    ensures CopiedSoFar(mem, was, dst, edi, shift) && esi == edi + shift && edi == edi0 + 4 * words
  {
    edi, esi := edi0, esi0;
    var left := words;
    while left != 0
      invariant edi0 <= edi && edi + 4 * left == edi0 + 4 * words && esi == edi + shift && 0 <= left
      invariant CopiedSoFar(mem, was, dst, edi, shift)
    {
      SourceIntact(mem, was, dst, edi, shift, esi);
      SourceIntact(mem, was, dst, edi, shift, esi + 1);
      SourceIntact(mem, was, dst, edi, shift, esi + 2);
      SourceIntact(mem, was, dst, edi, shift, esi + 3);
      MoveWord(mem, edi, esi);
      edi, esi, left := edi + 4, esi + 4, left - 1;
    }
  }

  lemma AllCopied(mem: array<byte>, was: seq<byte>, dst: nat, src: nat, n: nat)
    requires dst + n <= |was| && src + n <= |was| && CopiedSoFar(mem, was, dst, dst + n, src - dst)
    ensures mem[..] == Copied(was, dst, src, n)
  {
    forall j | 0 <= j < |was|
      ensures mem[j] == Copied(was, dst, src, n)[j]
    {
      if dst <= j < dst + n {
        assert was[src..src + n][j - dst] == was[j + (src - dst)];
      }
    }
  }

  /** `memcpy`: the same three stages. It is right whenever the destination does not start inside the source. */
  method Memcpy(mem: array<byte>, dst: nat, src: nat, n: nat)
    requires dst + n <= mem.Length && src + n <= mem.Length && (dst <= src || src + n <= dst)
    modifies mem
    ensures mem[..] == Copied(old(mem[..]), dst, src, n)
    ensures forall j | 0 <= j < mem.Length :: mem[j] == if dst <= j < dst + n then old(mem[j + (src - dst)]) else old(mem[j])
  {
    ghost var was := mem[..];
    var edi, esi, ecx := MoveBytes(mem, dst, src, n, true, was, dst, src - dst);
    edi := MoveRest(mem, edi, esi, ecx, was, dst, src - dst);
    AllCopied(mem, was, dst, src, n);
  }

  /** ... from the aligned address on. */
  method MoveRest(mem: array<byte>, edi0: nat, esi0: nat, count: nat,
                  ghost was: seq<byte>, ghost dst: nat, ghost shift: int)
    returns (edi: nat)
    requires CopiedSoFar(mem, was, dst, edi0, shift) && esi0 == edi0 + shift
    requires edi0 + count <= |was| && esi0 + count <= |was| && (0 <= shift || esi0 + count <= dst)
    modifies mem
    ensures CopiedSoFar(mem, was, dst, edi, shift) && edi == edi0 + count
  {
    var words, edx := count / 4, count % 4;
    var esi, left;
    edi, esi := MoveWords(mem, edi0, esi0, words, was, dst, shift);
    edi, esi, left := MoveBytes(mem, edi, esi, edx, false, was, dst, shift);
  }
}
