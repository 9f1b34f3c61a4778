/** Bytes of physical memory, and the 48-byte block header that the heap keeps in them.

    The header fields are stored little-endian at the offsets the C structure gives them:
    magic at 0, size at 8, is_free at 16 (followed by 15 bytes of padding), next at 32, prev at 40. */
module HeaderLayout {
  import opened Common

  const HEADER_SIZE: nat := 48

  type Byte = x: int | 0 <= x < 256
  type Word = x: int | 0 <= x < WORD_LIMIT

  datatype Header = Header(magic: nat, size: nat, isFree: nat, next: nat, prev: nat)

  // ---------- 64-bit words as bytes ----------

  function Pow256(n: nat): (p: nat)
    ensures p > 0
  {
    if n == 0 then 1 else 256 * Pow256(n - 1)
  }

  function Encode(v: nat, n: nat): (s: seq<Byte>)
    ensures |s| == n
  {
    if n == 0 then [] else [v % 256] + Encode(v / 256, n - 1)
  }

  function Decode(s: seq<Byte>): (v: nat)
    ensures v < Pow256(|s|)
  {
    if s == [] then 0 else s[0] + 256 * Decode(s[1..])
  }

  lemma {:induction false} DecodeEncode(v: nat, n: nat)
    requires v < Pow256(n)
    ensures Decode(Encode(v, n)) == v
  {
    if n > 0 {
      DecodeEncode(v / 256, n - 1);
      assert Encode(v, n)[1..] == Encode(v / 256, n - 1);
    }
  }

  lemma {:induction false} EncodeDecode(s: seq<Byte>)
    ensures Encode(Decode(s), |s|) == s
  {
    hide Encode;
    if s != [] {
      EncodeDecode(s[1..]);
      DivIs(Decode(s), 256, Decode(s[1..]), s[0]);
      EncodeStep(Decode(s), |s|);
      assert s == [s[0]] + s[1..];
    } else {
      NoBytes(0);
    }
  }

  lemma NoBytes(v: nat)
    ensures Encode(v, 0) == []
  {
  }

  // Byte k is the one for v / 256^k % 256: the least significant comes first.
  lemma {:induction false} EncodeByte(v: nat, n: nat, k: nat)
    requires k < n
    ensures Encode(v, n)[k] == v / Pow256(k) % 256
  {
    if k > 0 {
      EncodeByte(v / 256, n - 1, k - 1);
      DivDiv(v, 256, Pow256(k - 1));
    }
  }

  // Encoded, a byte and the bytes of what is left of it.
  lemma EncodeStep(v: nat, n: nat)
    requires n > 0
    ensures Encode(v, n) == [v % 256] + Encode(v / 256, n - 1)
  {
  }

  lemma {:induction false} EncodeZero(n: nat)
    ensures forall k :: 0 <= k < n ==> Encode(0, n)[k] == 0
  {
    if n > 0 {
      EncodeZero(n - 1);
    }
  }

  lemma WordIsEightBytes()
    ensures Pow256(8) == WORD_LIMIT
  {
    assert Pow256(4) == 0x1_0000_0000;
  }

  function ReadWord(m: seq<Byte>, a: nat): Word
    requires a + 8 <= |m|
  {
    WordIsEightBytes();
    Decode(m[a..a + 8])
  }

  // The memory m with the bytes of s stored from address a on.
  function Store(m: seq<Byte>, a: nat, s: seq<Byte>): (r: seq<Byte>)
    requires a + |s| <= |m|
    ensures |r| == |m| && r[a..a + |s|] == s
    ensures SameOutside(m, r, a, a + |s|)
  {
    m[..a] + s + m[a + |s|..]
  }

  predicate SameOutside(m: seq<Byte>, m': seq<Byte>, lo: nat, hi: nat)
  {
    |m| == |m'| && forall i :: 0 <= i < |m| && !(lo <= i < hi) ==> m'[i] == m[i]
  }

  lemma ReadStoredWord(m: seq<Byte>, a: nat, v: Word)
    requires a + 8 <= |m|
    ensures ReadWord(Store(m, a, Encode(v, 8)), a) == v
  {
    WordIsEightBytes();
    DecodeEncode(v, 8);
  }

  // ---------- headers ----------

  function HeaderAt(m: seq<Byte>, h: nat): Header
    requires h + HEADER_SIZE <= |m|
  {
    Header(ReadWord(m, h), ReadWord(m, h + 8), m[h + 16], ReadWord(m, h + 32), ReadWord(m, h + 40))
  }

  // Where the fields of a header are: magic, size, the free flag, next and prev, at 0, 8, 16, 32 and 40.
  lemma HeaderBytes(m: seq<Byte>, h: nat)
    requires h + 48 <= |m|
    ensures var header := HeaderAt(m, h);
      && m[h..h + 8] == Encode(header.magic, 8) && m[h + 8..h + 16] == Encode(header.size, 8)
      && m[h + 16] == header.isFree
      && m[h + 32..h + 40] == Encode(header.next, 8) && m[h + 40..h + 48] == Encode(header.prev, 8)
  {
    hide Encode, Decode;
    EncodeDecode(m[h..h + 8]);
    EncodeDecode(m[h + 8..h + 16]);
    EncodeDecode(m[h + 32..h + 40]);
    EncodeDecode(m[h + 40..h + 48]);
  }

  // The magic word and the size of the whole pool's block as bytes.
  lemma PoolWords()
    ensures Encode(0x4845_4150, 8) == [0x50, 0x41, 0x45, 0x48, 0, 0, 0, 0]
    ensures Encode(0x100_0000 - 48, 8) == [0xD0, 0xFF, 0xFF, 0, 0, 0, 0, 0]
    ensures Encode(0, 8) == [0, 0, 0, 0, 0, 0, 0, 0]
  {
    EncodeZero(4);
    EncodeZero(8);
    var z := Encode(0, 4);
    assert z == [0, 0, 0, 0];
    FourBytes(0x4845_4150, 0x50, 0x41, 0x45, 0x48);
    FourBytes(0x100_0000 - 48, 0xD0, 0xFF, 0xFF, 0);
  }

  lemma FourBytes(v: nat, a: Byte, b: Byte, c: Byte, d: Byte)
    requires v == a + 0x100 * b + 0x1_0000 * c + 0x100_0000 * d
    ensures Encode(v, 8) == [a, b, c, d] + Encode(0, 4)
  {
    hide Encode;
    EncodeStep(v, 8);
    EncodeStep(v / 256, 7);
    assert v / 256 == b + 0x100 * c + 0x1_0000 * d;
    EncodeStep(v / 256 / 256, 6);
    assert v / 256 / 256 == c + 0x100 * d;
    EncodeStep(v / 256 / 256 / 256, 5);
    assert v / 256 / 256 / 256 == d && d / 256 == 0;
  }

  // A header is a function of its own 48 bytes.
  lemma HeaderFrame(m: seq<Byte>, m': seq<Byte>, h: nat)
    requires |m| == |m'| && h + HEADER_SIZE <= |m|
    requires forall i :: h <= i < h + HEADER_SIZE ==> m'[i] == m[i]
    ensures HeaderAt(m', h) == HeaderAt(m, h)
  {
    assert m[h..h + 8] == m'[h..h + 8];
    assert m[h + 8..h + 16] == m'[h + 8..h + 16];
    assert m[h + 32..h + 40] == m'[h + 32..h + 40];
    assert m[h + 40..h + 48] == m'[h + 40..h + 48];
  }

  lemma WordFrame(m: seq<Byte>, m': seq<Byte>, lo: nat, hi: nat, a: nat)
    requires SameOutside(m, m', lo, hi) && a + 8 <= |m|
    requires a + 8 <= lo || hi <= a
    ensures ReadWord(m', a) == ReadWord(m, a)
  {
    assert m[a..a + 8] == m'[a..a + 8];
  }
}

/** The C field accesses `block->field` on a flat memory. Each write changes one field of one header
    and no byte outside that header. */
module HeaderAccess {
  import opened HeaderLayout

  function GetHeader(ram: array<Byte>, h: nat): Header
    requires h + HEADER_SIZE <= ram.Length
    reads ram
  {
    HeaderAt(ram[..], h)
  }

  method StoreWord(ram: array<Byte>, a: nat, v: Word)
    requires a + 8 <= ram.Length
    modifies ram
    ensures ram[..] == Store(old(ram[..]), a, Encode(v, 8))
  {
    var bytes := Encode(v, 8);
    forall i | 0 <= i < 8 {
      ram[a + i] := bytes[i];
    }
  }

  method SetMagic(ram: array<Byte>, h: nat, v: Word)
    requires h + HEADER_SIZE <= ram.Length
    modifies ram
    ensures GetHeader(ram, h) == old(GetHeader(ram, h)).(magic := v)
    ensures SameOutside(old(ram[..]), ram[..], h, h + HEADER_SIZE)
  {
    ghost var m := ram[..];
    StoreWord(ram, h, v);
    ReadStoredWord(m, h, v);
    OtherWords(m, ram[..], h, h);
  }

  method SetSize(ram: array<Byte>, h: nat, v: Word)
    requires h + HEADER_SIZE <= ram.Length
    modifies ram
    ensures GetHeader(ram, h) == old(GetHeader(ram, h)).(size := v)
    ensures SameOutside(old(ram[..]), ram[..], h, h + HEADER_SIZE)
  {
    ghost var m := ram[..];
    StoreWord(ram, h + 8, v);
    ReadStoredWord(m, h + 8, v);
    OtherWords(m, ram[..], h, h + 8);
  }

  method SetFree(ram: array<Byte>, h: nat, v: Byte)
    requires h + HEADER_SIZE <= ram.Length
    modifies ram
    ensures GetHeader(ram, h) == old(GetHeader(ram, h)).(isFree := v)
    ensures SameOutside(old(ram[..]), ram[..], h, h + HEADER_SIZE)
  {
    ghost var m := ram[..];
    ram[h + 16] := v;
    OtherWords(m, ram[..], h, h + 16);
  }

  method SetNext(ram: array<Byte>, h: nat, v: Word)
    requires h + HEADER_SIZE <= ram.Length
    modifies ram
    ensures GetHeader(ram, h) == old(GetHeader(ram, h)).(next := v)
    ensures SameOutside(old(ram[..]), ram[..], h, h + HEADER_SIZE)
  {
    ghost var m := ram[..];
    StoreWord(ram, h + 32, v);
    ReadStoredWord(m, h + 32, v);
    OtherWords(m, ram[..], h, h + 32);
  }

  method SetPrev(ram: array<Byte>, h: nat, v: Word)
    requires h + HEADER_SIZE <= ram.Length
    modifies ram
    ensures GetHeader(ram, h) == old(GetHeader(ram, h)).(prev := v)
    ensures SameOutside(old(ram[..]), ram[..], h, h + HEADER_SIZE)
  {
    ghost var m := ram[..];
    StoreWord(ram, h + 40, v);
    ReadStoredWord(m, h + 40, v);
    OtherWords(m, ram[..], h, h + 40);
  }

  method ClearPadding(ram: array<Byte>, h: nat)
    requires h + HEADER_SIZE <= ram.Length
    modifies ram
    ensures forall i :: h + 17 <= i < h + 32 ==> ram[i] == 0
    ensures GetHeader(ram, h) == old(GetHeader(ram, h))
    ensures SameOutside(old(ram[..]), ram[..], h, h + HEADER_SIZE)
  {
    ghost var m := ram[..];
    forall i | 17 <= i < 32 {
      ram[h + i] := 0;
    }
    WordFrame(m, ram[..], h + 17, h + 32, h);
    WordFrame(m, ram[..], h + 17, h + 32, h + 8);
    WordFrame(m, ram[..], h + 17, h + 32, h + 32);
    WordFrame(m, ram[..], h + 17, h + 32, h + 40);
  }

  // All six field writes that set up a new header.
  method InitHeader(ram: array<Byte>, h: nat, magic: Word, size: Word, isFree: Byte, next: Word, prev: Word)
    requires h + HEADER_SIZE <= ram.Length
    modifies ram
    ensures GetHeader(ram, h) == Header(magic, size, isFree, next, prev)
    ensures forall i :: h + 17 <= i < h + 32 ==> ram[i] == 0
    ensures SameOutside(old(ram[..]), ram[..], h, h + HEADER_SIZE)
  {
    SetMagic(ram, h, magic);
    SetSize(ram, h, size);
    SetFree(ram, h, isFree);
    SetNext(ram, h, next);
    SetPrev(ram, h, prev);
    ClearPadding(ram, h);
  }

  // The two field writes that change how far a block reaches.
  method Stretch(ram: array<Byte>, h: nat, size: Word, next: Word)
    requires h + HEADER_SIZE <= ram.Length
    modifies ram
    ensures GetHeader(ram, h) == old(GetHeader(ram, h)).(size := size, next := next)
    ensures SameOutside(old(ram[..]), ram[..], h, h + HEADER_SIZE)
  {
    SetNext(ram, h, next);
    SetSize(ram, h, size);
  }

  // A store to the field at f leaves the words of the other fields of header h alone.
  lemma OtherWords(m: seq<Byte>, m': seq<Byte>, h: nat, f: nat)
    requires h + HEADER_SIZE <= |m|
    requires f in {h, h + 8, h + 16, h + 32, h + 40}
    requires SameOutside(m, m', f, if f == h + 16 then f + 1 else f + 8)
    ensures forall w :: w in {h, h + 8, h + 32, h + 40} && w != f ==> ReadWord(m', w) == ReadWord(m, w)
    ensures SameOutside(m, m', h, h + HEADER_SIZE)
    ensures f != h + 16 ==> m'[h + 16] == m[h + 16]
  {
    forall w | w in {h, h + 8, h + 32, h + 40} && w != f
      ensures ReadWord(m', w) == ReadWord(m, w)
    {
      WordFrame(m, m', f, if f == h + 16 then f + 1 else f + 8, w);
    }
  }
}
