/** Machine words, their bytes, and a few types that several parts share. */
module Words {
  const TWO_31: int := 0x8000_0000
  const TWO_32: int := 0x1_0000_0000

  type byte = n: int | 0 <= n < 0x100
  type uint16 = n: int | 0 <= n < 0x1_0000
  type uint32 = n: int | 0 <= n < TWO_32

  datatype Option<+T> = None | Some(value: T)

  /** A number that the registry may hold. */
  datatype RegistryNumber = Absent | Present(value: uint32)

  function LittleEndian(low: byte, high: byte): (r: uint16)
    ensures r % 256 == low && r / 256 == high
  {
    var l: int, h: int := low, high;
    l + 0x100 * h
  }

  /** A word taken as a signed number. */
  function Signed(w: uint32): int {
    if w < TWO_31 then w else w - TWO_32
  }

  /** A word from its bytes, the least significant one first. */
  function FromBytes(a: byte, b: byte, c: byte, d: byte): uint32 {
    a + 0x100 * b + 0x1_0000 * c + 0x100_0000 * d
  }

  function ByteAt(w: uint32, i: nat): byte
    requires i < 4
  {
    if i == 0 then w % 0x100 else if i == 1 then w / 0x100 % 0x100
    else if i == 2 then w / 0x1_0000 % 0x100 else w / 0x100_0000
  }

  lemma BytesOfWord(a: byte, b: byte, c: byte, d: byte)
    ensures var w := FromBytes(a, b, c, d); ByteAt(w, 0) == a && ByteAt(w, 1) == b && ByteAt(w, 2) == c && ByteAt(w, 3) == d
  {
    var w := FromBytes(a, b, c, d);
    assert w / 0x100 == b + 0x100 * c + 0x1_0000 * d;
    assert w / 0x1_0000 == c + 0x100 * d;
  }

  lemma WordOfBytes(w: uint32)
    ensures FromBytes(ByteAt(w, 0), ByteAt(w, 1), ByteAt(w, 2), ByteAt(w, 3)) == w
  {
    assert w / 0x1_0000 == w / 0x100 / 0x100 && w / 0x100_0000 == w / 0x1_0000 / 0x100;
  }

  /** The word that four bytes hold. */
  function Word(b: seq<byte>): uint32
    requires |b| == 4
  {
    FromBytes(b[0], b[1], b[2], b[3])
  }

  function WordBytes(w: uint32): (b: seq<byte>)
    ensures |b| == 4
  {
    [ByteAt(w, 0), ByteAt(w, 1), ByteAt(w, 2), ByteAt(w, 3)]
  }

  lemma WordOfWordBytes(w: uint32)
    ensures Word(WordBytes(w)) == w
  {
    WordOfBytes(w);
  }

  /** All chunks, one after the other. */
  function Flatten(chunks: seq<seq<byte>>): seq<byte> {
    if chunks == [] then [] else chunks[0] + Flatten(chunks[1..])
  }
}
