/** Machine integers, the 32-bit big-endian ("network order") length field,
    and the byte-buffer primitives (std::vector::resize, memcpy, memset)
    that the frame classes are built from. */
module ByteOrder {

  /** uint8_t */
  type Byte = b: int | 0 <= b < 0x100

  /** uint32_t */
  type U32 = n: int | 0 <= n < 0x1_0000_0000

  /** size_t on a 64-bit host */
  type U64 = n: int | 0 <= n < 0x1_0000_0000_0000_0000

  /** Width of the length field, sizeof(uint32_t). */
  const SizeFieldLength: nat := 4

  /** Conversion of an integer to uint32_t (keeps the low 32 bits). */
  function ToU32(x: int): (r: U32)
    ensures 0 <= x < 0x1_0000_0000 ==> r == x
    ensures (r - x) % 0x1_0000_0000 == 0
  {
    x % 0x1_0000_0000
  }

  /** Conversion of an integer to size_t (keeps the low 64 bits). */
  function ToU64(x: int): (r: U64)
    ensures 0 <= x < 0x1_0000_0000_0000_0000 ==> r == x
    ensures (r - x) % 0x1_0000_0000_0000_0000 == 0
  {
    x % 0x1_0000_0000_0000_0000
  }

  /** The four bytes that `htonl(n)` leaves in memory: most significant first. */
  function EncodeU32(n: U32): (bytes: seq<Byte>)
    ensures |bytes| == SizeFieldLength
  {
    [n / 0x100_0000, (n / 0x1_0000) % 0x100, (n / 0x100) % 0x100, n % 0x100]
  }

  /** DecodeMsgSize: the first four bytes at `data`, read as a big-endian
      unsigned 32-bit value (memcpy into a uint32_t, then ntohl). */
  function DecodeMsgSize(data: seq<Byte>): (n: U32)
    requires |data| >= SizeFieldLength
    ensures n / 0x100_0000 == data[0]
    ensures (n / 0x1_0000) % 0x100 == data[1] && (n / 0x100) % 0x100 == data[2]
    ensures n % 0x100 == data[3]
  {
    var hi: int := (data[0] as int) * 0x100 + data[1];
    var mid: int := hi * 0x100 + data[2];
    var n: int := mid * 0x100 + data[3];
    assert n / 0x100 == mid && n % 0x100 == data[3];
    assert mid / 0x100 == hi && mid % 0x100 == data[2];
    assert n / 0x1_0000 == mid / 0x100;
    assert n / 0x100_0000 == hi / 0x100 == data[0];
    n
  }

  /** Decoding what the encoder wrote gives the value back, for every uint32_t. */
  lemma DecodeEncode(n: U32)
    ensures DecodeMsgSize(EncodeU32(n)) == n
  {
    var b := EncodeU32(n);
    var n1 := n / 0x100;
    var n2 := n1 / 0x100;
    assert n == n1 * 0x100 + b[3];
    assert n / 0x1_0000 == n2;
    assert n1 == n2 * 0x100 + b[2];
    assert n / 0x100_0000 == n2 / 0x100;
    assert n2 == (b[0] as int) * 0x100 + b[1];
  }

  /** Encoding the decoded value reproduces the four bytes it was read from:
      the length field has exactly one reading. */
  lemma EncodeDecode(data: seq<Byte>)
    requires |data| >= SizeFieldLength
    ensures EncodeU32(DecodeMsgSize(data)) == data[..SizeFieldLength]
  {
    var n := DecodeMsgSize(data);
    var b := EncodeU32(n);
    var hi: int := (data[0] as int) * 0x100 + data[1];
    var mid: int := hi * 0x100 + data[2];
    assert n == mid * 0x100 + data[3];
    assert n / 0x100 == mid;
    assert n / 0x1_0000 == mid / 0x100 == hi;
    assert n / 0x100_0000 == hi / 0x100 == data[0];
    assert b[0] == data[0] && b[1] == data[1] && b[2] == data[2] && b[3] == data[3];
  }

  /** Two length fields are equal exactly when the values they hold are: a
      standalone fact about the codec, which no other proof here needs. */
  lemma EncodeInjective(m: U32, n: U32)
    ensures EncodeU32(m) == EncodeU32(n) <==> m == n
  {
    if EncodeU32(m) == EncodeU32(n) {
      DecodeEncode(m);
      DecodeEncode(n);
    }
  }

  /** `n` zero bytes (what memset(…, 0, n) writes and what resize adds). */
  function Zeros(n: nat): (z: seq<Byte>)
    ensures |z| == n
    ensures forall i :: 0 <= i < n ==> z[i] == 0
  {
    seq(n, _ => 0)
  }

  /** std::vector<uint8_t>::resize: keeps the first `n` bytes and fills any
      new tail with zeros. */
  function Resized(v: seq<Byte>, n: nat): (r: seq<Byte>)
    ensures |r| == n
    ensures forall i :: 0 <= i < n ==> r[i] == (if i < |v| then v[i] else 0)
  {
    if n <= |v| then v[..n] else v + Zeros(n - |v|)
  }

  /** memcpy(dst + offset, src, |src|) on a buffer large enough to hold it:
      the bytes at offset .. offset + |src| become `src`, all others are kept. */
  function Overwrite(dst: seq<Byte>, offset: nat, src: seq<Byte>): (r: seq<Byte>)
    requires offset + |src| <= |dst|
    ensures |r| == |dst|
    ensures r[offset..offset + |src|] == src
    ensures forall i :: 0 <= i < |dst| && !(offset <= i < offset + |src|) ==> r[i] == dst[i]
  {
    var r := dst[..offset] + src + dst[offset + |src|..];
    assert r[offset..offset + |src|] == src;
    r
  }
}
