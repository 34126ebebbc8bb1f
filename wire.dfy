/** Byte-level vocabulary of the OTA wire protocol: the fixed sizes, the opcodes, the big-endian
    fields and the frames the host writes (ota.py:47-48, 124-135, 149-162). */
module Wire {
  import opened Wrappers

  /** A Python `bytearray` element: `bytearray([...])` refuses anything outside 0..255. */
  type byte = b: int | 0 <= b < 256

  /** Logical block size and frame payload size; both fixed, never negotiated. */
  const PART: nat := 16000
  const MTU: nat := 500

  // Outbound opcodes.
  const RESET: byte := 0xFD
  const SIZE: byte := 0xFE
  const INFO: byte := 0xFF
  const DATA: byte := 0xFB
  const COMPLETE: byte := 0xFC

  // Inbound (notification) opcodes.
  const MODE: byte := 0xAA
  const REQUEST: byte := 0xF1
  const INSTALLING: byte := 0xF2
  const RESULT: byte := 0x0F

  /** One call of the characteristic write primitive: the bytes written and whether the
      write asks the device for a response (`response=True`). */
  datatype Write = Write(bytes: seq<byte>, needAck: bool)

  /** The value of a two-byte big-endian field. */
  function Be16Value(b: seq<byte>): nat
    requires |b| == 2
  {
    b[0] as int * 256 + b[1]
  }

  /** The value of a four-byte big-endian field. */
  function Be32Value(b: seq<byte>): nat
    requires |b| == 4
  {
    ((b[0] as int * 256 + b[1]) * 256 + b[2]) * 256 + b[3]
  }

  /** `[int(n/256), int(n%256)]`: bytearray accepts it only when n < 65536. */
  function Be16(n: nat): (r: seq<byte>)
    requires n < 0x1_0000
    ensures |r| == 2 && Be16Value(r) == n
  {
    [n / 256, n % 256]
  }

  /** `[n >> 24 & 0xFF, n >> 16 & 0xFF, n >> 8 & 0xFF, n & 0xFF]`: every byte is masked, so any
      length is accepted and the field carries the length modulo 2^32. */
  function Be32(n: nat): (r: seq<byte>)
    ensures |r| == 4 && Be32Value(r) == n % 0x1_0000_0000
  {
    Be32Rebuild(n);
    [n / 0x100_0000 % 256, n / 0x1_0000 % 256, n / 256 % 256, n % 256]
  }

  /** The four masked bytes of n, put back together, are n modulo 2^32. */
  lemma Be32Rebuild(n: nat)
    ensures n % 0x1_0000_0000
      == ((n / 0x100_0000 % 256 * 256 + n / 0x1_0000 % 256) * 256 + n / 256 % 256) * 256 + n % 256
  {
    ShiftBytes(n);
    var q3 := n / 0x100_0000;
    var low := n / 0x1_0000 % 256 * 0x1_0000 + n / 256 % 256 * 256 + n % 256;
    assert n == q3 * 0x100_0000 + low;
    assert q3 == q3 / 256 * 256 + q3 % 256;
    Mod32(n, q3 / 256, q3 % 256 * 0x100_0000 + low);
  }

  /** Division by 2^32 of a number whose low 32 bits are r. */
  lemma Mod32(n: nat, q: nat, r: nat)
    requires r < 0x1_0000_0000 && n == q * 0x1_0000_0000 + r
    ensures n % 0x1_0000_0000 == r
  {
  }

  /** Shifting right by 16 or 24 bits is shifting right by 8 bits two or three times, and the
      bytes so obtained rebuild the number. */
  lemma ShiftBytes(x: nat)
    ensures x / 0x1_0000 == x / 256 / 256
    ensures x / 0x100_0000 == x / 256 / 256 / 256
    ensures x == x / 0x100_0000 * 0x100_0000 + x / 0x1_0000 % 256 * 0x1_0000 + x / 256 % 256 * 256 + x % 256
  {
    var q1 := x / 256;
    var q2 := q1 / 256;
    var q3 := q2 / 256;
    assert x == q1 * 256 + x % 256;
    assert q1 == q2 * 256 + q1 % 256;
    assert q2 == q3 * 256 + q2 % 256;
    assert x == q2 * 0x1_0000 + q1 % 256 * 256 + x % 256;
    assert x == q3 * 0x100_0000 + q2 % 256 * 0x1_0000 + q1 % 256 * 256 + x % 256;
  }

  /** Division by 256 of a number whose low byte is r. */
  lemma DivMod256(q: nat, r: nat)
    requires r < 256
    ensures (q * 256 + r) / 256 == q && (q * 256 + r) % 256 == r
  {
  }

  /** Decoding a two-byte field and encoding the value again gives back the same bytes. */
  lemma Be16Injective(b: seq<byte>)
    requires |b| == 2
    ensures Be16Value(b) < 0x1_0000 && Be16(Be16Value(b)) == b
  {
  }

  /** Decoding a four-byte field and encoding the value again gives back the same bytes. */
  lemma Be32Injective(b: seq<byte>)
    requires |b| == 4
    ensures Be32Value(b) < 0x1_0000_0000 && Be32(Be32Value(b)) == b
  {
    var c1 := b[0] as int * 256 + b[1];
    var c2 := c1 * 256 + b[2];
    var v := c2 * 256 + b[3];
    assert v == Be32Value(b);
    DivMod256(c2, b[3]);
    DivMod256(c1, b[2]);
    DivMod256(b[0], b[1]);
    ShiftBytes(v);
  }

  /** RESET: the first handshake frame, no payload (ota.py:149). */
  function ResetFrame(): Write
  {
    Write([RESET], false)
  }

  /** SIZE: the image length as a four-byte big-endian field (ota.py:156-158). */
  function SizeFrame(fileLen: nat): Write
  {
    Write([SIZE] + Be32(fileLen), false)
  }

  /** INFO: block count and frame payload size, two bytes big-endian each (ota.py:161-162). */
  function InfoFrame(blockCount: nat, mtu: nat): Write
    requires blockCount < 0x1_0000 && mtu < 0x1_0000
  {
    Write([INFO] + Be16(blockCount) + Be16(mtu), false)
  }

  /** DATA: one physical frame of a block, tagged with its one-byte index (ota.py:124-127, 130-133). */
  function DataFrame(index: nat, payload: seq<byte>): Write
    requires index < 256
  {
    Write([DATA, index] + payload, false)
  }

  /** COMPLETE: the block-boundary marker with the block's byte length and its index, written
      with a response requested (ota.py:134-135). */
  function MarkerFrame(blockLen: nat, position: nat): Write
    requires blockLen < 0x1_0000 && position < 0x1_0000
  {
    Write([COMPLETE] + Be16(blockLen) + Be16(position), true)
  }

  /** The three handshake writes in the order the session makes them (ota.py:149-162). */
  function Handshake(fileLen: nat, blockCount: nat): seq<Write>
    requires blockCount < 0x1_0000
  {
    [ResetFrame(), SizeFrame(fileLen), InfoFrame(blockCount, MTU)]
  }

  /** The length announced by a SIZE frame, as the device reads it. */
  function DecodeSize(w: Write): Option<nat>
  {
    if |w.bytes| == 5 && w.bytes[0] == SIZE then Some(Be32Value(w.bytes[1..])) else None
  }

  /** The block count and payload size announced by an INFO frame. */
  function DecodeInfo(w: Write): Option<(nat, nat)>
  {
    if |w.bytes| == 5 && w.bytes[0] == INFO
    then Some((Be16Value(w.bytes[1..3]), Be16Value(w.bytes[3..])))
    else None
  }

  /** The block length and block index carried by a COMPLETE marker. */
  function DecodeMarker(w: Write): Option<(nat, nat)>
  {
    if |w.bytes| == 5 && w.bytes[0] == COMPLETE
    then Some((Be16Value(w.bytes[1..3]), Be16Value(w.bytes[3..])))
    else None
  }

  /** The frame index and payload of a DATA frame. */
  function DecodeData(w: Write): Option<(nat, seq<byte>)>
  {
    if |w.bytes| >= 2 && w.bytes[0] == DATA then Some((w.bytes[1], w.bytes[2..])) else None
  }

  /** The handshake is exactly RESET, SIZE, INFO, none of them acknowledged; the device reads
      back the length modulo 2^32, the block count and the payload size. */
  lemma HandshakeDecodes(fileLen: nat, blockCount: nat)
    requires blockCount < 0x1_0000
    ensures var h := Handshake(fileLen, blockCount);
      |h| == 3 && (forall i :: 0 <= i < 3 ==> !h[i].needAck) &&
      h[0].bytes == [RESET] &&
      DecodeSize(h[1]) == Some(fileLen % 0x1_0000_0000) &&
      DecodeInfo(h[2]) == Some((blockCount, MTU))
  {
    var h := Handshake(fileLen, blockCount);
    assert h[1].bytes[1..] == Be32(fileLen);
    assert h[2].bytes[1..3] == Be16(blockCount);
    assert h[2].bytes[3..] == Be16(MTU);
  }

  /** A SIZE frame is determined by the value the device decodes from it. */
  lemma SizeFrameDecodeInverse(w: Write, n: nat)
    requires !w.needAck && DecodeSize(w) == Some(n)
    ensures w == SizeFrame(n)
  {
    Be32Injective(w.bytes[1..]);
    assert w.bytes == [SIZE] + w.bytes[1..];
  }

  /** Decoding an INFO frame gives back its two fields, and an INFO frame is determined by them. */
  lemma InfoFrameRoundTrip(blockCount: nat, mtu: nat, w: Write)
    requires blockCount < 0x1_0000 && mtu < 0x1_0000
    ensures DecodeInfo(InfoFrame(blockCount, mtu)) == Some((blockCount, mtu))
    ensures !w.needAck && DecodeInfo(w) == Some((blockCount, mtu)) ==> w == InfoFrame(blockCount, mtu)
  {
    var f := InfoFrame(blockCount, mtu);
    assert f.bytes[1..3] == Be16(blockCount);
    assert f.bytes[3..] == Be16(mtu);
    if !w.needAck && DecodeInfo(w) == Some((blockCount, mtu)) {
      Be16Injective(w.bytes[1..3]);
      Be16Injective(w.bytes[3..]);
      assert w.bytes == [INFO] + w.bytes[1..3] + w.bytes[3..];
    }
  }

  /** Decoding a COMPLETE marker gives back its block length and block index, and a marker
      is determined by them. */
  lemma MarkerFrameRoundTrip(blockLen: nat, position: nat, w: Write)
    requires blockLen < 0x1_0000 && position < 0x1_0000
    ensures DecodeMarker(MarkerFrame(blockLen, position)) == Some((blockLen, position))
    ensures w.needAck && DecodeMarker(w) == Some((blockLen, position)) ==> w == MarkerFrame(blockLen, position)
  {
    var f := MarkerFrame(blockLen, position);
    assert f.bytes[1..3] == Be16(blockLen);
    assert f.bytes[3..] == Be16(position);
    if w.needAck && DecodeMarker(w) == Some((blockLen, position)) {
      Be16Injective(w.bytes[1..3]);
      Be16Injective(w.bytes[3..]);
      assert w.bytes == [COMPLETE] + w.bytes[1..3] + w.bytes[3..];
    }
  }

  /** The marker as `send_part` spells it out byte by byte is the COMPLETE frame. */
  lemma MarkerFrameBytes(blockLen: nat, position: nat)
    requires blockLen < 0x1_0000 && position < 0x1_0000
    ensures MarkerFrame(blockLen, position)
      == Write([COMPLETE, blockLen / 256, blockLen % 256, position / 256, position % 256], true)
  {
  }

  /** Decoding a DATA frame gives back its index and payload. */
  lemma DataFrameRoundTrip(index: nat, payload: seq<byte>)
    requires index < 256
    ensures DecodeData(DataFrame(index, payload)) == Some((index, payload))
    ensures DecodeMarker(DataFrame(index, payload)).None?
  {
    assert DataFrame(index, payload).bytes[2..] == payload;
  }
}
