/** Segmentation of a firmware image into logical blocks of PART bytes and of each block into
    DATA frames of MTU bytes, closed by one COMPLETE marker (ota.py:117-135, 155). The
    functions here are the specification that the session's SendPart method is proved against. */
module Segmentation {
  import opened Wrappers
  import opened Wire

  /** `math.ceil(len(fileBytes) / PART)`: the number of blocks of an image (ota.py:155). */
  function BlockCount(len: nat): (n: nat)
    ensures n * PART >= len
    ensures n > 0 ==> (n - 1) * PART < len
  {
    (len + PART - 1) / PART
  }

  /** First byte of block `position` (ota.py:118). */
  function BlockStart(position: nat): nat
  {
    position * PART
  }

  /** One past the last byte of block `position`: `(position + 1) * PART`, cut back to the image
      length (ota.py:119-121). */
  function BlockEnd(len: nat, position: nat): nat
  {
    if len < (position + 1) * PART then len else (position + 1) * PART
  }

  /** A block the code can send without a negative span or an out-of-range bytearray element:
      it starts inside or at the end of the image, and its index fits the marker's two bytes. */
  predicate Sendable(image: seq<byte>, position: nat)
  {
    position * PART <= |image| && position < 0x1_0000
  }

  /** The bytes of block `position`. */
  function BlockPayload(image: seq<byte>, position: nat): (p: seq<byte>)
    requires position * PART <= |image|
    ensures |p| == BlockEnd(|image|, position) - BlockStart(position) <= PART
  {
    image[BlockStart(position)..BlockEnd(|image|, position)]
  }

  /** Every block below the block count is non-empty and at most PART long; each one ends where
      the next begins, and the last one ends at the end of the image. */
  lemma BlockRange(len: nat, position: nat)
    requires position < BlockCount(len)
    ensures BlockStart(position) < BlockEnd(len, position) <= len
    ensures BlockEnd(len, position) - BlockStart(position) <= PART
    ensures position + 1 < BlockCount(len) ==>
      BlockEnd(len, position) == BlockStart(position + 1) &&
      BlockEnd(len, position) - BlockStart(position) == PART
    ensures position + 1 == BlockCount(len) ==> BlockEnd(len, position) == len
  {
  }

  /** The total length of blocks 0..n-1. */
  function BlockLengthSum(len: nat, n: nat): nat
    requires n <= BlockCount(len)
  {
    if n == 0 then 0
    else BlockLengthSum(len, n - 1) + (BlockEnd(len, n - 1) - BlockStart(n - 1))
  }

  /** Blocks 0..n-1 cover exactly the first min(n * PART, len) bytes. */
  lemma {:induction false} BlockLengthSumPrefix(len: nat, n: nat)
    requires n <= BlockCount(len)
    ensures BlockLengthSum(len, n) == if n * PART < len then n * PART else len
  {
    if n > 0 {
      BlockLengthSumPrefix(len, n - 1);
      BlockRange(len, n - 1);
    }
  }

  /** The lengths of all blocks add up to the image length. */
  lemma BlockLengthsSumToImage(len: nat)
    ensures BlockLengthSum(len, BlockCount(len)) == len
  {
    BlockLengthSumPrefix(len, BlockCount(len));
  }

  /** The DATA frames that carry `s` in consecutive pieces of MTU bytes, the last possibly
      shorter, numbered from `index` on; the frame index must fit one byte (ota.py:122-133). */
  function DataFrames(s: seq<byte>, index: nat): seq<Write>
    requires |s| <= MTU * (256 - index)
    decreases |s|
  {
    if |s| == 0 then []
    else if |s| <= MTU then [DataFrame(index, s)]
    else [DataFrame(index, s[..MTU])] + DataFrames(s[MTU..], index + 1)
  }

  /** `len div MTU` full frames, plus one remainder frame when `len mod MTU` is non-zero. */
  lemma {:induction false} DataFramesCount(s: seq<byte>, index: nat)
    requires |s| <= MTU * (256 - index)
    ensures |DataFrames(s, index)| == |s| / MTU + (if |s| % MTU != 0 then 1 else 0)
    decreases |s|
  {
    if |s| > MTU {
      DataFramesCount(s[MTU..], index + 1);
      assert |s[MTU..]| / MTU == |s| / MTU - 1 && |s[MTU..]| % MTU == |s| % MTU;
    }
  }

  /** A slice of a slice is a slice. */
  lemma SliceOfSlice(s: seq<byte>, a: nat, b: nat, lo: nat, hi: nat)
    requires a <= b <= |s| && lo <= hi <= b - a
    ensures s[a..b][lo..hi] == s[a + lo..a + hi]
  {
    forall k | 0 <= k < hi - lo
      ensures s[a..b][lo..hi][k] == s[a + lo..a + hi][k]
    {
    }
  }

  /** Frame i carries index `index + i` and the slice [MTU * i, min(MTU * (i + 1), |s|)). */
  lemma {:induction false} DataFramesAt(s: seq<byte>, index: nat, i: nat)
    requires |s| <= MTU * (256 - index)
    requires i < |DataFrames(s, index)|
    ensures MTU * i < |s|
    ensures DataFrames(s, index)[i]
      == DataFrame(index + i, s[MTU * i .. if MTU * (i + 1) < |s| then MTU * (i + 1) else |s|])
    decreases |s|
  {
    if i > 0 {
      var t := s[MTU..];
      assert DataFrames(s, index) == [DataFrame(index, s[..MTU])] + DataFrames(t, index + 1);
      DataFramesAt(t, index + 1, i - 1);
      var lo, hi := MTU * (i - 1), if MTU * i < |t| then MTU * i else |t|;
      SliceOfSlice(s, MTU, |s|, lo, hi);
    }
  }

  /** The payload bytes a log of writes carries: DATA frame payloads, in order. */
  function Payload(ws: seq<Write>): seq<byte>
  {
    if ws == [] then []
    else Payload(ws[..|ws| - 1]) + (match DecodeData(ws[|ws| - 1]) case Some((_, p)) => p case None => [])
  }

  /** The block indices a log of writes reports as complete: COMPLETE marker indices, in order. */
  function Markers(ws: seq<Write>): seq<nat>
  {
    if ws == [] then []
    else Markers(ws[..|ws| - 1]) + (match DecodeMarker(ws[|ws| - 1]) case Some((_, p)) => [p] case None => [])
  }

  lemma {:induction false} PayloadAppend(a: seq<Write>, b: seq<Write>)
    ensures Payload(a + b) == Payload(a) + Payload(b)
  {
    if b == [] {
      assert a + b == a;
    } else {
      assert (a + b)[..|a + b| - 1] == a + b[..|b| - 1];
      assert (a + b)[|a + b| - 1] == b[|b| - 1];
      PayloadAppend(a, b[..|b| - 1]);
    }
  }

  lemma {:induction false} MarkersAppend(a: seq<Write>, b: seq<Write>)
    ensures Markers(a + b) == Markers(a) + Markers(b)
  {
    if b == [] {
      assert a + b == a;
    } else {
      assert (a + b)[..|a + b| - 1] == a + b[..|b| - 1];
      assert (a + b)[|a + b| - 1] == b[|b| - 1];
      MarkersAppend(a, b[..|b| - 1]);
    }
  }


  /** DATA frames carry `s` as their payload, in order, and report no completed block. */
  lemma {:induction false} DataFramesPayload(s: seq<byte>, index: nat)
    requires |s| <= MTU * (256 - index)
    ensures Payload(DataFrames(s, index)) == s
    ensures Markers(DataFrames(s, index)) == []
    decreases |s|
  {
    if 0 < |s| <= MTU {
      var f := DataFrame(index, s);
      DataFrameRoundTrip(index, s);
      assert [f][..0] == [];
    } else if |s| > MTU {
      var f, rest := DataFrame(index, s[..MTU]), DataFrames(s[MTU..], index + 1);
      DataFrameRoundTrip(index, s[..MTU]);
      assert [f][..0] == [];
      PayloadAppend([f], rest);
      MarkersAppend([f], rest);
      DataFramesPayload(s[MTU..], index + 1);
      assert s == s[..MTU] + s[MTU..];
    }
  }

  /** What `send_part(position, image, client)` writes: the DATA frames of the block, then its
      COMPLETE marker with the block length and the block index (ota.py:117-135). */
  function BlockWrites(image: seq<byte>, position: nat): seq<Write>
    requires Sendable(image, position)
  {
    var payload := BlockPayload(image, position);
    DataFrames(payload, 0) + [MarkerFrame(|payload|, position)]
  }

  /** A block is sent as `len div MTU` full frames, one remainder frame only when `len mod MTU`
      is non-zero, and one marker, which comes last, is acknowledged and decodes to the number
      of payload bytes sent and to the block index. */
  lemma BlockFrameCount(image: seq<byte>, position: nat)
    requires Sendable(image, position)
    ensures var ws, len := BlockWrites(image, position), |BlockPayload(image, position)|;
      |ws| == len / MTU + (if len % MTU != 0 then 1 else 0) + 1 &&
      ws[|ws| - 1] == MarkerFrame(len, position) && ws[|ws| - 1].needAck &&
      DecodeMarker(ws[|ws| - 1]) == Some((len, position))
  {
    var ws, len := BlockWrites(image, position), |BlockPayload(image, position)|;
    DataFramesCount(BlockPayload(image, position), 0);
    MarkerFrameRoundTrip(len, position, ws[|ws| - 1]);
  }

  /** Frame i of a block is an unacknowledged, non-empty DATA frame with index i carrying the
      image slice [start + MTU * i, start + min(MTU * (i + 1), len)); it is full unless it is
      the remainder frame. */
  lemma BlockFrameAt(image: seq<byte>, position: nat, i: nat)
    requires Sendable(image, position)
    requires i < |BlockWrites(image, position)| - 1
    ensures var ws, start, len := BlockWrites(image, position), BlockStart(position), |BlockPayload(image, position)|;
      |ws| == len / MTU + (if len % MTU != 0 then 1 else 0) + 1 &&
      !ws[i].needAck && |ws[i].bytes| > 2 && DecodeData(ws[i]).Some? &&
      ws[i] == DataFrame(i, image[start + MTU * i .. start + (if MTU * (i + 1) < len then MTU * (i + 1) else len)]) &&
      (i < len / MTU ==> |ws[i].bytes| == 2 + MTU) &&
      (len % MTU != 0 && i == len / MTU ==> |ws[i].bytes| == 2 + len % MTU)
  {
    var start, len := BlockStart(position), |BlockPayload(image, position)|;
    var payload := BlockPayload(image, position);
    BlockFrameCount(image, position);
    DataFramesAt(payload, 0, i);
    assert payload == image[start..start + len];
    var lo, hi := MTU * i, if MTU * (i + 1) < len then MTU * (i + 1) else len;
    SliceOfSlice(image, start, start + len, lo, hi);
    DataFrameRoundTrip(i, image[start + lo..start + hi]);
  }

  /** A full frame of a block carries the MTU image bytes from start + MTU * i on. */
  lemma FullFrameAt(image: seq<byte>, position: nat, i: nat)
    requires Sendable(image, position)
    requires i < |BlockPayload(image, position)| / MTU
    ensures i < |BlockWrites(image, position)| - 1
    ensures BlockWrites(image, position)[i]
      == DataFrame(i, image[BlockStart(position) + MTU * i .. BlockStart(position) + MTU * i + MTU])
  {
    BlockFrameCount(image, position);
    BlockFrameAt(image, position, i);
  }

  /** The remainder frame of a block carries the image bytes from start + MTU * i to the end of
      the block. */
  lemma RemainderFrameAt(image: seq<byte>, position: nat)
    requires Sendable(image, position)
    requires |BlockPayload(image, position)| % MTU != 0
    ensures var len := |BlockPayload(image, position)|;
      len / MTU < |BlockWrites(image, position)| - 1 &&
      BlockWrites(image, position)[len / MTU]
        == DataFrame(len / MTU, image[BlockStart(position) + MTU * (len / MTU) .. BlockStart(position) + len])
  {
    BlockFrameCount(image, position);
    BlockFrameAt(image, position, |BlockPayload(image, position)| / MTU);
  }

  /** The frames of one block, frame by frame: `len div MTU` full frames carrying consecutive
      MTU-byte slices in ascending index order, a remainder frame of `len mod MTU` bytes only when
      that is non-zero, no empty frame, none acknowledged; then exactly one acknowledged marker
      whose fields decode to the number of payload bytes sent and to the block index. */
  lemma BlockWritesShape(image: seq<byte>, position: nat)
    requires Sendable(image, position)
    ensures var ws := BlockWrites(image, position);
      var start, len := BlockStart(position), |BlockPayload(image, position)|;
      |ws| == len / MTU + (if len % MTU != 0 then 1 else 0) + 1 &&
      (forall i :: 0 <= i < |ws| - 1 ==>
        !ws[i].needAck && |ws[i].bytes| > 2 && DecodeData(ws[i]).Some? &&
        ws[i] == DataFrame(i, image[start + MTU * i .. start + (if MTU * (i + 1) < len then MTU * (i + 1) else len)])) &&
      (forall i :: 0 <= i < len / MTU ==> |ws[i].bytes| == 2 + MTU) &&
      (len % MTU != 0 ==> |ws[len / MTU].bytes| == 2 + len % MTU) &&
      ws[|ws| - 1] == MarkerFrame(len, position) && ws[|ws| - 1].needAck &&
      DecodeMarker(ws[|ws| - 1]) == Some((len, position))
  {
    var ws := BlockWrites(image, position);
    BlockFrameCount(image, position);
    forall i | 0 <= i < |ws| - 1
      ensures var start, len := BlockStart(position), |BlockPayload(image, position)|;
        !ws[i].needAck && |ws[i].bytes| > 2 && DecodeData(ws[i]).Some? &&
        ws[i] == DataFrame(i, image[start + MTU * i .. start + (if MTU * (i + 1) < len then MTU * (i + 1) else len)]) &&
        (i < len / MTU ==> |ws[i].bytes| == 2 + MTU) &&
        (len % MTU != 0 && i == len / MTU ==> |ws[i].bytes| == 2 + len % MTU)
    {
      BlockFrameAt(image, position, i);
    }
  }

  /** The data frames of one block carry exactly the block's bytes, and the only block the writes
      report complete is that block. */
  lemma BlockWritesCarryBlock(image: seq<byte>, position: nat)
    requires Sendable(image, position)
    ensures Payload(BlockWrites(image, position)) == BlockPayload(image, position)
    ensures Markers(BlockWrites(image, position)) == [position]
  {
    var payload := BlockPayload(image, position);
    var m := MarkerFrame(|payload|, position);
    DataFramesPayload(payload, 0);
    PayloadAppend(DataFrames(payload, 0), [m]);
    MarkersAppend(DataFrames(payload, 0), [m]);
    MarkerFrameRoundTrip(|payload|, position, m);
    assert [m][..0] == [];
  }

  /** What the mode-1 loop writes: blocks 0..n-1, each whole before the next (ota.py:74-75). */
  function AllBlocks(image: seq<byte>, n: nat): seq<Write>
    requires n <= BlockCount(|image|) && BlockCount(|image|) < 0x1_0000
  {
    if n == 0 then [] else AllBlocks(image, n - 1) + BlockWrites(image, n - 1)
  }

  /** 0, 1, ..., n-1. */
  function Range(n: nat): seq<nat>
  {
    seq(n, i => i)
  }

  lemma RangeSnoc(n: nat)
    requires n > 0
    ensures Range(n) == Range(n - 1) + [n - 1]
  {
  }

  /** Sending blocks 0..n-1 reports exactly those blocks complete, each once and in ascending
      order: block frames are never interleaved and each block closes with its own marker. */
  lemma {:induction false} AllBlocksMarkers(image: seq<byte>, n: nat)
    requires n <= BlockCount(|image|) && BlockCount(|image|) < 0x1_0000
    ensures Markers(AllBlocks(image, n)) == Range(n)
  {
    if n > 0 {
      AllBlocksMarkers(image, n - 1);
      MarkersAppend(AllBlocks(image, n - 1), BlockWrites(image, n - 1));
      BlockWritesCarryBlock(image, n - 1);
      RangeSnoc(n);
    }
  }

  /** A prefix followed by the next slice is the longer prefix. */
  lemma PrefixConcat(s: seq<byte>, lo: nat, hi: nat)
    requires lo <= hi <= |s|
    ensures s[..lo] + s[lo..hi] == s[..hi]
  {
  }

  /** Sending blocks 0..n-1 carries the first min(n * PART, len) bytes of the image, in order. */
  lemma {:induction false} AllBlocksPayload(image: seq<byte>, n: nat)
    requires n <= BlockCount(|image|) && BlockCount(|image|) < 0x1_0000
    ensures Payload(AllBlocks(image, n)) == image[..if n * PART < |image| then n * PART else |image|]
  {
    if n > 0 {
      AllBlocksPayload(image, n - 1);
      PayloadAppend(AllBlocks(image, n - 1), BlockWrites(image, n - 1));
      BlockWritesCarryBlock(image, n - 1);
      BlockRange(|image|, n - 1);
      PrefixConcat(image, (n - 1) * PART, BlockEnd(|image|, n - 1));
    }
  }

  /** Sending every block, in ascending order, carries the whole image and reports each block
      complete exactly once, in ascending order. */
  lemma AllBlocksCarryImage(image: seq<byte>)
    requires BlockCount(|image|) < 0x1_0000
    ensures Payload(AllBlocks(image, BlockCount(|image|))) == image
    ensures Markers(AllBlocks(image, BlockCount(|image|))) == Range(BlockCount(|image|))
  {
    AllBlocksPayload(image, BlockCount(|image|));
    AllBlocksMarkers(image, BlockCount(|image|));
    assert image[..|image|] == image;
  }

  /** A 40000-byte image: three blocks of 16000, 16000 and 8000 bytes, sent as 32, 32 and 16
      DATA frames of exactly MTU bytes each, with no remainder frame. */
  lemma FortyThousandByteImage(image: seq<byte>)
    requires |image| == 40000
    ensures BlockCount(|image|) == 3
    ensures |BlockPayload(image, 0)| == 16000 && |BlockPayload(image, 1)| == 16000 && |BlockPayload(image, 2)| == 8000
    ensures |BlockWrites(image, 0)| == 33 && |BlockWrites(image, 1)| == 33 && |BlockWrites(image, 2)| == 17
    ensures forall p, i :: 0 <= p < 3 && 0 <= i < |BlockWrites(image, p)| - 1 ==>
      |BlockWrites(image, p)[i].bytes| == 2 + MTU
  {
    BlockWritesShape(image, 0);
    BlockWritesShape(image, 1);
    BlockWritesShape(image, 2);
  }
}
