/** The transfer session of `start_ota` (ota.py:59-167): the state that ota.py keeps in module
    globals (`fileBytes`, `total`, `end`, `clt`) and in the `fileParts` local that `handle_rx`
    captures, the handshake, `send_part` and the notification handler `handle_rx`. The channel
    `clt` is replaced by the log of writes made through it. */
module Session {
  import opened Wire
  import opened Segmentation
  import opened Utf8

  /** What handling one notification did. */
  datatype Reaction =
    | BlocksSent(blocks: seq<nat>)  // 0xAA and 0xF1: these blocks were sent, in this order
    | ProgressFault                 // 0xAA with an empty image: printProgressBar(0, 0) divides by zero
    | Installing                    // 0xF2: informational, nothing done
    | Finished(text: seq<byte>)     // 0x0F: the result text, as its UTF-8 bytes
    | DecodeFault                   // 0x0F whose text is not UTF-8: decoding raises before `end` is cleared
    | Ignored                       // any other opcode

  /** The notification is long enough for the fields its opcode reads (`data[0]`, then `data[1]`
      for 0xAA and `data[1]`, `data[2]` for 0xF1); shorter ones raise IndexError. */
  predicate Readable(data: seq<byte>)
  {
    |data| >= 1 &&
    (data[0] == MODE ==> |data| >= 2) &&
    (data[0] == REQUEST ==> |data| >= 3)
  }

  /** `int.from_bytes(bytearray([data[1], data[2]]), "big")` (ota.py:81). */
  function RequestedBlock(data: seq<byte>): nat
    requires |data| >= 3
  {
    Be16Value(data[1..3])
  }

  lemma AppendAssoc(a: seq<Write>, b: seq<Write>, c: seq<Write>)
    ensures (a + b) + c == a + (b + c)
  {
  }

  class OtaSession {
    /** `fileBytes`: the firmware image, read once. */
    const image: seq<byte>
    /** `fileParts`: the number of blocks of the image. */
    const fileParts: nat
    /** `total`: the progress-bar denominator, set to the block count. */
    const total: nat
    /** The global `end`: true until a result notification is handled. */
    var running: bool
    /** Every write made through the channel, in order. */
    var log: seq<Write>

    ghost predicate Valid()
    {
      fileParts == BlockCount(|image|) && fileParts < 0x1_0000 && total == fileParts
    }

    /** Opens a session on `firmware` and writes the handshake: RESET, SIZE with the image length,
        INFO with the block count and MTU (ota.py:149-162). The INFO frame's bytearray accepts the
        block count only when it is below 65536. */
    constructor (firmware: seq<byte>)
      requires BlockCount(|firmware|) < 0x1_0000
      ensures Valid() && image == firmware && running
      ensures log == Handshake(|firmware|, fileParts)
    {
      image := firmware;
      fileParts := (|firmware| + PART - 1) / PART;
      total := (|firmware| + PART - 1) / PART;
      running := true;
      log := [];
      new;
      SendData([RESET], false);
      var fileLen := |image|;
      SendData([SIZE, fileLen / 0x100_0000 % 256, fileLen / 0x1_0000 % 256, fileLen / 256 % 256, fileLen % 256], false);
      SendData([INFO, fileParts / 256, fileParts % 256, MTU / 256, MTU % 256], false);
      assert log[0] == ResetFrame();
      assert log[1] == SizeFrame(fileLen);
      assert log[2].bytes == [INFO] + Be16(fileParts) + Be16(MTU);
    }

    /** `send_data`: one write on the channel (ota.py:137-138). */
    method SendData(bytes: seq<byte>, response: bool)
      modifies this`log
      ensures log == old(log) + [Write(bytes, response)]
    {
      log := log + [Write(bytes, response)];
    }

    /** `send_part`: writes the DATA frames of block `position`, then its COMPLETE marker
        (ota.py:117-135). */
    method SendPart(position: nat)
      requires Valid() && Sendable(image, position)
      modifies this`log
      ensures log == old(log) + BlockWrites(image, position)
    {
      var start := position * PART;
      var stop := (position + 1) * PART;
      if |image| < stop {
        stop := |image|;
      }
      ghost var ws := BlockWrites(image, position);
      BlockFrameCount(image, position);
      assert stop - start == |BlockPayload(image, position)|;
      var parts := (stop - start) / MTU;
      SendFullFrames(position, parts);
      if (stop - start) % MTU != 0 {
        var rem := (stop - start) % MTU;
        RemainderFrameAt(image, position);
        var toSend := DataFrameBytes(parts, position * PART + MTU * parts, rem);
        SendData(toSend, false);
        assert ws[..parts + 1] == ws[..parts] + [ws[parts]];
      }
      assert log == old(log) + ws[..|ws| - 1];
      var update := [COMPLETE, (stop - start) / 256, (stop - start) % 256, position / 256, position % 256];
      MarkerFrameBytes(stop - start, position);
      SendData(update, true);
      assert ws == ws[..|ws| - 1] + [ws[|ws| - 1]];
    }

    /** The full-frame loop of `send_part`: frames 0..parts-1 of block `position`, each carrying
        MTU bytes (ota.py:123-127). */
    method SendFullFrames(position: nat, parts: nat)
      requires Valid() && Sendable(image, position)
      requires parts == |BlockPayload(image, position)| / MTU
      modifies this`log
      ensures parts < |BlockWrites(image, position)|
      ensures log == old(log) + BlockWrites(image, position)[..parts]
    {
      ghost var ws := BlockWrites(image, position);
      BlockFrameCount(image, position);
      var i := 0;
      while i < parts
        invariant 0 <= i <= parts
        invariant log == old(log) + ws[..i]
      {
        FullFrameAt(image, position, i);
        var toSend := DataFrameBytes(i, position * PART + MTU * i, MTU);
        SendData(toSend, false);
        assert ws[..i + 1] == ws[..i] + [ws[i]];
        i := i + 1;
      }
    }

    /** One DATA frame as `send_part` builds it: the opcode and the frame index, then `count`
        image bytes from `from` on, appended one at a time (ota.py:124-126, 130-132). */
    method DataFrameBytes(index: nat, from: nat, count: nat) returns (toSend: seq<byte>)
      requires index < 256 && from + count <= |image|
      ensures toSend == DataFrame(index, image[from..from + count]).bytes
    {
      toSend := [DATA, index];
      var y := 0;
      while y < count
        invariant 0 <= y <= count
        invariant toSend == [DATA, index] + image[from..from + y]
      {
        toSend := toSend + [image[from + y]];
        y := y + 1;
      }
    }

    /** The mode-1 bulk send: blocks 0..fileParts-1, one after another (ota.py:74-76). */
    method SendAllBlocks()
      requires Valid()
      modifies this`log
      ensures log == old(log) + AllBlocks(image, fileParts)
    {
      var x := 0;
      while x < fileParts
        invariant 0 <= x <= fileParts
        invariant log == old(log) + AllBlocks(image, x)
      {
        SendPart(x);
        AppendAssoc(old(log), AllBlocks(image, x), BlockWrites(image, x));
        x := x + 1;
      }
    }

    /** `handle_rx`: handles one notification from the device (ota.py:69-93). 0xAA sends every
        block in ascending order when its mode byte is 1 and block 0 otherwise; 0xF1 sends the
        requested block; 0xF2 does nothing; 0x0F clears `running` and yields the result text;
        every other opcode is ignored. */
    method HandleRx(data: seq<byte>) returns (r: Reaction)
      requires Valid() && Readable(data)
      requires data[0] == REQUEST ==> Sendable(image, RequestedBlock(data))
      modifies this`log, this`running
      ensures data[0] == MODE ==>
        r == (if total == 0 then ProgressFault else if data[1] == 1 then BlocksSent(Range(fileParts)) else BlocksSent([0]))
      ensures data[0] == REQUEST ==> r == BlocksSent([RequestedBlock(data)])
      ensures data[0] == INSTALLING ==> r == Installing
      ensures data[0] == RESULT ==> r == (if IsUtf8(data[1..]) then Finished(data[1..]) else DecodeFault)
      ensures data[0] !in {MODE, REQUEST, INSTALLING, RESULT} ==> r == Ignored
      ensures data[0] == MODE && total > 0 && data[1] == 1 ==> log == old(log) + AllBlocks(image, fileParts)
      ensures data[0] == MODE && total > 0 && data[1] != 1 ==> log == old(log) + BlockWrites(image, 0)
      ensures data[0] == REQUEST ==> log == old(log) + BlockWrites(image, RequestedBlock(data))
      ensures !r.BlocksSent? ==> log == old(log)
      ensures running == (old(running) && !r.Finished?)
    {
      if data[0] == MODE {
        if total == 0 {
          // printProgressBar(0, total) raises ZeroDivisionError before any block is sent.
          return ProgressFault;
        }
        if data[1] == 1 {
          SendAllBlocks();
          r := BlocksSent(Range(fileParts));
        } else {
          SendPart(0);
          r := BlocksSent([0]);
        }
      } else if data[0] == REQUEST {
        var nxt := data[1] as nat * 256 + data[2];
        SendPart(nxt);
        r := BlocksSent([nxt]);
      } else if data[0] == INSTALLING {
        r := Installing;
      } else if data[0] == RESULT {
        var result := ResultBytes(data);
        if IsUtf8(result) {
          running := false;
          r := Finished(result);
        } else {
          r := DecodeFault;
        }
      } else {
        r := Ignored;
      }
    }
  }

  /** The result text of a 0x0F notification: every byte after the opcode, copied one by one
      (ota.py:88-90). */
  method ResultBytes(data: seq<byte>) returns (result: seq<byte>)
    requires |data| >= 1
    ensures result == data[1..]
  {
    result := [];
    var s := 1;
    while s < |data|
      invariant 1 <= s <= |data|
      invariant result == data[1..s]
    {
      result := result + [data[s]];
      s := s + 1;
    }
  }
}
