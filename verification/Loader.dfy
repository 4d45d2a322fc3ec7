/**
 The second-stage loader: reads one frame at a time from the UART, acts on the flash, and answers. `rx`
 is what has been sent to it and not yet read; `tx` is what it has sent. A read that would block for
 ever ends in `Blocked`.
 */
module Loader {
  import opened Common
  import opened Framing
  import opened Flash

  const READ_REQUEST: byte := 0x01
  const READ_RESPONSE: byte := 0x02
  const WRITE_REQUEST: byte := 0x03
  const COMMIT_REQUEST: byte := 0x04
  const ERASE_REQUEST: byte := 0x05
  const CONFIRM: byte := 0xF0

  const SUCCESS: byte := 0x02
  const WRITE_ERROR: byte := 0x03
  const READ_ERROR: byte := 0x04
  const CRC_ERROR: byte := 0x05
  const EXEC_ERROR: byte := 0x07

  const ENG_SECURED: byte := 0xC3
  const ENG_UNSECURED: byte := 0x3C

  const MAX_CHUNK: nat := 1024
  /** End of the flash the whole-chip erase covers: all but the reserved last sector. */
  const IMAGE_END: nat := 31 * SECTOR_SIZE

  // ---- What the loader sends ----

  function Confirm(status: byte): seq<byte> {
    Frame([CONFIRM, status])
  }

  function ReadResponse(status: byte, data: seq<byte>): seq<byte>
    requires |data| <= MAX_CHUNK
  {
    Frame([READ_RESPONSE, status] + Le16(|data|) + data)
  }

  function HexDigit(v: nat): byte
    requires v < 16
  {
    if v < 10 then 48 + v else 87 + v
  }

  function Hex(n: nat, digits: nat): seq<byte> {
    if digits == 0 then [] else Hex(n / 16, digits - 1) + [HexDigit(n % 16)]
  }

  /** A Confirm on the wire. */
  lemma ConfirmBytes(status: byte)
    ensures Confirm(status) == [0x55, 2, 0, 0xF0, status, (0xF0 + status) % 256]
  {
    assert [CONFIRM, status][..1] == [CONFIRM] && [CONFIRM][..0] == [];
    assert Sum([CONFIRM]) == CONFIRM as int;
  }

  /** The confirmations the loader sends: success, a failed write, a wrong checksum, anything else. */
  lemma ConfirmsOnTheWire()
    ensures Confirm(SUCCESS) == [0x55, 2, 0, 0xF0, 2, 0xF2] && Confirm(WRITE_ERROR) == [0x55, 2, 0, 0xF0, 3, 0xF3]
    ensures Confirm(CRC_ERROR) == [0x55, 2, 0, 0xF0, 5, 0xF5] && Confirm(EXEC_ERROR) == [0x55, 2, 0, 0xF0, 7, 0xF7]
  {
    ConfirmBytes(SUCCESS);
    ConfirmBytes(WRITE_ERROR);
    ConfirmBytes(CRC_ERROR);
    ConfirmBytes(EXEC_ERROR);
  }

  /** "WRITE_ERR code=0x" */
  const WRITE_ERR: seq<byte> := [87, 82, 73, 84, 69, 95, 69, 82, 82, 32, 99, 111, 100, 101, 61, 48, 120]

  /** "WRITE_ERR code=0x........\r\n", which goes out on the same UART. */
  function Diagnostic(code: nat): seq<byte> {
    WRITE_ERR + Hex(code, 8) + [13, 10]
  }

  /** The number some hexadecimal digits stand for. */
  function HexValue(s: seq<byte>): int {
    if s == [] then 0
    else
      var d: int := s[|s| - 1];
      16 * HexValue(s[..|s| - 1]) + if d < 58 then d - 48 else d - 87
  }

  function Pow16(n: nat): (p: nat)
    ensures p > 0
  {
    if n == 0 then 1 else 16 * Pow16(n - 1)
  }

  /** The digits of a number, "0" to "9" and "a" to "f", stand for it. */
  lemma {:induction false} HexReadsBack(n: nat, digits: nat)
    requires n < Pow16(digits)
    ensures |Hex(n, digits)| == digits && HexValue(Hex(n, digits)) == n
    ensures forall d :: d in Hex(n, digits) ==> 48 <= d <= 57 || 97 <= d <= 102
  {
    if digits == 0 {
    } else {
      var front := Hex(n / 16, digits - 1);
      HexReadsBack(n / 16, digits - 1);
      assert (front + [HexDigit(n % 16)])[..|front|] == front;
    }
  }

  /** The text sent with a failed write is "WRITE_ERR code=0x", the error code in eight digits, and a line end. */
  lemma DiagnosticText(code: nat)
    requires code < TWO32
    ensures var d := Diagnostic(code);
            |d| == 27 && d[..17] == WRITE_ERR && HexValue(d[17..25]) == code && d[25..] == [13, 10]
    ensures forall i :: 0 <= i < 17 ==> WRITE_ERR[i] == "WRITE_ERR code=0x"[i] as int
  {
    assert Pow16(4) == 0x1_0000 && Pow16(8) == 0x1_0000 * Pow16(4);
    HexReadsBack(code, 8);
    ThreeParts(WRITE_ERR, Hex(code, 8), [13, 10]);
  }

  lemma {:induction false} HexIsNoSof(n: nat, digits: nat)
    ensures SOF !in Hex(n, digits)
  {
    if digits == 0 {
    } else {
      HexIsNoSof(n / 16, digits - 1);
    }
  }

  /** The diagnostic text cannot be taken for the start of a frame. */
  lemma DiagnosticIsNoSof(code: nat)
    ensures SOF !in Diagnostic(code)
  {
    HexIsNoSof(code, 8);
  }

  // ---- What a command does ----

  /** The range an erase request names; the end wraps in 32 bits. */
  function EraseRange(address: nat): (nat, nat) {
    if address == 0xFFFF_FFFF then (0, IMAGE_END)
    else
      var start := address - address % SECTOR_SIZE;
      (start, (start + SECTOR_SIZE) % TWO32)
  }

  /** An erase request is carried out exactly for the whole-chip address and the flash's own; the sector it
      then erases is the one around the address, even if that is the reserved last one. */
  lemma EraseRangeAccepted(address: nat)
    requires address < TWO32
    ensures var (from, to) := EraseRange(address);
            && (address == 0xFFFF_FFFF ==> from == 0 && to == 31 * 4096)
            && (CheckErase(from, to).None? <==> address == 0xFFFF_FFFF || address < 0x2_0000)
            && (address < 0x2_0000 ==> from <= address < to == from + 4096 && from % 4096 == 0)
            && (CheckErase(from, to).None? && IMAGE_END < to <==> 31 * 4096 <= address < 0x2_0000)
  {
  }

  function Signature(secure: byte): Option<seq<byte>> {
    if secure == ENG_SECURED then Some([83, 69, 67, 85])
    else if secure == ENG_UNSECURED then Some([79, 75, 79, 75])
    else None
  }

  /** "SECU" marks a secured image, "OKOK" an unsecured one, and any other value is refused. */
  lemma SignatureBytes(secure: byte)
    ensures Signature(secure) == if secure == 0xC3 then Some([0x53, 0x45, 0x43, 0x55])
                                 else if secure == 0x3C then Some([0x4F, 0x4B, 0x4F, 0x4B])
                                 else None
  {
  }

  function Header(signature: seq<byte>, imageLen: nat): (h: seq<byte>)
    requires |signature| == 4 && imageLen < TWO32
    ensures |h| == 8
  {
    signature + Le32(imageLen)
  }

  /** The signature in flash is the one for `secure`: "SECU" for 0xC3, "OKOK" for 0x3C. */
  predicate Marked(cells: Cells, secure: byte) {
    || (secure == 0xC3 && cells[..4] == [0x53, 0x45, 0x43, 0x55])
    || (secure == 0x3C && cells[..4] == [0x4F, 0x4B, 0x4F, 0x4B])
  }

  /** What storing a header leaves in the first cells. */
  lemma StoredHeader(cells: Cells, secure: byte, imageLen: nat)
    requires Signature(secure).Some? && imageLen < TWO32
    ensures var stored := Stored(cells, 0, Header(Signature(secure).value, imageLen));
            Marked(stored, secure) && stored[4..8] == Le32(imageLen)
  {
    var stored := Stored(cells, 0, Header(Signature(secure).value, imageLen));
    SignatureBytes(secure);
    assert stored[..4] == Signature(secure).value;
  }

  /** How a failed write is described in the text sent before its Confirm. */
  function ErrorCode(error: Error): nat {
    match error
    case Rom(code) => code
    case _ => 0xB000_0000
  }

  function WriteReply(error: Option<Error>): seq<byte> {
    match error
    case None => Confirm(SUCCESS)
    case Some(e) => Diagnostic(ErrorCode(e)) + Confirm(WRITE_ERROR)
  }

  /** A failed write is answered by the text, with the ROM's code or 0xb0000000 for a write out of bounds, and
      then the confirmation. */
  lemma WriteReplyText(e: Error)
    requires e.Rom? ==> e.code < TWO32
    ensures var reply := WriteReply(Some(e));
            && |reply| == 33 && reply[..17] == WRITE_ERR && reply[25..27] == [13, 10]
            && HexValue(reply[17..25]) == (if e.Rom? then e.code else 0xB000_0000)
            && reply[27..] == [0x55, 2, 0, 0xF0, 3, 0xF3]
  {
    var d, confirm := Diagnostic(ErrorCode(e)), Confirm(WRITE_ERROR);
    DiagnosticText(ErrorCode(e));
    ConfirmsOnTheWire();
    var reply := WriteReply(Some(e));
    ThreeParts(d[..17], d[17..25], d[25..] + confirm);
    assert reply == d[..17] + d[17..25] + (d[25..] + confirm);
    assert reply[25..][..2] == d[25..] && reply[25..][2..] == confirm;
  }

  /** The loader's reaction to a command: what it does to the flash, and what it sends, given what the ROM
      returned if it was called. */
  ghost predicate Handled(frame: seq<byte>, cells: Cells, cells': Cells, healthy: bool, rom: Option<Error>,
                          reply: seq<byte>)
    requires frame != []
  {
    if frame[0] == ERASE_REQUEST && |frame| == 5 then
      var (from, to) := EraseRange(Value32(frame[1..5]));
      var error := Outcome(CheckErase(from, to), rom);
      && Erased(cells, from, to, cells', healthy, error)
      && reply == Confirm(if error.None? then SUCCESS else EXEC_ERROR)
    else if frame[0] == WRITE_REQUEST && |frame| >= 7 then
      if |frame| != 7 + Value16(frame[5..7]) then cells' == cells && reply == Confirm(WRITE_ERROR)
      else
        var address := Value32(frame[1..5]);
        var error := Outcome(CheckAccess(address, |frame| - 7), rom);
        Wrote(cells, address, frame[7..], cells', healthy, error) && reply == WriteReply(error)
    else if frame[0] == COMMIT_REQUEST && |frame| == 6 then
      match Signature(frame[5])
      case None => cells' == cells && reply == Confirm(EXEC_ERROR)
      case Some(signature) =>
        && Wrote(cells, 0, Header(signature, Value32(frame[1..5])), cells', healthy, rom)
        && reply == Confirm(if rom.None? then SUCCESS else WRITE_ERROR)
    else if frame[0] == READ_REQUEST && |frame| == 7 then
      var offset, length := Value32(frame[1..5]), Min(Value16(frame[5..7]), MAX_CHUNK);
      var error := Outcome(CheckAccess(offset, length), rom);
      && cells' == cells && (healthy && Fits(offset, length) ==> error.None?)
      && reply == if error.None? then ReadResponse(SUCCESS, cells[offset..offset + length])
                  else ReadResponse(READ_ERROR, [])
    else cells' == cells && reply == Confirm(EXEC_ERROR)
  }

  /** Anything but the four requests, each of its own length, is refused and leaves the flash alone. */
  lemma OtherCommandsAreRefused(frame: seq<byte>, cells: Cells, cells': Cells, healthy: bool, rom: Option<Error>,
                                reply: seq<byte>)
    requires frame != [] && Handled(frame, cells, cells', healthy, rom, reply)
    requires !(frame[0] == 1 && |frame| == 7) && !(frame[0] == 3 && |frame| >= 7)
    requires !(frame[0] == 4 && |frame| == 6) && !(frame[0] == 5 && |frame| == 5)
    ensures cells' == cells && reply == [0x55, 2, 0, 0xF0, 7, 0xF7]
  {
    ConfirmsOnTheWire();
  }

  lemma ReadIsHandled(frame: seq<byte>, cells: Cells, cells': Cells, healthy: bool, rom: Option<Error>,
                      reply: seq<byte>, address: nat, n: nat)
    requires |frame| == 7 && frame[0] == 1 && Handled(frame, cells, cells', healthy, rom, reply)
    requires address == Value32(frame[1..5]) && n == Min(Value16(frame[5..7]), 1024)
    ensures cells' == cells
    ensures healthy && Fits(address, n) ==> reply == ReadResponse(SUCCESS, cells[address..address + n])
    ensures !Fits(address, n) ==> reply == ReadResponse(READ_ERROR, [])
  {
  }

  /** A Read request within the flash is answered, on a healthy part, with up to 1024 of the bytes asked for, and
      one reaching beyond it with an error. */
  lemma ReadIsAnswered(frame: seq<byte>, cells: Cells, cells': Cells, healthy: bool, rom: Option<Error>,
                       reply: seq<byte>, address: nat, n: nat)
    requires |frame| == 7 && frame[0] == 1 && Handled(frame, cells, cells', healthy, rom, reply)
    requires address == Value32(frame[1..5]) && n == Min(Value16(frame[5..7]), 1024)
    ensures cells' == cells
    ensures healthy && address + n <= CAPACITY ==>
              HostRead(reply) == Good([2, 2] + Le16(n) + cells[address..address + n], [])
    ensures address + n > CAPACITY ==> HostRead(reply) == Good([2, 4] + Le16(0) + [], [])
  {
    ReadIsHandled(frame, cells, cells', healthy, rom, reply, address, n);
    if address + n > CAPACITY {
      FrameAlone([2, 4] + Le16(0) + []);
    } else if healthy {
      FrameAlone([2, 2] + Le16(n) + cells[address..address + n]);
    }
  }

  datatype FrameResult = Command(len: nat) | NoCommand | Blocked

  class Loader {
    const nvm: Nvm
    const cmdBuf: array<byte>
    var rx: seq<byte>
    var tx: seq<byte>

    constructor (nvm: Nvm)
      ensures this.nvm == nvm && fresh(cmdBuf) && cmdBuf.Length == COMMAND_LIMIT && rx == tx == []
    {
      this.nvm := nvm;
      cmdBuf := new byte[COMMAND_LIMIT](_ => 0);
      rx, tx := [], [];
    }

    /** `uart.read`: at least one byte, and as many more as happen to be there. */
    method Receive(max: nat) returns (bytes: seq<byte>)
      requires rx != [] && max > 0
      modifies `rx
      ensures 0 < |bytes| <= max && old(rx) == bytes + rx
    {
      var n :| 0 < n <= max && n <= |rx|;
      bytes := rx[..n];
      rx := rx[n..];
    }

    /** Fill the first `len` bytes of `buf`. */
    method ReadExact(buf: array<byte>, len: nat) returns (ok: bool)
      requires len <= buf.Length
      modifies `rx, buf
      ensures ok == (len <= |old(rx)|)
      ensures ok ==> buf[..len] == old(rx)[..len] && rx == old(rx)[len..]
      ensures buf[len..] == old(buf[len..])
    {
      var filled := 0;
      while filled < len
        invariant filled <= len && filled <= |old(rx)|
        invariant buf[..filled] == old(rx)[..filled] && rx == old(rx)[filled..]
        invariant buf[len..] == old(buf[len..])
      {
        if rx == [] {
          return false;
        }
        ghost var before := rx;
        var bytes := Receive(len - filled);
        assert bytes == before[..|bytes|] == old(rx)[filled..filled + |bytes|];
        assert rx == before[|bytes|..];
        forall k | 0 <= k < |bytes| {
          buf[filled + k] := bytes[k];
        }
        ghost var next := filled + |bytes|;
        assert buf[..next] == buf[..filled] + bytes && old(rx)[..next] == old(rx)[..filled] + bytes;
        filled := filled + |bytes|;
      }
      return true;
    }

    /** Skip to behind the next start byte. */
    method ScanForSof() returns (found: bool)
      modifies `rx
      ensures found == AfterSof(old(rx)).Some?
      ensures found ==> rx == AfterSof(old(rx)).value
    {
      while rx != []
        invariant AfterSof(rx) == AfterSof(old(rx))
        decreases |rx|
      {
        var b := rx[0];
        ghost var before := rx;
        var bytes := Receive(1);
        assert rx == before[1..] && bytes[0] == before[0];
        if bytes[0] == SOF {
          return true;
        }
      }
      return false;
    }

    /** The wrapping byte sum. */
    method SumOf(len: nat) returns (sum: byte)
      requires len <= cmdBuf.Length
      ensures sum == Checksum(cmdBuf[..len])
    {
      sum := 0;
      for i := 0 to len
        invariant sum == Checksum(cmdBuf[..i])
      {
        assert cmdBuf[..i + 1][..i] == cmdBuf[..i];
        sum := (sum + cmdBuf[i]) % 256;
      }
    }

    method SendConfirm(status: byte)
      modifies `tx
      ensures tx == old(tx) + Confirm(status)
    {
      tx := tx + [SOF];
      tx := tx + Le16(2);
      tx := tx + [CONFIRM, status];
      var crc := (CONFIRM + status) % 256;
      tx := tx + [crc];
      assert [CONFIRM, status][..1] == [CONFIRM] && [CONFIRM][..0] == [];
      assert Sum([CONFIRM]) == CONFIRM as int;
    }

    /** Read one frame into the command buffer. */
    method ReadFrame() returns (result: FrameResult)
      requires cmdBuf.Length == COMMAND_LIMIT
      modifies `rx, `tx, cmdBuf
      ensures match LoaderRead(old(rx))
              case Good(command, rest) =>
                result == Command(|command|) && |command| <= COMMAND_LIMIT && cmdBuf[..|command|] == command
                && rx == rest && tx == old(tx)
              case Refused(rest) => result == NoCommand && rx == rest && tx == old(tx)
              case Corrupt(rest) => result == NoCommand && rx == rest && tx == old(tx) + Confirm(CRC_ERROR)
              case Incomplete => result == Blocked && tx == old(tx)
    {
      var found := ScanForSof();
      if !found {
        return Blocked;
      }
      ghost var body := rx;
      var lenBytes := new byte[2];
      var ok := ReadExact(lenBytes, 2);
      if !ok {
        return Blocked;
      }
      var len := Value16(lenBytes[..]);
      assert lenBytes[..] == lenBytes[..2] == body[..2];
      if len == 0 || len > cmdBuf.Length {
        return NoCommand;
      }
      ok := ReadExact(cmdBuf, len);
      if !ok {
        return Blocked;
      }
      var crcByte := new byte[1];
      ok := ReadExact(crcByte, 1);
      if !ok {
        return Blocked;
      }
      assert cmdBuf[..len] == body[2..][..len] == body[2..2 + len];
      assert crcByte[0] == crcByte[..1][0] == body[2 + len];
      assert rx == body[2 + len + 1..];
      var expected := SumOf(len);
      if crcByte[0] != expected {
        SendConfirm(CRC_ERROR);
        return NoCommand;
      }
      return Command(len);
    }

    method SendReadResponse(status: byte, data: seq<byte>)
      requires |data| <= MAX_CHUNK
      modifies `tx
      ensures tx == old(tx) + ReadResponse(status, data)
    {
      var header := [READ_RESPONSE, status] + Le16(|data|);
      tx := tx + [SOF];
      tx := tx + Le16(|header| + |data|);
      tx := tx + header;
      tx := tx + data;
      tx := tx + [Checksum(header + data)];
    }

    /** An erase request. */
    method HandleErase(frame: seq<byte>)
      requires |frame| == 5 && frame[0] == ERASE_REQUEST
      modifies `tx, nvm
      ensures old(tx) <= tx
      ensures Handled(frame, old(nvm.cells), nvm.cells, nvm.healthy, nvm.reported, tx[|old(tx)|..])
    {
      var address := Value32(frame[1..5]);
      var error;
      if address == 0xFFFF_FFFF {
        error := nvm.Erase(0, IMAGE_END);
      } else {
        var start := address - address % SECTOR_SIZE;
        error := nvm.Erase(start, (start + SECTOR_SIZE) % TWO32);
      }
      SendConfirm(if error.None? then SUCCESS else EXEC_ERROR);
    }

    /** A write request; a failed write is also reported as text. */
    method HandleWrite(frame: seq<byte>)
      requires |frame| >= 7 && frame[0] == WRITE_REQUEST
      modifies `tx, nvm
      ensures old(tx) <= tx
      ensures Handled(frame, old(nvm.cells), nvm.cells, nvm.healthy, nvm.reported, tx[|old(tx)|..])
    {
      var address, dataLen := Value32(frame[1..5]), Value16(frame[5..7]);
      if |frame| != 7 + dataLen {
        SendConfirm(WRITE_ERROR);
        return;
      }
      var data := frame[7..7 + dataLen];
      assert data == frame[7..];
      var error := nvm.Write(address, data);
      if error.Some? {
        tx := tx + Diagnostic(ErrorCode(error.value));
      }
      SendConfirm(if error.None? then SUCCESS else WRITE_ERROR);
      assert tx[|old(tx)|..] == WriteReply(error);
    }

    /** A commit request: write the boot header. */
    method HandleCommit(frame: seq<byte>)
      requires |frame| == 6 && frame[0] == COMMIT_REQUEST
      modifies `tx, nvm
      ensures old(tx) <= tx
      ensures tx[|old(tx)|..] == Confirm(SUCCESS) && Blank(old(nvm.cells), 0, 8) ==>
                && (frame[5] == 0xC3 ==> nvm.cells[..4] == [0x53, 0x45, 0x43, 0x55])
                && (frame[5] != 0xC3 ==> frame[5] == 0x3C && nvm.cells[..4] == [0x4F, 0x4B, 0x4F, 0x4B])
                && nvm.cells[4..8] == frame[1..5]
      ensures Handled(frame, old(nvm.cells), nvm.cells, nvm.healthy, nvm.reported, tx[|old(tx)|..])
    {
      var imageLen := Value32(frame[1..5]);
      var signature := Signature(frame[5]);
      if signature.None? {
        SendConfirm(EXEC_ERROR);
        ConfirmBytes(SUCCESS);
        ConfirmBytes(EXEC_ERROR);
        return;
      }
      var error := nvm.Write(0, Header(signature.value, imageLen));
      SendConfirm(if error.None? then SUCCESS else WRITE_ERROR);
      ConfirmBytes(SUCCESS);
      ConfirmBytes(WRITE_ERROR);
      if error.None? && Blank(old(nvm.cells), 0, 8) {
        StoredHeader(old(nvm.cells), frame[5], imageLen);
        Le32OfValue32(frame[1..5]);
      }
    }

    method HandleRead(frame: seq<byte>)
      requires |frame| == 7 && frame[0] == READ_REQUEST
      modifies `tx, nvm`reported
      ensures old(tx) <= tx
      ensures Handled(frame, nvm.cells, nvm.cells, nvm.healthy, nvm.reported, tx[|old(tx)|..])
    {
      var error, data := nvm.Read(Value32(frame[1..5]), Min(Value16(frame[5..7]), MAX_CHUNK));
      if error.None? {
        SendReadResponse(SUCCESS, data);
      } else {
        SendReadResponse(READ_ERROR, []);
      }
    }

    /** One iteration of the command loop. */
    method Serve() returns (result: FrameResult)
      requires cmdBuf.Length == COMMAND_LIMIT
      modifies `rx, `tx, cmdBuf, nvm
      ensures old(tx) <= tx
      ensures match LoaderRead(old(rx))
              case Good(command, rest) =>
                rx == rest && command != [] &&
                  Handled(command, old(nvm.cells), nvm.cells, nvm.healthy, nvm.reported, tx[|old(tx)|..])
              case Refused(rest) => rx == rest && tx == old(tx) && nvm.cells == old(nvm.cells)
              case Corrupt(rest) => rx == rest && tx == old(tx) + Confirm(CRC_ERROR) && nvm.cells == old(nvm.cells)
              case Incomplete => tx == old(tx) && nvm.cells == old(nvm.cells)
    {
      result := ReadFrame();
      if !result.Command? {
        return;
      }
      var frame := cmdBuf[..result.len];
      var id := frame[0];
      if id == ERASE_REQUEST && |frame| == 5 {
        HandleErase(frame);
      } else if id == WRITE_REQUEST && |frame| >= 7 {
        HandleWrite(frame);
      } else if id == COMMIT_REQUEST && |frame| == 6 {
        HandleCommit(frame);
      } else if id == READ_REQUEST && |frame| == 7 {
        HandleRead(frame);
      } else {
        SendConfirm(EXEC_ERROR);
      }
    }
  }
}
