/**
 The host's end: erase, write in chunks, commit, each step confirmed by the loader at the other end of a
 lossless serial link. The two programs are composed, one request at a time.
 */
module FlashHost {
  import opened Common
  import opened Framing
  import opened Flash
  import opened Loader

  const CHUNK_SIZE: nat := 512
  /** The boot header comes before the image (AN3860 Table 1). */
  const HEADER_SIZE: nat := 8

  function EraseCommand(): seq<byte> {
    [ERASE_REQUEST] + Le32(0xFFFF_FFFF)
  }

  function WriteCommand(address: nat, chunk: seq<byte>): seq<byte>
    requires address < TWO32 && |chunk| < TWO16
  {
    [WRITE_REQUEST] + Le32(address) + Le16(|chunk|) + chunk
  }

  function CommitCommand(imageLen: nat, secure: byte): seq<byte>
    requires imageLen < TWO32
  {
    [COMMIT_REQUEST] + Le32(imageLen) + [secure]
  }

  /** The three commands on the wire. */
  lemma CommandBytes(address: nat, chunk: seq<byte>, imageLen: nat, secure: byte)
    requires address < TWO32 && |chunk| < TWO16 && imageLen < TWO32
    ensures EraseCommand() == [5, 255, 255, 255, 255]
    ensures WriteCommand(address, chunk)
            == [3] + [address % 256, address / 256 % 256, address / 0x1_0000 % 256, address / 0x100_0000]
               + [|chunk| % 256, |chunk| / 256] + chunk
    ensures CommitCommand(imageLen, secure)
            == [4] + [imageLen % 256, imageLen / 256 % 256, imageLen / 0x1_0000 % 256, imageLen / 0x100_0000] + [secure]
  {
  }

  lemma EraseCommandFields()
    ensures EraseCommand()[1..5] == Le32(0xFFFF_FFFF) && Value32(EraseCommand()[1..5]) == 0xFFFF_FFFF
  {
    Value32OfLe32(0xFFFF_FFFF);
  }

  lemma WriteCommandFields(address: nat, chunk: seq<byte>)
    requires address < TWO32 && |chunk| < TWO16
    ensures var c := WriteCommand(address, chunk);
            c[1..5] == Le32(address) && c[5..7] == Le16(|chunk|) && c[7..] == chunk
  {
  }

  lemma CommitCommandFields(imageLen: nat, secure: byte)
    requires imageLen < TWO32
    ensures var c := CommitCommand(imageLen, secure); c[1..5] == Le32(imageLen) && c[5] == secure
  {
  }

  /** The flash after the first `written` bytes of `image`, over what it held at first. */
  function Partly(cells: Cells, image: seq<byte>, written: nat): Cells
    requires written <= |image|
  {
    seq(CAPACITY, p requires 0 <= p < CAPACITY =>
      if HEADER_SIZE <= p < HEADER_SIZE + written then image[p - HEADER_SIZE]
      else if p < IMAGE_END then ERASED
      else cells[p])
  }

  /** The flash with `image` and its boot header. */
  function Flashed(cells: Cells, image: seq<byte>, signature: seq<byte>): Cells
    requires |signature| == 4 && |image| < TWO32
  {
    Stored(Partly(cells, image, |image|), 0, Header(signature, |image|))
  }

  /** Nothing in the way: the image fits the flash, and any part of it beyond the erased sectors falls on
      cells that are blank already. */
  predicate Room(cells: Cells, image: seq<byte>) {
    HEADER_SIZE + |image| <= CAPACITY && Blank(cells, IMAGE_END, HEADER_SIZE + |image|)
  }

  predicate LastSectorKept(cells: Cells, cells': Cells) {
    forall p :: IMAGE_END <= p < CAPACITY ==> cells'[p] == cells[p]
  }

  /** The header goes to cells still blank, before the image. */
  lemma HeaderIsBlank(cells: Cells, image: seq<byte>)
    requires HEADER_SIZE + |image| <= CAPACITY
    ensures Blank(Partly(cells, image, |image|), 0, HEADER_SIZE)
  {
  }

  /** The next chunk goes to blank cells and takes the flash one chunk further. */
  lemma NextChunk(cells: Cells, image: seq<byte>, written: nat, next: nat)
    requires Room(cells, image) && written <= next <= |image|
    ensures Blank(Partly(cells, image, written), HEADER_SIZE + written, HEADER_SIZE + next)
    ensures Stored(Partly(cells, image, written), HEADER_SIZE + written, image[written..next])
            == Partly(cells, image, next)
  {
  }

  /** What a cell holds in the end. */
  lemma FlashedCell(cells: Cells, image: seq<byte>, signature: seq<byte>, p: nat)
    requires |signature| == 4 && HEADER_SIZE + |image| <= CAPACITY && p < CAPACITY
    ensures Flashed(cells, image, signature)[p]
            == if p < HEADER_SIZE then Header(signature, |image|)[p]
               else if p < HEADER_SIZE + |image| then image[p - HEADER_SIZE]
               else if p < IMAGE_END then ERASED
               else cells[p]
  {
  }

  /** Where the image and the header end up; the reserved last sector is untouched if the image ends
      before it. */
  lemma FlashedLayout(cells: Cells, image: seq<byte>, signature: seq<byte>)
    requires |signature| == 4 && Room(cells, image)
    ensures var f := Flashed(cells, image, signature);
            && f[..HEADER_SIZE] == signature + Le32(|image|)
            && f[HEADER_SIZE..HEADER_SIZE + |image|] == image
            && (HEADER_SIZE + |image| <= IMAGE_END ==>
                  Blank(f, HEADER_SIZE + |image|, IMAGE_END) && f[IMAGE_END..] == cells[IMAGE_END..])
  {
    forall p | 0 <= p < CAPACITY
      ensures var f := Flashed(cells, image, signature);
              && (p < HEADER_SIZE ==> f[p] == (signature + Le32(|image|))[p])
              && (HEADER_SIZE <= p < HEADER_SIZE + |image| ==> f[p] == image[p - HEADER_SIZE])
              && (HEADER_SIZE + |image| <= p < IMAGE_END ==> f[p] == ERASED)
              && (IMAGE_END <= p && HEADER_SIZE + |image| <= p ==> f[p] == cells[p])
    {
      FlashedCell(cells, image, signature, p);
    }
  }

  ghost predicate Idle(loader: Loader)
    reads loader
  {
    loader.cmdBuf.Length == COMMAND_LIMIT && loader.rx == [] && loader.tx == []
  }

  /** What the host takes from an answer: the status, if it is a Confirm. */
  function StatusIn(answer: Attempt): Option<byte> {
    match answer
    case Good(frame, _) => if |frame| >= 2 && frame[0] == CONFIRM then Some(frame[1]) else None
    case _ => None
  }

  function Unread(answer: Attempt): seq<byte> {
    match answer
    case Good(_, rest) => rest
    case _ => []
  }

  /** The host finds the Confirm behind whatever text comes before it, and nothing is left over. */
  lemma ConfirmIsRead(noise: seq<byte>, status: byte)
    requires SOF !in noise
    ensures StatusIn(HostRead(noise + Confirm(status))) == Some(status)
    ensures Unread(HostRead(noise + Confirm(status))) == []
  {
    FrameIsRead(noise, [CONFIRM, status], []);
    assert noise + Confirm(status) + [] == noise + Confirm(status);
  }

  /** Send one command, let the loader serve it, and read its answer. */
  method Exchange(loader: Loader, command: seq<byte>) returns (status: Option<byte>, ghost reply: seq<byte>)
    requires Idle(loader) && 1 <= |command| <= COMMAND_LIMIT
    modifies loader, loader.cmdBuf, loader.nvm
    ensures Handled(command, old(loader.nvm.cells), loader.nvm.cells, loader.nvm.healthy, loader.nvm.reported, reply)
    ensures status == StatusIn(HostRead(reply)) && loader.rx == [] && loader.tx == Unread(HostRead(reply))
  {
    loader.rx := loader.rx + Frame(command);
    FrameIsRead([], command, []);
    assert loader.rx == [] + Frame(command) + [];
    var served := loader.Serve();
    reply := loader.tx;
    var answer := HostRead(loader.tx);
    loader.tx := Unread(answer);
    status := StatusIn(answer);
  }

  /** What serving the erase command amounts to. */
  lemma EraseIsHandled(cells: Cells, cells': Cells, healthy: bool, rom: Option<Error>, reply: seq<byte>)
    requires Handled(EraseCommand(), cells, cells', healthy, rom, reply)
    ensures Erased(cells, 0, IMAGE_END, cells', healthy, rom)
    ensures reply == [] + Confirm(if rom.None? then SUCCESS else EXEC_ERROR)
  {
    EraseCommandFields();
  }

  method SendErase(loader: Loader) returns (ok: bool)
    requires Idle(loader)
    modifies loader, loader.cmdBuf, loader.nvm
    ensures Idle(loader) && ok == loader.nvm.reported.None?
    ensures Erased(old(loader.nvm.cells), 0, IMAGE_END, loader.nvm.cells, loader.nvm.healthy, loader.nvm.reported)
  {
    var status;
    ghost var reply;
    status, reply := Exchange(loader, EraseCommand());
    EraseIsHandled(old(loader.nvm.cells), loader.nvm.cells, loader.nvm.healthy, loader.nvm.reported, reply);
    ConfirmIsRead([], if loader.nvm.reported.None? then SUCCESS else EXEC_ERROR);
    ok := status == Some(SUCCESS);
  }

  /** What the host makes of the answer to a write: success exactly if the flash reported it. */
  lemma WriteReplyIsRead(error: Option<Error>)
    ensures var answer := HostRead(WriteReply(error));
            StatusIn(answer) == Some(if error.None? then SUCCESS else WRITE_ERROR) && Unread(answer) == []
  {
    match error
    case None =>
      assert [] + Confirm(SUCCESS) == Confirm(SUCCESS);
      ConfirmIsRead([], SUCCESS);
    case Some(e) =>
      DiagnosticIsNoSof(ErrorCode(e));
      ConfirmIsRead(Diagnostic(ErrorCode(e)), WRITE_ERROR);
  }

  method SendWrite(loader: Loader, address: nat, chunk: seq<byte>) returns (ok: bool)
    requires Idle(loader) && address < TWO32 && |chunk| <= CHUNK_SIZE
    modifies loader, loader.cmdBuf, loader.nvm
    ensures var error := Outcome(CheckAccess(address, |chunk|), loader.nvm.reported);
            && Idle(loader) && ok == error.None?
            && Wrote(old(loader.nvm.cells), address, chunk, loader.nvm.cells, loader.nvm.healthy, error)
  {
    var status;
    ghost var reply;
    var command := WriteCommand(address, chunk);
    WriteCommandFields(address, chunk);
    Value32OfLe32(address);
    Value16OfLe16(|chunk|);
    status, reply := Exchange(loader, command);
    WriteReplyIsRead(Outcome(CheckAccess(address, |chunk|), loader.nvm.reported));
    ok := status == Some(SUCCESS);
  }

  method SendCommit(loader: Loader, imageLen: nat, secure: byte) returns (ok: bool)
    requires Idle(loader) && imageLen < TWO32
    modifies loader, loader.cmdBuf, loader.nvm
    ensures Idle(loader) && ok == (Signature(secure).Some? && loader.nvm.reported.None?)
    ensures Signature(secure).None? ==> loader.nvm.cells == old(loader.nvm.cells)
    ensures Signature(secure).Some? ==>
            Wrote(old(loader.nvm.cells), 0, Header(Signature(secure).value, imageLen), loader.nvm.cells,
                  loader.nvm.healthy, loader.nvm.reported)
  {
    var status;
    ghost var reply;
    var command := CommitCommand(imageLen, secure);
    CommitCommandFields(imageLen, secure);
    Value32OfLe32(imageLen);
    status, reply := Exchange(loader, command);
    ghost var expected := if Signature(secure).None? then EXEC_ERROR
                          else if loader.nvm.reported.None? then SUCCESS else WRITE_ERROR;
    assert reply == [] + Confirm(expected);
    ConfirmIsRead([], expected);
    ok := status == Some(SUCCESS);
  }

  /** The flash holds the image, its length and the right signature. */
  predicate Holds(cells: Cells, image: seq<byte>, secure: byte) {
    && Marked(cells, secure)
    && |image| < TWO32 && cells[4..8] == Le32(|image|)
    && 8 + |image| <= CAPACITY && cells[8..8 + |image|] == image
  }

  lemma FlashedHolds(cells: Cells, image: seq<byte>, secure: byte)
    requires Signature(secure).Some? && Room(cells, image)
    ensures Holds(Flashed(cells, image, Signature(secure).value), image, secure)
  {
    var signature := Signature(secure).value;
    FlashedLayout(cells, image, signature);
    StoredHeader(Partly(cells, image, |image|), secure, |image|);
  }

  /** Commit an image that was written, over flash that held `cells` at first. */
  method CommitImage(loader: Loader, image: seq<byte>, secure: byte, ghost cells: Cells) returns (ok: bool)
    requires Idle(loader) && HEADER_SIZE + |image| <= CAPACITY
    requires Room(cells, image) ==> loader.nvm.cells == Partly(cells, image, |image|)
    modifies loader, loader.cmdBuf, loader.nvm
    ensures ok ==> Signature(secure).Some?
    ensures Room(cells, image) && loader.nvm.healthy ==> (ok <==> Signature(secure).Some?)
    ensures Room(cells, image) && ok ==>
              && Holds(loader.nvm.cells, image, secure)
              && loader.nvm.cells == Flashed(cells, image, Signature(secure).value)
    ensures LastSectorKept(old(loader.nvm.cells), loader.nvm.cells)
  {
    HeaderIsBlank(cells, image);
    ok := SendCommit(loader, |image|, secure);
    if ok && Room(cells, image) {
      FlashedHolds(cells, image, secure);
    }
  }

  /** Flash an image. On a healthy part with room for it every step is confirmed, if `secure` is one of
      the two security values; on any part with room, if every step is confirmed then the flash holds the
      image, written in chunks of 512 bytes; and an image too long for the flash is never reported as flashed.
      Whatever fails, the reserved last sector is kept if the image ends before it. */
  method FlashImage(loader: Loader, image: seq<byte>, secure: byte) returns (ok: bool, ghost writes: nat)
    requires Idle(loader)
    modifies loader, loader.cmdBuf, loader.nvm
    ensures Room(old(loader.nvm.cells), image) && loader.nvm.healthy ==> (ok <==> secure == 0xC3 || secure == 0x3C)
    ensures Room(old(loader.nvm.cells), image) && ok ==>
              && Holds(loader.nvm.cells, image, secure)
              && Signature(secure).Some?
              && loader.nvm.cells == Flashed(old(loader.nvm.cells), image, Signature(secure).value)
    ensures ok ==> (secure == 0xC3 || secure == 0x3C) && writes == (|image| + 511) / 512
    ensures Room(old(loader.nvm.cells), image) && ok ==>
              loader.nvm.cells[..4] == if secure == 0xC3 then [0x53, 0x45, 0x43, 0x55] else [0x4F, 0x4B, 0x4F, 0x4B]
    ensures HEADER_SIZE + |image| > CAPACITY ==> !ok
    ensures HEADER_SIZE + |image| <= IMAGE_END ==> LastSectorKept(old(loader.nvm.cells), loader.nvm.cells)
  {
    ghost var cells := loader.nvm.cells;
    writes := 0;
    ok := SendErase(loader);
    if !ok {
      return;
    }
    var offset := 0;
    assert loader.nvm.cells == Partly(cells, image, 0);
    while offset < |image|
      invariant offset == Min(512 * writes, |image|) && writes == (offset + 511) / 512
      invariant offset <= |image| && HEADER_SIZE + offset <= CAPACITY && Idle(loader)
      invariant HEADER_SIZE + |image| <= IMAGE_END ==> LastSectorKept(cells, loader.nvm.cells)
      invariant Room(cells, image) ==> loader.nvm.cells == Partly(cells, image, offset)
    {
      var next := Min(offset + CHUNK_SIZE, |image|);
      var chunk := image[offset..next];
      if Room(cells, image) {
        NextChunk(cells, image, offset, next);
      }
      ok := SendWrite(loader, HEADER_SIZE + offset, chunk);
      if !ok {
        return;
      }
      offset, writes := next, writes + 1;
    }
    SignatureBytes(secure);
    ok := CommitImage(loader, image, secure, cells);
  }
}
