/**
 The AES-CCM driver on the ASM block. The class holds the block's registers; the module's spec of the
 mode is Ccm.dfy. Operations run to completion (the blocking path).
 */
module Aes {
  import opened Common
  import opened Ccm

  type u32 = n: int | 0 <= n < 0x1_0000_0000
  /** A block as the four big-endian words the registers hold. */
  type Words = w: seq<u32> | |w| == 4 witness [0, 0, 0, 0]

  function WordAt(b: Block, i: nat): u32
    requires i < 4
  {
    var b0: int, b1: int, b2: int, b3: int := b[4 * i], b[4 * i + 1], b[4 * i + 2], b[4 * i + 3];
    0x100_0000 * b0 + 0x1_0000 * b1 + 0x100 * b2 + b3
  }

  function BlockToWords(b: Block): Words {
    [WordAt(b, 0), WordAt(b, 1), WordAt(b, 2), WordAt(b, 3)]
  }

  function BytesOf(w: u32): seq<byte> {
    [w / 0x100_0000, w / 0x1_0000 % 0x100, w / 0x100 % 0x100, w % 0x100]
  }

  function WordsToBlock(w: Words): Block {
    BytesOf(w[0]) + BytesOf(w[1]) + BytesOf(w[2]) + BytesOf(w[3])
  }

  lemma BytesOfWord(b0: byte, b1: byte, b2: byte, b3: byte)
    ensures var w := 0x100_0000 * (b0 as int) + 0x1_0000 * b1 + 0x100 * b2 + b3;
            BytesOf(w) == [b0, b1, b2, b3]
  {
    var w: int := 0x100_0000 * (b0 as int) + 0x1_0000 * b1 + 0x100 * b2 + b3;
    assert w / 0x100 == 0x1_0000 * (b0 as int) + 0x100 * b1 + b2;
    assert w / 0x1_0000 == 0x100 * (b0 as int) + b1;
  }

  /** Registers lose nothing: a block written as words reads back as the same block. */
  lemma WordsRoundTrip(b: Block)
    ensures WordsToBlock(BlockToWords(b)) == b
  {
    BytesOfWord(b[0], b[1], b[2], b[3]);
    BytesOfWord(b[4], b[5], b[6], b[7]);
    BytesOfWord(b[8], b[9], b[10], b[11]);
    BytesOfWord(b[12], b[13], b[14], b[15]);
  }

  /** The register words hold the block's bytes, high byte first. */
  lemma WordsAreBigEndian(b: Block, i: nat)
    requires i < 4
    ensures var w: int := BlockToWords(b)[i];
            && w / 0x100_0000 == b[4 * i] && w / 0x1_0000 % 0x100 == b[4 * i + 1]
            && w / 0x100 % 0x100 == b[4 * i + 2] && w % 0x100 == b[4 * i + 3]
  {
    BytesOfWord(b[4 * i], b[4 * i + 1], b[4 * i + 2], b[4 * i + 3]);
  }

  function Flatten(chunks: seq<seq<byte>>): seq<byte> {
    if chunks == [] then [] else Flatten(chunks[..|chunks| - 1]) + chunks[|chunks| - 1]
  }

  lemma FlattenNext(chunks: seq<seq<byte>>, j: nat)
    requires j < |chunks|
    ensures Flatten(chunks[..j + 1]) == Flatten(chunks[..j]) + chunks[j]
  {
    assert chunks[..j + 1][..j] == chunks[..j];
  }

  /** What a stream has come to after one more chunk. */
  lemma StreamNext(stream: seq<byte>, chunks: seq<seq<byte>>, j: nat)
    requires j < |chunks|
    ensures stream + Flatten(chunks[..j]) + chunks[j] == stream + Flatten(chunks[..j + 1])
  {
    FlattenNext(chunks, j);
    Regroup(stream, Flatten(chunks[..j]), chunks[j]);
  }

  /** Moving the first `n` bytes of `rest` behind `sofar` leaves both together the same. */
  lemma StreamMoves(sofar: seq<byte>, rest: seq<byte>, n: nat)
    requires n <= |rest|
    ensures sofar + rest[..n] + rest[n..] == sofar + rest
  {
    assert rest == rest[..n] + rest[n..];
    Regroup(sofar, rest[..n], rest[n..]);
  }

  /** `s` with `piece` written over it from `i` on. */
  function Spliced(s: seq<byte>, i: nat, piece: seq<byte>): (t: seq<byte>)
    requires i + |piece| <= |s|
    ensures |t| == |s|
  {
    s[..i] + piece + s[i + |piece|..]
  }

  /** The `k`th block of `s`, or what there is of it, encrypted or decrypted. */
  function CryptedChunk(E: Cipher, key: Block, nonce: Nonce, s: seq<byte>, k: nat): seq<byte>
    requires 16 * k <= |s|
  {
    var i, next := 16 * k, Min(16 * k + 16, |s|);
    XorSeq(Pad(s[i..next]), E(key, CounterBlock(nonce, k + 1)))[..next - i]
  }

  /** If CTR mode is done up to the `k`th chunk, writing that chunk takes it one further. */
  lemma CryptNext(E: Cipher, key: Block, nonce: Nonce, before: seq<byte>, now: seq<byte>, k: nat)
    requires 16 * k < |before| == |now|
    requires now[..16 * k] == Ctr(E, key, nonce, before)[..16 * k] && now[16 * k..] == before[16 * k..]
    ensures var i, next := 16 * k, Min(16 * k + 16, |before|);
            var s' := Spliced(now, i, CryptedChunk(E, key, nonce, now, k));
            s'[..next] == Ctr(E, key, nonce, before)[..next] && s'[next..] == before[next..]
  {
    var i, next := 16 * k, Min(16 * k + 16, |before|);
    var after := Ctr(E, key, nonce, before);
    var piece := CryptedChunk(E, key, nonce, now, k);
    var s' := Spliced(now, i, piece);
    SliceOfSuffix(now, i, 0, next - i);
    SliceOfSuffix(before, i, 0, next - i);
    assert now[i..next] == before[i..next];
    CtrChunk(E, key, nonce, before, k);
    assert piece == after[i..next];
    forall p | 0 <= p < next
      ensures s'[p] == after[p]
    {
      if p < i {
        assert s'[p] == now[p] == now[..i][p] == after[..i][p];
      } else {
        assert s'[p] == piece[p - i] == after[i..next][p - i];
      }
    }
    forall p | next <= p < |before|
      ensures s'[p] == before[p]
    {
      assert s'[p] == now[p] == now[i..][p - i] == before[i..][p - i];
    }
  }

  /** After `head`, the whole blocks of `stream` have been fed and its last `filled` bytes are in the
      buffer `b`, zero-padded. */
  ghost predicate Streamed(fed: seq<Block>, head: seq<Block>, stream: seq<byte>, b: seq<byte>, filled: nat) {
    && filled < 16 && filled <= |stream| && (|stream| - filled) % 16 == 0
    && fed == head + Blocks(stream[..|stream| - filled])
    && b == Pad(stream[|stream| - filled..])
  }

  /** Putting `piece` after the buffered bytes either keeps a partial block or completes one. */
  lemma StreamGrows(fed: seq<Block>, head: seq<Block>, stream: seq<byte>, b: seq<byte>, filled: nat, piece: seq<byte>)
    requires Streamed(fed, head, stream, b, filled) && filled + |piece| <= 16
    ensures var b' := b[..filled] + piece + b[filled + |piece|..];
            && (filled + |piece| < 16 ==> Streamed(fed, head, stream + piece, b', filled + |piece|))
            && (filled + |piece| == 16 ==> Streamed(fed + [b'], head, stream + piece, ZERO, 0))
  {
    var whole := |stream| - filled;
    var s' := stream + piece;
    assert s'[..whole] == stream[..whole] && s'[whole..] == stream[whole..] + piece;
    if filled + |piece| == 16 {
      BlocksLast(s', whole / 16);
      assert s'[..|s'|] == s';
    }
  }

  lemma StreamEnds(fed: seq<Block>, head: seq<Block>, stream: seq<byte>, b: seq<byte>, filled: nat)
    requires Streamed(fed, head, stream, b, filled)
    ensures (if filled > 0 then fed + [b] else fed) == head + Blocks(stream)
  {
    if filled > 0 {
      BlocksLast(stream, (|stream| - filled) / 16);
    } else {
      assert stream[..|stream|] == stream;
    }
  }

  /** A message sealed under AAD handed over in one set of chunks opens under any other. */
  lemma RechunkedRoundTrip(E: Cipher, k: Block, nonce: Nonce, aad: seq<seq<byte>>, aad': seq<seq<byte>>,
                           message: seq<byte>)
    requires Flatten(aad) == Flatten(aad')
    ensures Decrypt(E, k, nonce, Flatten(aad'), Encrypt(E, k, nonce, Flatten(aad), message)) == Some(message)
  {
    DecryptInvertsEncrypt(E, k, nonce, Flatten(aad'), message, Encrypt(E, k, nonce, Flatten(aad), message));
  }

  datatype Mode = CbcMode | CtrMode

  class Aes {
    /** What the silicon computes. */
    const cipher: Cipher
    // Registers, each shown as the block its four words stand for.
    var key: Block
    var data: Block
    var counter: Block
    var ctrResult: Block
    var cbcResult: Block
    var mode: Mode
    var done: bool
    /** Counts down to completion while an operation runs. */
    var busy: nat
    /** The blocks fed to the CBC accumulator since it was last cleared. */
    ghost var fed: seq<Block>

    /** No operation is running or waiting to be acknowledged. */
    predicate Idle()
      reads this
    {
      !done && busy == 0
    }

    /** The accumulator holds the CBC-MAC of the blocks fed. */
    ghost predicate Accumulated()
      reads this
    {
      cbcResult == Cbc(cipher, key, fed)
    }

    constructor (cipher: Cipher, key: Block, data: Block)
      ensures Idle() && this.cipher == cipher
    {
      this.cipher := cipher;
      this.key, this.data, counter, ctrResult, cbcResult := key, data, data, data, data;
      mode, done, busy := CbcMode, false, 0;
    }

    /** A block going through a register, written or read as four words. */
    static method Transfer(block: Block) returns (register: Block)
      ensures register == block
    {
      var words := BlockToWords(block);
      WordsRoundTrip(block);
      register := WordsToBlock(words);
    }

    /** The engine works for one clock. It may only finish what was started. */
    method Clock()
      requires busy > 0 && !done
      modifies `busy, `done, `ctrResult, `cbcResult
      ensures busy == old(busy) - 1 && done == (busy == 0)
      ensures ctrResult == if done && mode == CtrMode then XorSeq(data, cipher(key, counter)) else old(ctrResult)
      ensures cbcResult == if done && mode == CbcMode then cipher(key, XorSeq(old(cbcResult), data))
                           else old(cbcResult)
    {
      busy := busy - 1;
      if busy == 0 {
        done := true;
        match mode
        case CtrMode => ctrResult := XorSeq(data, cipher(key, counter));
        case CbcMode => cbcResult := cipher(key, XorSeq(cbcResult, data));
      }
    }

    /** Start the configured operation and poll until it is done, then acknowledge it. */
    method StartAndWait()
      requires Idle()
      modifies `busy, `done, `ctrResult, `cbcResult
      ensures Idle()
      ensures ctrResult == if mode == CtrMode then XorSeq(data, cipher(key, counter)) else old(ctrResult)
      ensures cbcResult == if mode == CbcMode then cipher(key, XorSeq(old(cbcResult), data)) else old(cbcResult)
    {
      var latency: nat :| 0 < latency;
      busy := latency;
      while !done
        invariant done == (busy == 0)
        invariant ctrResult == if done && mode == CtrMode then XorSeq(data, cipher(key, counter)) else old(ctrResult)
        invariant cbcResult == if done && mode == CbcMode then cipher(key, XorSeq(old(cbcResult), data))
                               else old(cbcResult)
        decreases busy
      {
        Clock();
      }
      done := false;
    }

    method LoadKey(k: Block)
      modifies `key
      ensures key == k
    {
      key := Transfer(k);
    }

    /** One CTR block: `block` XOR the cipher of `c`. The CBC accumulator is untouched. */
    method CtrBlock(c: Block, block: Block) returns (out: Block)
      requires Idle()
      modifies `mode, `data, `counter, `busy, `done, `ctrResult, `cbcResult
      ensures Idle() && cbcResult == old(cbcResult)
      ensures out == XorSeq(block, cipher(key, c))
    {
      mode := CtrMode;
      data := Transfer(block);
      counter := Transfer(c);
      StartAndWait();
      out := Transfer(ctrResult);
    }

    /** Feed one block to the CBC accumulator, clearing it before the first. */
    method CbcMacBlock(block: Block, first: bool)
      requires Idle() && (first || Accumulated())
      modifies `mode, `data, `busy, `done, `ctrResult, `cbcResult, `fed
      ensures Idle() && Accumulated()
      ensures fed == (if first then [] else old(fed)) + [block]
    {
      mode := CbcMode;
      data := Transfer(block);
      if first {
        cbcResult := ZERO;
        fed := [];
      }
      CbcNext(cipher, key, fed, block);
      StartAndWait();
      fed := fed + [block];
    }

    /** Copy `piece` into the buffer, and feed the buffer if that fills it. */
    method TopUp(buf: array<byte>, filled: nat, piece: seq<byte>, ghost head: seq<Block>, ghost stream: seq<byte>)
      returns (filled': nat)
      requires Idle() && Accumulated() && buf.Length == 16
      requires Streamed(fed, head, stream, buf[..], filled) && filled + |piece| <= 16
      modifies buf, `mode, `data, `busy, `done, `ctrResult, `cbcResult, `fed
      ensures Idle() && Accumulated()
      ensures Streamed(fed, head, stream + piece, buf[..], filled')
    {
      StreamGrows(fed, head, stream, buf[..], filled, piece);
      ghost var grown := buf[..filled] + piece + buf[filled + |piece|..];
      forall k | 0 <= k < |piece| {
        buf[filled + k] := piece[k];
      }
      assert buf[..] == grown;
      filled' := filled + |piece|;
      if filled' == 16 {
        CbcMacBlock(buf[..], false);
        forall k | 0 <= k < 16 {
          buf[k] := 0;
        }
        filled' := 0;
        assert buf[..] == ZERO;
      }
    }

    /** Feed `bytes` to the accumulator as the continuation of `stream`, keeping a partial block in
        `buf`. */
    method FeedPadded(buf: array<byte>, filled: nat, bytes: seq<byte>, ghost head: seq<Block>, ghost stream: seq<byte>)
      returns (filled': nat)
      requires Idle() && Accumulated() && buf.Length == 16
      requires Streamed(fed, head, stream, buf[..], filled)
      modifies buf, `mode, `data, `busy, `done, `ctrResult, `cbcResult, `fed
      ensures Idle() && Accumulated()
      ensures Streamed(fed, head, stream + bytes, buf[..], filled')
    {
      filled' := filled;
      var rest := bytes;
      ghost var sofar := stream;
      while rest != []
        invariant Idle() && Accumulated() && sofar + rest == stream + bytes
        invariant Streamed(fed, head, sofar, buf[..], filled')
        decreases |rest|
      {
        var take := Min(16 - filled', |rest|);
        StreamMoves(sofar, rest, take);
        filled' := TopUp(buf, filled', rest[..take], head, sofar);
        sofar := sofar + rest[..take];
        rest := rest[take..];
      }
      assert sofar == stream + bytes;
    }

    static method TotalLength(aad: seq<seq<byte>>) returns (length: nat)
      ensures length == |Flatten(aad)|
    {
      length := 0;
      for j := 0 to |aad|
        invariant length == |Flatten(aad[..j])|
      {
        FlattenNext(aad, j);
        length := length + |aad[j]|;
      }
      assert aad[..|aad|] == aad;
    }

    /** Feed AAD chunks; only their concatenation matters. */
    method FeedChunks(buf: array<byte>, filled: nat, aad: seq<seq<byte>>, ghost head: seq<Block>,
                      ghost stream: seq<byte>)
      returns (filled': nat)
      requires Idle() && Accumulated() && buf.Length == 16
      requires Streamed(fed, head, stream, buf[..], filled)
      modifies buf, `mode, `data, `busy, `done, `ctrResult, `cbcResult, `fed
      ensures Idle() && Accumulated()
      ensures Streamed(fed, head, stream + Flatten(aad), buf[..], filled')
    {
      filled' := filled;
      assert stream + Flatten(aad[..0]) == stream;
      for j := 0 to |aad|
        invariant Idle() && Accumulated()
        invariant Streamed(fed, head, stream + Flatten(aad[..j]), buf[..], filled')
      {
        ghost var sofar := stream + Flatten(aad[..j]);
        filled' := FeedPadded(buf, filled', aad[j], head, sofar);
        StreamNext(stream, aad, j);
      }
      assert aad[..|aad|] == aad;
    }

    /** Feed the length-prefixed AAD, zero-padded to whole blocks. */
    method FeedAad(aLen: nat, aad: seq<seq<byte>>)
      requires Idle() && Accumulated() && aLen == |Flatten(aad)| > 0
      modifies `mode, `data, `busy, `done, `ctrResult, `cbcResult, `fed
      ensures Idle() && Accumulated() && fed == old(fed) + AadBlocks(Flatten(aad))
    {
      var buf := new byte[16](_ => 0);
      ghost var head: seq<Block>, empty: seq<byte> := fed, [];
      assert head + Blocks(empty) == head && buf[..] == Pad(empty);
      var filled := FeedPadded(buf, 0, Be16(aLen), head, empty);
      assert empty + Be16(aLen) == Be16(aLen);
      filled := FeedChunks(buf, filled, aad, head, Be16(aLen));
      StreamEnds(fed, head, Be16(aLen) + Flatten(aad), buf[..], filled);
      if filled > 0 {
        CbcMacBlock(buf[..], false);
      }
    }

    method FeedMessage(message: seq<byte>)
      requires Idle() && Accumulated()
      modifies `mode, `data, `busy, `done, `ctrResult, `cbcResult, `fed
      ensures Idle() && Accumulated() && fed == old(fed) + Blocks(message)
    {
      var i, k := 0, 0;
      assert Blocks(message[..0]) == [];
      while i < |message|
        invariant i == Min(16 * k, |message|)
        invariant Idle() && Accumulated() && fed == old(fed) + Blocks(message[..i])
      {
        var next := Min(i + 16, |message|);
        BlocksLast(message[..next], k);
        assert message[..next][..i] == message[..i] && message[..next][i..] == message[i..next];
        CbcMacBlock(Pad(message[i..next]), false);
        i, k := next, k + 1;
      }
      assert message[..i] == message;
    }

    /** CBC-MAC over `B_0`, the length-prefixed AAD and the message. */
    method CcmMac(nonce: Nonce, aad: seq<seq<byte>>, message: seq<byte>) returns (mac: Block)
      requires Idle()
      modifies `mode, `data, `busy, `done, `ctrResult, `cbcResult, `fed
      ensures Idle()
      ensures fed == MacInput(nonce, Flatten(aad), message)
      ensures mac == Cbc(cipher, key, fed)
    {
      var aLen := TotalLength(aad);
      var b0 := B0(nonce, |message|, aLen);
      CbcMacBlock(b0, true);
      if aLen > 0 {
        FeedAad(aLen, aad);
      }
      assert fed == [b0] + AadBlocks(Flatten(aad));
      FeedMessage(message);
      mac := Transfer(cbcResult);
    }

    /** The `k`th chunk of CTR mode, in place. */
    method CryptChunk(nonce: Nonce, message: array<byte>, k: nat)
      requires Idle() && 16 * k < message.Length
      modifies message, `mode, `data, `counter, `busy, `done, `ctrResult, `cbcResult
      ensures Idle() && cbcResult == old(cbcResult)
      ensures message[..] == Spliced(old(message[..]), 16 * k, CryptedChunk(cipher, key, nonce, old(message[..]), k))
    {
      ghost var before := message[..];
      var i, next := 16 * k, Min(16 * k + 16, message.Length);
      assert message[i..next] == before[i..next];
      var out := CtrBlock(CounterBlock(nonce, k + 1), Pad(message[i..next]));
      forall j | 0 <= j < next - i {
        message[i + j] := out[j];
      }
      ghost var after := Spliced(before, i, out[..next - i]);
      forall p | 0 <= p < message.Length
        ensures message[p] == after[p]
      {
      }
    }

    /** CTR mode over `message` in place. */
    method CcmCtrCrypt(nonce: Nonce, message: array<byte>)
      requires Idle()
      modifies message, `mode, `data, `counter, `busy, `done, `ctrResult, `cbcResult
      ensures Idle() && cbcResult == old(cbcResult)
      ensures message[..] == Ctr(cipher, key, nonce, old(message[..]))
    {
      ghost var before, now := message[..], message[..];
      ghost var after := Ctr(cipher, key, nonce, before);
      var i, k := 0, 0;
      while i < message.Length
        invariant i == Min(16 * k, message.Length)
        invariant Idle() && cbcResult == old(cbcResult)
        invariant message[..] == now && now[..i] == after[..i] && now[i..] == before[i..]
      {
        var next := Min(i + 16, message.Length);
        CryptNext(cipher, key, nonce, before, now, k);
        CryptChunk(nonce, message, k);
        now := message[..];
        i, k := next, k + 1;
      }
    }

    /** The first eight bytes of `mac` XOR `S_0`; `s0` comes from CTR over a zero block. */
    static method TagOf(mac: Block, s0: Block) returns (tag: seq<byte>)
      ensures tag == XorSeq(mac, s0)[..8]
    {
      tag := [];
      for i := 0 to 8
        invariant tag == XorSeq(mac, s0)[..i]
      {
        tag := tag + [Xor(mac[i], s0[i])];
      }
    }

    /** Encrypt `message` in place; the tag is returned. */
    method EncryptInPlace(k: Block, nonce: Nonce, message: array<byte>, aad: seq<seq<byte>>) returns (tag: seq<byte>)
      requires Idle()
      modifies this, message
      ensures Idle()
      ensures (message[..], tag) == Encrypt(cipher, k, nonce, Flatten(aad), old(message[..]))
      ensures Masked(cipher, k, nonce, old(message[..]), message[..])
      ensures MaskedTag(cipher, k, nonce, Cbc(cipher, k, MacInput(nonce, Flatten(aad), old(message[..]))), tag)
    {
      CtrIsMasked(cipher, k, nonce, message[..]);
      TagIsMasked(cipher, k, nonce, Flatten(aad), message[..]);
      LoadKey(k);
      var mac := CcmMac(nonce, aad, message[..]);
      var s0 := CtrBlock(CounterBlock(nonce, 0), ZERO);
      CcmCtrCrypt(nonce, message);
      XorSeqZero(cipher(k, CounterBlock(nonce, 0)));
      tag := TagOf(mac, s0);
    }

    /** Decrypt `message` in place if `tag` matches, and zero it otherwise. */
    method DecryptInPlace(k: Block, nonce: Nonce, message: array<byte>, tag: seq<byte>, aad: seq<seq<byte>>)
      returns (ok: bool)
      requires Idle() && |tag| == 8
      modifies this, message
      ensures Idle()
      ensures ok == Decrypt(cipher, k, nonce, Flatten(aad), (old(message[..]), tag)).Some?
      ensures ok ==> Some(message[..]) == Decrypt(cipher, k, nonce, Flatten(aad), (old(message[..]), tag))
      ensures ok ==> Masked(cipher, k, nonce, old(message[..]), message[..])
      ensures ok ==> MaskedTag(cipher, k, nonce, Cbc(cipher, k, MacInput(nonce, Flatten(aad), message[..])), tag)
      ensures !ok ==> forall i :: 0 <= i < message.Length ==> message[i] == 0
    {
      CtrIsMasked(cipher, k, nonce, message[..]);
      TagIsMasked(cipher, k, nonce, Flatten(aad), Ctr(cipher, k, nonce, message[..]));
      LoadKey(k);
      CcmCtrCrypt(nonce, message);
      var mac := CcmMac(nonce, aad, message[..]);
      var s0 := CtrBlock(CounterBlock(nonce, 0), ZERO);
      XorSeqZero(cipher(k, CounterBlock(nonce, 0)));
      var expected := TagOf(mac, s0);
      ok := expected == tag;
      if !ok {
        forall i | 0 <= i < message.Length {
          message[i] := 0;
        }
      }
    }
  }
}
