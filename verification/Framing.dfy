/**
 The loader's serial frames (AN3860 Table 2): start byte, little-endian length, command bytes, checksum.
 The host's encoder, and the two readers, which differ: the loader's refuses lengths its buffer cannot
 hold and gives up after one frame; the host's keeps looking until it finds a good one.
 */
module Framing {
  import opened Common

  const SOF: byte := 0x55
  /** The loader's command buffer. */
  const COMMAND_LIMIT: nat := 1024 + 8

  function Le16(n: nat): (b: seq<byte>)
    requires n < TWO16
    ensures |b| == 2
    ensures var b0: int, b1: int := b[0], b[1]; b0 + 256 * b1 == n
  {
    [n % 256, n / 256]
  }

  function Value16(b: seq<byte>): nat
    requires |b| == 2
  {
    var low: int, high: int := b[0], b[1];
    low + 256 * high
  }

  function Le32(n: nat): (b: seq<byte>)
    requires n < TWO32
    ensures |b| == 4
    ensures var b0: int, b1: int, b2: int, b3: int := b[0], b[1], b[2], b[3];
            b0 + 256 * b1 + 0x1_0000 * b2 + 0x100_0000 * b3 == n
  {
    assert n / 0x1_0000 == n / 256 / 256 && n / 0x100_0000 == n / 256 / 256 / 256;
    [n % 256, n / 256 % 256, n / 0x1_0000 % 256, n / 0x100_0000]
  }

  function Value32(b: seq<byte>): (n: nat)
    requires |b| == 4
    ensures n < TWO32
  {
    var b0: int, b1: int, b2: int, b3: int := b[0], b[1], b[2], b[3];
    b0 + 256 * b1 + 0x1_0000 * b2 + 0x100_0000 * b3
  }

  lemma Value16OfLe16(n: nat)
    requires n < TWO16
    ensures Value16(Le16(n)) == n
  {
  }

  lemma Value32OfLe32(n: nat)
    requires n < TWO32
    ensures Value32(Le32(n)) == n
  {
    assert n / 0x1_0000 == n / 256 / 256 && n / 0x100_0000 == n / 256 / 256 / 256;
  }

  lemma Le32OfValue32(b: seq<byte>)
    requires |b| == 4
    ensures Le32(Value32(b)) == b
  {
    var b0: int, b1: int, b2: int, b3: int := b[0], b[1], b[2], b[3];
    var n := Value32(b);
    assert n == b0 + 256 * (b1 + 256 * (b2 + 256 * b3));
    assert n / 256 == b1 + 256 * (b2 + 256 * b3);
    assert n / 0x1_0000 == b2 + 256 * b3;
    assert n / 0x100_0000 == b3;
  }

  function Sum(c: seq<byte>): nat {
    if c == [] then 0 else Sum(c[..|c| - 1]) + c[|c| - 1]
  }

  function Checksum(c: seq<byte>): byte {
    Sum(c) % 256
  }

  function Frame(command: seq<byte>): seq<byte>
    requires |command| < TWO16
  {
    [SOF] + Le16(|command|) + command + [Checksum(command)]
  }

  /** The bytes of a frame: 0x55, the length with its low byte first, the command, and its sum mod 256. */
  lemma FrameBytes(command: seq<byte>)
    requires |command| < TWO16
    ensures |Frame(command)| == |command| + 4
    ensures var f := Frame(command);
            var low: int, high: int := f[1], f[2];
            && f[0] == 0x55 && low + 256 * high == |command|
            && f[3..3 + |command|] == command && f[3 + |command|] == Sum(command) % 256
  {
    var f := Frame(command);
    Slices([SOF] + Le16(|command|), command, Checksum(command), []);
    assert [SOF] + Le16(|command|) + command + [Checksum(command)] + [] == f;
  }

  // ---- The readers ----

  /** What follows the first start byte, if there is one. */
  function AfterSof(s: seq<byte>): (r: Option<seq<byte>>)
    ensures r.Some? ==> |r.value| < |s|
  {
    if s == [] then None else if s[0] == SOF then Some(s[1..]) else AfterSof(s[1..])
  }

  /** One attempt at a frame. `rest` is what is left of the input. */
  datatype Attempt =
    | Good(command: seq<byte>, rest: seq<byte>)
    | Refused(rest: seq<byte>)
    | Corrupt(rest: seq<byte>)
    | Incomplete

  /** The frame body after a start byte, for a reader that takes lengths `low` to `high`. */
  function ReadBody(s: seq<byte>, low: nat, high: nat): (a: Attempt)
    ensures a.Good? || a.Corrupt? ==> |a.rest| < |s|
  {
    if |s| < 2 then Incomplete
    else
      var len := Value16(s[..2]);
      if len < low || high < len then Refused(s[2..])
      else if |s| < 2 + len + 1 then Incomplete
      else
        var command, rest := s[2..2 + len], s[2 + len + 1..];
        if s[2 + len] == Checksum(command) then Good(command, rest) else Corrupt(rest)
  }

  /** The loader's `read_frame`. */
  function LoaderRead(s: seq<byte>): (a: Attempt)
    ensures a.Good? ==> |a.rest| < |s| && 1 <= |a.command| <= COMMAND_LIMIT
  {
    match AfterSof(s)
    case None => Incomplete
    case Some(t) => ReadBody(t, 1, COMMAND_LIMIT)
  }

  /** The host's `read_frame`; a corrupt frame is skipped. */
  function HostRead(s: seq<byte>): Attempt
    decreases |s|
  {
    match AfterSof(s)
    case None => Incomplete
    case Some(t) =>
      match ReadBody(t, 0, TWO16 - 1)
      case Corrupt(rest) => HostRead(rest)
      case a => a
  }

  lemma {:induction false} NoiseIsSkipped(noise: seq<byte>, s: seq<byte>)
    requires SOF !in noise
    ensures AfterSof(noise + [SOF] + s) == Some(s)
  {
    if noise == [] {
      assert noise + [SOF] + s == [SOF] + s;
    } else {
      NoiseIsSkipped(noise[1..], s);
      assert (noise + [SOF] + s)[1..] == noise[1..] + [SOF] + s;
    }
  }

  lemma Slices(a: seq<byte>, b: seq<byte>, x: byte, c: seq<byte>)
    ensures var s := a + b + [x] + c;
            && s[..|a|] == a && s[|a|..|a| + |b|] == b && s[|a| + |b|] == x && s[|a| + |b| + 1..] == c
  {
  }

  /** A body with any checksum byte: good exactly when that is the command's checksum. */
  lemma BodyReads(command: seq<byte>, checksum: byte, rest: seq<byte>, low: nat, high: nat)
    requires |command| < TWO16 && low <= |command| <= high
    ensures ReadBody(Le16(|command|) + command + [checksum] + rest, low, high)
            == if checksum == Checksum(command) then Good(command, rest) else Corrupt(rest)
  {
    Value16OfLe16(|command|);
    Slices(Le16(|command|), command, checksum, rest);
  }

  /** A frame after noise is read whole, and nothing beyond it, by both readers; the loader refuses one whose
      command is empty or longer than 1032 bytes. */
  lemma FrameIsRead(noise: seq<byte>, command: seq<byte>, rest: seq<byte>)
    requires SOF !in noise && |command| < TWO16
    ensures HostRead(noise + Frame(command) + rest) == Good(command, rest)
    ensures LoaderRead(noise + Frame(command) + rest)
            == if 1 <= |command| <= 1032 then Good(command, rest) else Refused(command + [Checksum(command)] + rest)
  {
    var body := Le16(|command|) + command + [Checksum(command)] + rest;
    assert noise + Frame(command) + rest == noise + [SOF] + body;
    NoiseIsSkipped(noise, body);
    BodyReads(command, Checksum(command), rest, 0, TWO16 - 1);
    if 1 <= |command| <= COMMAND_LIMIT {
      BodyReads(command, Checksum(command), rest, 1, COMMAND_LIMIT);
    } else {
      Value16OfLe16(|command|);
      assert body == Le16(|command|) + (command + [Checksum(command)] + rest);
    }
  }

  lemma FrameAlone(command: seq<byte>)
    requires |command| < TWO16
    ensures HostRead(Frame(command)) == Good(command, [])
  {
    FrameIsRead([], command, []);
    assert [] + Frame(command) + [] == Frame(command);
  }

  // ---- Streams of frames ----

  /** A command and the bytes on the line before its frame. */
  datatype Sent = Sent(noise: seq<byte>, command: seq<byte>)

  predicate Acceptable(m: Sent) {
    SOF !in m.noise && 1 <= |m.command| <= 1032
  }

  function OnWire(ms: seq<Sent>): seq<byte>
    requires forall m :: m in ms ==> Acceptable(m)
  {
    if ms == [] then []
    else assert Acceptable(ms[0]); ms[0].noise + Frame(ms[0].command) + OnWire(ms[1..])
  }

  function Commands(ms: seq<Sent>): seq<seq<byte>> {
    if ms == [] then [] else [ms[0].command] + Commands(ms[1..])
  }

  /** Every command the loader gets out of `s`, up to the first attempt that is no good frame, and the
      input left then. */
  function LoaderReadAll(s: seq<byte>): (seq<seq<byte>>, seq<byte>)
    decreases |s|
  {
    match LoaderRead(s)
    case Good(command, rest) => var (more, left) := LoaderReadAll(rest); ([command] + more, left)
    case _ => ([], s)
  }

  lemma {:induction false} NoSof(s: seq<byte>)
    requires SOF !in s
    ensures AfterSof(s) == None
  {
    if s == [] {
    } else {
      NoSof(s[1..]);
    }
  }

  /** The loader recovers exactly the commands sent and consumes exactly their bytes. */
  lemma {:induction false} StreamRoundTrip(ms: seq<Sent>, tail: seq<byte>)
    requires (forall m :: m in ms ==> Acceptable(m)) && SOF !in tail
    ensures LoaderReadAll(OnWire(ms) + tail) == (Commands(ms), tail)
  {
    if ms == [] {
      NoSof(tail);
      assert OnWire(ms) + tail == tail;
    } else {
      assert Acceptable(ms[0]);
      var rest := OnWire(ms[1..]) + tail;
      assert OnWire(ms) + tail == ms[0].noise + Frame(ms[0].command) + rest;
      FrameIsRead(ms[0].noise, ms[0].command, rest);
      StreamRoundTrip(ms[1..], tail);
    }
  }

  // ---- Corruption ----

  /** Changing one byte changes the sum by as much. */
  lemma {:induction false} SumOfUpdate(c: seq<byte>, i: nat, x: byte)
    requires i < |c|
    ensures Sum(c[i := x]) == Sum(c) + x - c[i]
  {
    var n := |c| - 1;
    if i == n {
      assert c[i := x][..n] == c[..n];
    } else {
      SumOfUpdate(c[..n], i, x);
      assert c[i := x][..n] == c[..n][i := x];
    }
  }

  lemma ChecksumOfUpdate(c: seq<byte>, i: nat, x: byte)
    requires i < |c| && x != c[i]
    ensures Checksum(c[i := x]) != Checksum(c)
  {
    SumOfUpdate(c, i, x);
  }

  /** A frame whose command has one byte changed, or only its checksum byte, is rejected by both readers;
      the loader's takes up again right behind it, and so does the host's at once. */
  lemma OneChangedByteIsRejected(noise: seq<byte>, command: seq<byte>, i: nat, x: byte, checksum: byte, rest: seq<byte>)
    requires SOF !in noise && i < |command| <= COMMAND_LIMIT
    requires (x != command[i]) != (checksum != Checksum(command))
    ensures var s := noise + [SOF] + (Le16(|command|) + command[i := x] + [checksum] + rest);
            LoaderRead(s) == Corrupt(rest) && HostRead(s) == HostRead(rest)
  {
    if x != command[i] {
      ChecksumOfUpdate(command, i, x);
    } else {
      assert command[i := x] == command;
    }
    NoiseIsSkipped(noise, Le16(|command|) + command[i := x] + [checksum] + rest);
    BodyReads(command[i := x], checksum, rest, 1, COMMAND_LIMIT);
    BodyReads(command[i := x], checksum, rest, 0, TWO16 - 1);
  }
}
