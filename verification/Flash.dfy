/**
 The serial flash driver over the boot ROM's routines. The ROM is not modelled beyond this contract: a call
 that reports success has done its work, except that a write needs erased cells for that; any call changes at
 most the cells it addresses; and on a healthy part only a write to cells that are not erased can fail.
 */
module Flash {
  import opened Common

  const SECTOR_COUNT: nat := 32
  const SECTOR_SIZE: nat := 4096
  const CAPACITY: nat := SECTOR_COUNT * SECTOR_SIZE
  const ERASED: byte := 0xFF

  datatype Error = OutOfBounds | NotAligned | Rom(code: nat)

  type Cells = c: seq<byte> | |c| == CAPACITY witness seq(CAPACITY, _ => ERASED)

  predicate Blank(cells: Cells, from: nat, to: nat) {
    forall p :: from <= p < to && p < CAPACITY ==> cells[p] == ERASED
  }

  function Fits(offset: nat, length: nat): bool {
    length <= CAPACITY && offset <= CAPACITY - length
  }

  function Stored(cells: Cells, offset: nat, bytes: seq<byte>): Cells
    requires Fits(offset, |bytes|)
  {
    cells[..offset] + bytes + cells[offset + |bytes|..]
  }

  function ErasedRange(cells: Cells, from: nat, to: nat): Cells {
    seq(CAPACITY, p requires 0 <= p < CAPACITY => if from <= p < to then ERASED else cells[p])
  }

  function CheckErase(from: nat, to: nat): Option<Error> {
    if from > to || to > CAPACITY then Some(OutOfBounds)
    else if from % SECTOR_SIZE != 0 || to % SECTOR_SIZE != 0 then Some(NotAligned)
    else None
  }

  function CheckAccess(offset: nat, length: nat): Option<Error> {
    if Fits(offset, length) then None else Some(OutOfBounds)
  }

  /** What is accepted: ranges of the 128 KiB, an empty one included, and to erase, only whole sectors. */
  lemma RangesAccepted(from: nat, to: nat, length: nat)
    ensures CheckAccess(from, length).None? <==> from + length <= 0x2_0000
    ensures CheckErase(from, to).None? <==> from <= to <= 0x2_0000 && from % 4096 == 0 && to % 4096 == 0
  {
  }

  /** What a call reports: that it was refused, or else what the ROM returned. */
  function Outcome(check: Option<Error>, rom: Option<Error>): Option<Error> {
    if check.Some? then check else rom
  }

  /** Trying to erase a range took the flash from `cells` to `cells'` and reported `error`. */
  ghost predicate Erased(cells: Cells, from: nat, to: nat, cells': Cells, healthy: bool, error: Option<Error>) {
    && (CheckErase(from, to).Some? ==> error == CheckErase(from, to) && cells' == cells)
    && (CheckErase(from, to).None? && healthy ==> error.None?)
    && (error.None? ==> cells' == ErasedRange(cells, from, to))
    && (forall p :: 0 <= p < CAPACITY && !(from <= p < to) ==> cells'[p] == cells[p])
  }

  /** Trying to write `bytes` took the flash from `cells` to `cells'` and reported `error`. */
  ghost predicate Wrote(cells: Cells, offset: nat, bytes: seq<byte>, cells': Cells, healthy: bool,
                        error: Option<Error>)
  {
    && (!Fits(offset, |bytes|) ==> error == Some(OutOfBounds) && cells' == cells)
    && (Fits(offset, |bytes|) && Blank(cells, offset, offset + |bytes|) ==>
          (healthy ==> error.None?) && (error.None? ==> cells' == Stored(cells, offset, bytes)))
    && (forall p :: 0 <= p < CAPACITY && !(offset <= p < offset + |bytes|) ==> cells'[p] == cells[p])
  }

  /** The sector numbers of an aligned range are those of its cells. */
  lemma SectorsCover(from: nat, to: nat)
    requires CheckErase(from, to).None?
    ensures var first, count := from / SECTOR_SIZE, (to - from) / SECTOR_SIZE;
            && first + count <= 32
            && forall p: nat :: first <= p / SECTOR_SIZE < first + count <==> from <= p < to
  {
  }

  class Nvm {
    var cells: Cells
    const healthy: bool
    /** What the ROM returned last. */
    ghost var reported: Option<Error>

    constructor (cells: Cells, healthy: bool)
      ensures this.cells == cells && this.healthy == healthy
    {
      this.cells := cells;
      this.healthy := healthy;
      reported := None;
    }

    /** Whatever a failing part returns. */
    method RomResult() returns (error: Option<Error>)
      ensures error.Some? ==> error.value.Rom? && !healthy
    {
      var fails: bool := *;
      var code: nat :| 0 <= code;
      error := if fails && !healthy then Some(Rom(code)) else None;
    }

    /** `nvm_erase`: bit `n` of `sectors` is set exactly when `n` is in it. */
    method RomErase(sectors: set<nat>) returns (error: Option<Error>)
      requires forall n :: n in sectors ==> n < SECTOR_COUNT
      modifies this
      ensures reported == error && (error.Some? ==> error.value.Rom? && !healthy)
      ensures forall p :: 0 <= p < CAPACITY ==>
                if p / SECTOR_SIZE !in sectors then cells[p] == old(cells)[p]
                else error.None? ==> cells[p] == ERASED
    {
      error := RomResult();
      reported := error;
      var left: Cells := seq(CAPACITY, _ => ERASED);
      if error.Some? {
        left := *;
      }
      cells := seq(CAPACITY, p requires 0 <= p < CAPACITY reads this =>
        if p / SECTOR_SIZE in sectors then left[p] else cells[p]);
    }

    /** `nvm_write`. */
    method RomWrite(offset: nat, bytes: seq<byte>) returns (error: Option<Error>)
      requires Fits(offset, |bytes|)
      modifies this
      ensures reported == error && (error.Some? ==> error.value.Rom?)
      ensures Blank(old(cells), offset, offset + |bytes|) ==>
                (healthy ==> error.None?) && (error.None? ==> cells == Stored(old(cells), offset, bytes))
      ensures forall p :: 0 <= p < CAPACITY && !(offset <= p < offset + |bytes|) ==> cells[p] == old(cells)[p]
    {
      error := RomResult();
      var blank := Blank(cells, offset, offset + |bytes|);
      var fails: bool := *;
      if fails && !blank {
        error := Some(Rom(0));
      }
      reported := error;
      var left := bytes;
      if error.Some? || !blank {
        left :| |left| == |bytes|;
      }
      cells := Stored(cells, offset, left);
    }

    /** `nvm_read`. */
    method RomRead(offset: nat, length: nat) returns (error: Option<Error>, bytes: seq<byte>)
      requires Fits(offset, length)
      modifies `reported
      ensures reported == error && (error.Some? ==> error.value.Rom? && !healthy)
      ensures error.None? ==> bytes == cells[offset..offset + length]
    {
      error := RomResult();
      reported := error;
      bytes := cells[offset..offset + length];
      if error.Some? {
        bytes := *;
      }
    }

    /** Erase whole sectors: those from `from` to `to`, and no others. */
    method Erase(from: nat, to: nat) returns (error: Option<Error>)
      modifies this
      ensures error == Outcome(CheckErase(from, to), reported)
      ensures Erased(old(cells), from, to, cells, healthy, error)
    {
      error := CheckErase(from, to);
      if error.Some? {
        return;
      }
      var first := from / SECTOR_SIZE;
      var count := (to - from) / SECTOR_SIZE;
      var sectors: set<nat> := {};
      for i := 0 to count
        invariant forall n :: n in sectors <==> first <= n < first + i
      {
        sectors := sectors + {first + i};
      }
      SectorsCover(from, to);
      error := RomErase(sectors);
      assert error.None? ==> cells == ErasedRange(old(cells), from, to);
    }

    method Write(offset: nat, bytes: seq<byte>) returns (error: Option<Error>)
      modifies this
      ensures error == Outcome(CheckAccess(offset, |bytes|), reported)
      ensures Wrote(old(cells), offset, bytes, cells, healthy, error)
    {
      error := CheckAccess(offset, |bytes|);
      if error.Some? {
        return;
      }
      error := RomWrite(offset, bytes);
    }

    method Read(offset: nat, length: nat) returns (error: Option<Error>, bytes: seq<byte>)
      modifies `reported
      ensures error == Outcome(CheckAccess(offset, length), reported)
      ensures healthy && Fits(offset, length) ==> error.None?
      ensures error.None? ==> bytes == cells[offset..offset + length]
    {
      error, bytes := CheckAccess(offset, length), [];
      if error.None? {
        error, bytes := RomRead(offset, length);
      }
    }
  }
}
