/**
 NOR flash: erasing sets every bit of a range, programming only clears bits.
 A power cut may fall between two operations or inside one, and then leaves
 some of the bits it was about to change changed.
 */
module Flash {
  import opened Bytes
  import opened Veils

  const FLASH_SIZE := 0x20_0000
  const SECTOR := 0x1000
  const PAGE := 0x100

  function And8(a: byte, b: byte): byte {
    AndInRange(a, b);
    ((a as bv8) & (b as bv8)) as int
  }

  lemma AndInRange(a: byte, b: byte)
    ensures 0 <= ((a as bv8) & (b as bv8)) as int < 0x100
  {
    InRange((a as bv8) & (b as bv8));
  }

  lemma InRange(x: bv8)
    ensures 0 <= x as int < 0x100
  {}

  lemma AllOnes(x: bv8)
    ensures 0xFF & x == x
  {}

  /** Programming an erased byte stores it as it is. */
  lemma ProgramErased(b: byte)
    ensures And8(0xFF, b) == b
  {
    AllOnes(b as bv8);
    ByteThroughBv(b);
  }

  type Mem = m: seq<byte> | |m| == FLASH_SIZE witness Repeat(0xFF, FLASH_SIZE)

  datatype Op =
    | Erase(from: nat, to: nat)
    | Program(at: nat, data: seq<byte>)
  {
    /** Whole sectors are erased, whole pages programmed, all inside the flash. */
    predicate Legal() {
      match this
      case Erase(from, to) => from <= to <= FLASH_SIZE && from % SECTOR == 0 && to % SECTOR == 0
      case Program(at, data) => at + |data| <= FLASH_SIZE && at % PAGE == 0 && |data| % PAGE == 0
    }

    predicate Touches(i: nat) {
      match this
      case Erase(from, to) => from <= i < to
      case Program(at, data) => at <= i < at + |data|
    }

    /** The flash after the operation. */
    function Applied(m: Mem): (r: Mem)
      requires Legal()
      ensures forall i :: 0 <= i < FLASH_SIZE && !Touches(i) ==> r[i] == m[i]
    {
      match this
      case Erase(from, to) => seq(FLASH_SIZE, i requires 0 <= i < FLASH_SIZE => if from <= i < to then 0xFF else m[i])
      case Program(at, data) =>
        seq(FLASH_SIZE, i requires 0 <= i < FLASH_SIZE => if at <= i < at + |data| then And8(m[i], data[i - at]) else m[i])
    }

    /** What a power cut inside the operation may leave: only bits on their way may have moved. */
    ghost predicate Torn(m: Mem, left: Mem)
      requires Legal()
    {
      && (forall i :: 0 <= i < FLASH_SIZE && !Touches(i) ==> left[i] == m[i])
      && (forall i :: 0 <= i < FLASH_SIZE && Touches(i) ==> Between(m[i], left[i], Applied(m)[i]))
    }
  }

  /** `b` has every bit that `a` and `c` agree on. */
  predicate Between(a: byte, b: byte, c: byte) {
    Veil(Bitwise, (a, b, c), a + 3)
  }

  predicate Bitwise(x: (byte, byte, byte)) {
    Passes(x.0 as bv8, x.1 as bv8, x.2 as bv8)
  }

  predicate Passes(x: bv8, y: bv8, z: bv8) {
    (x ^ y) & (y ^ z) == 0
  }

  lemma BetweenIs(a: byte, b: byte, c: byte)
    ensures Between(a, b, c) == Bitwise((a, b, c))
  {
    Lift(Bitwise, (a, b, c), a + 3);
  }

  /** The flash after a list of operations. */
  function Replay(m: Mem, ops: seq<Op>): Mem
    requires forall op :: op in ops ==> op.Legal()
  {
    if ops == [] then m else ops[|ops| - 1].Applied(Replay(m, ops[..|ops| - 1]))
  }

  /** Everything a power cut among `ops` may leave behind. */
  ghost predicate Interrupted(m: Mem, ops: seq<Op>, left: Mem)
    requires forall op :: op in ops ==> op.Legal()
  {
    exists k :: 0 <= k <= |ops| && CutAt(m, ops, k, left)
  }

  /** The cut came after `k` operations, or inside the next one. */
  ghost predicate CutAt(m: Mem, ops: seq<Op>, k: nat, left: Mem)
    requires k <= |ops|
    requires forall op :: op in ops ==> op.Legal()
  {
    var done := Replay(m, ops[..k]);
    left == done || (k < |ops| && ops[k].Torn(done, left))
  }

  /** Bytes no operation touches survive every cut. */
  lemma {:induction false} UntouchedReplay(m: Mem, ops: seq<Op>, i: nat)
    requires i < FLASH_SIZE
    requires forall op :: op in ops ==> op.Legal() && !op.Touches(i)
    ensures Replay(m, ops)[i] == m[i]
  {
    if ops != [] {
      UntouchedReplay(m, ops[..|ops| - 1], i);
    }
  }

  lemma UntouchedCut(m: Mem, ops: seq<Op>, left: Mem, i: nat)
    requires i < FLASH_SIZE
    requires forall op :: op in ops ==> op.Legal() && !op.Touches(i)
    requires Interrupted(m, ops, left)
    ensures left[i] == m[i]
  {
    var k :| 0 <= k <= |ops| && CutAt(m, ops, k, left);
    UntouchedReplay(m, ops[..k], i);
  }

  /** The flash chip and its driver. */
  class Nor {
    const mem: array<byte>
    /** Every operation asked for since power-on. */
    ghost var log: seq<Op>
    /** How many of them the driver reported as failed. */
    ghost var failures: nat

    ghost predicate Valid()
      reads this
    {
      mem.Length == FLASH_SIZE && forall op :: op in log ==> op.Legal()
    }

    function Image(): Mem
      requires mem.Length == FLASH_SIZE
      reads mem
    {
      mem[..]
    }

    constructor (mem: array<byte>)
      requires mem.Length == FLASH_SIZE
      ensures Valid() && this.mem == mem && log == [] && failures == 0
    {
      this.mem := mem;
      log := [];
      failures := 0;
    }

    /** The driver may refuse or give up; then the range is in no known state. */
    method BlockingErase(from: nat, to: nat) returns (ok: bool)
      requires Valid() && Erase(from, to).Legal()
      modifies this, mem
      ensures Valid() && log == old(log) + [Erase(from, to)]
      ensures failures == old(failures) + if ok then 0 else 1
      ensures ok ==> Image() == Erase(from, to).Applied(old(Image()))
      ensures !ok ==> Erase(from, to).Torn(old(Image()), Image())
    {
      log := log + [Erase(from, to)];
      ok := *;
      if ok {
        forall i | from <= i < to {
          mem[i] := 0xFF;
        }
      } else {
        Unchanged(Erase(from, to), Image());
        failures := failures + 1;
      }
    }

    method BlockingWrite(at: nat, data: seq<byte>) returns (ok: bool)
      requires Valid() && Program(at, data).Legal()
      modifies this, mem
      ensures Valid() && log == old(log) + [Program(at, data)]
      ensures failures == old(failures) + if ok then 0 else 1
      ensures ok ==> Image() == Program(at, data).Applied(old(Image()))
      ensures !ok ==> Program(at, data).Torn(old(Image()), Image())
    {
      log := log + [Program(at, data)];
      ok := *;
      if ok {
        forall i | at <= i < at + |data| {
          mem[i] := And8(mem[i], data[i - at]);
        }
      } else {
        Unchanged(Program(at, data), Image());
        failures := failures + 1;
      }
    }
  }

  lemma XorSelf(x: bv8, z: bv8)
    ensures (x ^ x) & (x ^ z) == 0
  {}

  lemma Unchanged(op: Op, m: Mem)
    requires op.Legal()
    ensures op.Torn(m, m)
  {
    forall i | 0 <= i < FLASH_SIZE && op.Touches(i)
      ensures Between(m[i], m[i], op.Applied(m)[i])
    {
      XorSelf(m[i] as bv8, op.Applied(m)[i] as bv8);
      BetweenIs(m[i], m[i], op.Applied(m)[i]);
    }
  }
}
