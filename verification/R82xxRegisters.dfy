/**
 Register access of src/tuner_r82xx.c: every register of the tuner from 0x05 on has a copy in
 `priv->regs`, written together with it. The chip is a bank of 256 byte registers; an I2C
 write names a register and lays the following bytes over the bank from there on.
 */
module R82xxRegisters {
  import opened Collections

  type Byte = bv8

  const REG_SHADOW_START := 5
  const NUM_REGS := 30

  const INIT_ARRAY: seq<Byte> := [
    0x83, 0x32, 0x75, 0xc0, 0x40, 0xd6, 0x6c, 0xf5, 0x63, 0x75, 0x68, 0x6c, 0x83, 0x80, 0x00,
    0x0f, 0x00, 0xc0, 0x30, 0x48, 0xcc, 0x60, 0x00, 0x54, 0xae, 0x4a, 0xc0, 0x00, 0x00, 0x00]

  /** The shadow array and the registers of the chip. */
  datatype Registers = Registers(shadow: seq<Byte>, chip: seq<Byte>)

  predicate Shape(s: Registers) {
    |s.shadow| == NUM_REGS && |s.chip| == 256
  }

  /** The shadow agrees with the chip from 0x05 up. */
  predicate Synced(s: Registers) {
    Shape(s) && forall i :: 0 <= i < NUM_REGS ==> s.shadow[i] == s.chip[REG_SHADOW_START + i]
  }

  /** Where shadow_store starts to copy. */
  function CopyStart(reg: nat): nat {
    if reg < REG_SHADOW_START then 0 else reg - REG_SHADOW_START
  }

  /** How much it copies of n values: the length given to memcpy, or 0 when it returns before. */
  function CopyLength(reg: nat, n: nat): int {
    var len := if reg < REG_SHADOW_START then n + reg - REG_SHADOW_START else n;
    if len <= 0 then 0
    else if len > NUM_REGS - CopyStart(reg) then NUM_REGS - CopyStart(reg)
    else len
  }

  /** The copy stays inside both arrays: its length is not negative. */
  predicate Copyable(reg: nat, n: nat) {
    n == 0 || reg <= REG_SHADOW_START + NUM_REGS
  }

  /** A negative length, taken as a huge one by memcpy, results exactly for a nonempty write that starts above 0x23. */
  lemma CopyInBounds(reg: nat, n: nat)
    ensures 0 <= CopyLength(reg, n) <==> Copyable(reg, n)
    ensures Copyable(reg, n) ==> CopyLength(reg, n) <= n
    ensures Copyable(reg, n) && CopyLength(reg, n) > 0 ==> CopyStart(reg) + CopyLength(reg, n) <= NUM_REGS
    ensures CopyLength(36, 1) == -1
  {
  }

  /** shadow_store: val copied from its start, cut to the array. */
  function Stored(shadow: seq<Byte>, reg: nat, val: seq<Byte>): (r: seq<Byte>)
    requires |shadow| == NUM_REGS && Copyable(reg, |val|)
    ensures |r| == NUM_REGS
  {
    CopyInBounds(reg, |val|);
    var start, n := CopyStart(reg), CopyLength(reg, |val|);
    if n == 0 then shadow else Overlay(shadow, start, val[..n])
  }

  /** A write that starts at 0x05 or above keeps shadow and chip together, wherever it ends. */
  lemma WriteKeepsSync(s: Registers, reg: nat, val: seq<Byte>)
    requires Synced(s) && REG_SHADOW_START <= reg && reg + |val| <= 256 && Copyable(reg, |val|)
    ensures Synced(Registers(Stored(s.shadow, reg, val), Overlay(s.chip, reg, val)))
  {
    var t := Registers(Stored(s.shadow, reg, val), Overlay(s.chip, reg, val));
    forall i | 0 <= i < NUM_REGS
      ensures t.shadow[i] == t.chip[REG_SHADOW_START + i]
    {
    }
  }

  /** Every write of n values from register reg keeps shadow and chip together. */
  ghost predicate AlwaysSynced(reg: nat, n: nat)
    requires reg + n <= 256 && Copyable(reg, n)
  {
    forall s, val :: Synced(s) && |val| == n ==>
      Synced(Registers(Stored(s.shadow, reg, val), Overlay(s.chip, reg, val)))
  }

  /**
   Which writes keep them together whatever they write: those that start at 0x05 or above, and
   those that end below it. Another one copies its first values instead of those for the
   registers that have a copy.
   */
  lemma SyncedWrites(reg: nat, n: nat)
    requires reg + n <= 256 && Copyable(reg, n)
    ensures AlwaysSynced(reg, n) <==> reg >= REG_SHADOW_START || reg + n <= REG_SHADOW_START
  {
    if reg >= REG_SHADOW_START {
      forall s, val | Synced(s) && |val| == n
        ensures Synced(Registers(Stored(s.shadow, reg, val), Overlay(s.chip, reg, val)))
      {
        WriteKeepsSync(s, reg, val);
      }
    } else if reg + n > REG_SHADOW_START {
      ShiftedWrite(reg, n);
    }
  }

  lemma ShiftedWrite(reg: nat, n: nat)
    requires reg < REG_SHADOW_START < reg + n <= 256
    ensures !AlwaysSynced(reg, n)
  {
    var s := Registers(seq(NUM_REGS, _ => 0), seq(256, _ => 0));
    var val: seq<Byte> := seq(n, i => if i == 0 then 1 else 2);
    FirstStored(s.shadow, reg, val);
    assert Overlay(s.chip, reg, val)[REG_SHADOW_START] == val[REG_SHADOW_START - reg] == 2;
    hide Stored, Overlay;
    var t := Registers(Stored(s.shadow, reg, val), Overlay(s.chip, reg, val));
    assert t.shadow[0] == 1 && t.chip[REG_SHADOW_START] == 2;
    assert Synced(s) && !Synced(t);
  }

  /** The first copied value is the first one written. */
  lemma FirstStored(shadow: seq<Byte>, reg: nat, val: seq<Byte>)
    requires |shadow| == NUM_REGS && reg < REG_SHADOW_START < reg + |val|
    ensures Stored(shadow, reg, val)[0] == val[0]
  {
  }

  /** An instance: two values written from 0x04. */
  lemma WriteBelowStart()
    ensures exists s, val ::
              Synced(s) && |val| == 2 && !Synced(Registers(Stored(s.shadow, 4, val), Overlay(s.chip, 4, val)))
  {
    ShiftedWrite(4, 2);
  }

  /** Writing in two chunks is writing at once. */
  lemma WrittenInChunks(chip: seq<Byte>, reg: nat, val: seq<Byte>, n: nat)
    requires reg + |val| <= |chip| && n <= |val|
    ensures Overlay(Overlay(chip, reg, val[..n]), reg + n, val[n..]) == Overlay(chip, reg, val)
  {
  }

  lemma WrittenNothing(chip: seq<Byte>, reg: nat, val: seq<Byte>)
    requires reg <= |chip|
    ensures Overlay(chip, reg, val[..0]) == chip
  {
  }

  lemma NextChunk(chip: seq<Byte>, reg: nat, val: seq<Byte>, pos: nat, size: nat)
    requires reg + |val| <= |chip| && pos + size <= |val|
    ensures Overlay(Overlay(chip, reg, val[..pos]), reg + pos, val[pos..pos + size]) ==
            Overlay(chip, reg, val[..pos + size])
  {
    var both := val[..pos + size];
    assert both[..pos] == val[..pos] && both[pos..] == val[pos..pos + size];
    WrittenInChunks(chip, reg, both, pos);
  }

  /** A value of the shadow, or -1 for a register without a copy. */
  datatype CacheRead = Cached(value: Byte) | NotCached

  class Tuner {
    /** priv->regs, and priv->buf: a register number and up to NUM_REGS values. */
    const regs: array<Byte>
    var bufReg: nat
    const buf: array<Byte>
    const maxI2cMsgLen: nat
    /** The registers of the chip, and whether its n-th I2C message succeeds. */
    var chip: seq<Byte>
    var messages: nat
    const i2cOk: nat -> bool

    constructor (maxI2cMsgLen: nat, chip: seq<Byte>, i2cOk: nat -> bool)
      requires 2 <= maxI2cMsgLen <= NUM_REGS + 1 && |chip| == 256
      ensures Valid() && this.maxI2cMsgLen == maxI2cMsgLen && this.chip == chip && this.i2cOk == i2cOk
      ensures fresh(regs) && fresh(buf)
    {
      regs, buf, bufReg := new Byte[NUM_REGS], new Byte[NUM_REGS], 0;
      this.maxI2cMsgLen, this.chip, messages, this.i2cOk := maxI2cMsgLen, chip, 0, i2cOk;
    }

    ghost predicate Valid()
      reads this
    {
      regs != buf && regs.Length == NUM_REGS && buf.Length == NUM_REGS && |chip| == 256 &&
      2 <= maxI2cMsgLen <= NUM_REGS + 1
    }

    ghost function State(): Registers
      reads this, regs
    {
      Registers(regs[..], chip)
    }

    method ShadowStore(reg: nat, val: seq<Byte>)
      requires Valid() && Copyable(reg, |val|)
      modifies regs
      ensures regs[..] == Stored(old(regs[..]), reg, val)
    {
      CopyInBounds(reg, |val|);
      var r: int, len: int := reg - REG_SHADOW_START, |val|;
      if r < 0 {
        len := len + r;
        r := 0;
      }
      if len <= 0 { return; }
      if len > NUM_REGS - r { len := NUM_REGS - r; }
      assert len == CopyLength(reg, |val|) >= 0 && r == CopyStart(reg);
      ghost var before := regs[..];
      assert Stored(before, reg, val) == Overlay(before, r, val[..len]);
      hide *;
      CopyValues(r, val[..len]);
    }

    /** memcpy to the array from position r on. */
    method CopyValues(r: nat, val: seq<Byte>)
      requires r + |val| <= regs.Length
      modifies regs
      ensures regs[..] == Overlay(old(regs[..]), r, val)
    {
      forall i | 0 <= i < |val| { regs[r + i] := val[i]; }
    }

    /** rtlsdr_i2c_write_fn on the first size+1 bytes of the buffer: register, then values. */
    method I2cWrite(size: nat) returns (rc: int)
      requires Valid() && size <= NUM_REGS && bufReg + size <= 256
      modifies `chip, `messages
      ensures Valid() && messages == old(messages) + 1
      ensures rc == if i2cOk(old(messages)) then size + 1 else -1
      ensures chip == if i2cOk(old(messages)) then Overlay(old(chip), bufReg, buf[..size]) else old(chip)
    {
      messages := messages + 1;
      if !i2cOk(messages - 1) { return -1; }
      chip := Overlay(chip, bufReg, buf[..size]);
      rc := size + 1;
    }

    /**
     r82xx_write. The shadow is stored first. If every message succeeds the chunks amount to
     one auto-increment write; otherwise the chip holds a prefix of it.
     */
    method Write(reg: nat, val: seq<Byte>) returns (rc: int)
      requires Valid() && reg < 256 && reg + |val| <= 256 && Copyable(reg, |val|)
      modifies regs, buf, `bufReg, `chip, `messages
      ensures Valid() && regs[..] == Stored(old(regs[..]), reg, val)
      ensures rc == 0 || rc == -1
      ensures rc == 0 ==> chip == Overlay(old(chip), reg, val)
      ensures rc == -1 ==> exists n :: (0 <= n < |val| || n == |val| == 0) && chip == Overlay(old(chip), reg, val[..n])
      ensures (forall n: nat :: i2cOk(n)) ==> rc == 0
    {
      hide Stored, Overlay;
      ShadowStore(reg, val);
      var pos := 0;
      WrittenNothing(chip, reg, val);
      while true
        invariant Valid() && 0 <= pos <= |val| && regs[..] == Stored(old(regs[..]), reg, val)
        invariant chip == Overlay(old(chip), reg, val[..pos])
        invariant pos > 0 ==> pos < |val|
        decreases |val| - pos
      {
        var len := |val| - pos;
        var size := if len > maxI2cMsgLen - 1 then maxI2cMsgLen - 1 else len;
        rc := WriteChunk(reg + pos, val[pos..pos + size]);
        if rc != size + 1 { return -1; }
        NextChunk(old(chip), reg, val, pos, size);
        pos := pos + size;
        if pos == |val| { break; }
      }
      assert val[..|val|] == val;
      rc := 0;
    }

    /** One message: the I2C buffer is filled and sent. */
    method WriteChunk(reg: nat, chunk: seq<Byte>) returns (rc: int)
      requires Valid() && reg < 256 && reg + |chunk| <= 256 && |chunk| <= NUM_REGS
      modifies buf, `bufReg, `chip, `messages
      ensures Valid() && (rc == |chunk| + 1 || rc == -1)
      ensures chip == if rc == |chunk| + 1 then Overlay(old(chip), reg, chunk) else old(chip)
      ensures (forall n: nat :: i2cOk(n)) ==> rc == |chunk| + 1
    {
      bufReg := reg;
      forall i | 0 <= i < |chunk| { buf[i] := chunk[i]; }
      assert buf[..|chunk|] == chunk;
      rc := I2cWrite(|chunk|);
    }

    /** r82xx_read_cache_reg. */
    method ReadCacheReg(reg: nat) returns (rc: CacheRead)
      requires Valid()
      ensures rc == if REG_SHADOW_START <= reg < REG_SHADOW_START + NUM_REGS then Cached(regs[reg - REG_SHADOW_START])
                    else NotCached
    {
      if 0 <= reg - REG_SHADOW_START < NUM_REGS { return Cached(regs[reg - REG_SHADOW_START]); }
      return NotCached;
    }

    /** r82xx_write_reg_mask: with shadow and chip together, only the bits of the mask change. */
    method WriteRegMask(reg: nat, val: Byte, mask: Byte) returns (rc: int)
      requires Valid() && reg < 256
      modifies regs, buf, `bufReg, `chip, `messages
      ensures Valid()
      ensures !(REG_SHADOW_START <= reg < REG_SHADOW_START + NUM_REGS) ==>
                rc == -1 && chip == old(chip) && regs[..] == old(regs[..])
      ensures REG_SHADOW_START <= reg < REG_SHADOW_START + NUM_REGS ==>
                regs[..] ==
                old(regs[..])[reg - REG_SHADOW_START := Masked(old(regs[reg - REG_SHADOW_START]), val, mask)]
      ensures rc == 0 ==> chip == old(chip)[reg := Masked(old(regs[reg - REG_SHADOW_START]), val, mask)]
      ensures rc == 0 || rc == -1
      ensures rc == -1 ==> chip == old(chip)
      ensures REG_SHADOW_START <= reg < REG_SHADOW_START + NUM_REGS && (forall n: nat :: i2cOk(n)) ==> rc == 0
    {
      var cached := ReadCacheReg(reg);
      if cached.NotCached? { return -1; }
      var v := Masked(cached.value, val, mask);
      rc := Write(reg, [v]);
    }
  }

  function Masked(before: Byte, val: Byte, mask: Byte): Byte {
    (before & !mask) | (val & mask)
  }

  lemma MaskedBits(before: Byte, val: Byte, mask: Byte)
    ensures Masked(before, val, mask) & !mask == before & !mask
    ensures Masked(before, val, mask) & mask == val & mask
  {
  }

  // ---- runs

  /** What the tuner's operations do to the registers when every message succeeds. */
  datatype Op =
    | WriteRegs(reg: nat, vals: seq<Byte>)
    | WriteMask(reg: nat, val: Byte, mask: Byte)
    /** The start of r82xx_init: the table is written, then r82xx_set_tv_standard copies it into the shadow again. */
    | Initialize

  predicate Allowed(op: Op) {
    match op
    case WriteRegs(reg, vals) => REG_SHADOW_START <= reg < 256 && reg + |vals| <= 256 && Copyable(reg, |vals|)
    case WriteMask(reg, _, _) => REG_SHADOW_START <= reg < REG_SHADOW_START + NUM_REGS
    case Initialize => true
  }

  function Apply(s: Registers, op: Op): (t: Registers)
    requires Shape(s) && Allowed(op)
    ensures Shape(t)
  {
    match op
    case WriteRegs(reg, vals) => Registers(Stored(s.shadow, reg, vals), Overlay(s.chip, reg, vals))
    case WriteMask(reg, val, mask) =>
      var v := Masked(s.shadow[reg - REG_SHADOW_START], val, mask);
      Registers(Stored(s.shadow, reg, [v]), Overlay(s.chip, reg, [v]))
    case Initialize => Registers(INIT_ARRAY, Overlay(s.chip, REG_SHADOW_START, INIT_ARRAY))
  }

  function ApplyAll(s: Registers, ops: seq<Op>): (t: Registers)
    requires Shape(s) && forall op :: op in ops ==> Allowed(op)
    ensures Shape(t)
  {
    if ops == [] then s else Apply(ApplyAll(s, ops[..|ops| - 1]), ops[|ops| - 1])
  }

  lemma ApplySyncs(s: Registers, op: Op)
    requires Shape(s) && Allowed(op) && (op.Initialize? || Synced(s))
    ensures Synced(Apply(s, op))
  {
    match op
    case WriteRegs(reg, vals) => WriteKeepsSync(s, reg, vals);
    case WriteMask(reg, val, mask) => WriteKeepsSync(s, reg, [Masked(s.shadow[reg - REG_SHADOW_START], val, mask)]);
    case Initialize =>
  }

  /** Whatever the registers held, the shadow equals the chip after an initialization and any operations after it. */
  lemma {:induction false} RunsKeepSync(s: Registers, ops: seq<Op>)
    requires Shape(s) && forall op :: op in ops ==> Allowed(op)
    requires Synced(s) || (ops != [] && ops[0].Initialize?)
    ensures Synced(ApplyAll(s, ops))
  {
    if ops != [] {
      var n := |ops| - 1;
      if n > 0 || Synced(s) {
        RunsKeepSync(s, ops[..n]);
      }
      ApplySyncs(ApplyAll(s, ops[..n]), ops[n]);
    }
  }

  /** The operations of the class are those of the runs. */
  method Perform(t: Tuner, op: Op) returns (rc: int)
    requires t.Valid() && Allowed(op)
    modifies t.regs, t.buf, t`bufReg, t`chip, t`messages
    ensures t.Valid() && (rc == 0 ==> t.State() == Apply(old(t.State()), op))
    ensures (forall n: nat :: t.i2cOk(n)) ==> rc == 0
  {
    hide Masked, Synced;
    match op {
      case WriteRegs(reg, vals) =>
        rc := t.Write(reg, vals);
      case WriteMask(reg, val, mask) =>
        rc := t.WriteRegMask(reg, val, mask);
      case Initialize =>
        rc := t.Write(REG_SHADOW_START, INIT_ARRAY);
        forall i | 0 <= i < NUM_REGS { t.regs[i] := INIT_ARRAY[i]; }
    }
  }
}
