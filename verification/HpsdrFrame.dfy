/**
 The layout of the shared frame of src/rtl_hpsdr.c: two banks of groups, each group one
 six-byte slot per receiver and two bytes of microphone data. `load_packet` stores the
 samples of one receiver; when more receivers are asked for than exist, the last real one
 also fills the copied slots.
 */
module HpsdrFrame {
  import opened Collections
  import opened Pow2s

  type Byte = b: int | 0 <= b < 256

  const FRAME_LEN := 1032
  const NSAMPS_PACKET: seq<nat> := [126, 72, 50, 38, 30, 26, 22, 20]
  const FRAME_OFFSET1: seq<nat> := [520, 520, 516, 510, 496, 510, 500, 516]
  const FRAME_OFFSET2: seq<nat> := [1032, 1032, 1028, 1022, 1008, 1022, 1012, 1028]

  /** Receiver-count state: real receivers in use, and slots that repeat the last of them. */
  datatype Slots = Slots(active: nat, copies: nat) {
    predicate Valid() {
      1 <= active && active + copies <= 7
    }

    function Total(): nat { active + copies }

    function Width(): nat { 6 * Total() + 2 }

    function Groups(): nat
      requires Valid()
    {
      NSAMPS_PACKET[Total() - 1] / 2
    }
  }

  /** Where a byte of the frame belongs; `byte` counts within the slot. */
  datatype Place = Place(bank: nat, group: nat, slot: nat, byte: nat)

  predicate InFrame(sl: Slots, pl: Place)
    requires sl.Valid()
  {
    pl.bank < 2 && pl.group < sl.Groups() && pl.slot < sl.Total() && pl.byte < 6
  }

  function BankStart(bank: nat): nat { 16 + 512 * bank }

  function Address(sl: Slots, pl: Place): nat {
    BankStart(pl.bank) + pl.group * sl.Width() + 6 * pl.slot + pl.byte
  }

  function PlaceInBank(sl: Slots, bank: nat, q: nat): Option<Place> {
    PlaceInGroupOf(sl, bank, Quotient(q, sl.Width()), Remainder(q, sl.Width()))
  }

  function PlaceInGroupOf(sl: Slots, bank: nat, group: nat, rest: nat): Option<Place> {
    if rest < 6 * sl.Total() then Some(Place(bank, group, rest / 6, rest % 6)) else None
  }

  /** The place of byte p, or None for header, microphone and padding bytes. */
  function PlaceOf(sl: Slots, p: nat): Option<Place>
    requires sl.Valid()
  {
    if 16 <= p < FRAME_OFFSET1[sl.Total() - 1] then PlaceInBank(sl, 0, p - 16)
    else if 528 <= p < FRAME_OFFSET2[sl.Total() - 1] then PlaceInBank(sl, 1, p - 528)
    else None
  }

  /** The tables agree: a bank is exactly half a packet of groups, and both fit the frame. */
  lemma TablesAgree(sl: Slots)
    requires sl.Valid()
    ensures NSAMPS_PACKET[sl.Total() - 1] == 2 * sl.Groups()
    ensures FRAME_OFFSET1[sl.Total() - 1] == 16 + sl.Groups() * sl.Width() <= 520
    ensures FRAME_OFFSET2[sl.Total() - 1] == 528 + sl.Groups() * sl.Width() <= FRAME_LEN
    ensures sl.Groups() >= 1
  {
    var t := sl.Total();
    assert t == 1 || t == 2 || t == 3 || t == 4 || t == 5 || t == 6 || t == 7;
  }

  lemma GroupInBank(sl: Slots, group: nat, rest: nat)
    requires sl.Valid() && rest < sl.Width() && group < sl.Groups()
    ensures group * sl.Width() + rest < sl.Groups() * sl.Width()
  {
    MulNonneg(sl.Groups() - 1 - group, sl.Width());
    MulSub(sl.Width(), sl.Groups() - 1, group);
    MulSub(sl.Width(), sl.Groups(), 1);
  }

  /** Byte `rest` of a group. */
  lemma PlaceInGroup(sl: Slots, bank: nat, group: nat, rest: nat)
    requires sl.Valid() && bank < 2 && group < sl.Groups() && rest < sl.Width()
    ensures BankStart(bank) + group * sl.Width() + rest < FRAME_LEN
    ensures PlaceOf(sl, BankStart(bank) + group * sl.Width() + rest) == PlaceInGroupOf(sl, bank, group, rest)
  {
    hide PlaceInGroupOf;
    TablesAgree(sl);
    GroupInBank(sl, group, rest);
    BlockOffset(group, rest, sl.Width());
    assert PlaceInBank(sl, bank, group * sl.Width() + rest) == PlaceInGroupOf(sl, bank, group, rest);
  }

  /** Address and PlaceOf are inverse: no two places share a byte. */
  lemma AddressPlace(sl: Slots, pl: Place)
    requires sl.Valid() && InFrame(sl, pl)
    ensures Address(sl, pl) < FRAME_LEN && PlaceOf(sl, Address(sl, pl)) == Some(pl)
  {
    var rest := 6 * pl.slot + pl.byte;
    PlaceInGroup(sl, pl.bank, pl.group, rest);
    assert rest / 6 == pl.slot && rest % 6 == pl.byte;
  }

  lemma PlaceAddress(sl: Slots, p: nat)
    requires sl.Valid() && PlaceOf(sl, p).Some?
    ensures InFrame(sl, PlaceOf(sl, p).value) && Address(sl, PlaceOf(sl, p).value) == p
  {
    TablesAgree(sl);
    var bank := if p < 528 then 0 else 1;
    var q, w := p - BankStart(bank), sl.Width();
    DivModDef(q, w);
    BlockBelow(Quotient(q, w), sl.Groups(), w, q);
    SlotAddress(Remainder(q, w));
  }

  lemma SlotAddress(rest: nat)
    ensures 6 * (rest / 6) + rest % 6 == rest
  {
  }

  // ---- load_packet

  /** A receiver's sample buffer and the index of the first sample of its packet. */
  datatype Source = Source(iqSamples: seq<int>, iqSampleOffset: nat)

  predicate HasPacket(sl: Slots, src: Source)
    requires sl.Valid()
  {
    && 2 * (src.iqSampleOffset + NSAMPS_PACKET[sl.Total() - 1]) <= |src.iqSamples|
    && forall i :: 0 <= i < |src.iqSamples| ==> -0x8000 <= src.iqSamples[i] < 0x8000
  }

  /** The receiver whose samples a slot shows: the copied slots show the last real one. */
  function Shown(sl: Slots, slot: nat): (r: nat)
    requires sl.Valid()
    ensures r < sl.active
  {
    if slot < sl.active then slot else sl.active - 1
  }

  /** The I value (component 0) or Q value of the sample for a group of a bank. */
  function SampleFor(sl: Slots, src: Source, bank: nat, group: nat, component: nat): int
    requires sl.Valid() && HasPacket(sl, src) && bank < 2 && group < sl.Groups() && component < 2
  {
    TablesAgree(sl);
    var index := src.iqSampleOffset + bank * sl.Groups() + group;
    src.iqSamples[2 * index + component]
  }

  /** High byte and low byte of a 16-bit value. */
  function High(x: int): Byte { (x / 256) % 256 }
  function Low(x: int): Byte { x % 256 }

  function SlotByte(sl: Slots, src: Source, pl: Place, before: Byte): Byte
    requires sl.Valid() && HasPacket(sl, src) && InFrame(sl, pl)
  {
    match pl.byte
    case 0 => High(SampleFor(sl, src, pl.bank, pl.group, 0))
    case 1 => Low(SampleFor(sl, src, pl.bank, pl.group, 0))
    case 3 => High(SampleFor(sl, src, pl.bank, pl.group, 1))
    case 4 => Low(SampleFor(sl, src, pl.bank, pl.group, 1))
    case _ => before
  }

  /** Byte p of the frame after receiver r has run load_packet. */
  function LoadedByte(sl: Slots, r: nat, src: Source, p: nat, before: Byte): Byte
    requires sl.Valid() && HasPacket(sl, src)
  {
    match PlaceOf(sl, p)
    case None => before
    case Some(pl) =>
      PlaceAddress(sl, p);
      if Shown(sl, pl.slot) == r then SlotByte(sl, src, pl, before) else before
  }

  function Loaded(sl: Slots, r: nat, src: Source, frame: seq<Byte>): (f: seq<Byte>)
    requires sl.Valid() && HasPacket(sl, src) && |frame| == FRAME_LEN
    ensures |f| == FRAME_LEN
  {
    seq(FRAME_LEN, p requires 0 <= p < FRAME_LEN => LoadedByte(sl, r, src, p, frame[p]))
  }

  /** The receiver-count variables of the program. */
  class Control {
    var totalNumRcvrs: nat
    var activeNumRcvrs: nat
    var numCopyRcvrs: nat
    var rcvrsMask: set<nat>
    var nsampsPacket: nat
    var frameOffset1: nat
    var frameOffset2: nat
    var copyRcvr: seq<int>

    constructor (total: nat)
      requires 1 <= total <= 7
      ensures CopiesMarked() && totalNumRcvrs == total && copyRcvr == seq(7, _ => -1)
    {
      totalNumRcvrs := total;
      copyRcvr := seq(7, _ => -1);
    }

    function Layout(): Slots
      reads this
    {
      Slots(activeNumRcvrs, numCopyRcvrs)
    }

    /** copy_rcvr as the program leaves it: the own index of every slot ever copied, otherwise -1. */
    ghost predicate CopiesMarked()
      reads this
    {
      && 1 <= totalNumRcvrs <= 7 && |copyRcvr| == 7
      && (forall j :: 0 <= j < totalNumRcvrs ==> copyRcvr[j] == -1)
      && (forall j :: totalNumRcvrs <= j < 7 ==> copyRcvr[j] == -1 || copyRcvr[j] == j)
    }

    ghost predicate Configured()
      reads this
    {
      && CopiesMarked()
      && Layout().Valid()
      && (numCopyRcvrs > 0 ==> activeNumRcvrs == totalNumRcvrs)
      && (numCopyRcvrs == 0 ==>
            && nsampsPacket == NSAMPS_PACKET[activeNumRcvrs - 1]
            && frameOffset1 == FRAME_OFFSET1[activeNumRcvrs - 1]
            && frameOffset2 == FRAME_OFFSET2[activeNumRcvrs - 1])
      && (forall j :: activeNumRcvrs <= j < Layout().Total() ==> copyRcvr[j] == j)
    }

    /** The receiver-count part of process_ep2; more than 7 receivers ends the program. */
    method SetReceivers(numRcvrs: nat)
      requires CopiesMarked() && 1 <= numRcvrs <= 7
      modifies this
      ensures Configured() && totalNumRcvrs == old(totalNumRcvrs)
      ensures Layout().Total() == numRcvrs
      ensures activeNumRcvrs == (if numRcvrs <= totalNumRcvrs then numRcvrs else totalNumRcvrs)
      ensures rcvrsMask == Below(activeNumRcvrs)
    {
      if numRcvrs <= totalNumRcvrs {
        numCopyRcvrs := 0;
        activeNumRcvrs := numRcvrs;
      } else {
        numCopyRcvrs := numRcvrs - totalNumRcvrs;
        activeNumRcvrs := totalNumRcvrs;
      }
      nsampsPacket := NSAMPS_PACKET[activeNumRcvrs - 1];
      frameOffset1 := FRAME_OFFSET1[activeNumRcvrs - 1];
      frameOffset2 := FRAME_OFFSET2[activeNumRcvrs - 1];
      EnableReceivers();
      if numCopyRcvrs > 0 {
        MarkCopies(numRcvrs);
      }
    }

    method EnableReceivers()
      requires activeNumRcvrs >= 1
      modifies `rcvrsMask
      ensures rcvrsMask == Below(activeNumRcvrs)
    {
      rcvrsMask := {0};
      var i := 1;
      while i < activeNumRcvrs
        invariant 1 <= i <= activeNumRcvrs && rcvrsMask == Below(i)
      {
        rcvrsMask := rcvrsMask + {i};
        i := i + 1;
      }
    }

    method MarkCopies(numRcvrs: nat)
      requires CopiesMarked() && totalNumRcvrs == activeNumRcvrs <= numRcvrs <= 7
      modifies `copyRcvr
      ensures CopiesMarked() && forall j :: activeNumRcvrs <= j < numRcvrs ==> copyRcvr[j] == j
    {
      var i := activeNumRcvrs;
      while i < numRcvrs
        invariant activeNumRcvrs <= i <= numRcvrs
        invariant CopiesMarked() && forall j :: activeNumRcvrs <= j < i ==> copyRcvr[j] == j
        modifies `copyRcvr
      {
        copyRcvr := copyRcvr[i := i];
        i := i + 1;
      }
    }

    /** The stores of one receiver into the frame. */
    method LoadPacket(rcvrNum: nat, src: Source, payload: array<Byte>)
      requires Configured() && rcvrNum < activeNumRcvrs && HasPacket(Layout(), src)
      requires payload.Length == FRAME_LEN
      modifies payload
      ensures payload[..] == Loaded(Layout(), rcvrNum, src, old(payload[..]))
    {
      hide PlaceOf, LoadedByte, HasPacket;
      var copyTotal := (activeNumRcvrs - 1) + numCopyRcvrs;
      var doCopy := numCopyRcvrs > 0 && rcvrNum == activeNumRcvrs - 1;
      var offset1 := if numCopyRcvrs > 0 then FRAME_OFFSET1[copyTotal] else frameOffset1;
      var offset2 := if numCopyRcvrs > 0 then FRAME_OFFSET2[copyTotal] else frameOffset2;
      ghost var sl := Layout();
      TablesAgree(sl);
      ghost var before := payload[..];
      NothingInHeader(sl, rcvrNum, src, before);
      var i, k, b := 0, 0, 16;
      while k < 2
        invariant 0 <= k <= 2 && i == 2 * (k * sl.Groups()) && b == (if k == 0 then 16 else 528)
        invariant Progress(sl, rcvrNum, src, before, payload[..], if k == 2 then FRAME_LEN else b)
      {
        i, b := LoadBank(rcvrNum, src, payload, i, b, if i == 0 then offset1 else offset2,
                         doCopy, copyTotal, before, k);
        NothingAfterBank(sl, rcvrNum, src, before, payload[..], k);
        b := 528;
        k := k + 1;
      }
      assert payload[..] == Loaded(sl, rcvrNum, src, before);
    }

    /** One bank: groups up to its end. */
    method LoadBank(rcvrNum: nat, src: Source, payload: array<Byte>, i0: nat, b0: nat, offsetx: nat, doCopy: bool,
                    copyTotal: nat, ghost before: seq<Byte>, ghost bank: nat) returns (i: nat, b: nat)
      requires Configured() && rcvrNum < activeNumRcvrs && HasPacket(Layout(), src)
      requires payload.Length == FRAME_LEN && |before| == FRAME_LEN && bank < 2
      requires b0 == BankStart(bank) && i0 == 2 * (bank * Layout().Groups()) &&
               offsetx == b0 + Layout().Groups() * Layout().Width()
      requires doCopy == (numCopyRcvrs > 0 && rcvrNum == activeNumRcvrs - 1) &&
               copyTotal == activeNumRcvrs - 1 + numCopyRcvrs
      requires b0 <= FRAME_LEN && Progress(Layout(), rcvrNum, src, before, payload[..], b0)
      modifies payload
      ensures b == offsetx && i == 2 * ((bank + 1) * Layout().Groups())
      ensures Progress(Layout(), rcvrNum, src, before, payload[..], b)
    {
      hide PlaceOf, LoadedByte, HasPacket, Progress;
      ghost var sl := Layout();
      ghost var group := 0;
      i, b := i0, b0;
      while b < offsetx
        invariant 0 <= group <= sl.Groups() && b == BankStart(bank) + group * sl.Width()
        invariant i == 2 * (bank * sl.Groups() + group)
        invariant Progress(sl, rcvrNum, src, before, payload[..], b)
        decreases sl.Groups() - group
      {
        BlockBelow(group, sl.Groups(), sl.Width(), group * sl.Width());
        i, b := LoadGroup(rcvrNum, src, payload, i, b, doCopy, copyTotal, before, bank, group);
        MulAdd(sl.Width(), group, 1);
        group := group + 1;
      }
      if group < sl.Groups() { GroupInBank(sl, group, 0); }
    }

    /** One group: a slot per receiver, then the two microphone bytes. */
    method LoadGroup(rcvrNum: nat, src: Source, payload: array<Byte>, i0: nat, b0: nat, doCopy: bool, copyTotal: nat,
                     ghost before: seq<Byte>, ghost bank: nat, ghost group: nat) returns (i: nat, b: nat)
      requires Configured() && rcvrNum < activeNumRcvrs && HasPacket(Layout(), src)
      requires payload.Length == FRAME_LEN && |before| == FRAME_LEN && bank < 2 && group < Layout().Groups()
      requires b0 == BankStart(bank) + group * Layout().Width() && i0 == 2 * (bank * Layout().Groups() + group)
      requires doCopy == (numCopyRcvrs > 0 && rcvrNum == activeNumRcvrs - 1) &&
               copyTotal == activeNumRcvrs - 1 + numCopyRcvrs
      requires Progress(Layout(), rcvrNum, src, before, payload[..], b0)
      modifies payload
      ensures b == b0 + Layout().Width() && i == i0 + 2
      ensures b <= FRAME_LEN && Progress(Layout(), rcvrNum, src, before, payload[..], b)
    {
      hide PlaceOf, LoadedByte, Progress, HasPacket;
      ghost var sl := Layout();
      i, b := i0, b0;
      var j := 0;
      while j < activeNumRcvrs + numCopyRcvrs
        invariant 0 <= j <= sl.Total() && b == b0 + 6 * j
        invariant i == i0 + (if j > (if doCopy then copyTotal else rcvrNum) then 2 else 0)
        invariant Progress(sl, rcvrNum, src, before, payload[..], b)
      {
        i := LoadSlot(rcvrNum, src, payload, i, b, j, doCopy, copyTotal, before, bank, group);
        b := b + 6;
        j := j + 1;
      }
      MicProgress(sl, rcvrNum, src, before, payload[..], bank, group, b);
      b := b + 2;
    }

    /** Slot j of a group. */
    method LoadSlot(rcvrNum: nat, src: Source, payload: array<Byte>, i0: nat, b: nat, j: nat, doCopy: bool,
                    copyTotal: nat, ghost before: seq<Byte>, ghost bank: nat, ghost group: nat) returns (i: nat)
      requires Configured() && rcvrNum < activeNumRcvrs && HasPacket(Layout(), src)
      requires payload.Length == FRAME_LEN && |before| == FRAME_LEN && bank < 2 && group < Layout().Groups() &&
               j < Layout().Total()
      requires b == BankStart(bank) + group * Layout().Width() + 6 * j
      requires i0 == 2 * (bank * Layout().Groups() + group) +
                     (if j > (if doCopy then copyTotal else rcvrNum) then 2 else 0)
      requires doCopy == (numCopyRcvrs > 0 && rcvrNum == activeNumRcvrs - 1) &&
               copyTotal == activeNumRcvrs - 1 + numCopyRcvrs
      requires Progress(Layout(), rcvrNum, src, before, payload[..], b)
      modifies payload
      ensures i == i0 + (if j == (if doCopy then copyTotal else rcvrNum) then 2 else 0)
      ensures Progress(Layout(), rcvrNum, src, before, payload[..], b + 6)
    {
      hide PlaceOf, LoadedByte, Progress, HasPacket;
      ghost var sl := Layout();
      SampleInBuffer(sl, src, bank, group);
      ghost var prev := payload[..];
      PlaceInGroup(sl, bank, group, 6 * j + 5);
      i := i0;
      if j == rcvrNum || (doCopy && copyRcvr[j] == j) {
        StoreSlot(payload, b, src.iqSamples[2 * src.iqSampleOffset + i], src.iqSamples[2 * src.iqSampleOffset + i + 1]);
        if doCopy {
          if j == copyTotal { i := i + 2; }
        } else {
          i := i + 2;
        }
      }
      SlotProgress(sl, rcvrNum, src, before, prev, payload[..], bank, group, j, b);
    }
  }

  /** Two 16-bit values, high byte first, each followed by a byte left alone. */
  method StoreSlot(payload: array<Byte>, b: nat, x: int, y: int)
    requires b + 6 <= payload.Length
    modifies payload
    ensures payload[..] == Stored(old(payload[..]), b, x, y)
  {
    payload[b] := High(x);
    payload[b + 1] := Low(x);
    payload[b + 3] := High(y);
    payload[b + 4] := Low(y);
  }

  function Stored(frame: seq<Byte>, b: nat, x: int, y: int): (f: seq<Byte>)
    requires b + 6 <= |frame|
    ensures |f| == |frame|
  {
    frame[b := High(x)][b + 1 := Low(x)][b + 3 := High(y)][b + 4 := Low(y)]
  }

  /** The bytes before b are as after the call, the others as before it. */
  predicate Progress(sl: Slots, r: nat, src: Source, before: seq<Byte>, now: seq<Byte>, b: nat)
    requires sl.Valid() && HasPacket(sl, src)
  {
    && |before| == |now| == FRAME_LEN && b <= FRAME_LEN
    && (forall p :: 0 <= p < b ==> now[p] == LoadedByte(sl, r, src, p, before[p]))
    && (forall p :: b <= p < FRAME_LEN ==> now[p] == before[p])
  }

  lemma SampleInBuffer(sl: Slots, src: Source, bank: nat, group: nat)
    requires sl.Valid() && HasPacket(sl, src) && bank < 2 && group < sl.Groups()
    ensures 2 * src.iqSampleOffset + 2 * (bank * sl.Groups() + group) + 1 < |src.iqSamples|
  {
    TablesAgree(sl);
  }

  lemma NothingInHeader(sl: Slots, r: nat, src: Source, before: seq<Byte>)
    requires sl.Valid() && HasPacket(sl, src) && |before| == FRAME_LEN
    ensures Progress(sl, r, src, before, before, 16)
  {
  }

  lemma NothingAfterBank(sl: Slots, r: nat, src: Source, before: seq<Byte>, now: seq<Byte>, bank: nat)
    requires sl.Valid() && HasPacket(sl, src) && bank < 2
    requires Progress(sl, r, src, before, now, BankStart(bank) + sl.Groups() * sl.Width())
    ensures Progress(sl, r, src, before, now, if bank == 0 then 528 else FRAME_LEN)
  {
    TablesAgree(sl);
    forall p | BankStart(bank) + sl.Groups() * sl.Width() <= p < (if bank == 0 then 528 else FRAME_LEN)
      ensures PlaceOf(sl, p) == None
    {
    }
  }

  lemma SlotProgress(sl: Slots, r: nat, src: Source, before: seq<Byte>, prev: seq<Byte>, now: seq<Byte>,
                     bank: nat, group: nat, j: nat, b: nat)
    requires sl.Valid() && HasPacket(sl, src) && bank < 2 && group < sl.Groups() && j < sl.Total()
    requires b == BankStart(bank) + group * sl.Width() + 6 * j
    requires Progress(sl, r, src, before, prev, b) && b + 6 <= FRAME_LEN
    requires now == if Shown(sl, j) == r
                    then Stored(prev, b, SampleFor(sl, src, bank, group, 0), SampleFor(sl, src, bank, group, 1))
                    else prev
    ensures Progress(sl, r, src, before, now, b + 6)
  {
    forall c | 0 <= c < 6
      ensures PlaceOf(sl, b + c) == Some(Place(bank, group, j, c))
    {
      PlaceInGroup(sl, bank, group, 6 * j + c);
      assert (6 * j + c) / 6 == j && (6 * j + c) % 6 == c;
    }
    hide PlaceOf, SampleFor, High, Low, HasPacket;
    forall p | 0 <= p < b + 6
      ensures now[p] == LoadedByte(sl, r, src, p, before[p])
    {
      if p >= b {
        var c := p - b;
        assert PlaceOf(sl, b + c) == Some(Place(bank, group, j, c));
        assert now[p] == if Shown(sl, j) == r then SlotByte(sl, src, Place(bank, group, j, c), before[p])
                         else before[p];
      }
    }
  }

  lemma MicProgress(sl: Slots, r: nat, src: Source, before: seq<Byte>, now: seq<Byte>, bank: nat, group: nat, b: nat)
    requires sl.Valid() && HasPacket(sl, src) && bank < 2 && group < sl.Groups()
    requires b == BankStart(bank) + group * sl.Width() + 6 * sl.Total()
    requires Progress(sl, r, src, before, now, b)
    ensures b + 2 <= FRAME_LEN && Progress(sl, r, src, before, now, b + 2)
  {
    PlaceInGroup(sl, bank, group, 6 * sl.Total());
    PlaceInGroup(sl, bank, group, 6 * sl.Total() + 1);
    hide PlaceOf, HasPacket;
  }

  // ---- the frame once every active receiver has run load_packet

  /** The frame after the receivers of `order` have run load_packet, one after the other. */
  function LoadAll(sl: Slots, sources: seq<Source>, order: seq<nat>, frame: seq<Byte>): (f: seq<Byte>)
    requires Ready(sl, sources, order) && |frame| == FRAME_LEN
    ensures |f| == FRAME_LEN
  {
    if order == [] then frame
    else
      var n := |order| - 1;
      Loaded(sl, order[n], sources[order[n]], LoadAll(sl, sources, order[..n], frame))
  }

  predicate Ready(sl: Slots, sources: seq<Source>, order: seq<nat>) {
    && sl.Valid() && |sources| == sl.active
    && (forall r :: 0 <= r < sl.active ==> HasPacket(sl, sources[r]))
    && (forall i :: 0 <= i < |order| ==> order[i] < sl.active)
  }

  lemma {:induction false} LoadAllByte(sl: Slots, sources: seq<Source>, order: seq<nat>, frame: seq<Byte>, pl: Place)
    requires Ready(sl, sources, order) && |frame| == FRAME_LEN && InFrame(sl, pl)
    requires Address(sl, pl) < FRAME_LEN && PlaceOf(sl, Address(sl, pl)) == Some(pl)
    ensures var shown := Shown(sl, pl.slot);
            var p := Address(sl, pl);
            && (shown in order ==> LoadAll(sl, sources, order, frame)[p] == SlotByte(sl, sources[shown], pl, frame[p]))
            && (shown !in order ==> LoadAll(sl, sources, order, frame)[p] == frame[p])
  {
    hide PlaceOf, SlotByte, HasPacket, Address, Shown;
    var p := Address(sl, pl);
    if order != [] {
      var n := |order| - 1;
      var r := order[n];
      LoadAllByte(sl, sources, order[..n], frame, pl);
      assert order == order[..n] + [r];
      var prev := LoadAll(sl, sources, order[..n], frame);
      assert LoadAll(sl, sources, order, frame)[p] == LoadedByte(sl, r, sources[r], p, prev[p]);
      SlotByteOfSlotByte(sl, sources[Shown(sl, pl.slot)], sources[r], pl, frame[p]);
    }
  }

  lemma SlotByteOfSlotByte(sl: Slots, first: Source, second: Source, pl: Place, before: Byte)
    requires sl.Valid() && HasPacket(sl, first) && HasPacket(sl, second) && InFrame(sl, pl)
    ensures SlotByte(sl, second, pl, SlotByte(sl, first, pl, before)) == SlotByte(sl, second, pl, before)
  {
  }

  /** Header, microphone, padding and low-order bytes keep their values. */
  lemma {:induction false} LoadAllLeavesOthers(sl: Slots, sources: seq<Source>, order: seq<nat>, frame: seq<Byte>,
                                               p: nat)
    requires Ready(sl, sources, order) && |frame| == FRAME_LEN && p < FRAME_LEN
    requires PlaceOf(sl, p) == None || PlaceOf(sl, p).value.byte == 2 || PlaceOf(sl, p).value.byte == 5
    ensures LoadAll(sl, sources, order, frame)[p] == frame[p]
  {
    hide PlaceOf, HasPacket;
    if order != [] {
      LoadAllLeavesOthers(sl, sources, order[..|order| - 1], frame, p);
    }
  }

  /** The signed 16-bit value whose high byte is at position p. */
  function Value16(frame: seq<Byte>, p: nat): int
    requires p + 1 < |frame|
  {
    Signed16(frame[p], frame[p + 1])
  }

  function Signed16(hi: int, lo: int): int {
    var v := hi * 256 + lo;
    if v >= 0x8000 then v - 0x1_0000 else v
  }

  lemma HighLow(x: int)
    requires -0x8000 <= x < 0x8000
    ensures x == Signed16(High(x), Low(x))
  {
  }

  /** Sample t of the packet in a slot: its I (component 0) or Q value. */
  function Decoded(sl: Slots, frame: seq<Byte>, slot: nat, t: nat, component: nat): int
    requires sl.Valid() && |frame| == FRAME_LEN && slot < sl.Total() && t < NSAMPS_PACKET[sl.Total() - 1] &&
             component < 2
  {
    TablesAgree(sl);
    var pl := SamplePlace(sl, slot, t, component);
    AddressPlace(sl, pl);
    AddressPlace(sl, pl.(byte := pl.byte + 1));
    Value16(frame, Address(sl, pl))
  }

  function SamplePlace(sl: Slots, slot: nat, t: nat, component: nat): (pl: Place)
    requires sl.Valid() && slot < sl.Total() && t < NSAMPS_PACKET[sl.Total() - 1] && component < 2
    ensures InFrame(sl, pl) && InFrame(sl, pl.(byte := pl.byte + 1)) && pl.bank * sl.Groups() + pl.group == t
  {
    TablesAgree(sl);
    if t < sl.Groups() then Place(0, t, slot, 3 * component) else Place(1, t - sl.Groups(), slot, 3 * component)
  }

  /**
   Once every active receiver has run load_packet, in any order, the samples of a packet are
   decoded in order from every slot; a copied slot shows those of the last real receiver.
   */
  lemma SlotsShow(sl: Slots, sources: seq<Source>, order: seq<nat>, frame: seq<Byte>,
                  slot: nat, t: nat, component: nat)
    requires Ready(sl, sources, order) && |frame| == FRAME_LEN
    requires forall r: nat :: r < sl.active ==> r in order
    requires slot < sl.Total() && t < NSAMPS_PACKET[sl.Total() - 1] && component < 2
    ensures var src := sources[if slot < sl.active then slot else sl.active - 1];
            && 2 * (src.iqSampleOffset + t) + component < |src.iqSamples|
            && Decoded(sl, LoadAll(sl, sources, order, frame), slot, t, component)
               == src.iqSamples[2 * (src.iqSampleOffset + t) + component]
  {
    assert Shown(sl, slot) == if slot < sl.active then slot else sl.active - 1;
    hide *;
    SlotsShowSource(sl, sources, order, frame, slot, t, component);
  }

  lemma SlotsShowSource(sl: Slots, sources: seq<Source>, order: seq<nat>, frame: seq<Byte>,
                        slot: nat, t: nat, component: nat)
    requires Ready(sl, sources, order) && |frame| == FRAME_LEN
    requires forall r: nat :: r < sl.active ==> r in order
    requires slot < sl.Total() && t < NSAMPS_PACKET[sl.Total() - 1] && component < 2
    ensures var src := sources[Shown(sl, slot)];
            && 2 * (src.iqSampleOffset + t) + component < |src.iqSamples|
            && Decoded(sl, LoadAll(sl, sources, order, frame), slot, t, component)
               == src.iqSamples[2 * (src.iqSampleOffset + t) + component]
  {
    hide PlaceOf, Address, LoadAll, LoadedByte;
    var pl := SamplePlace(sl, slot, t, component);
    var pl' := pl.(byte := pl.byte + 1);
    AddressPlace(sl, pl);
    AddressPlace(sl, pl');
    LoadAllByte(sl, sources, order, frame, pl);
    LoadAllByte(sl, sources, order, frame, pl');
    NextAddress(sl, pl);
    var src := sources[Shown(sl, slot)];
    TablesAgree(sl);
    var x := SampleFor(sl, src, pl.bank, pl.group, component);
    HighLow(x);
  }

  lemma NextAddress(sl: Slots, pl: Place)
    ensures Address(sl, pl.(byte := pl.byte + 1)) == Address(sl, pl) + 1
  {
  }
}
