/**
 The configuration EEPROM of src/rtl_eeprom.c: `gen_eeprom_from_conf` prints a configuration
 as a header and three USB string descriptors (section 9.6.7 of the USB 2.0 specification),
 `parse_eeprom_to_conf` reads it back. Strings are the characters before the NUL.
 */
module Eeprom {

  type Byte = b: int | 0 <= b < 256
  type Data = d: seq<Byte> | |d| == 256 witness seq(256, _ => 0)

  const STR_OFFSET := 9
  const IR_CONFIG := 78

  datatype Config = Config(
    vendorId: nat, productId: nat, manufacturer: seq<Byte>, product: seq<Byte>, serial: seq<Byte>,
    haveSerial: int, enableBt: int, remoteWakeup: int)

  /** 16-bit ids, strings free of NUL. */
  predicate IsConfig(c: Config) {
    && c.vendorId < 0x1_0000 && c.productId < 0x1_0000
    && 0 !in c.manufacturer && 0 !in c.product && 0 !in c.serial
  }

  // ---- printing

  /** How many of n characters fit a descriptor at pos: each must start below byte 78. */
  function Fitting(pos: nat, n: nat): (k: nat)
    ensures k <= n && (k > 0 ==> pos + 2 * k < IR_CONFIG)
    ensures forall i :: 0 <= i < k ==> pos + 2 + 2 * i < IR_CONFIG
    ensures k < n ==> pos + 2 + 2 * k >= IR_CONFIG
  {
    if n == 0 then 0
    else
      var k := Fitting(pos, n - 1);
      if k == n - 1 && pos + 2 + 2 * k < IR_CONFIG then n else k
  }

  /** The descriptor type and the first i characters of str. */
  function PutChars(data: Data, pos: nat, str: seq<Byte>, i: nat): Data
    requires pos < 100 && i <= |str| && (i > 0 ==> pos + 2 * i < IR_CONFIG)
  {
    if i == 0 then data[pos + 1 := 3]
    else PutChars(data, pos, str, i - 1)[pos + 2 * i := str[i - 1]][pos + 2 * i + 1 := 0]
  }

  /** set_string_descriptor: the new data, and the next position or -1. */
  function SetDescriptor(data: Data, pos: int, str: seq<Byte>): (r: (Data, int))
    requires pos < 100
    ensures r.1 == -1 || pos + 2 <= r.1
  {
    if pos < 0 then (data, -1)
    else
      var n := Fitting(pos, |str|);
      if n < |str| then (PutChars(data, pos, str, n), -1)
      else (PutChars(data, pos, str, n)[pos := 2 + 2 * n], pos + 2 + 2 * n)
  }

  lemma {:induction false} PutCharsFrame(data: Data, pos: nat, str: seq<Byte>, i: nat, q: nat)
    requires pos < 100 && i <= |str| && (i > 0 ==> pos + 2 * i < IR_CONFIG) && q < 256
    ensures var r := PutChars(data, pos, str, i);
            && (q <= pos || q >= pos + 2 + 2 * i ==> r[q] == data[q])
            && r[pos + 1] == 3
            && forall k :: 0 <= k < i ==> r[pos + 2 + 2 * k] == str[k] && r[pos + 3 + 2 * k] == 0
  {
    if i > 0 { PutCharsFrame(data, pos, str, i - 1, q); }
  }

  function Header(c: Config, data: Data): Data
    requires IsConfig(c)
  {
    data[0 := 0x28][1 := 0x32][2 := c.vendorId % 256][3 := c.vendorId / 256]
        [4 := c.productId % 256][5 := c.productId / 256]
        [6 := if c.haveSerial != 0 then 0xa5 else 0x00]
        [7 := 0x14 + (if c.remoteWakeup != 0 then 1 else 0) + (if c.enableBt != 0 then 2 else 0)]
        [8 := 0x02]
  }

  /** Where the descriptors of strings of these lengths start: -1 once one does not fit. */
  function NextPos(pos: int, n: nat): int {
    if pos < 0 || (n > 0 && pos + 2 * n >= IR_CONFIG) then -1 else pos + 2 + 2 * n
  }

  lemma SetDescriptorPos(data: Data, pos: int, str: seq<Byte>)
    requires pos < 100
    ensures SetDescriptor(data, pos, str).1 == NextPos(pos, |str|)
  {
  }

  /** gen_eeprom_from_conf. */
  function Generate(c: Config, data: Data): (r: (Data, int))
    requires IsConfig(c)
  {
    var d0 := Header(c, data);
    var d1 := SetDescriptor(d0, STR_OFFSET, c.manufacturer);
    SetDescriptorPos(d0, STR_OFFSET, c.manufacturer);
    var d2 := SetDescriptor(d1.0, d1.1, c.product);
    SetDescriptorPos(d1.0, d1.1, c.product);
    var d3 := SetDescriptor(d2.0, d2.1, c.serial);
    (d3.0[IR_CONFIG := 0], d3.1)
  }

  method SetStringDescriptor(pos: int, data: array<Byte>, str: seq<Byte>) returns (r: int)
    requires pos < 100 && data.Length == 256
    modifies data
    ensures (data[..], r) == SetDescriptor(old(data[..]), pos, str)
  {
    if pos < 0 { return -1; }
    ghost var d: Data := data[..];
    var i, j := 0, 2;
    data[pos + 1] := 3;
    while i < |str|
      invariant 0 <= i <= |str| && j == 2 + 2 * i && (i > 0 ==> pos + 2 * i < IR_CONFIG)
      invariant data[..] == PutChars(d, pos, str, i)
      decreases |str| - i
    {
      if pos + j >= IR_CONFIG {
        assert Fitting(pos, |str|) == i;
        return -1;
      }
      ghost var before: Data := data[..];
      data[pos + j] := str[i];
      data[pos + j + 1] := 0;
      assert data[..] == before[pos + j := str[i]][pos + j + 1 := 0];
      i := i + 1;
      j := j + 2;
    }
    assert Fitting(pos, |str|) == |str|;
    data[pos] := j;
    r := pos + j;
  }

  /** The values are stored one by one; every write stays below byte 83. */
  method GenerateInPlace(c: Config, data: array<Byte>) returns (pos: int)
    requires IsConfig(c) && data.Length == 256
    modifies data
    ensures (data[..], pos) == Generate(c, old(data[..]))
  {
    ghost var d: Data := data[..];
    data[0] := 0x28;
    data[1] := 0x32;
    data[2] := c.vendorId % 256;
    data[3] := (c.vendorId / 256) % 256;
    data[4] := c.productId % 256;
    data[5] := (c.productId / 256) % 256;
    data[6] := if c.haveSerial != 0 then 0xa5 else 0x00;
    // the bits 0 and 1 are clear in 0x14, so setting one adds it
    data[7] := 0x14;
    data[7] := data[7] + (if c.remoteWakeup != 0 then 1 else 0);
    data[7] := data[7] + (if c.enableBt != 0 then 2 else 0);
    data[8] := 0x02;
    assert data[..] == Header(c, d);
    SetDescriptorPos(data[..], STR_OFFSET, c.manufacturer);
    pos := SetStringDescriptor(STR_OFFSET, data, c.manufacturer);
    SetDescriptorPos(data[..], pos, c.product);
    pos := SetStringDescriptor(pos, data, c.product);
    pos := SetStringDescriptor(pos, data, c.serial);
    data[IR_CONFIG] := 0;
  }

  // ---- parsing

  /** Characters of the descriptor at pos, by its length byte. */
  function CharCount(data: Data, pos: nat): nat
    requires pos < 256
  {
    if data[pos] <= 2 then 0 else (data[pos] - 1) / 2
  }

  predicate Readable(data: Data, pos: nat) {
    pos < 255 && pos + data[pos] <= 256
  }

  function StringAt(data: Data, pos: nat): seq<Byte>
    requires Readable(data, pos)
  {
    seq(CharCount(data, pos), i requires 0 <= i < CharCount(data, pos) => data[pos + 2 + 2 * i])
  }

  function AfterString(data: Data, pos: nat): nat
    requires pos < 256
  {
    pos + 2 + 2 * CharCount(data, pos)
  }

  /** The characters are the even bytes inside the length; the next descriptor follows, at an even distance. */
  lemma CharactersByLength(data: Data, pos: nat, i: nat)
    requires Readable(data, pos)
    ensures i < |StringAt(data, pos)| <==> 2 + 2 * i < data[pos]
    ensures i < |StringAt(data, pos)| ==> StringAt(data, pos)[i] == data[pos + 2 + 2 * i]
    ensures var len: int := data[pos]; AfterString(data, pos) == pos + if len <= 2 then 2 else len + len % 2
  {
  }

  predicate AllReadable(data: Data) {
    && Readable(data, STR_OFFSET)
    && Readable(data, AfterString(data, STR_OFFSET))
    && Readable(data, AfterString(data, AfterString(data, STR_OFFSET)))
  }

  /** The type byte that makes a descriptor a string descriptor. */
  predicate ValidAt(data: Data, pos: nat)
    requires pos < 255
  {
    data[pos + 1] == 3
  }

  /** The errors that parsing reports, of the header and of each descriptor; it goes on after each. */
  datatype Reports = Reports(header: bool, manufacturer: bool, product: bool, serial: bool)

  function Reported(data: Data): Reports
    requires AllReadable(data)
  {
    var pos1 := AfterString(data, STR_OFFSET);
    Reports(data[0] != 0x28 || data[1] != 0x32,
            !ValidAt(data, STR_OFFSET), !ValidAt(data, pos1), !ValidAt(data, AfterString(data, pos1)))
  }

  function Word(lo: int, hi: int): int { lo + 256 * hi }

  /** parse_eeprom_to_conf. */
  function Parse(data: Data): Config
    requires AllReadable(data)
  {
    var pos1 := AfterString(data, STR_OFFSET);
    var pos2 := AfterString(data, pos1);
    Config(Word(data[2], data[3]), Word(data[4], data[5]),
           StringAt(data, STR_OFFSET), StringAt(data, pos1), StringAt(data, pos2),
           if data[6] == 0xa5 then 1 else 0, (data[7] / 2) % 2, data[7] % 2)
  }

  method GetStringDescriptor(pos: nat, data: array<Byte>) returns (str: seq<Byte>, next: nat, reported: bool)
    requires data.Length == 256 && Readable(data[..], pos)
    ensures str == StringAt(data[..], pos) && next == AfterString(data[..], pos) && reported == !ValidAt(data[..], pos)
  {
    var len := data[pos];
    reported := data[pos + 1] != 3;
    str := [];
    var i := 2;
    while i < len
      invariant 2 <= i && i % 2 == 0 && i <= 2 + 2 * CharCount(data[..], pos) &&
                (i < len ==> i < 2 + 2 * CharCount(data[..], pos))
      invariant i >= len ==> i == 2 + 2 * CharCount(data[..], pos)
      invariant str == StringAt(data[..], pos)[..(i - 2) / 2]
    {
      str := str + [data[pos + i]];
      i := i + 2;
    }
    next := pos + i;
  }

  method ParseInPlace(data: array<Byte>) returns (c: Config, r: Reports)
    requires data.Length == 256 && AllReadable(data[..])
    ensures c == Parse(data[..]) && r == Reported(data[..])
  {
    var header := data[0] != 0x28 || data[1] != 0x32;
    var manufacturer, pos, bad1 := GetStringDescriptor(STR_OFFSET, data);
    var product, serial, bad2, bad3;
    product, pos, bad2 := GetStringDescriptor(pos, data);
    serial, pos, bad3 := GetStringDescriptor(pos, data);
    c := Config(Word(data[2], data[3]), Word(data[4], data[5]), manufacturer, product, serial,
                if data[6] == 0xa5 then 1 else 0, if (data[7] / 2) % 2 == 1 then 1 else 0,
                if data[7] % 2 == 1 then 1 else 0);
    r := Reports(header, bad1, bad2, bad3);
  }

  // ---- round trip

  /** The descriptor at pos but for its type: the length and, in two bytes each, the characters. */
  predicate Holds(data: Data, pos: nat, str: seq<Byte>) {
    && pos + 2 + 2 * |str| <= 83
    && data[pos] == 2 + 2 * |str|
    && forall k :: 0 <= k < |str| ==> data[pos + 2 + 2 * k] == str[k] && data[pos + 3 + 2 * k] == 0
  }

  lemma SetDescriptorHolds(data: Data, pos: nat, str: seq<Byte>)
    requires pos <= 81 && SetDescriptor(data, pos, str).1 >= 0
    ensures var r := SetDescriptor(data, pos, str);
            && Holds(r.0, pos, str) && r.1 == pos + 2 + 2 * |str|
            && r.1 <= (if str == [] then pos + 2 else 79)
            && forall q :: 0 <= q < 256 && (q < pos || q >= r.1) ==> r.0[q] == data[q]
  {
    var r := SetDescriptor(data, pos, str);
    PutCharsFrame(data, pos, str, |str|, 0);
    forall q | 0 <= q < 256 && (q < pos || q >= r.1)
      ensures r.0[q] == data[q]
    {
      PutCharsFrame(data, pos, str, |str|, q);
    }
  }

  /** Byte 78 is the only one that printing later descriptors and clearing it can take from an earlier type. */
  lemma SetDescriptorType(data: Data, pos: nat, str: seq<Byte>)
    requires pos <= 81
    ensures SetDescriptor(data, pos, str).0[pos + 1] == 3
  {
    PutCharsType(data, pos, str, Fitting(pos, |str|));
  }

  lemma {:induction false} PutCharsType(data: Data, pos: nat, str: seq<Byte>, i: nat)
    requires pos < 100 && i <= |str| && (i > 0 ==> pos + 2 * i < IR_CONFIG)
    ensures PutChars(data, pos, str, i)[pos + 1] == 3
  {
    if i > 0 { PutCharsType(data, pos, str, i - 1); }
  }

  lemma HeldIsRead(data: Data, pos: nat, str: seq<Byte>)
    requires Holds(data, pos, str)
    ensures Readable(data, pos) && StringAt(data, pos) == str && AfterString(data, pos) == pos + 2 + 2 * |str|
  {
    assert CharCount(data, pos) == |str|;
  }

  /** What a flag is read back as. */
  function Flag(x: int): int { if x != 0 then 1 else 0 }

  /** The data and positions after each of the three strings, and the data with byte 78 cleared. */
  predicate Steps(d0: Data, d1: (Data, int), d2: (Data, int), d3: (Data, int), r: Data,
                  m: seq<Byte>, p: seq<Byte>, t: seq<Byte>)
  {
    && d1 == SetDescriptor(d0, STR_OFFSET, m) && 0 <= d1.1 <= 79
    && d2 == SetDescriptor(d1.0, d1.1, p) && 0 <= d2.1 <= 81
    && d3 == SetDescriptor(d2.0, d2.1, t) && d3.1 >= 0
    && r == d3.0[IR_CONFIG := 0]
  }

  /** Each string is held by the bytes of its descriptor. */
  lemma StringsAreHeld(d0: Data, d1: (Data, int), d2: (Data, int), d3: (Data, int), r: Data,
                       m: seq<Byte>, p: seq<Byte>, t: seq<Byte>)
    requires Steps(d0, d1, d2, d3, r, m, p, t)
    ensures forall q :: 0 <= q < STR_OFFSET ==> r[q] == d0[q]
    ensures d1.1 == STR_OFFSET + 2 + 2 * |m| && d2.1 == d1.1 + 2 + 2 * |p| && r[IR_CONFIG] == 0
    ensures Holds(r, STR_OFFSET, m) && Holds(r, d1.1, p) && Holds(r, d2.1, t)
  {
    hide SetDescriptor, Holds;
    SetDescriptorHolds(d0, STR_OFFSET, m);
    SetDescriptorHolds(d1.0, d1.1, p);
    SetDescriptorHolds(d2.0, d2.1, t);
    HoldsStill(d1.0, r, STR_OFFSET, m);
    HoldsStill(d2.0, r, d1.1, p);
    HoldsStill(d3.0, r, d2.1, t);
  }

  /** So is its type, unless byte 78 is where it lies. */
  lemma TypesAreHeld(d0: Data, d1: (Data, int), d2: (Data, int), d3: (Data, int), r: Data,
                     m: seq<Byte>, p: seq<Byte>, t: seq<Byte>)
    requires Steps(d0, d1, d2, d3, r, m, p, t)
    ensures ValidAt(r, STR_OFFSET) && (ValidAt(r, d1.1) <==> d1.1 != 77) && (ValidAt(r, d2.1) <==> d2.1 != 77)
  {
    hide SetDescriptor, Holds;
    SetDescriptorHolds(d0, STR_OFFSET, m);
    SetDescriptorHolds(d1.0, d1.1, p);
    SetDescriptorHolds(d2.0, d2.1, t);
    SetDescriptorType(d0, STR_OFFSET, m);
    SetDescriptorType(d1.0, d1.1, p);
    SetDescriptorType(d2.0, d2.1, t);
  }

  lemma StringsAreRead(d0: Data, d1: (Data, int), d2: (Data, int), d3: (Data, int), r: Data,
                       m: seq<Byte>, p: seq<Byte>, t: seq<Byte>)
    requires Steps(d0, d1, d2, d3, r, m, p, t)
    ensures AllReadable(r)
    ensures StringAt(r, STR_OFFSET) == m && StringAt(r, d1.1) == p && StringAt(r, d2.1) == t
    ensures AfterString(r, STR_OFFSET) == d1.1 && AfterString(r, d1.1) == d2.1
  {
    hide SetDescriptor, Holds, Readable, StringAt, AfterString, ValidAt;
    StringsAreHeld(d0, d1, d2, d3, r, m, p, t);
    HeldIsRead(r, STR_OFFSET, m);
    HeldIsRead(r, d1.1, p);
    HeldIsRead(r, d2.1, t);
  }

  /** Descriptors start at odd addresses, so of length and characters only a high byte, 0 as well, lies on byte 78. */
  lemma HoldsStill(data: Data, r: Data, pos: nat, str: seq<Byte>)
    requires Holds(data, pos, str) && pos % 2 == 1
    requires r[IR_CONFIG] == 0 && forall q :: pos <= q < pos + 2 + 2 * |str| && q != IR_CONFIG ==> r[q] == data[q]
    ensures Holds(r, pos, str)
  {
    forall k | 0 <= k < |str|
      ensures r[pos + 2 + 2 * k] == str[k] && r[pos + 3 + 2 * k] == 0
    {
      assert (pos + 2 + 2 * k) % 2 == 1;
    }
  }

  /** An instance: after a manufacturer of 33 characters the product descriptor starts at byte 77. */
  lemma LongManufacturer(data: Data)
    ensures var m: seq<Byte> := seq(33, _ => 65);
            var r := Generate(Config(0x0bda, 0x2838, m, [], [], 0, 0, 0), data);
            && r.1 == 81 && AllReadable(r.0)
            && Parse(r.0) == Config(0x0bda, 0x2838, m, [], [], 0, 0, 0)
            && Reported(r.0) == Reports(false, false, true, false)
  {
    var c := Config(0x0bda, 0x2838, seq(33, _ => 65), [], [], 0, 0, 0);
    hide Generate, Parse, Reported, AllReadable;
    GenerateFails(c, data);
    RoundTrip(c, data);
  }

  lemma HeaderIsRead(c: Config, data: Data, r: Data)
    requires IsConfig(c) && forall q :: 0 <= q < STR_OFFSET ==> r[q] == Header(c, data)[q]
    ensures Word(r[2], r[3]) == c.vendorId && Word(r[4], r[5]) == c.productId
    ensures (if r[6] == 0xa5 then 1 else 0) == Flag(c.haveSerial)
    ensures r[0] == 0x28 && r[1] == 0x32
    ensures (r[7] / 2) % 2 == Flag(c.enableBt) && r[7] % 2 == Flag(c.remoteWakeup)
  {
    hide Header, Word;
    HeaderBytes(c, data, r);
    FlagBits(r[7], c.remoteWakeup != 0, c.enableBt != 0);
  }

  lemma FlagBits(x: int, low: bool, high: bool)
    requires x == 20 + (if low then 1 else 0) + (if high then 2 else 0)
    ensures x % 2 == (if low then 1 else 0) && (x / 2) % 2 == (if high then 1 else 0)
  {
  }

  /**
   A configuration that is generated without error is parsed back, its flags as 0 or 1, even
   when a descriptor starts at byte 77, so that clearing byte 78 erases its type. Exactly then
   that descriptor is reported as invalid.
   */
  lemma RoundTrip(c: Config, data: Data)
    requires IsConfig(c) && Generate(c, data).1 >= 0
    ensures AllReadable(Generate(c, data).0)
    ensures Reported(Generate(c, data).0)
            == Reports(false, false, 11 + 2 * |c.manufacturer| == 77, 13 + 2 * (|c.manufacturer| + |c.product|) == 77)
    ensures Parse(Generate(c, data).0)
            == c.(haveSerial := Flag(c.haveSerial), enableBt := Flag(c.enableBt), remoteWakeup := Flag(c.remoteWakeup))
  {
    var d1, d2, d3 := ThreeSteps(c, data);
    var d0, r := Header(c, data), Generate(c, data).0;
    hide SetDescriptor, AllReadable, StringAt, AfterString, Header, Generate, Steps;
    StringsAreHeld(d0, d1, d2, d3, r, c.manufacturer, c.product, c.serial);
    TypesAreHeld(d0, d1, d2, d3, r, c.manufacturer, c.product, c.serial);
    StringsAreRead(d0, d1, d2, d3, r, c.manufacturer, c.product, c.serial);
    HeaderIsRead(c, data, r);
  }

  lemma ThreeSteps(c: Config, data: Data) returns (d1: (Data, int), d2: (Data, int), d3: (Data, int))
    requires IsConfig(c) && Generate(c, data).1 >= 0
    ensures Steps(Header(c, data), d1, d2, d3, Generate(c, data).0, c.manufacturer, c.product, c.serial)
  {
    var d0 := Header(c, data);
    d1 := SetDescriptor(d0, STR_OFFSET, c.manufacturer);
    SetDescriptorPos(d0, STR_OFFSET, c.manufacturer);
    d2 := SetDescriptor(d1.0, d1.1, c.product);
    SetDescriptorPos(d1.0, d1.1, c.product);
    d3 := SetDescriptor(d2.0, d2.1, c.serial);
    SetDescriptorPos(d2.0, d2.1, c.serial);
    hide SetDescriptor, Header;
  }

  /**
   The bytes of a configuration: header, the three descriptors with a zero high byte to every
   character, and the type 3 of each unless it lies on byte 78.
   */
  predicate HasBytes(r: Data, c: Config) {
    var pos1, pos2 := 11 + 2 * |c.manufacturer|, 13 + 2 * |c.manufacturer| + 2 * |c.product|;
    && r[0] == 0x28 && r[1] == 0x32 && Word(r[2], r[3]) == c.vendorId && Word(r[4], r[5]) == c.productId
    && r[6] == (if c.haveSerial != 0 then 0xa5 else 0)
    && r[7] == 20 + (if c.remoteWakeup != 0 then 1 else 0) + (if c.enableBt != 0 then 2 else 0)
    && r[8] == 2 && r[78] == 0
    && Holds(r, 9, c.manufacturer) && Holds(r, pos1, c.product) && Holds(r, pos2, c.serial)
    && r[10] == 3 && (pos1 != 77 ==> r[pos1 + 1] == 3) && (pos2 != 77 ==> r[pos2 + 1] == 3)
  }

  lemma GeneratedBytes(c: Config, data: Data)
    requires IsConfig(c) && Generate(c, data).1 >= 0
    ensures HasBytes(Generate(c, data).0, c)
  {
    var d1, d2, d3 := ThreeSteps(c, data);
    var r := Generate(c, data).0;
    hide Generate, Steps, Holds, Header;
    StringsAreHeld(Header(c, data), d1, d2, d3, r, c.manufacturer, c.product, c.serial);
    TypesAreHeld(Header(c, data), d1, d2, d3, r, c.manufacturer, c.product, c.serial);
    HeaderBytes(c, data, r);
  }

  lemma HeaderBytes(c: Config, data: Data, r: Data)
    requires IsConfig(c) && forall q :: 0 <= q < STR_OFFSET ==> r[q] == Header(c, data)[q]
    ensures r[0] == 0x28 && r[1] == 0x32 && Word(r[2], r[3]) == c.vendorId && Word(r[4], r[5]) == c.productId
    ensures r[6] == (if c.haveSerial != 0 then 0xa5 else 0) && r[8] == 2
    ensures r[7] == 20 + (if c.remoteWakeup != 0 then 1 else 0) + (if c.enableBt != 0 then 2 else 0)
  {
    assert r[2] == c.vendorId % 256 && r[3] == c.vendorId / 256;
    assert r[4] == c.productId % 256 && r[5] == c.productId / 256;
  }

  /** Generation fails exactly when a string runs into byte 78, and the error of one string sticks. */
  lemma GenerateFails(c: Config, data: Data)
    requires IsConfig(c)
    ensures Generate(c, data).1 == NextPos(NextPos(NextPos(STR_OFFSET, |c.manufacturer|), |c.product|), |c.serial|)
    ensures Generate(c, data).1 == -1 ||
            Generate(c, data).1 == STR_OFFSET + 6 + 2 * (|c.manufacturer| + |c.product| + |c.serial|)
    ensures Generate(c, data).1 == -1 <==>
            || 2 * |c.manufacturer| > 78 - 10
            || (c.product != [] && 2 * (|c.manufacturer| + |c.product|) > 78 - 12)
            || (c.serial != [] && 2 * (|c.manufacturer| + |c.product| + |c.serial|) > 78 - 14)
  {
    var d0 := Header(c, data);
    var d1 := SetDescriptor(d0, STR_OFFSET, c.manufacturer);
    SetDescriptorPos(d0, STR_OFFSET, c.manufacturer);
    var d2 := SetDescriptor(d1.0, d1.1, c.product);
    SetDescriptorPos(d1.0, d1.1, c.product);
    SetDescriptorPos(d2.0, d2.1, c.serial);
  }

  lemma DescriptorWritesBelow(data: Data, pos: int, str: seq<Byte>, q: nat)
    requires -1 <= pos <= 81 && 83 <= q < 256
    ensures SetDescriptor(data, pos, str).0[q] == data[q]
    ensures SetDescriptor(data, pos, str).1 <= (if str == [] then pos + 2 else 79)
  {
    if pos >= 0 {
      PutCharsFrame(data, pos, str, Fitting(pos, |str|), q);
    }
  }

  /** Whether it fails or not, no byte from 83 on is written; 128 bytes are sent to the device. */
  lemma WritesBelow(c: Config, data: Data, q: nat)
    requires IsConfig(c) && 83 <= q < 256
    ensures Generate(c, data).0[q] == data[q]
  {
    var d0 := Header(c, data);
    var d1 := SetDescriptor(d0, STR_OFFSET, c.manufacturer);
    SetDescriptorPos(d0, STR_OFFSET, c.manufacturer);
    var d2 := SetDescriptor(d1.0, d1.1, c.product);
    SetDescriptorPos(d1.0, d1.1, c.product);
    hide SetDescriptor;
    DescriptorWritesBelow(d0, STR_OFFSET, c.manufacturer, q);
    DescriptorWritesBelow(d1.0, d1.1, c.product, q);
    DescriptorWritesBelow(d2.0, d2.1, c.serial, q);
  }
}
