/** Name/value tables and their two lookups. */
module Lookup {
  import opened Wrappers

  datatype StrVal<V> = StrVal(str: string, val: V)

  // ----- what the lookups return -----

  /** The value of the first entry with this name, or the default. */
  function ValueOf<V>(table: seq<StrVal<V>>, str: string, default_: V): (val: V) {
    if table == [] then default_
    else if table[0].str == str then table[0].val
    else ValueOf(table[1..], str, default_)
  }

  /** The name of the first entry with this value. */
  function NameOf<V(==)>(table: seq<StrVal<V>>, val: V): (str: Option<string>) {
    if table == [] then None
    else if table[0].val == val then Some(table[0].str)
    else NameOf(table[1..], val)
  }

  method GetValue<V>(table: seq<StrVal<V>>, str: string, default_: V) returns (result: V)
    ensures result == ValueOf(table, str, default_)
    ensures (forall i :: 0 <= i < |table| ==> table[i].str != str) ==> result == default_
    ensures forall i :: 0 <= i < |table| && table[i].str == str && (forall j :: 0 <= j < i ==> table[j].str != str)
              ==> result == table[i].val
  {
    result := default_;
    for i := 0 to |table|
      invariant result == default_
      invariant ValueOf(table, str, default_) == ValueOf(table[i..], str, default_)
      invariant forall j :: 0 <= j < i ==> table[j].str != str
    {
      if str == table[i].str {
        result := table[i].val;
        break;
      }
    }
  }

  method GetString<V(==)>(table: seq<StrVal<V>>, val: V) returns (result: Option<string>)
    ensures result == NameOf(table, val)
    ensures result.None? <==> forall i :: 0 <= i < |table| ==> table[i].val != val
    ensures forall i :: 0 <= i < |table| && table[i].val == val && (forall j :: 0 <= j < i ==> table[j].val != val)
              ==> result == Some(table[i].str)
  {
    result := None;
    for i := 0 to |table|
      invariant result == None
      invariant NameOf(table, val) == NameOf(table[i..], val)
      invariant forall j :: 0 <= j < i ==> table[j].val != val
    {
      if val == table[i].val {
        result := Some(table[i].str);
        break;
      }
    }
  }

  // ----- how they undo each other -----

  ghost predicate DistinctNames<V>(table: seq<StrVal<V>>) {
    forall i, j :: 0 <= i < j < |table| ==> table[i].str != table[j].str
  }

  ghost predicate FirstWithValue<V>(table: seq<StrVal<V>>, i: nat)
    requires i < |table|
  {
    forall j :: 0 <= j < i ==> table[j].val != table[i].val
  }

  ghost predicate FirstWithName<V>(table: seq<StrVal<V>>, i: nat)
    requires i < |table|
  {
    forall j :: 0 <= j < i ==> table[j].str != table[i].str
  }

  lemma {:induction false} ValueOfEntry<V>(table: seq<StrVal<V>>, i: nat, default_: V)
    requires i < |table| && FirstWithName(table, i)
    ensures ValueOf(table, table[i].str, default_) == table[i].val
  {
    if i > 0 {
      assert forall j :: 0 <= j < i - 1 ==> table[1..][j].str == table[j + 1].str;
      ValueOfEntry(table[1..], i - 1, default_);
    }
  }

  /** A lookup returns the default or a value of the table. */
  lemma {:induction false} ValueIsListed<V>(table: seq<StrVal<V>>, str: string, default_: V)
    ensures ValueOf(table, str, default_) == default_ || exists i :: 0 <= i < |table| && table[i].val == ValueOf(table, str, default_)
  {
    if table != [] && table[0].str != str {
      ValueIsListed(table[1..], str, default_);
      var rest := table[1..];
      if ValueOf(rest, str, default_) != default_ {
        var i :| 0 <= i < |rest| && rest[i].val == ValueOf(rest, str, default_);
        assert table[i + 1].val == ValueOf(table, str, default_);
      }
    }
  }

  /** The name found for a value is the name of the first entry that has it. */
  lemma {:induction false} NameOfEntry<V>(table: seq<StrVal<V>>, val: V) returns (i: nat)
    requires NameOf(table, val).Some?
    ensures i < |table| && table[i].val == val && FirstWithValue(table, i)
    ensures NameOf(table, val) == Some(table[i].str)
  {
    if table[0].val == val {
      i := 0;
    } else {
      var k := NameOfEntry(table[1..], val);
      i := k + 1;
    }
  }

  lemma {:induction false} PresentValueHasName<V>(table: seq<StrVal<V>>, i: nat)
    requires i < |table|
    ensures NameOf(table, table[i].val).Some?
  {
    if i > 0 && table[0].val != table[i].val {
      PresentValueHasName(table[1..], i - 1);
    }
  }

  /** With distinct names, every value present comes back from the name found for it. */
  lemma NameThenValue<V>(table: seq<StrVal<V>>, i: nat, default_: V)
    requires DistinctNames(table) && i < |table|
    ensures NameOf(table, table[i].val).Some?
    ensures ValueOf(table, NameOf(table, table[i].val).value, default_) == table[i].val
  {
    PresentValueHasName(table, i);
    var k := NameOfEntry(table, table[i].val);
    ValueOfEntry(table, k, default_);
  }

  /** A name comes back from its value exactly for the first entry with that value. */
  lemma ValueThenName<V>(table: seq<StrVal<V>>, i: nat, default_: V)
    requires DistinctNames(table) && i < |table|
    ensures NameOf(table, ValueOf(table, table[i].str, default_)) == Some(table[i].str)
       <==> FirstWithValue(table, i)
  {
    ValueOfEntry(table, i, default_);
    PresentValueHasName(table, i);
    var k := NameOfEntry(table, table[i].val);
    if table[k].str == table[i].str {
      assert k == i;
    }
    if FirstWithValue(table, i) {
      assert k == i;
    }
  }

  // ----- the opcode table -----

  const OPCODE_UNKNOWN := -1

  type Opcode = x: int | OPCODE_UNKNOWN <= x < 0x100

  /** The table, in parts of eleven entries. */
  const OPCODES_1: seq<StrVal<Opcode>> := [
    StrVal("FeatureAbort", 0x00),
    StrVal("ImageViewOn", 0x04),
    StrVal("TunerStepIncrement", 0x05),
    StrVal("TunerStepDecrement", 0x06),
    StrVal("TunerDeviceStatus", 0x07),
    StrVal("GiveTunerDeviceStatus", 0x08),
    StrVal("RecordOn", 0x09),
    StrVal("RecordStatus", 0x0A),
    StrVal("RecordOff", 0x0B),
    StrVal("TextViewOn", 0x0D),
    StrVal("RecordTvScreen", 0x0F)
  ]

  const OPCODES_2: seq<StrVal<Opcode>> := [
    StrVal("GiveDeckStatus", 0x1A),
    StrVal("DeckStatus", 0x1B),
    StrVal("DeckControl", 0x42),
    StrVal("Play", 0x41),
    StrVal("TuneDigitalService", 0x43),
    StrVal("TuneAnalogService", 0x44),
    StrVal("TuneSource", 0x45),
    StrVal("TuneChannel", 0x46),
    StrVal("GivePhysicalAddress", 0x83),
    StrVal("ReportPhysicalAddress", 0x84),
    StrVal("GiveOsdName", 0x46)
  ]

  const OPCODES_3: seq<StrVal<Opcode>> := [
    StrVal("SetOsdName", 0x47),
    StrVal("GiveAudioStatus", 0x71),
    StrVal("SystemAudioModeRequest", 0x70),
    StrVal("SetSystemAudioMode", 0x72),
    StrVal("SystemAudioModeStatus", 0x7E),
    StrVal("UserControlPressed", 0x44),
    StrVal("UserControlReleased", 0x45),
    StrVal("SetStreamPath", 0x86),
    StrVal("Standby", 0x36),
    StrVal("GiveDeviceVendorId", 0x8C),
    StrVal("DeviceVendorId", 0x87)
  ]

  const OPCODES_4: seq<StrVal<Opcode>> := [
    StrVal("GiveCecVersion", 0x9F),
    StrVal("CecVersion", 0x9E),
    StrVal("GiveDevicePowerStatus", 0x8F),
    StrVal("ReportPowerStatus", 0x90),
    StrVal("SetMenuLanguage", 0x32),
    StrVal("GiveDeviceFeature", 0xAA),
    StrVal("ReportDeviceFeature", 0xAB),
    StrVal("GiveAudioModeStatus", 0x71),
    StrVal("SetOsdString", 0x64),
    StrVal("RequestActiveSource", 0x85),
    StrVal("ActiveSource", 0x82)
  ]

  const OPCODES_5: seq<StrVal<Opcode>> := [
    StrVal("InactiveSource", 0x9D),
    StrVal("GiveSystemAudioModeStatus", 0x7D),
    StrVal("RoutingChange", 0x80),
    StrVal("RoutingInformation", 0x81),
    StrVal("SetAudioRate", 0x9A),
    StrVal("InitiateArc", 0xC0),
    StrVal("ReportArcInitiated", 0xC1),
    StrVal("ReportArcTerminated", 0xC2),
    StrVal("RequestArcInitiation", 0xC3),
    StrVal("RequestArcTermination", 0xC4),
    StrVal("TerminateArc", 0xC5)
  ]

  const OPCODES: seq<StrVal<Opcode>> := OPCODES_1 + OPCODES_2 + OPCODES_3 + OPCODES_4 + OPCODES_5

  /** The opcode a command name stands for. */
  function OpcodeOf(name: string): (opcode: Opcode) {
    ValueOf(OPCODES, name, OPCODE_UNKNOWN)
  }

  // No two entries have the same name; compared in parts.

  lemma NamesBelow20()
    ensures forall i, j :: 0 <= i < 20 && 0 <= j < i ==> OPCODES[i].str != OPCODES[j].str
  {
  }

  lemma NamesBelow28()
    ensures forall i, j :: 20 <= i < 28 && 0 <= j < i ==> OPCODES[i].str != OPCODES[j].str
  {
  }

  lemma NamesBelow34()
    ensures forall i, j :: 28 <= i < 34 && 0 <= j < i ==> OPCODES[i].str != OPCODES[j].str
  {
  }

  lemma NamesBelow39()
    ensures forall i, j :: 34 <= i < 39 && 0 <= j < i ==> OPCODES[i].str != OPCODES[j].str
  {
  }

  lemma NamesBelow44()
    ensures forall i, j :: 39 <= i < 44 && 0 <= j < i ==> OPCODES[i].str != OPCODES[j].str
  {
  }

  lemma NamesBelow48()
    ensures forall i, j :: 44 <= i < 48 && 0 <= j < i ==> OPCODES[i].str != OPCODES[j].str
  {
  }

  lemma NamesBelow52()
    ensures forall i, j :: 48 <= i < 52 && 0 <= j < i ==> OPCODES[i].str != OPCODES[j].str
  {
  }

  lemma NamesBelow55()
    ensures forall i, j :: 52 <= i < 55 && 0 <= j < i ==> OPCODES[i].str != OPCODES[j].str
  {
  }

  lemma OpcodeNamesDistinct()
    ensures DistinctNames(OPCODES)
  {
    NamesBelow20();
    NamesBelow28();
    NamesBelow34();
    NamesBelow39();
    NamesBelow44();
    NamesBelow48();
    NamesBelow52();
    NamesBelow55();
  }

  // An entry has the value of an earlier one only if it is one of four; compared in parts.

  lemma ValuesBelow23()
    ensures forall i, j :: 0 <= i < 23 && 0 <= j < i ==> OPCODES[i].val != OPCODES[j].val || i in {21, 27, 28, 40}
  {
  }

  lemma ValuesBelow32()
    ensures forall i, j :: 23 <= i < 32 && 0 <= j < i ==> OPCODES[i].val != OPCODES[j].val || i in {21, 27, 28, 40}
  {
  }

  lemma ValuesBelow39()
    ensures forall i, j :: 32 <= i < 39 && 0 <= j < i ==> OPCODES[i].val != OPCODES[j].val || i in {21, 27, 28, 40}
  {
  }

  lemma ValuesBelow43()
    ensures forall i, j :: 39 <= i < 43 && 0 <= j < i ==> OPCODES[i].val != OPCODES[j].val || i in {21, 27, 28, 40}
  {
  }

  lemma ValuesBelow46()
    ensures forall i, j :: 43 <= i < 46 && 0 <= j < i ==> OPCODES[i].val != OPCODES[j].val || i in {21, 27, 28, 40}
  {
  }

  lemma ValuesBelow49()
    ensures forall i, j :: 46 <= i < 49 && 0 <= j < i ==> OPCODES[i].val != OPCODES[j].val || i in {21, 27, 28, 40}
  {
  }

  lemma ValuesBelow52()
    ensures forall i, j :: 49 <= i < 52 && 0 <= j < i ==> OPCODES[i].val != OPCODES[j].val || i in {21, 27, 28, 40}
  {
  }

  lemma ValuesBelow55()
    ensures forall i, j :: 52 <= i < 55 && 0 <= j < i ==> OPCODES[i].val != OPCODES[j].val || i in {21, 27, 28, 40}
  {
  }

  lemma FirstOpcodes(i: nat)
    requires i < |OPCODES|
    ensures FirstWithValue(OPCODES, i) <==> i !in {21, 27, 28, 40}
  {
    ValuesBelow23();
    ValuesBelow32();
    ValuesBelow39();
    ValuesBelow43();
    ValuesBelow46();
    ValuesBelow49();
    ValuesBelow52();
    ValuesBelow55();
    assert OPCODES[21].val == OPCODES[18].val && OPCODES[27].val == OPCODES[16].val;
    assert OPCODES[28].val == OPCODES[17].val && OPCODES[40].val == OPCODES[23].val;
  }

  /**
    Every command name comes back from the opcode it stands for, except GiveOsdName,
    UserControlPressed, UserControlReleased and GiveAudioModeStatus (entries 21, 27, 28 and
    40), whose opcodes are listed before under other names.
  */
  lemma OpcodeComesBackIff(i: nat)
    requires i < |OPCODES|
    ensures OpcodeOf(OPCODES[i].str) == OPCODES[i].val
    ensures NameOf(OPCODES, OpcodeOf(OPCODES[i].str)) == Some(OPCODES[i].str) <==> i !in {21, 27, 28, 40}
  {
    OpcodeNamesDistinct();
    FirstOpcodes(i);
    ValueOfEntry(OPCODES, i, OPCODE_UNKNOWN);
    ValueThenName(OPCODES, i, OPCODE_UNKNOWN);
  }

  /** The opcodes of the commands that carry an operand here or are listed in the validation data. */
  lemma UsedOpcodes()
    ensures OpcodeOf("ActiveSource") == 0x82
    ensures OpcodeOf("InactiveSource") == 0x9D
    ensures OpcodeOf("SetOsdName") == 0x47
    ensures OpcodeOf("ImageViewOn") == 0x04
    ensures OpcodeOf("TextViewOn") == 0x0D
  {
    OpcodeComesBackIff(43);
    OpcodeComesBackIff(44);
    OpcodeComesBackIff(22);
    OpcodeComesBackIff(1);
    OpcodeComesBackIff(9);
    assert OPCODES[43].str == "ActiveSource";
    assert OPCODES[44].str == "InactiveSource";
    assert OPCODES[22].str == "SetOsdName";
    assert OPCODES[1].str == "ImageViewOn";
    assert OPCODES[9].str == "TextViewOn";
  }

  method GetOpCode(name: string) returns (opcode: Opcode)
    ensures opcode == OpcodeOf(name)
  {
    opcode := GetValue(OPCODES, name, OPCODE_UNKNOWN);
  }
}
