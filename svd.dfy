/**
 * The SVD side of tools/parse_svd.py: the address -> (peripheral, register)
 * table built from a device description, and the rule that picks a packaged
 * or a user-supplied SVD file from the command-line arguments. Reading the SVD
 * itself is done by a library and is not part of this model; a device is given
 * as its already-parsed peripherals.
 */
module Svd {
  import opened Wrappers

  /** PeripheralRegister: the names shown for an SFR address. */
  datatype PeripheralRegister = PeripheralRegister(peripheralName: string, registerName: string)

  /** The parts of an SVD device the table is built from. */
  datatype Register = Register(name: string, addressOffset: int)
  datatype Peripheral = Peripheral(name: string, baseAddress: int, registers: seq<Register>)
  datatype Device = Device(peripherals: seq<Peripheral>)

  type Entry = (int, PeripheralRegister)

  /** The entry the inner loop stores for register j of peripheral p. */
  function RegisterEntry(p: Peripheral, j: nat): (e: Entry)
    requires j < |p.registers|
    ensures e.0 == p.baseAddress + p.registers[j].addressOffset
    ensures e.1.peripheralName == p.name && e.1.registerName == p.registers[j].name
  {
    (p.baseAddress + p.registers[j].addressOffset, PeripheralRegister(p.name, p.registers[j].name))
  }

  /** The entries of one peripheral, in register order. */
  function PeripheralEntries(p: Peripheral): seq<Entry>
  {
    seq(|p.registers|, j requires 0 <= j < |p.registers| => RegisterEntry(p, j))
  }

  /** The entries of all peripherals, in the order the nested loops visit them. */
  function Entries(ps: seq<Peripheral>): seq<Entry>
  {
    if ps == [] then [] else Entries(ps[..|ps| - 1]) + PeripheralEntries(ps[|ps| - 1])
  }

  /** A dictionary filled from `es` in order: a later entry replaces an earlier one
      with the same key. */
  function MapOf(es: seq<Entry>): map<int, PeripheralRegister>
  {
    if es == [] then map[] else MapOf(es[..|es| - 1])[es[|es| - 1].0 := es[|es| - 1].1]
  }

  /** get_mcu_register_set_for_device(device). */
  method RegisterSetForDevice(device: Device) returns (registers: map<int, PeripheralRegister>)
    ensures registers == MapOf(Entries(device.peripherals))
  {
    var ps := device.peripherals;
    registers := map[];
    var i := 0;
    while i < |ps|
      invariant 0 <= i <= |ps|
      invariant registers == MapOf(Entries(ps[..i]))
    {
      var peripheral := ps[i];
      ghost var done := Entries(ps[..i]);
      ghost var pe := PeripheralEntries(peripheral);
      var j := 0;
      assert done + pe[..0] == done;
      while j < |peripheral.registers|
        invariant 0 <= j <= |peripheral.registers|
        invariant registers == MapOf(done + pe[..j])
      {
        var register := peripheral.registers[j];
        var registerAddress := peripheral.baseAddress + register.addressOffset;
        MapOfExtend(done, pe, j);
        registers := registers[registerAddress := PeripheralRegister(peripheral.name, register.name)];
        j := j + 1;
      }
      EntriesExtend(ps, i);
      i := i + 1;
    }
    assert ps[..i] == ps;
  }

  /** One more entry of the peripheral being visited updates the dictionary by it. */
  lemma MapOfExtend(done: seq<Entry>, pe: seq<Entry>, j: nat)
    requires j < |pe|
    ensures MapOf(done + pe[..j + 1]) == MapOf(done + pe[..j])[pe[j].0 := pe[j].1]
  {
    var s := done + pe[..j + 1];
    assert s[..|s| - 1] == done + pe[..j] && s[|s| - 1] == pe[j];
  }

  /** One more peripheral appends its entries, all of them once the inner loop ends. */
  lemma EntriesExtend(ps: seq<Peripheral>, i: nat)
    requires i < |ps|
    ensures Entries(ps[..i + 1]) == Entries(ps[..i]) + PeripheralEntries(ps[i])[..|ps[i].registers|]
  {
    assert ps[..i + 1][..i] == ps[..i];
    assert PeripheralEntries(ps[i])[..|ps[i].registers|] == PeripheralEntries(ps[i]);
  }

  /** A key is in the dictionary exactly when some entry carries it. */
  lemma {:induction false} MapOfKeys(es: seq<Entry>, k: int)
    ensures k in MapOf(es) <==> exists i :: 0 <= i < |es| && es[i].0 == k
  {
    if es != [] {
      var init := es[..|es| - 1];
      MapOfKeys(init, k);
      if k in MapOf(init) {
        var i :| 0 <= i < |init| && init[i].0 == k;
        assert es[i].0 == k;
      }
      if exists i :: 0 <= i < |es| && es[i].0 == k {
        var i :| 0 <= i < |es| && es[i].0 == k;
        if i < |init| {
          assert init[i].0 == k;
        }
      }
    }
  }

  /** The value stored under a key is that of the last entry carrying it. */
  lemma {:induction false} MapOfLastWins(es: seq<Entry>, i: nat)
    requires i < |es|
    requires forall j :: i < j < |es| ==> es[j].0 != es[i].0
    ensures es[i].0 in MapOf(es) && MapOf(es)[es[i].0] == es[i].1
  {
    if i < |es| - 1 {
      var init := es[..|es| - 1];
      assert forall j :: i < j < |init| ==> init[j].0 != init[i].0 by {
        forall j | i < j < |init| ensures init[j].0 != init[i].0 {
          assert init[j] == es[j];
        }
      }
      MapOfLastWins(init, i);
    }
  }

  /** An entry comes from exactly one (peripheral, register) position. */
  lemma {:induction false} EntriesMembership(ps: seq<Peripheral>, e: Entry)
    ensures e in Entries(ps) <==>
      exists a, b :: 0 <= a < |ps| && 0 <= b < |ps[a].registers| && e == RegisterEntry(ps[a], b)
  {
    if ps != [] {
      var init := ps[..|ps| - 1];
      var last := ps[|ps| - 1];
      EntriesMembership(init, e);
      assert Entries(ps) == Entries(init) + PeripheralEntries(last);
      if e in Entries(ps) {
        if e in Entries(init) {
          var a, b :| 0 <= a < |init| && 0 <= b < |init[a].registers| && e == RegisterEntry(init[a], b);
          assert ps[a] == init[a];
        } else {
          var b :| 0 <= b < |PeripheralEntries(last)| && PeripheralEntries(last)[b] == e;
          assert e == RegisterEntry(ps[|ps| - 1], b);
        }
      }
      if exists a, b :: 0 <= a < |ps| && 0 <= b < |ps[a].registers| && e == RegisterEntry(ps[a], b) {
        var a, b :| 0 <= a < |ps| && 0 <= b < |ps[a].registers| && e == RegisterEntry(ps[a], b);
        if a < |init| {
          assert init[a] == ps[a];
          assert e in Entries(init);
        } else {
          assert PeripheralEntries(last)[b] == e;
        }
      }
    }
  }

  /** The table's addresses are exactly base_address + address_offset over all
      registers of all peripherals, and each names a peripheral and one of its
      registers at that address. */
  lemma RegisterSetKeys(d: Device, addr: int)
    ensures addr in MapOf(Entries(d.peripherals)) <==>
      exists a, b :: 0 <= a < |d.peripherals| && 0 <= b < |d.peripherals[a].registers| &&
        addr == RegisterEntry(d.peripherals[a], b).0
    ensures addr in MapOf(Entries(d.peripherals)) ==>
      exists a, b :: 0 <= a < |d.peripherals| && 0 <= b < |d.peripherals[a].registers| &&
        RegisterEntry(d.peripherals[a], b) == (addr, MapOf(Entries(d.peripherals))[addr])
  {
    var ps := d.peripherals;
    var es := Entries(ps);
    MapOfKeys(es, addr);
    if addr in MapOf(es) {
      var i :| 0 <= i < |es| && es[i].0 == addr;
      var last := LastWith(es, addr, i);
      MapOfLastWins(es, last);
      EntriesMembership(ps, es[last]);
      assert es[last] == (addr, MapOf(es)[addr]);
    }
    if exists a, b :: 0 <= a < |ps| && 0 <= b < |ps[a].registers| && addr == RegisterEntry(ps[a], b).0 {
      var a, b :| 0 <= a < |ps| && 0 <= b < |ps[a].registers| && addr == RegisterEntry(ps[a], b).0;
      EntriesMembership(ps, RegisterEntry(ps[a], b));
      var i :| 0 <= i < |es| && es[i] == RegisterEntry(ps[a], b);
    }
  }

  /** The last index at or after `i` whose entry carries `k`. */
  function LastWith(es: seq<Entry>, k: int, i: nat): (r: nat)
    requires i < |es| && es[i].0 == k
    ensures i <= r < |es| && es[r].0 == k
    ensures forall j :: r < j < |es| ==> es[j].0 != k
    decreases |es| - i
  {
    if exists j :: i < j < |es| && es[j].0 == k then
      var j :| i < j < |es| && es[j].0 == k;
      LastWith(es, k, j)
    else i
  }

  /** Python truthiness of an optional string argument: absent and "" are false. */
  predicate Truthy(arg: Option<string>)
  {
    arg.Some? && arg.value != ""
  }

  /** Which SVD source get_mcu_register_set turns to. */
  datatype SvdSource = NoArguments | InvalidCombination | Packaged(make: string, model: string) | XmlFile(path: string)

  /** The argument rule of get_mcu_register_set: no arguments and any invalid
      combination give None; make and model select a packaged file; svd_file alone
      selects an XML file. */
  function SelectSource(svdFile: Option<string>, make: Option<string>, model: Option<string>): (r: SvdSource)
    ensures r == NoArguments <==> !Truthy(svdFile) && !Truthy(make) && !Truthy(model)
    ensures r.Packaged? <==> Truthy(make) && Truthy(model) && !Truthy(svdFile)
    ensures r.XmlFile? <==> Truthy(svdFile) && !Truthy(make) && !Truthy(model)
    ensures r == InvalidCombination <==>
      (Truthy(svdFile) && (Truthy(make) || Truthy(model))) || (Truthy(make) != Truthy(model))
    ensures r.Packaged? ==> r == Packaged(make.value, model.value)
    ensures r.XmlFile? ==> r == XmlFile(svdFile.value)
  {
    if !Truthy(make) && !Truthy(model) && !Truthy(svdFile) then
      NoArguments
    else if (Truthy(svdFile) && (Truthy(make) || Truthy(model))) || (Truthy(make) && !Truthy(model))
      || (Truthy(model) && !Truthy(make)) then
      InvalidCombination
    else if Truthy(make) && Truthy(model) then
      Packaged(make.value, model.value)
    else
      XmlFile(svdFile.value)
  }
}
