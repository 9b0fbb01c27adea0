/** The registry of DNS servers under test (main.py:15-20, 103, 253-261):
    an insertion-ordered mapping from display name to address, modelled as a
    sequence of entries whose names are pairwise distinct. */
module Servers {

  import opened Wrappers
  import opened Text

  datatype Entry = Entry(name: string, address: string)

  /** Entries in iteration order, as Python's dict keeps them. */
  type Registry = seq<Entry>

  function Names(reg: Registry): (ns: seq<string>)
    ensures |ns| == |reg|
    ensures forall i :: 0 <= i < |reg| ==> ns[i] == reg[i].name
  {
    if reg == [] then [] else Names(reg[..|reg| - 1]) + [reg[|reg| - 1].name]
  }

  /** A dict holds each key once. */
  predicate UniqueNames(reg: Registry) {
    forall i, j :: 0 <= i < j < |reg| ==> reg[i].name != reg[j].name
  }

  /** What every registry the program builds satisfies: one entry per name,
      and no entry with an empty address. */
  predicate Valid(reg: Registry) {
    && UniqueNames(reg)
    && (forall i :: 0 <= i < |reg| ==> reg[i].address != [])
  }

  /** The built-in servers, in their declared order. */
  function Defaults(): (reg: Registry)
    ensures Valid(reg)
    ensures |reg| == 4
  {
    [ Entry("Google", "8.8.8.8"),
      Entry("Cloudflare", "1.1.1.1"),
      Entry("OpenDNS", "208.67.222.222"),
      Entry("Quad9", "9.9.9.9") ]
  }

  /** The registry read as a plain name-to-address map. */
  function AsMap(reg: Registry): (m: map<string, string>)
    requires UniqueNames(reg)
    ensures forall key :: key in m <==> key in Names(reg)
    ensures forall i :: 0 <= i < |reg| ==> m[reg[i].name] == reg[i].address
  {
    map i | 0 <= i < |reg| :: reg[i].name := reg[i].address
  }

  /** Position of the entry called `name`. */
  function IndexOf(reg: Registry, name: string): (r: Option<nat>)
    ensures r.Some? ==> r.value < |reg| && reg[r.value].name == name
    ensures r.None? <==> name !in Names(reg)
  {
    if reg == [] then None
    else if reg[0].name == name then Some(0)
    else match IndexOf(reg[1..], name)
      case None =>
        assert Names(reg) == [reg[0].name] + Names(reg[1..]);
        None
      case Some(k) => Some(k + 1)
  }

  /** `reg[name] = address` on an insertion-ordered dict: an existing entry
      is overwritten where it stands, a new one goes at the end. */
  function Put(reg: Registry, name: string, address: string): (r: Registry)
    requires UniqueNames(reg)
    ensures UniqueNames(r)
    ensures name in Names(reg) ==> Names(r) == Names(reg)
    ensures name !in Names(reg) ==> Names(r) == Names(reg) + [name]
    ensures forall i :: 0 <= i < |r| && r[i].name == name ==> r[i].address == address
    ensures forall i :: 0 <= i < |r| && r[i].name != name ==> i < |reg| && r[i] == reg[i]
    ensures Valid(reg) && address != [] ==> Valid(r)
  {
    match IndexOf(reg, name)
    case Some(k) =>
      var r := reg[k := Entry(name, address)];
      assert Names(r) == Names(reg);
      r
    case None =>
      var r := reg + [Entry(name, address)];
      assert Names(r) == Names(reg) + [name];
      r
  }

  lemma PutKeys(reg: Registry, name: string, address: string)
    requires UniqueNames(reg)
    ensures forall key :: key in AsMap(Put(reg, name, address)) <==> key == name || key in AsMap(reg)
  {
    var r := Put(reg, name, address);
    forall key ensures key in Names(r) <==> key == name || key in Names(reg) {
      if name !in Names(reg) {
        assert key in Names(reg) + [name] <==> key in Names(reg) || key == name;
      }
    }
  }

  lemma PutValues(reg: Registry, name: string, address: string)
    requires UniqueNames(reg)
    ensures forall key :: key in AsMap(Put(reg, name, address)) ==>
              AsMap(Put(reg, name, address))[key] == AsMap(reg)[name := address][key]
  {
    var r := Put(reg, name, address);
    var m, m' := AsMap(reg), AsMap(r);
    forall key | key in m' ensures m'[key] == m[name := address][key] {
      assert key in Names(r);
      var i :| 0 <= i < |r| && r[i].name == key;
      assert m'[key] == r[i].address;
      if key != name {
        assert r[i] == reg[i];
      }
    }
  }

  /** Read as maps, `Put` is map update: last write wins. */
  lemma PutIsMapUpdate(reg: Registry, name: string, address: string)
    requires UniqueNames(reg)
    ensures AsMap(Put(reg, name, address)) == AsMap(reg)[name := address]
  {
    PutKeys(reg, name, address);
    PutValues(reg, name, address);
    MapsEqual(AsMap(Put(reg, name, address)), AsMap(reg)[name := address]);
  }

  lemma MapsEqual(a: map<string, string>, b: map<string, string>)
    requires forall key :: key in a <==> key in b
    requires forall key :: key in a ==> a[key] == b[key]
    ensures a == b
  {
  }

  /** The name under which a custom address is registered. */
  function CustomName(address: string): string {
    "Custom-" + address
  }

  datatype AddStatus = Added(entry: Entry) | InvalidInput

  datatype AddResult = AddResult(registry: Registry, status: AddStatus)

  /** The "Add" button (main.py:253-261): strip the typed text; reject it if
      nothing is left, otherwise register it under `Custom-<address>`. */
  function AddCustom(reg: Registry, input: string): (r: AddResult)
    requires UniqueNames(reg)
    ensures r.status.InvalidInput? <==> AllSpace(input)
    ensures r.status.InvalidInput? ==> r.registry == reg
    ensures r.status.Added? ==>
              && r.status.entry.address == Strip(input)
              && r.status.entry.address != []
              && r.status.entry.name == CustomName(r.status.entry.address)
              && r.registry == Put(reg, r.status.entry.name, r.status.entry.address)
    ensures Valid(reg) ==> Valid(r.registry)
  {
    var address := Strip(input);
    if address == [] then AddResult(reg, InvalidInput)
    else AddResult(Put(reg, CustomName(address), address), Added(Entry(CustomName(address), address)))
  }

  /** After a successful add, the map view gains (or overwrites) exactly
      `Custom-<address> -> address`; every other name keeps its address, and
      the iteration order keeps every existing name where it was. */
  lemma AddCustomUpdatesMap(reg: Registry, input: string)
    requires Valid(reg)
    requires !AllSpace(input)
    ensures var r := AddCustom(reg, input);
            var a := Strip(input);
            && r.status == Added(Entry(CustomName(a), a))
            && AsMap(r.registry) == AsMap(reg)[CustomName(a) := a]
            && Names(r.registry)[..|reg|] == Names(reg)
  {
    var a := Strip(input);
    var r := AddCustom(reg, input);
    assert r.registry == Put(reg, CustomName(a), a);
    PutIsMapUpdate(reg, CustomName(a), a);
    PutKeepsOrder(reg, CustomName(a), a);
  }

  /** `Put` never moves an existing name. */
  lemma PutKeepsOrder(reg: Registry, name: string, address: string)
    requires UniqueNames(reg)
    ensures |reg| <= |Put(reg, name, address)|
    ensures Names(Put(reg, name, address))[..|reg|] == Names(reg)
  {
    var ns := Names(Put(reg, name, address));
    if name !in Names(reg) {
      assert ns == Names(reg) + [name];
    }
  }

  /** Adding " 9.9.9.9 " registers `Custom-9.9.9.9 -> 9.9.9.9`. */
  lemma AddStripsExample(reg: Registry)
    requires UniqueNames(reg)
    ensures AddCustom(reg, " 9.9.9.9 ").status == Added(Entry("Custom-9.9.9.9", "9.9.9.9"))
  {
    var s := " " + "9.9.9.9" + " ";
    assert s == " 9.9.9.9 " by {
      assert forall i :: 0 <= i < 9 ==> s[i] == " 9.9.9.9 "[i];
    }
    StripSurrounded(" ", "9.9.9.9", " ");
    assert Strip(" 9.9.9.9 ") == "9.9.9.9";
    assert CustomName("9.9.9.9") == "Custom-9.9.9.9";
  }

  /** An empty or blank input is refused and leaves the registry alone. */
  lemma AddBlankRejected(reg: Registry)
    requires UniqueNames(reg)
    ensures AddCustom(reg, "").registry == reg
    ensures AddCustom(reg, "   ") == AddResult(reg, InvalidInput)
  {
  }
}
