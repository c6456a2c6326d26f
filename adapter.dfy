/**
 * The logic of the BlueZ `Adapter` proxy: choosing the adapter object out of
 * a `GetManagedObjects` snapshot, and the shape of the D-Bus property
 * requests the proxy sends to that object.
 *
 * The snapshot is a sequence of (object path, interface names) pairs, taken
 * in the iteration order of the `ManagedObjectsProps` map that is built from
 * the broker's reply; only which interfaces an object has matters to the
 * selection, so their property maps are left out.
 */
module BluezAdapter {
  import opened Wrappers

  type Path = string

  /** The interface names an object exposes (the keys of its interface map). */
  type Interfaces = set<string>

  /** A `GetManagedObjects` answer, in iteration order. */
  type Snapshot = seq<(Path, Interfaces)>

  const DBUS_OBJECTMANAGER_IFACE: string := "org.freedesktop.DBus.ObjectManager"
  const DBUS_PROPERTIES_IFACE: string := "org.freedesktop.DBus.Properties"
  const ADAPTER_IFACE: string := "org.bluez.Adapter1"
  const LE_ADVERTISING_MANAGER_IFACE: string := "org.bluez.LEAdvertisingManager1"

  /** The message `find_adapter` panics with when nothing is selected. */
  const NO_INTERFACES_FOUND: string := "No interfaces found"

  /** An error a D-Bus method call reports (`crate::Error`). */
  datatype Error = DBusError(name: string) | TypeMismatch

  /** How an operation ends: a value, a propagated error, or a panic. */
  datatype Outcome<+T> = Done(value: T) | Failed(error: Error) | Panicked(message: string)

  /** The proxy; the shared connection it also holds is opaque and left out. */
  datatype Adapter = Adapter(objectPath: Path)

  // ---------------------------------------------------------------------
  // Substring search (`str::contains`)

  /** `needle` occurs in `hay` at some offset; the empty string occurs everywhere. */
  predicate Contains(hay: string, needle: string)
    ensures needle == [] ==> Contains(hay, needle)
    ensures Contains(hay, needle) ==> |needle| <= |hay|
    decreases |hay|
  {
    needle <= hay || (|hay| > 0 && Contains(hay[1..], needle))
  }

  /** `needle` occurs in `hay` starting at offset `i`. */
  predicate OccursAt(hay: string, needle: string, i: int) {
    0 <= i && i + |needle| <= |hay| && hay[i..i + |needle|] == needle
  }

  /** `Contains` holds exactly when `needle` occurs at some offset of `hay`. */
  lemma {:induction false} ContainsIffOccurs(hay: string, needle: string)
    ensures Contains(hay, needle) <==> exists i :: OccursAt(hay, needle, i)
  {
    if needle <= hay {
      assert OccursAt(hay, needle, 0);
    } else if |hay| > 0 {
      ContainsIffOccurs(hay[1..], needle);
      if Contains(hay[1..], needle) {
        var i :| OccursAt(hay[1..], needle, i);
        assert hay[1..][i..i + |needle|] == hay[i + 1..i + 1 + |needle|];
        assert OccursAt(hay, needle, i + 1);
      }
      assert !OccursAt(hay, needle, 0);
      forall i | OccursAt(hay, needle, i) ensures OccursAt(hay[1..], needle, i - 1) {
        assert hay[1..][i - 1..i - 1 + |needle|] == hay[i..i + |needle|];
      }
    } else {
      assert needle != [];
      assert forall i :: !OccursAt(hay, needle, i);
    }
  }

  /** A needle with a character the haystack lacks does not occur in it. */
  lemma NotContainsMissingChar(hay: string, needle: string, c: char)
    requires c in needle && c !in hay
    ensures !Contains(hay, needle)
  {
    ContainsIffOccurs(hay, needle);
    var k :| 0 <= k < |needle| && needle[k] == c;
    forall i | 0 <= i && i + |needle| <= |hay| ensures !OccursAt(hay, needle, i) {
      assert hay[i..i + |needle|][k] == hay[i + k];
      assert hay[i + k] in hay;
    }
  }

  // ---------------------------------------------------------------------
  // Adapter selection (`find_adapter`)

  /** The object implements the LE advertising manager interface. */
  predicate Advertises(entry: (Path, Interfaces)) {
    LE_ADVERTISING_MANAGER_IFACE in entry.1
  }

  /** The filter/map/collect step: the paths of advertising objects, in snapshot order. */
  function Candidates(snapshot: Snapshot): (r: seq<Path>)
    ensures |r| <= |snapshot|
    ensures forall p :: p in r ==> exists e :: e in snapshot && e.0 == p && Advertises(e)
  {
    if snapshot == [] then []
    else
      var head := if Advertises(snapshot[0]) then [snapshot[0].0] else [];
      var rest := Candidates(snapshot[1..]);
      assert forall e :: e in snapshot[1..] ==> e in snapshot;
      head + rest
  }

  /** Filtering distributes over concatenation, so it keeps the snapshot's order. */
  lemma {:induction false} CandidatesAppend(a: Snapshot, b: Snapshot)
    ensures Candidates(a + b) == Candidates(a) + Candidates(b)
  {
    if a != [] {
      assert (a + b)[1..] == a[1..] + b;
      CandidatesAppend(a[1..], b);
    } else {
      assert a + b == b;
    }
  }

  /** A path is kept exactly when some advertising object of the snapshot has it. */
  lemma {:induction false} CandidatesMembership(snapshot: Snapshot, p: Path)
    ensures p in Candidates(snapshot) <==>
      exists i :: 0 <= i < |snapshot| && snapshot[i].0 == p && Advertises(snapshot[i])
  {
    if snapshot != [] {
      CandidatesMembership(snapshot[1..], p);
      if exists i :: 0 <= i < |snapshot| && snapshot[i].0 == p && Advertises(snapshot[i]) {
        var i :| 0 <= i < |snapshot| && snapshot[i].0 == p && Advertises(snapshot[i]);
        if i > 0 {
          assert snapshot[1..][i - 1] == snapshot[i];
        }
      }
    }
  }

  /**
   * The first kept path is the path of the first advertising object; there
   * is one exactly when some object advertises.
   */
  lemma {:induction false} CandidatesFirst(snapshot: Snapshot, i: nat)
    requires i < |snapshot| && Advertises(snapshot[i])
    requires forall j :: 0 <= j < i ==> !Advertises(snapshot[j])
    ensures Candidates(snapshot) != [] && Candidates(snapshot)[0] == snapshot[i].0
  {
    if i > 0 {
      CandidatesFirst(snapshot[1..], i - 1);
    }
  }

  /** No path is kept when no object advertises. */
  lemma {:induction false} CandidatesEmpty(snapshot: Snapshot)
    ensures Candidates(snapshot) == [] <==> forall i :: 0 <= i < |snapshot| ==> !Advertises(snapshot[i])
  {
    if snapshot != [] {
      CandidatesEmpty(snapshot[1..]);
      if forall i :: 0 <= i < |snapshot[1..]| ==> !Advertises(snapshot[1..][i]) {
        forall i | 1 <= i < |snapshot| ensures !Advertises(snapshot[i]) {
          assert snapshot[i] == snapshot[1..][i - 1];
        }
      }
    }
  }

  /** Two advertising objects keep their relative order among the kept paths. */
  lemma CandidatesOrder(snapshot: Snapshot, i: nat, j: nat)
    requires i < j < |snapshot| && Advertises(snapshot[i]) && Advertises(snapshot[j])
    ensures exists k1, k2 :: (0 <= k1 < k2 < |Candidates(snapshot)| &&
      Candidates(snapshot)[k1] == snapshot[i].0 && Candidates(snapshot)[k2] == snapshot[j].0)
  {
    var a, b := snapshot[..j], snapshot[j..];
    assert snapshot == a + b;
    CandidatesAppend(a, b);
    CandidatesMembership(a, snapshot[i].0);
    assert a[i] == snapshot[i];
    var k1 :| 0 <= k1 < |Candidates(a)| && Candidates(a)[k1] == snapshot[i].0;
    assert b[0] == snapshot[j];
    var c := Candidates(snapshot);
    assert c[k1] == snapshot[i].0;
    assert c[|Candidates(a)|] == snapshot[j].0;
  }

  /** `Iterator::find`: the first path containing `name`, if any. */
  function FindContaining(paths: seq<Path>, name: string): (r: Option<Path>)
    ensures r.None? <==> forall k :: 0 <= k < |paths| ==> !Contains(paths[k], name)
    ensures r.Some? ==> exists k :: (0 <= k < |paths| && paths[k] == r.value &&
      Contains(r.value, name) && forall j :: 0 <= j < k ==> !Contains(paths[j], name))
  {
    if paths == [] then None
    else if Contains(paths[0], name) then Some(paths[0])
    else
      var r := FindContaining(paths[1..], name);
      assert r.Some? ==> exists k :: (0 <= k < |paths| && paths[k] == r.value &&
        Contains(r.value, name) && forall j :: 0 <= j < k ==> !Contains(paths[j], name))
      by {
        if r.Some? {
          var k :| 0 <= k < |paths[1..]| && paths[1..][k] == r.value &&
            Contains(r.value, name) && forall j :: 0 <= j < k ==> !Contains(paths[1..][j], name);
          assert forall j :: 0 <= j < k + 1 ==> !Contains(paths[j], name) by {
            forall j | 0 < j < k + 1 ensures !Contains(paths[j], name) {
              assert paths[j] == paths[1..][j - 1];
            }
          }
        }
      }
      assert r.None? <==> forall k :: 0 <= k < |paths| ==> !Contains(paths[k], name) by {
        assert forall k :: 1 <= k < |paths| ==> paths[k] == paths[1..][k - 1];
      }
      r
  }

  /**
   * The selection of lines 37-47: keep the advertising objects' paths, then
   * take the first containing `name`, or the first of all when no name is
   * given. None is the case `expect` panics on.
   */
  function SelectAdapter(snapshot: Snapshot, name: Option<string>): (r: Option<Path>)
    ensures r.Some? ==> exists i :: 0 <= i < |snapshot| && snapshot[i].0 == r.value && Advertises(snapshot[i])
    ensures name.Some? && r.Some? ==> Contains(r.value, name.value)
    ensures name.None? ==> (r.None? <==> forall i :: 0 <= i < |snapshot| ==> !Advertises(snapshot[i]))
  {
    var candidates := Candidates(snapshot);
    CandidatesEmpty(snapshot);
    var r := if name.Some? then FindContaining(candidates, name.value)
             else if candidates == [] then None else Some(candidates[0]);
    if r.Some? then CandidatesMembership(snapshot, r.value); r else r
  }

  /** Without a name, the selected path is that of the first advertising object. */
  lemma SelectWithoutName(snapshot: Snapshot, i: nat)
    requires i < |snapshot| && Advertises(snapshot[i])
    requires forall j :: 0 <= j < i ==> !Advertises(snapshot[j])
    ensures SelectAdapter(snapshot, None) == Some(snapshot[i].0)
  {
    CandidatesFirst(snapshot, i);
  }

  /** With a name, the selected path is that of the first advertising object whose path contains it. */
  lemma SelectWithName(snapshot: Snapshot, name: string, i: nat)
    requires i < |snapshot| && Advertises(snapshot[i]) && Contains(snapshot[i].0, name)
    requires forall j :: 0 <= j < i ==> !(Advertises(snapshot[j]) && Contains(snapshot[j].0, name))
    ensures SelectAdapter(snapshot, Some(name)) == Some(snapshot[i].0)
  {
    var a, b := snapshot[..i], snapshot[i..];
    assert snapshot == a + b;
    CandidatesAppend(a, b);
    var ca, c := Candidates(a), Candidates(snapshot);
    assert b[0] == snapshot[i];
    assert c[|ca|] == snapshot[i].0;
    forall k | 0 <= k < |ca| ensures !Contains(c[k], name) {
      CandidatesMembership(a, ca[k]);
      var j :| 0 <= j < |a| && a[j].0 == ca[k] && Advertises(a[j]);
      assert a[j] == snapshot[j];
    }
    var r := FindContaining(c, name);
    assert r.Some?;
    var k :| 0 <= k < |c| && c[k] == r.value && Contains(r.value, name) &&
      forall j :: 0 <= j < k ==> !Contains(c[j], name);
    assert k == |ca|;
  }

  /** With a name that no advertising object's path contains, nothing is selected. */
  lemma SelectNameUnmatched(snapshot: Snapshot, name: string)
    requires forall i :: 0 <= i < |snapshot| && Advertises(snapshot[i]) ==> !Contains(snapshot[i].0, name)
    ensures SelectAdapter(snapshot, Some(name)) == None
  {
    var c := Candidates(snapshot);
    forall k | 0 <= k < |c| ensures !Contains(c[k], name) {
      CandidatesMembership(snapshot, c[k]);
    }
  }

  /** A lone advertising object is selected without a name, and with a name only when its path contains it. */
  lemma SelectSingleCandidate(snapshot: Snapshot, i: nat, name: string)
    requires i < |snapshot| && Advertises(snapshot[i])
    requires forall j :: 0 <= j < |snapshot| && j != i ==> !Advertises(snapshot[j])
    ensures SelectAdapter(snapshot, None) == Some(snapshot[i].0)
    ensures SelectAdapter(snapshot, Some(name)) ==
      if Contains(snapshot[i].0, name) then Some(snapshot[i].0) else None
  {
    SelectWithoutName(snapshot, i);
    if Contains(snapshot[i].0, name) {
      SelectWithName(snapshot, name, i);
    } else {
      SelectNameUnmatched(snapshot, name);
    }
  }

  /** The path of the first BlueZ adapter, as BlueZ names it. */
  const HCI0: Path := "/org/bluez/hci0"

  /** The adapter name `hci1` does not occur in the path of `hci0`. */
  lemma Hci1NotInHci0()
    ensures !Contains(HCI0, "hci1")
  {
    assert "hci1"[3] == '1';
    assert forall k :: 0 <= k < |HCI0| ==> HCI0[k] != '1';
    NotContainsMissingChar(HCI0, "hci1", '1');
  }

  /**
   * One advertising adapter whose path does not contain the name: the code
   * selects nothing (and panics), although an adapter exists.
   */
  lemma SelectSingleCandidateNameMismatch()
    ensures SelectAdapter([(HCI0, {LE_ADVERTISING_MANAGER_IFACE, ADAPTER_IFACE})], Some("hci1")) == None
  {
    Hci1NotInHci0();
    SelectNameUnmatched([(HCI0, {LE_ADVERTISING_MANAGER_IFACE, ADAPTER_IFACE})], "hci1");
  }

  /** The `GetManagedObjects` call `find_adapter` sends to the root object. */
  function GetManagedObjectsCall(): (c: MethodCall)
    ensures c.path == "/" && c.iface == DBUS_OBJECTMANAGER_IFACE
    ensures c.member == "GetManagedObjects" && c.args == []
  {
    MethodCall("/", DBUS_OBJECTMANAGER_IFACE, "GetManagedObjects", [])
  }

  /**
   * The broker as the discovery step sees it: its answer to a call, either
   * the managed-object snapshot or the error the call failed with.
   */
  type Broker = MethodCall -> Result<Snapshot, Error>

  /**
   * `find_adapter`: ask the broker `GetManagedObjectsCall()`, propagate a
   * failed call, panic when nothing is selected, otherwise return the
   * selected path.
   */
  function FindAdapter(broker: Broker, name: Option<string>): (r: Outcome<Path>)
    ensures broker(GetManagedObjectsCall()).Err? ==> r == Failed(broker(GetManagedObjectsCall()).error)
    ensures broker(GetManagedObjectsCall()).Ok? ==>
      var selected := SelectAdapter(broker(GetManagedObjectsCall()).value, name);
      r == if selected.Some? then Done(selected.value) else Panicked(NO_INTERFACES_FOUND)
    ensures r.Done? ==> broker(GetManagedObjectsCall()).Ok? && exists i :: (0 <= i < |broker(GetManagedObjectsCall()).value| &&
      broker(GetManagedObjectsCall()).value[i].0 == r.value && LE_ADVERTISING_MANAGER_IFACE in broker(GetManagedObjectsCall()).value[i].1)
  {
    match broker(GetManagedObjectsCall())
    case Err(e) => Failed(e)
    case Ok(snapshot) =>
      match SelectAdapter(snapshot, name)
      case None => Panicked(NO_INTERFACES_FOUND)
      case Some(p) => Done(p)
  }

  /** `Adapter::new`: the adapter holds exactly the path `find_adapter` chose. */
  function New(broker: Broker, interface: Option<string>): (r: Outcome<Adapter>)
    ensures FindAdapter(broker, interface).Done? <==> r.Done?
    ensures r.Done? ==> r.value.objectPath == FindAdapter(broker, interface).value
    ensures broker(GetManagedObjectsCall()).Ok? && SelectAdapter(broker(GetManagedObjectsCall()).value, interface).Some? ==>
      r == Done(Adapter(SelectAdapter(broker(GetManagedObjectsCall()).value, interface).value))
    ensures FindAdapter(broker, interface).Failed? ==> r == Failed(FindAdapter(broker, interface).error)
    ensures FindAdapter(broker, interface).Panicked? ==> r == Panicked(NO_INTERFACES_FOUND)
  {
    match FindAdapter(broker, interface)
    case Done(p) => Done(Adapter(p))
    case Failed(e) => Failed(e)
    case Panicked(m) => Panicked(m)
  }

  // ---------------------------------------------------------------------
  // Property requests (`powered`, `is_powered`, `get_alias`, `set_alias`)

  /** A dynamically-typed D-Bus value of the kinds the proxy sends and expects. */
  datatype Value = Bool(b: bool) | Text(s: string)

  /** One argument of a method call: a plain string, or a value wrapped in a variant. */
  datatype Arg = Str(s: string) | Variant(v: Value)

  /** A D-Bus method call: target object, interface of the envelope, method, arguments. */
  datatype MethodCall = MethodCall(path: Path, iface: string, member: string, args: seq<Arg>)

  /** `powered(on)`: Set of the adapter's Powered property. */
  function PoweredCall(a: Adapter, on: bool): (c: MethodCall)
    ensures c.path == a.objectPath && c.iface == DBUS_PROPERTIES_IFACE
    ensures AsPropertyOp(c) == Some(SetOp(a.objectPath, ADAPTER_IFACE, "Powered", Bool(on)))
  {
    MethodCall(a.objectPath, DBUS_PROPERTIES_IFACE, "Set", [Str(ADAPTER_IFACE), Str("Powered"), Variant(Bool(on))])
  }

  /** `is_powered()`: Get of the adapter's Powered property. */
  function IsPoweredCall(a: Adapter): (c: MethodCall)
    ensures c.path == a.objectPath && c.iface == DBUS_PROPERTIES_IFACE
    ensures AsPropertyOp(c) == Some(GetOp(a.objectPath, ADAPTER_IFACE, "Powered"))
  {
    MethodCall(a.objectPath, DBUS_PROPERTIES_IFACE, "Get", [Str(ADAPTER_IFACE), Str("Powered")])
  }

  /** `get_alias()`: Get of the adapter's Alias property. */
  function GetAliasCall(a: Adapter): (c: MethodCall)
    ensures c.path == a.objectPath && c.iface == DBUS_PROPERTIES_IFACE
    ensures AsPropertyOp(c) == Some(GetOp(a.objectPath, ADAPTER_IFACE, "Alias"))
  {
    MethodCall(a.objectPath, DBUS_PROPERTIES_IFACE, "Get", [Str(ADAPTER_IFACE), Str("Alias")])
  }

  /** `set_alias(alias)`: Set of the adapter's Alias property. */
  function SetAliasCall(a: Adapter, alias: string): (c: MethodCall)
    ensures c.path == a.objectPath && c.iface == DBUS_PROPERTIES_IFACE
    ensures AsPropertyOp(c) == Some(SetOp(a.objectPath, ADAPTER_IFACE, "Alias", Text(alias)))
  {
    MethodCall(a.objectPath, DBUS_PROPERTIES_IFACE, "Set", [Str(ADAPTER_IFACE), Str("Alias"), Variant(Text(alias))])
  }

  /** What a call asks of the standard properties interface, as the broker reads it. */
  datatype PropertyOp =
    | GetOp(path: Path, iface: string, property: string)
    | SetOp(path: Path, iface: string, property: string, value: Value)

  /**
   * How the broker reads a call addressed to `org.freedesktop.DBus.Properties`:
   * Get takes (interface, property), Set takes (interface, property, variant).
   * Any other call is not a property access.
   */
  function AsPropertyOp(c: MethodCall): (r: Option<PropertyOp>)
    ensures r.Some? ==> c.iface == DBUS_PROPERTIES_IFACE && r.value.path == c.path
    ensures r.Some? ==> |c.args| >= 2 && c.args[0] == Str(r.value.iface) && c.args[1] == Str(r.value.property)
    ensures r.Some? && r.value.GetOp? ==> c.member == "Get" && |c.args| == 2
    ensures r.Some? && r.value.SetOp? ==> c.member == "Set" && c.args == [Str(r.value.iface), Str(r.value.property), Variant(r.value.value)]
  {
    if c.iface != DBUS_PROPERTIES_IFACE then None
    else if c.member == "Get" && |c.args| == 2 && c.args[0].Str? && c.args[1].Str? then
      Some(GetOp(c.path, c.args[0].s, c.args[1].s))
    else if c.member == "Set" && |c.args| == 3 && c.args[0].Str? && c.args[1].Str? && c.args[2].Variant? then
      Some(SetOp(c.path, c.args[0].s, c.args[1].s, c.args[2].v))
    else None
  }

  /**
   * Every property request of the proxy is a property access on its own
   * object path, of the adapter interface, naming Powered or Alias.
   */
  lemma PropertyCallsAreAdapterAccesses(a: Adapter, on: bool, alias: string)
    ensures AsPropertyOp(PoweredCall(a, on)) == Some(SetOp(a.objectPath, ADAPTER_IFACE, "Powered", Bool(on)))
    ensures AsPropertyOp(IsPoweredCall(a)) == Some(GetOp(a.objectPath, ADAPTER_IFACE, "Powered"))
    ensures AsPropertyOp(GetAliasCall(a)) == Some(GetOp(a.objectPath, ADAPTER_IFACE, "Alias"))
    ensures AsPropertyOp(SetAliasCall(a, alias)) == Some(SetOp(a.objectPath, ADAPTER_IFACE, "Alias", Text(alias)))
  {
  }

  /** `is_powered`'s reading of the reply: one boolean variant, or an error. */
  function IsPoweredResult(reply: Result<seq<Value>, Error>): (r: Result<bool, Error>)
    ensures r.Ok? <==> reply.Ok? && |reply.value| == 1 && reply.value[0].Bool?
    ensures r.Ok? ==> reply.value[0] == Bool(r.value)
    ensures reply.Err? ==> r == Err(reply.error)
  {
    match reply
    case Err(e) => Err(e)
    case Ok(values) => if |values| == 1 && values[0].Bool? then Ok(values[0].b) else Err(TypeMismatch)
  }

  /** `get_alias`'s reading of the reply: one string variant, or an error. */
  function GetAliasResult(reply: Result<seq<Value>, Error>): (r: Result<string, Error>)
    ensures r.Ok? <==> reply.Ok? && |reply.value| == 1 && reply.value[0].Text?
    ensures r.Ok? ==> reply.value[0] == Text(r.value)
    ensures reply.Err? ==> r == Err(reply.error)
  {
    match reply
    case Err(e) => Err(e)
    case Ok(values) => if |values| == 1 && values[0].Text? then Ok(values[0].s) else Err(TypeMismatch)
  }

  /** `powered` and `set_alias` discard the reply's body and keep only success or failure. */
  function SetResult(reply: Result<seq<Value>, Error>): (r: Result<(), Error>)
    ensures r.Ok? <==> reply.Ok?
    ensures reply.Err? ==> r == Err(reply.error)
  {
    match reply
    case Err(e) => Err(e)
    case Ok(_) => Ok(())
  }

  // ---------------------------------------------------------------------
  // A broker that stores the last value set for each property

  /** The broker's property values, keyed by (path, interface, property). */
  type PropertyStore = map<(Path, string, string), Value>

  const UNKNOWN_PROPERTY: Error := DBusError("org.freedesktop.DBus.Error.UnknownProperty")
  const UNKNOWN_METHOD: Error := DBusError("org.freedesktop.DBus.Error.UnknownMethod")

  /** The store's answer to one call and the store after it. */
  function Dispatch(store: PropertyStore, c: MethodCall): (r: (PropertyStore, Result<seq<Value>, Error>))
    ensures AsPropertyOp(c).None? ==> r == (store, Err(UNKNOWN_METHOD))
    ensures AsPropertyOp(c).Some? && AsPropertyOp(c).value.GetOp? ==> r.0 == store
  {
    match AsPropertyOp(c)
    case None => (store, Err(UNKNOWN_METHOD))
    case Some(GetOp(p, i, n)) =>
      if (p, i, n) in store then (store, Ok([store[(p, i, n)]])) else (store, Err(UNKNOWN_PROPERTY))
    case Some(SetOp(p, i, n, v)) => (store[(p, i, n) := v], Ok([]))
  }

  /** `powered(on)` then `is_powered()` against the store succeed and read back `on`. */
  lemma PoweredThenIsPowered(store: PropertyStore, a: Adapter, on: bool)
    ensures SetResult(Dispatch(store, PoweredCall(a, on)).1) == Ok(())
    ensures IsPoweredResult(Dispatch(Dispatch(store, PoweredCall(a, on)).0, IsPoweredCall(a)).1) == Ok(on)
  {
    PropertyCallsAreAdapterAccesses(a, on, "");
  }

  /** `set_alias(x)` then `get_alias()` against the store succeed and read back `x`. */
  lemma SetAliasThenGetAlias(store: PropertyStore, a: Adapter, alias: string)
    ensures SetResult(Dispatch(store, SetAliasCall(a, alias)).1) == Ok(())
    ensures GetAliasResult(Dispatch(Dispatch(store, SetAliasCall(a, alias)).0, GetAliasCall(a)).1) == Ok(alias)
  {
    PropertyCallsAreAdapterAccesses(a, false, alias);
  }

  /** Reading Powered after the Alias was set leaves Powered untouched. */
  lemma SetAliasKeepsPowered(store: PropertyStore, a: Adapter, alias: string)
    ensures IsPoweredResult(Dispatch(Dispatch(store, SetAliasCall(a, alias)).0, IsPoweredCall(a)).1) ==
      IsPoweredResult(Dispatch(store, IsPoweredCall(a)).1)
  {
    PropertyCallsAreAdapterAccesses(a, false, alias);
  }

  /** A Powered value of the wrong type is reported as an error, never coerced. */
  lemma IsPoweredRejectsText(store: PropertyStore, a: Adapter, s: string)
    requires (a.objectPath, ADAPTER_IFACE, "Powered") in store
    requires store[(a.objectPath, ADAPTER_IFACE, "Powered")] == Text(s)
    ensures IsPoweredResult(Dispatch(store, IsPoweredCall(a)).1) == Err(TypeMismatch)
  {
    PropertyCallsAreAdapterAccesses(a, false, "");
  }
}
