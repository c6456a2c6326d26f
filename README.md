# Bluetooth short UUIDs and BlueZ adapter selection, in Dafny

This project models two pieces of the `bluster` crate's BlueZ peripheral
back end and proves properties of them.

- **Short-UUID expansion** (`src/uuid.rs`). `uuid_from_sdp` turns a 16- or
  32-bit SDP short code into a full 128-bit UUID. The code goes in the first
  field. The other fields come from the Bluetooth Base UUID
  `00000000-0000-1000-8000-00805F9B34FB`. This is the expansion in section
  2.5.1 of Vol 3, Part B of the Bluetooth Core Specification:
  `code * 2^96 + Base UUID`. Module `SdpUuid` (`uuid.dfy`) represents a UUID
  by its 16 bytes, as the `uuid` crate stores it. `FromFields`/`AsFields`
  follow the big-endian field layout of section 4.1.2 of RFC 4122, and
  `BeValue` reads the bytes as a 128-bit number. The proofs show that the
  field form and the number form agree. They also show that the expansion
  is injective and that `SdpShortCode` inverts it. `SdpShortCode` is not
  code of the repository: it is the inverse that the round-trip lemma uses.
- **Adapter selection** (`src/peripheral/bluez/adapter.rs`). `find_adapter`
  takes the `GetManagedObjects` snapshot and keeps the objects that
  implement `org.bluez.LEAdvertisingManager1`. It then picks the first kept
  path that contains the optional name, or the first kept path when no name
  is given. Module `BluezAdapter` (`adapter.dfy`) models the snapshot as a
  sequence of (path, interface names) pairs. The proxy's method calls are
  modelled as `MethodCall` values: `GetManagedObjects`, and the property
  Get/Set calls of `powered`, `is_powered`, `get_alias` and `set_alias`.

In `BluezAdapter`, `Advertises` is the filter test of line 39: the object's
interface map has the LE advertising manager interface as a key. What the
filter built on it keeps is stated by `Candidates` and the lemmas about it.

`wrappers.dfy` holds the `Option` and `Result` datatypes.

The snapshot order is the iteration order of the `ManagedObjectsProps` map
that the dbus crate builds from the reply. That order comes from the local
map's hashing. The model takes it as given and claims no particular one.
A panic of `expect("No interfaces found")` is the `Panicked` outcome. An
error that a D-Bus call returns through `?` is the `Failed` outcome.

With a name that the only qualifying path does not contain, `find` returns
nothing and line 49 panics, although an adapter exists.
`SelectSingleCandidate` states this, and `SelectSingleCandidateNameMismatch`
shows it on a concrete snapshot.

`src/peripheral/bluez/constants.rs` is not part of this model. The four
interface-name constants use the standard D-Bus and BlueZ names:
`org.freedesktop.DBus.ObjectManager`, `org.freedesktop.DBus.Properties`,
`org.bluez.Adapter1` and `org.bluez.LEAdvertisingManager1`.

## Model

| member | source | states |
|---|---|---|
| SdpUuid.BaseTailValue | src/uuid.rs:3 | the 8-byte Base UUID tail `80 00 00 80 5F 9B 34 FB` denotes 0x8000_0080_5F9B_34FB |
| SdpUuid.BaseUuidValue | src/uuid.rs:3 | the `BASE_UUID` constant denotes the Bluetooth Base UUID 0x0000_0000_0000_1000_8000_0080_5F9B_34FB, in both field and byte form |
| SdpUuid.FromFields | src/uuid.rs:12 | `Uuid::from_fields`: bytes 0..4, 4..6 and 6..8 read back big-endian as d1, d2 and d3, and bytes 8..16 are d4 |
| SdpUuid.AsFields | src/uuid.rs:12 | `Uuid::as_fields`: building a UUID from the fields it reads gives back the same UUID |
| SdpUuid.AsFieldsOfFromFields | src/uuid.rs:12 | reading back the fields of a UUID built by `from_fields` gives the same four fields |
| SdpUuid.FromFieldsOfAsFields | src/uuid.rs:12 | every 16-byte UUID is `from_fields` of its own fields, so the field layout loses nothing |
| SdpUuid.FromFieldsValue | src/uuid.rs:12 | as a 128-bit number, a UUID built from fields is d1*2^96 + d2*2^80 + d3*2^64 + tail, so the field and arithmetic forms agree |
| SdpUuid.UuidFromSdp | src/uuid.rs:11-13 | total on every u32; the first 4 bytes read back as the code; the remaining 12 bytes are always `00 00 10 00 80 00 00 80 5F 9B 34 FB`; the number is code*2^96 + Base UUID |
| SdpUuid.UuidFromSdpFields | src/uuid.rs:11-12 | the fields of the result are (code, 0x0000, 0x1000, Base tail): the Base UUID with its first field replaced by the code |
| SdpUuid.UuidFromSdpZeroIsBase | src/uuid.rs:3-12 | code 0 expands to the Base UUID itself |
| SdpUuid.UuidFromSdpInjective | src/uuid.rs:11-12 | two expansions are equal exactly when the codes are equal, and any two expansions agree outside the first 4 bytes |
| SdpUuid.SdpShortCodeRoundTrip | src/uuid.rs:11-12 | `SdpShortCode` recovers the code from its expansion, and a UUID that yields a code is exactly that code's expansion |
| SdpUuid.FromSdpShortUuid16 | src/uuid.rs:5-15 | the u16 impl of the trait method: the first two bytes are zero and the next two hold the 16-bit code |
| SdpUuid.FromSdpShortUuid32 | src/uuid.rs:5-16 | the u32 impl of the trait method: the number is code*2^96 + Base UUID |
| SdpUuid.ShortUuid16AgreesWithWidened | src/uuid.rs:5-16 | a u16 code gives the same UUID as the same value widened to u32 |
| BluezAdapter.Contains | src/peripheral/bluez/adapter.rs:44 | `str::contains`: the empty name occurs in every path, and a name that occurs is no longer than the path |
| BluezAdapter.ContainsIffOccurs | src/peripheral/bluez/adapter.rs:44 | the substring test holds exactly when the name occurs at some offset of the path |
| BluezAdapter.Candidates | src/peripheral/bluez/adapter.rs:37-41 | every kept path is the path of an object of the snapshot that has the LE advertising manager interface; no more paths than objects |
| BluezAdapter.CandidatesMembership | src/peripheral/bluez/adapter.rs:37-41 | a path is kept exactly when some object with that path has the LE advertising manager interface |
| BluezAdapter.CandidatesAppend | src/peripheral/bluez/adapter.rs:37-41 | the filter of a concatenation is the concatenation of the filters, so the snapshot order is kept |
| BluezAdapter.CandidatesOrder | src/peripheral/bluez/adapter.rs:37-41 | two qualifying objects appear among the kept paths in their snapshot order |
| BluezAdapter.CandidatesFirst | src/peripheral/bluez/adapter.rs:37-41 | the first kept path is the path of the first qualifying object |
| BluezAdapter.CandidatesEmpty | src/peripheral/bluez/adapter.rs:37-41 | nothing is kept exactly when no object qualifies |
| BluezAdapter.FindContaining | src/peripheral/bluez/adapter.rs:44 | `find` returns nothing exactly when no path contains the name; otherwise it returns the first path that contains it |
| BluezAdapter.SelectAdapter | src/peripheral/bluez/adapter.rs:37-47 | a selected path always belongs to a qualifying object; with a name it contains the name; without a name, nothing is selected exactly when no object qualifies |
| BluezAdapter.SelectWithoutName | src/peripheral/bluez/adapter.rs:45-46 | with no name, the path of the first qualifying object is selected |
| BluezAdapter.SelectWithName | src/peripheral/bluez/adapter.rs:43-44 | with a name, the path of the first qualifying object whose path contains the name is selected |
| BluezAdapter.SelectNameUnmatched | src/peripheral/bluez/adapter.rs:43-49 | with a name that no qualifying path contains, nothing is selected (the panic case), even when qualifying paths exist |
| BluezAdapter.SelectSingleCandidate | src/peripheral/bluez/adapter.rs:43-49 | a lone qualifying object is selected without a name, and with a name only when its path contains the name |
| BluezAdapter.SelectSingleCandidateNameMismatch | src/peripheral/bluez/adapter.rs:43-49 | one adapter `/org/bluez/hci0` with the name `hci1` selects nothing, so line 49 panics although an adapter exists |
| BluezAdapter.GetManagedObjectsCall | src/peripheral/bluez/adapter.rs:30-34 | discovery is the call `GetManagedObjects` on the root object `/` and the ObjectManager interface, with no arguments; `FindAdapter` reads the broker's answer to exactly this call |
| BluezAdapter.FindAdapter | src/peripheral/bluez/adapter.rs:26-50 | reads the broker's answer to `GetManagedObjectsCall()`; a failed call is propagated; otherwise the result is exactly the path `SelectAdapter` picks (first qualifying path, containing the name when one is given), or the panic "No interfaces found" when it picks none; a returned path has the LE advertising manager interface |
| BluezAdapter.New | src/peripheral/bluez/adapter.rs:53-60 | an adapter is built exactly when discovery succeeds; it holds exactly the path `SelectAdapter` picks from the broker's snapshot; errors and the panic pass through unchanged |
| BluezAdapter.PoweredCall | src/peripheral/bluez/adapter.rs:62-73 | `powered(on)` calls the adapter's own path with the Properties interface in the envelope, and the broker reads it as Set of (Adapter1, Powered) to the boolean `on` |
| BluezAdapter.IsPoweredCall | src/peripheral/bluez/adapter.rs:78-81 | `is_powered()` calls the adapter's own path with the Properties interface in the envelope, read as Get of (Adapter1, Powered) |
| BluezAdapter.GetAliasCall | src/peripheral/bluez/adapter.rs:86-89 | `get_alias()` calls the adapter's own path with the Properties interface in the envelope, read as Get of (Adapter1, Alias) |
| BluezAdapter.SetAliasCall | src/peripheral/bluez/adapter.rs:94-105 | `set_alias(alias)` calls the adapter's own path with the Properties interface in the envelope, read as Set of (Adapter1, Alias) to the string `alias` |
| BluezAdapter.PropertyCallsAreAdapterAccesses | src/peripheral/bluez/adapter.rs:62-108 | each of the four property calls goes to the adapter's own path, has the Properties interface in the envelope and method Get or Set, and has the adapter interface and Powered or Alias as its leading arguments; Set has the value as its third argument |
| BluezAdapter.IsPoweredResult | src/peripheral/bluez/adapter.rs:78-84 | under the reply convention listed under "## Left out", `is_powered` succeeds exactly on a reply of one boolean value and returns that boolean; call errors pass through |
| BluezAdapter.GetAliasResult | src/peripheral/bluez/adapter.rs:86-92 | under the reply convention listed under "## Left out", `get_alias` succeeds exactly on a reply of one string value and returns that string; call errors pass through |
| BluezAdapter.SetResult | src/peripheral/bluez/adapter.rs:62-76 | `powered` and `set_alias` succeed exactly when the call succeeds, and pass errors through |
| BluezAdapter.PoweredThenIsPowered | src/peripheral/bluez/adapter.rs:62-84 | against a broker that stores set values, `powered(on)` succeeds and a later `is_powered()` returns `on` |
| BluezAdapter.SetAliasThenGetAlias | src/peripheral/bluez/adapter.rs:86-108 | against the same broker, `set_alias(x)` succeeds and a later `get_alias()` returns `x` |
| BluezAdapter.SetAliasKeepsPowered | src/peripheral/bluez/adapter.rs:78-108 | setting the alias does not change what `is_powered()` reads |
| BluezAdapter.IsPoweredRejectsText | src/peripheral/bluez/adapter.rs:78-84 | a Powered value of string type is reported as a type mismatch, never coerced |

The broker behind `PoweredThenIsPowered`, `SetAliasThenGetAlias`,
`SetAliasKeepsPowered` and `IsPoweredRejectsText` (`AsPropertyOp`,
`Dispatch`) is a reference model. It is not code of the repository. It reads
a call the way the standard properties interface defines it and stores the
last value set for each (path, interface, property).

## Left out

- The D-Bus connection, `get_bluez_proxy` and `method_call`: foreign I/O. Discovery takes the broker as a parameter, a function from a call to its answer (snapshot or error). The property calls are built as values.
- The shared `Arc<Connection>` held by `Adapter`, and the `async`/`await` machinery: they concern resource sharing and scheduling, not the logic modelled here. `Adapter` holds only its object path.
- The property maps inside each interface entry of the snapshot: only the interface names decide the selection.
- The `HashMap` iteration order: it is unspecified, so the snapshot is a sequence whose order the model does not constrain. Duplicate paths are not excluded either.
- Decoding of `Variant<Box<dyn RefArg>>` and `MessageItem` inside the dbus crate: that decoding is not part of this model. The model uses its own reply convention instead. A reply is a sequence of already-typed `Value`s, and any shape other than exactly one value of the expected type is a `TypeMismatch`. In particular, the model does not capture how the dbus crate treats trailing reply values. `Value` has only boolean and string values, so replies of other D-Bus types, integers for one, cannot be expressed.
- The internals of the `uuid` crate beyond the field-to-byte layout of `Uuid::from_fields` and `Uuid::as_fields`.
