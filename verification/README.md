# Asus Aura driver: discovery and push

A Dafny model of the two pieces of logic in the SimpleLed Asus driver
(`Driver.Asus/AsusDriver.cs`) that sit on top of the closed Aura SDK:

- **Discovery** (`GetDevices`): every record of the SDK's device collection
  (name, 32-bit type code, ordered lights) becomes an `AsusControlDevice` with
  one LED per light numbered from zero, a category and display name from a
  fixed type-code switch, the original name as `InternalName`, and a
  back-reference to the first collection entry with the same name. A record
  whose processing throws is skipped and the loop goes on.
- **Push** (`Push`): the static `ApiInUse` flag is a test-and-set gate; when
  it is free, each LED's colour is copied into the vendor light at the same
  index and the device's `Apply` is called once.

Modules:

- `Wrappers` (`wrappers.dfy`): `Option`, standing for a nullable reference.
- `Text` (`text.dfy`): `ReplaceAll`, the ordinal, left-to-right,
  non-overlapping `String.Replace`, what it does at the leftmost occurrence,
  and when it removes every occurrence.
- `Aura` (`aura.dfy`): the SDK's records (`VendorDevice`, `Light`) with
  bytes and 32-bit codes as bounded integer newtypes.
- `Discovery` (`discovery.dfy`): the type-code table, display names, LED
  projection, first-by-name back-reference and the discovery pass.
- `Sync` (`sync.dfy`): `Push` as a state transition over (flag, collection,
  log of `Apply` calls), the channel-copy loop as a method, and a variant that
  releases the flag on every exit path.

Modelling choices:

- The back-reference is an index into the collection; "the first entry whose
  name matches" is `FirstByName`.
- The `try`/`catch` around each record is a per-record outcome: `faults` is
  the set of record indices whose processing throws for reasons outside the
  model (a failing COM call, say). The only throw the model can see, LINQ's
  `First()` on an empty match, is proved never to happen.
- The colours `Push` reads from `LEDs[i].Color` are passed as a sequence with
  one colour per LED.
- `Apply` is recorded in a log of collection indices; "called exactly once"
  is "the log grew by one entry naming this device".
- The switch has no `default` branch, so a code without a case leaves
  `DeviceType` null; the model has `deviceType == None`.

## Model

| member | source | states |
|---|---|---|
| Text.ReplaceAll | Driver.Asus/AsusDriver.cs:78 | a name that does not contain the pattern comes back unchanged |
| Text.CopyBeforeOccurrence | Driver.Asus/AsusDriver.cs:78-84 | text before the first place the pattern occurs is copied verbatim and replacement goes on from there |
| Text.ReplaceAtFirst | Driver.Asus/AsusDriver.cs:78-84 | at the leftmost occurrence, the result is the text before it, then the replacement, then the replacement of the text after the occurrence |
| Text.ReplaceRemovesAll | Driver.Asus/AsusDriver.cs:78-84 | for a pattern/replacement pair that cannot re-form the pattern, no occurrence of the pattern is left after replacement |
| Text.ReplaceUnchangedIff | Driver.Asus/AsusDriver.cs:78-84 | for such a pair, replacement leaves the name unchanged exactly when the pattern does not occur in it |
| Discovery.RuleFor | Driver.Asus/AsusDriver.cs:67-144 | both substring rewrites of the switch use pairs whose replacement cannot re-form the pattern |
| Discovery.CategoryOf | Driver.Asus/AsusDriver.cs:70-141 | a code has a category exactly when the switch has a case for it, and that category's code set contains the code |
| Discovery.CategoryTable | Driver.Asus/AsusDriver.cs:67-144 | a code gets category t exactly when it is one of t's codes: MotherBoard 0x10000; LedStrip 0x11000; GPU 0x20000; Headset 0x40000; Memory 0x70000; Keyboard 0x80000, 0x81000, 0x81001, 0x90000; Bulb 0xC0000; Other 0x30000, 0xB0000, 0x50000, 0x60000, 0x0, 0x12000, 0x61000 |
| Discovery.UnrecognisedCodes | Driver.Asus/AsusDriver.cs:67-144 | a code gets no category exactly when it belongs to no category's code set |
| Discovery.DisplayName | Driver.Asus/AsusDriver.cs:67-86 | code 0x10000 forces "Motherboard"; code 0x11000 leaves no "AddressableHeader" and changes the name only if it held one; code 0x20000 does the same for "Vga"; every other code keeps the vendor name |
| Discovery.RewriteReplacesOccurrences | Driver.Asus/AsusDriver.cs:75-85 | for codes 0x11000 and 0x20000, the display name is the vendor name up to its leftmost "AddressableHeader" (resp. "Vga"), then "ARGB Header" (resp. "GPU"), then the rewritten remainder |
| Discovery.RenameExamples | Driver.Asus/AsusDriver.cs:75-95 | "AddressableHeader1" becomes "ARGB Header1", "Vga" becomes "GPU", a DRAM name is kept |
| Discovery.ProjectLeds | Driver.Asus/AsusDriver.cs:47-65 | one LED per light, in light order, LED i numbered i and carrying light i's name as both `LEDName` and `AsusLedName` |
| Discovery.FirstByName | Driver.Asus/AsusDriver.cs:43-45 | the result is the first index whose name matches; no result exactly when no entry matches |
| Discovery.ClassifyRecord | Driver.Asus/AsusDriver.cs:34-145 | building a record's device never fails the back-reference lookup |
| Discovery.ClassifiedDevice | Driver.Asus/AsusDriver.cs:34-145 | the device keeps the original name as internal name, has the table's category and display name, one LED per light numbered from zero, and points back at the first record with the same name, at or before its own |
| Discovery.BackReferenceIsSelf | Driver.Asus/AsusDriver.cs:43-45 | the back-reference is the enumerated record itself exactly when no earlier record has the same name |
| Discovery.UnrecognisedCodeKept | Driver.Asus/AsusDriver.cs:34-145 | a code with no case leaves the category unset, the placeholder image and the vendor name, and the device is still built |
| Discovery.Attempt | Driver.Asus/AsusDriver.cs:32-150 | a record yields no device exactly when its processing throws |
| Discovery.Attempts | Driver.Asus/AsusDriver.cs:30-150 | one outcome per record, the i-th being record i's attempt, in collection order |
| Discovery.Successes | Driver.Asus/AsusDriver.cs:29-156 | no more values are collected than there are records, and one per record when none fails |
| Discovery.SuccessesMembers | Driver.Asus/AsusDriver.cs:29-156 | a value is collected exactly when some record's outcome succeeded with it |
| Discovery.SuccessesInOrder | Driver.Asus/AsusDriver.cs:29-156 | the k-th collected value is the value of the k-th successful outcome |
| Discovery.Discover | Driver.Asus/AsusDriver.cs:27-157 | discovery returns at most one device per record, and exactly one per record when none throws |
| Discovery.DiscoverMembers | Driver.Asus/AsusDriver.cs:30-150 | every record that does not throw contributes its device, and every device comes from such a record |
| Discovery.DiscoverInOrder | Driver.Asus/AsusDriver.cs:29-156 | the k-th device is built from the k-th record that did not throw, in collection order |
| Sync.Recolor | Driver.Asus/AsusDriver.cs:202-204 | a written light keeps its name and shows the colour's three channels |
| Sync.Painted | Driver.Asus/AsusDriver.cs:200-205 | the lights keep their number and names, light i shows colour i for every colour given, and lights past the colours are untouched |
| Sync.CopyColors | Driver.Asus/AsusDriver.cs:200-205 | light i takes colour i for every LED, lights past the LEDs are untouched, names are kept, and the loop completes exactly when there are at least as many lights as LEDs |
| Sync.Push | Driver.Asus/AsusDriver.cs:193-209 | a set flag drops the push with nothing written and the flag still set; otherwise colours go into the back-referenced device's lights, other devices are untouched, and the push applies once and clears the flag when the lights suffice, or stops without applying and with the flag set when they do not |
| Sync.RunPush | Driver.Asus/AsusDriver.cs:194-209 | running the statements of `Push` in order ends in the state the transition describes |
| Sync.PushTwice | Driver.Asus/AsusDriver.cs:196-208 | a second identical push from an idle driver leaves the lights as the first left them, and each of the two applies once |
| Sync.StuckFlagDropsAll | Driver.Asus/AsusDriver.cs:193-197 | while the flag stays set, every later push is dropped |
| Sync.DuplicateNameLocksOut | Driver.Asus/AsusDriver.cs:43-208 | with two records named alike, the second's device points at the first, its push stops short of `Apply`, and every later push is dropped |
| Sync.GuardedPush | Driver.Asus/AsusDriver.cs:196-208 | with the flag released on every exit path, the flag after a push is what it was before, and the result otherwise agrees with `Push` |
| Sync.GuardedNeverDrops | Driver.Asus/AsusDriver.cs:196-208 | with the flag released on every exit path, no push issued from an idle driver is ever dropped |
| Sync.DiscoveredDevicePush | Driver.Asus/AsusDriver.cs:43-208 | for a record whose name is not shared with an earlier one, a push of one colour per LED completes, writes colour i into that record's light i, applies once and frees the guard |
| Sync.ThreeLightScenario | Driver.Asus/AsusDriver.cs:200-207 | three lights pushed red, green, blue take those colours and the device is applied once |

## Left out

- `Configure` and `Dispose`: creating the SDK object, `SwitchMode`, `Enumerate` and `ReleaseControl` are calls into the closed SDK; the model takes the enumerated collection as its input.
- `GetImage` and the bitmaps: loading embedded resources is I/O; the model keeps only the image key each switch case asks for (`None` for the placeholder).
- `GetProperties`, `Name`, `GetConfig`, `PutConfig`, `Pull`: constant returns, no-ops or a `NotImplementedException`, with no logic to model.
- Threads: `ApiInUse` is a plain static bool; the model is sequential, one call one transition, and claims no mutual exclusion between threads.
- Sync.Push: a throw from `Apply` itself is not modelled; in the source it would also leave the flag set.
- Discovery.Attempt: why a record's processing throws (a failing COM property read) is not modelled; the throwing records are an input set.
- The `(byte)` casts from the framework's `Color`: channels are taken to be already in 0..255.
- `Driver = this` and the framework's other `ControlDevice` fields: framework bookkeeping with no logic.

## Findings

| source | as written | input that shows it | evidently intended | confidence | as-written member | corrected member |
|---|---|---|---|---|---|---|
| Driver.Asus/AsusDriver.cs:196-208 | `ApiInUse` is set on entry and cleared only after `Apply`; an exception inside the loop leaves it set, so every later push is dropped | two records both named "AddressableHeader", the first with one light, the second with two; pushing the second's device writes through the back-reference into the first, indexes past its last light and throws | the flag released on every exit path (`try`/`finally`) | medium, not executed | Sync.DuplicateNameLocksOut | Sync.GuardedNeverDrops |
