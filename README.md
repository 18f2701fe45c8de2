# CEC keyboard: the key-translation core

`cec_keyboard` turns HDMI-CEC remote-control button presses into key presses on a
Linux virtual keyboard. This project models the part of `cec_keyboard.cpp` that does the
translating, and proves properties of it:

- the name lookups `getCECControlCode` (CEC button name to `cec_user_control_code`) and
  `getInputKeyCode` (key name to key code);
- the translation `translateCECToKeyCode` through the table `cec_to_key`;
- the reverse lookups `getCECControlStr` and `getKeyStr`, which return the first name in
  map order that carries a given value, or `""`;
- the keymap part of `read_config_yaml`, which replaces `cec_to_key` with the pairs of a
  configuration document and ends the process on the first pair it cannot resolve;
- `dump_keymap`, which writes the table back out as name pairs;
- the libcec key-press callback `cecKeyPress`, which sends a mapped key to the virtual
  keyboard and drops an unmapped one.

## How the model is built

- `ordered_maps.dfy`, module `OrderedMaps`. A C++ `std::map` is an association list whose
  entries stay in ascending key order, each key once. Iterating the list visits entries in
  the order a `std::map` iterator does. `Find` is `std::map::find`. `FirstName` is the
  reverse lookup by iteration. `NameLess` is the character-by-character order of
  `std::string`.
- `cec_keyboard.dfy`, module `CecKeyboard`:
  - The three global tables are declared in `ceckeymap.h`, which is not part of this model,
    so they are parameters. `Symbols` holds `cec_code_map` (name to CEC code) and
    `input_key_map` (name to key code). The default contents of `cec_to_key` are passed to
    the `Keyboard` constructor.
  - A lookup with a `bool` result and an out-parameter becomes a `Lookup(found, value)`
    record. The value is the sentinel on failure: `CEC_USER_CONTROL_CODE_UNKNOWN` (0xFF in
    libcec's `cectypes.h`) or `-1`.
  - The two reverse lookups share one loop, `GetName`. `GetName` is proved equal to
    `FirstName`.
  - `cec_to_key[code] = key` is `Put`, which keeps code order. Assigning a list of pairs
    one by one is `Build`.
  - A configuration document is `Option<seq<(string, string)>>`. `None` means the document
    has no `keymap` key. Otherwise the sequence holds the keymap's pairs in iteration order.
  - `exit(1)` on an invalid pair is the outcome `InvalidPair(key, value)`, which reports the
    same pair the program prints.
  - Class `Keyboard` holds the state the source mutates: `cecToKey` (the global
    `cec_to_key`) and `id` (the global `InputDevice*`, null until the device is opened).
    The ghost flag `exited` records that the process has called `exit(1)`. Only a load that
    meets an invalid pair sets it, and every operation requires it to be false, so nothing
    runs after the exit.
- `input_device.dfy`, module `InputDevice`. The virtual keyboard is a sink: `SendKeyInput`
  appends the key to the trace `sent`.

How the code is read where it could be read more than one way:
- A load that meets a bad pair has already cleared the table and assigned the pairs before
  it. `LoadKeymap` states exactly that prefix table and sets `exited`. No operation can run
  after that, so the partial table is never dumped or used to translate a key.
- Reloading a dump reproduces the table only when every code and key in it has a name
  (`AllNamed`). A code without a name is dumped as `""`, and `""` resolves to nothing
  unless `""` is itself a name.
- `""` means "no name" only if no symbol-table entry is named `""`. The reverse-lookup
  contracts therefore state the if-and-only-if under that condition.

## Model

| member | source | states |
|---|---|---|
| `OrderedMaps.Find` | cec_keyboard.cpp:271-274 | a map lookup finds a value exactly when the key is present, and the value it finds is stored under that key |
| `CecKeyboard.GetCECControlCode` | cec_keyboard.cpp:268-282 | returns true exactly when the name is in the CEC symbol table, with that name's code; otherwise false with CEC_USER_CONTROL_CODE_UNKNOWN |
| `CecKeyboard.GetInputKeyCode` | cec_keyboard.cpp:285-297 | returns true exactly when the name is in the key symbol table, with that name's key code; otherwise false with -1 |
| `CecKeyboard.TranslateCECToKeyCode` | cec_keyboard.cpp:300-314 | returns true exactly when the code is in the translation table, with the key mapped to it; otherwise false with -1 |
| `OrderedMaps.FirstName` | cec_keyboard.cpp:319-328 | if some entry has the value, the result names such an entry; if none does, the result is "" |
| `CecKeyboard.GetName` | cec_keyboard.cpp:317-344 | the iterator loop returns the name of the first entry in map order with the value, or "" |
| `CecKeyboard.GetCECControlStr` | cec_keyboard.cpp:317-329 | for a code with a name, looking that name up again gives the code; a code without a name gives ""; the result is the least name with that code; if no name is "", the result is "" exactly when the code has no name |
| `CecKeyboard.GetKeyStr` | cec_keyboard.cpp:332-344 | the same four facts for key codes over the key symbol table |
| `OrderedMaps.FirstNameFound` | cec_keyboard.cpp:317-329 | in a table with unique names, looking up the name found for a value yields that value (the reverse-then-forward round trip) |
| `OrderedMaps.FirstNameLeast` | cec_keyboard.cpp:319-326 | in a table in ascending name order, the name found is less than or equal to every other name with the same value |
| `OrderedMaps.NameLess` | cec_keyboard.cpp:271-272 | the std::string order the symbol maps are kept in is strict: no name comes before itself |
| `OrderedMaps.AscendingNamesUnique` | cec_keyboard.cpp:271-272 | a table in strictly ascending name order holds each name once |
| `CecKeyboard.Put` | cec_keyboard.cpp:221 | after `cec_to_key[code] = key`, code translates to key and every other code translates as before; no entry is added besides (code, key); code order is kept |
| `CecKeyboard.LastAssigned` | cec_keyboard.cpp:203-222 | a code has a last assigned key exactly when some pair has that code, and the key comes from such a pair |
| `CecKeyboard.LastAssignedIsLast` | cec_keyboard.cpp:203-222 | the key of a pair wins when no later pair has the same code |
| `CecKeyboard.Build` | cec_keyboard.cpp:203-222 | assigning pairs in order leaves each code with the key of its last pair, and leaves codes no pair touches as they were; code order is kept |
| `CecKeyboard.ResolvePair` | cec_keyboard.cpp:211-212 | a keymap pair resolves exactly when its CEC name and its key name are both in their symbol tables, and it resolves to their codes |
| `CecKeyboard.Resolve` | cec_keyboard.cpp:203-219 | the pairs before the first bad pair are resolved in document order; the first pair that does not resolve is reported; no pair is reported when every pair resolves |
| `CecKeyboard.ResolveStops` | cec_keyboard.cpp:211-219 | pairs after the first bad one change nothing, because the process has already exited |
| `CecKeyboard.LastPairWins` | cec_keyboard.cpp:200-222 | after a load in which every pair resolved, a pair's CEC code translates to that pair's key unless a later pair names the same code |
| `CecKeyboard.UnnamedCodeUnmapped` | cec_keyboard.cpp:200-222 | after a load in which every pair resolved, a code that no pair names is unmapped, whatever the table held before |
| `CecKeyboard.DumpEntry` | cec_keyboard.cpp:357-358 | a dumped entry carries a CEC name whose code is the entry's code and a key name whose key is the entry's key, and "" for a code or key without a name |
| `CecKeyboard.Dump` | cec_keyboard.cpp:354-359 | the dump has one (CEC name, key name) pair per table entry, in table order |
| `CecKeyboard.DumpEntryResolves` | cec_keyboard.cpp:357-358 | a dumped pair whose code and key have names resolves back to the entry it came from |
| `CecKeyboard.DumpResolves` | cec_keyboard.cpp:354-359 | every pair of the dump of a fully named table resolves, to exactly the table's entries in order |
| `CecKeyboard.BuildAscending` | cec_keyboard.cpp:221 | assigning a table's own entries in ascending code order into an empty table rebuilds that table |
| `CecKeyboard.DumpLoadRoundTrip` | cec_keyboard.cpp:347-365 | loading the dump of a fully named table succeeds and reproduces exactly that table, and so every translation |
| `CecKeyboard.Keyboard.constructor` | cec_keyboard.cpp:91-94 | the program starts with the built-in translation table and the opened device (or none), and has not exited |
| `CecKeyboard.Keyboard.LoadKeymap` | cec_keyboard.cpp:198-228 | with no keymap the table is unchanged and defaults are kept; otherwise the table is rebuilt from an empty one out of the resolved pairs, and the outcome is Replaced or the first invalid pair; the process has exited exactly when a pair was invalid |
| `CecKeyboard.Keyboard.DumpKeymap` | cec_keyboard.cpp:347-365 | returns exactly one (getCECControlStr, getKeyStr) pair per table entry, in ascending code order |
| `CecKeyboard.Keyboard.ReloadDump` | cec_keyboard.cpp:347-365 | dumping a fully named table and loading that dump gives Replaced, leaves the table identical and does not exit |
| `CecKeyboard.Keyboard.CecKeyPress` | cec_keyboard.cpp:232-247 | only while the process runs: a mapped code sends its key to an open device once; an unmapped code sends nothing; the table does not change |
| `InputDevice.Device.constructor` | inputdevice/inputdevice.cpp:5-31 | a device just opened has sent no key |
| `InputDevice.Device.SendKeyInput` | inputdevice/inputdevice.cpp:58-64 | one key press-and-release adds exactly that key to the device's trace |

## Left out

- `main` (cec_keyboard.cpp:43-166) is left out. It covers option parsing, the signal handler and `kill_main`, libcec start-up, adapter detection and opening, and the one-second poll loop. All of it is process plumbing and foreign-library calls.
- Reading the YAML file and its `BadFile` exit (cec_keyboard.cpp:172-181), and the timing fields `RepeatRateMs`, `ReleaseDelayMs` and `DoubleTapTimeoutMs` (183-196), are left out. These are yaml-cpp calls, and only the resulting pair sequence matters to the table.
- Emitting the dump as YAML text and parsing it back are left out. A dump is the pair sequence itself.
- All console output is left out: usage text, error messages, and the "Unmapped key pressed!" line. That line calls `getCECControlStr` only to print its result.
- The contents of `cec_code_map`, `input_key_map` and the default `cec_to_key` are parameters, because `ceckeymap.h` is not part of this model. Only their shape as ordered maps is assumed.
- The `InputDevice` constructor, destructor and `emit` (`open`, `ioctl`, `write` on `/dev/uinput`) are left out, along with the exceptions they throw. `SendKeyInput` records the key instead of writing four input events.
- `InputDevice.Device.SendKeyInput` records any integer key. The real device enables only key bits 0 to 255 (inputdevice/inputdevice.cpp:21-24) and stores the key in the 16-bit `ie.code` (47-48). A key outside that range is in the trace but never reaches the system as that key.
- Delivery of `cecKeyPress` on libcec's own thread is left out. The model is sequential.
- `NameLess` compares Dafny characters, whereas `std::string` compares bytes as unsigned char. The two orders agree for the ASCII names the tables use.
- The event queue, the network command dispatcher and the CEC command executor do not appear in this source, so they are not modelled.
