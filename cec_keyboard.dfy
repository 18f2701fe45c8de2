/**
 * The key-translation core of the CEC-to-keyboard bridge: the name lookups,
 * the translation table from CEC button codes to input key codes, loading
 * that table from a keymap document, dumping it, and the key-press callback
 * that forwards translated keys to the virtual keyboard.
 *
 * The two symbol tables (CEC button names, key names) and the default
 * translation table are compiled into the program from a header; here they
 * are parameters.
 */
module CecKeyboard {
  import opened OrderedMaps
  import InputDevice

  /** A libcec user control code (cec_user_control_code), one byte wide. */
  type CecCode = c: int | 0 <= c <= 0xFF

  /** CEC_USER_CONTROL_CODE_UNKNOWN: what a failed CEC name lookup writes. */
  const UNKNOWN_CODE: CecCode := 0xFF

  /** A Linux input key code, as the virtual keyboard takes it. */
  type KeyCode = int

  /** What a failed key-name lookup or a failed translation writes. */
  const NO_KEY: KeyCode := -1

  /**
   * The symbol tables: CEC button names to CEC codes (cec_code_map) and
   * key names to key codes (input_key_map).
   */
  datatype Symbols = Symbols(cecCodes: seq<(string, CecCode)>, inputKeys: seq<(string, KeyCode)>)

  /** Both symbol tables are std::maps: their entries come in ascending name order. */
  predicate WellFormed(t: Symbols) {
    AscendingNames(t.cecCodes) && AscendingNames(t.inputKeys)
  }

  /** The boolean a lookup returns together with the value it writes to its out-parameter. */
  datatype Lookup<T> = Lookup(found: bool, value: T)

  // ---------------------------------------------------------------------------
  // Forward lookups

  /** getCECControlCode: the code of a CEC button name (exact, case-sensitive match). */
  function GetCECControlCode(t: Symbols, name: string): (r: Lookup<CecCode>)
    ensures r.found <==> HasKey(t.cecCodes, name)
    ensures r.found ==> (name, r.value) in t.cecCodes
    ensures !r.found ==> r.value == UNKNOWN_CODE
  {
    match Find(t.cecCodes, name)
    case Some(c) => Lookup(true, c)
    case None => Lookup(false, UNKNOWN_CODE)
  }

  /** getInputKeyCode: the key code of a key name (exact, case-sensitive match). */
  function GetInputKeyCode(t: Symbols, name: string): (r: Lookup<KeyCode>)
    ensures r.found <==> HasKey(t.inputKeys, name)
    ensures r.found ==> (name, r.value) in t.inputKeys
    ensures !r.found ==> r.value == NO_KEY
  {
    match Find(t.inputKeys, name)
    case Some(k) => Lookup(true, k)
    case None => Lookup(false, NO_KEY)
  }

  /** The translation table cec_to_key is a std::map: its entries come in ascending code order. */
  predicate AscendingCodes(table: seq<(CecCode, KeyCode)>) {
    forall i, j :: 0 <= i < j < |table| ==> table[i].0 < table[j].0
  }

  /** translateCECToKeyCode: the key a CEC code is mapped to. */
  function TranslateCECToKeyCode(table: seq<(CecCode, KeyCode)>, code: CecCode): (r: Lookup<KeyCode>)
    ensures r.found <==> HasKey(table, code)
    ensures r.found ==> (code, r.value) in table
    ensures !r.found ==> r.value == NO_KEY
  {
    match Find(table, code)
    case Some(k) => Lookup(true, k)
    case None => Lookup(false, NO_KEY)
  }

  // ---------------------------------------------------------------------------
  // Reverse lookups

  /**
   * The loop shared by getCECControlStr and getKeyStr: walk the table in
   * iteration order and return the first name whose value is v, or "".
   */
  method GetName<V(==)>(names: seq<(string, V)>, v: V) returns (name: string)
    ensures name == FirstName(names, v)
  {
    var i := 0;
    while i < |names|
      invariant 0 <= i <= |names|
      invariant FirstName(names[i..], v) == FirstName(names, v)
    {
      if names[i].1 == v {
        return names[i].0;
      }
      assert names[i..][1..] == names[i + 1..];
      i := i + 1;
    }
    return "";
  }

  /** getCECControlStr: the name of a CEC code, or "" when it has none. */
  method GetCECControlStr(t: Symbols, code: CecCode) returns (name: string)
    requires AscendingNames(t.cecCodes)
    ensures name == FirstName(t.cecCodes, code)
    ensures HasValue(t.cecCodes, code) ==> GetCECControlCode(t, name) == Lookup(true, code)
    ensures !HasValue(t.cecCodes, code) ==> name == ""
    ensures !HasKey(t.cecCodes, "") ==> (name == "" <==> !HasValue(t.cecCodes, code))
    ensures forall i :: 0 <= i < |t.cecCodes| && t.cecCodes[i].1 == code ==>
              name == t.cecCodes[i].0 || NameLess(name, t.cecCodes[i].0)
  {
    name := GetName(t.cecCodes, code);
    AscendingNamesUnique(t.cecCodes);
    if HasValue(t.cecCodes, code) {
      FirstNameFound(t.cecCodes, code);
    }
    forall i | 0 <= i < |t.cecCodes| && t.cecCodes[i].1 == code
      ensures name == t.cecCodes[i].0 || NameLess(name, t.cecCodes[i].0)
    {
      FirstNameLeast(t.cecCodes, code, i);
    }
  }

  /** getKeyStr: the name of a key code, or "" when it has none. */
  method GetKeyStr(t: Symbols, key: KeyCode) returns (name: string)
    requires AscendingNames(t.inputKeys)
    ensures name == FirstName(t.inputKeys, key)
    ensures HasValue(t.inputKeys, key) ==> GetInputKeyCode(t, name) == Lookup(true, key)
    ensures !HasValue(t.inputKeys, key) ==> name == ""
    ensures !HasKey(t.inputKeys, "") ==> (name == "" <==> !HasValue(t.inputKeys, key))
    ensures forall i :: 0 <= i < |t.inputKeys| && t.inputKeys[i].1 == key ==>
              name == t.inputKeys[i].0 || NameLess(name, t.inputKeys[i].0)
  {
    name := GetName(t.inputKeys, key);
    AscendingNamesUnique(t.inputKeys);
    if HasValue(t.inputKeys, key) {
      FirstNameFound(t.inputKeys, key);
    }
    forall i | 0 <= i < |t.inputKeys| && t.inputKeys[i].1 == key
      ensures name == t.inputKeys[i].0 || NameLess(name, t.inputKeys[i].0)
    {
      FirstNameLeast(t.inputKeys, key, i);
    }
  }

  // ---------------------------------------------------------------------------
  // Assigning into the translation table

  /**
   * cec_to_key[code] = key: the entry for code gets the value key, inserted
   * in code order when code was not yet a key.
   */
  function Put(table: seq<(CecCode, KeyCode)>, code: CecCode, key: KeyCode): (r: seq<(CecCode, KeyCode)>)
    ensures forall c :: Find(r, c) == if c == code then Some(key) else Find(table, c)
    ensures forall e :: e in r ==> e == (code, key) || e in table
    ensures AscendingCodes(table) ==> AscendingCodes(r)
  {
    if table == [] then [(code, key)]
    else if table[0].0 == code then [(code, key)] + table[1..]
    else if code < table[0].0 then [(code, key)] + table
    else
      var rest := Put(table[1..], code, key);
      assert forall e :: e in table[1..] ==> e in table;
      assert AscendingCodes(table) ==> AscendingCodes([table[0]] + rest) by {
        if AscendingCodes(table) {
          assert AscendingCodes(table[1..]);
          forall k | 0 <= k < |rest|
            ensures table[0].0 < rest[k].0
          {
            assert rest[k] in rest;
            if rest[k] != (code, key) {
              var m :| 0 <= m < |table[1..]| && table[1..][m] == rest[k];
              assert table[m + 1] == rest[k];
            }
          }
        }
      }
      [table[0]] + rest
  }

  /** The key of the last pair with code c, or None when no pair has code c. */
  function LastAssigned(pairs: seq<(CecCode, KeyCode)>, c: CecCode): (r: Option<KeyCode>)
    ensures r.None? <==> !HasKey(pairs, c)
    ensures r.Some? ==> (c, r.value) in pairs
  {
    if pairs == [] then None
    else if pairs[|pairs| - 1].0 == c then Some(pairs[|pairs| - 1].1)
    else
      var init := pairs[..|pairs| - 1];
      assert HasKey(pairs, c) ==> HasKey(init, c) by {
        if HasKey(pairs, c) {
          var i :| 0 <= i < |pairs| && pairs[i].0 == c;
          assert init[i].0 == c;
        }
      }
      LastAssigned(init, c)
  }

  /** A later pair for the same code overrides an earlier one. */
  lemma {:induction false} LastAssignedIsLast(pairs: seq<(CecCode, KeyCode)>, i: nat)
    requires i < |pairs|
    requires forall j :: i < j < |pairs| ==> pairs[j].0 != pairs[i].0
    ensures LastAssigned(pairs, pairs[i].0) == Some(pairs[i].1)
  {
    var n := |pairs| - 1;
    if i < n {
      var init := pairs[..n];
      assert init[i] == pairs[i];
      LastAssignedIsLast(init, i);
    }
  }

  /** The table left by assigning the pairs one after the other, starting from table. */
  function Build(table: seq<(CecCode, KeyCode)>, pairs: seq<(CecCode, KeyCode)>): (r: seq<(CecCode, KeyCode)>)
    ensures AscendingCodes(table) ==> AscendingCodes(r)
    ensures forall c :: Find(r, c) == if LastAssigned(pairs, c).Some? then LastAssigned(pairs, c) else Find(table, c)
  {
    if pairs == [] then table
    else
      var n := |pairs| - 1;
      Put(Build(table, pairs[..n]), pairs[n].0, pairs[n].1)
  }

  /** Assigning one more pair to a table built from scratch. */
  lemma BuildSnoc(pairs: seq<(CecCode, KeyCode)>, e: (CecCode, KeyCode))
    ensures Build([], pairs + [e]) == Put(Build([], pairs), e.0, e.1)
  {
  }

  // ---------------------------------------------------------------------------
  // Resolving a keymap document

  /** The two lookups one keymap pair (CEC button name, key name) needs. */
  function ResolvePair(t: Symbols, pair: (string, string)): (r: Option<(CecCode, KeyCode)>)
    ensures r.Some? <==> HasKey(t.cecCodes, pair.0) && HasKey(t.inputKeys, pair.1)
    ensures r.Some? ==> (pair.0, r.value.0) in t.cecCodes && (pair.1, r.value.1) in t.inputKeys
  {
    var control := GetCECControlCode(t, pair.0);
    var input := GetInputKeyCode(t, pair.1);
    if control.found && input.found then Some((control.value, input.value)) else None
  }

  /**
   * The pairs resolved in document order, up to the first pair that does not
   * resolve, and that pair, if any.
   */
  datatype Resolution = Resolution(resolved: seq<(CecCode, KeyCode)>, invalid: Option<(string, string)>)

  function Resolve(t: Symbols, pairs: seq<(string, string)>): (r: Resolution)
    ensures |r.resolved| <= |pairs|
    ensures forall i :: 0 <= i < |r.resolved| ==> ResolvePair(t, pairs[i]) == Some(r.resolved[i])
    ensures r.invalid.None? <==> |r.resolved| == |pairs|
    ensures r.invalid.Some? ==>
              && |r.resolved| < |pairs|
              && r.invalid.value == pairs[|r.resolved|]
              && ResolvePair(t, pairs[|r.resolved|]).None?
  {
    if pairs == [] then Resolution([], None)
    else
      var n := |pairs| - 1;
      var prev := Resolve(t, pairs[..n]);
      if prev.invalid.Some? then prev
      else
        match ResolvePair(t, pairs[n])
        case Some(e) => Resolution(prev.resolved + [e], None)
        case None => Resolution(prev.resolved, Some(pairs[n]))
  }

  /** Resolving one more pair after a prefix that resolved completely. */
  lemma ResolveSnoc(t: Symbols, pairs: seq<(string, string)>, i: nat)
    requires i < |pairs|
    requires Resolve(t, pairs[..i]).invalid.None?
    ensures var prev := Resolve(t, pairs[..i]).resolved;
            Resolve(t, pairs[..i + 1]) ==
              match ResolvePair(t, pairs[i])
              case Some(e) => Resolution(prev + [e], None)
              case None => Resolution(prev, Some(pairs[i]))
  {
  }

  /** A completely resolved prefix followed by one more resolvable pair. */
  lemma ResolveAppend(t: Symbols, pairs: seq<(string, string)>, prev: seq<(CecCode, KeyCode)>, e: (CecCode, KeyCode))
    requires |pairs| > 0
    requires Resolve(t, pairs[..|pairs| - 1]) == Resolution(prev, None)
    requires ResolvePair(t, pairs[|pairs| - 1]) == Some(e)
    ensures Resolve(t, pairs) == Resolution(prev + [e], None)
  {
  }

  /** Pairs after an unresolvable one are never looked at. */
  lemma ResolveStops(t: Symbols, pairs: seq<(string, string)>, k: nat)
    requires k <= |pairs|
    requires Resolve(t, pairs[..k]).invalid.Some?
    ensures Resolve(t, pairs) == Resolve(t, pairs[..k])
  {
  }

  /**
   * After a load in which every pair resolved, the code named by pair i
   * translates to the key named by pair i, unless a later pair names the
   * same code.
   */
  lemma LastPairWins(t: Symbols, pairs: seq<(string, string)>, i: nat)
    requires Resolve(t, pairs).invalid.None?
    requires i < |pairs|
    requires forall j :: i < j < |pairs| ==>
               GetCECControlCode(t, pairs[j].0).value != GetCECControlCode(t, pairs[i].0).value
    ensures TranslateCECToKeyCode(Build([], Resolve(t, pairs).resolved), GetCECControlCode(t, pairs[i].0).value)
         == GetInputKeyCode(t, pairs[i].1)
  {
    var resolved := Resolve(t, pairs).resolved;
    assert ResolvePair(t, pairs[i]) == Some(resolved[i]);
    forall j | i < j < |resolved|
      ensures resolved[j].0 != resolved[i].0
    {
      assert ResolvePair(t, pairs[j]) == Some(resolved[j]);
    }
    LastAssignedIsLast(resolved, i);
  }

  /** After a load in which every pair resolved, a code no pair names is unmapped. */
  lemma UnnamedCodeUnmapped(t: Symbols, pairs: seq<(string, string)>, c: CecCode)
    requires Resolve(t, pairs).invalid.None?
    requires forall j :: 0 <= j < |pairs| ==> GetCECControlCode(t, pairs[j].0).value != c
    ensures TranslateCECToKeyCode(Build([], Resolve(t, pairs).resolved), c) == Lookup(false, NO_KEY)
  {
  }

  // ---------------------------------------------------------------------------
  // Dumping the translation table

  /** One dumped entry: the CEC button name and the key name. */
  function DumpEntry(t: Symbols, e: (CecCode, KeyCode)): (r: (string, string))
    ensures HasValue(t.cecCodes, e.0) ==> (r.0, e.0) in t.cecCodes
    ensures !HasValue(t.cecCodes, e.0) ==> r.0 == ""
    ensures HasValue(t.inputKeys, e.1) ==> (r.1, e.1) in t.inputKeys
    ensures !HasValue(t.inputKeys, e.1) ==> r.1 == ""
  {
    (FirstName(t.cecCodes, e.0), FirstName(t.inputKeys, e.1))
  }

  /** The keymap document dump_keymap writes: one entry per table entry, in table order. */
  function Dump(t: Symbols, table: seq<(CecCode, KeyCode)>): (r: seq<(string, string)>)
    ensures |r| == |table|
    ensures forall i :: 0 <= i < |table| ==> r[i] == DumpEntry(t, table[i])
  {
    if table == [] then []
    else
      var n := |table| - 1;
      var init := table[..n];
      assert forall i :: 0 <= i < n ==> init[i] == table[i];
      Dump(t, init) + [DumpEntry(t, table[n])]
  }

  /** Every code and every key of the table has a name. */
  predicate AllNamed(t: Symbols, table: seq<(CecCode, KeyCode)>) {
    forall i :: 0 <= i < |table| ==> HasValue(t.cecCodes, table[i].0) && HasValue(t.inputKeys, table[i].1)
  }

  /** A dumped entry whose code and key both have names resolves back to that entry. */
  lemma DumpEntryResolves(t: Symbols, e: (CecCode, KeyCode))
    requires WellFormed(t)
    requires HasValue(t.cecCodes, e.0) && HasValue(t.inputKeys, e.1)
    ensures ResolvePair(t, DumpEntry(t, e)) == Some(e)
  {
    AscendingNamesUnique(t.cecCodes);
    AscendingNamesUnique(t.inputKeys);
    FirstNameFound(t.cecCodes, e.0);
    FirstNameFound(t.inputKeys, e.1);
  }

  /** The dump of a table without its last entry is the dump without its last pair. */
  lemma DumpInit(t: Symbols, table: seq<(CecCode, KeyCode)>)
    requires table != []
    ensures Dump(t, table)[..|table| - 1] == Dump(t, table[..|table| - 1])
  {
  }

  /** Every pair of a dump resolves back to the entry it was written from. */
  lemma {:induction false} DumpResolves(t: Symbols, table: seq<(CecCode, KeyCode)>)
    requires WellFormed(t) && AllNamed(t, table)
    ensures Resolve(t, Dump(t, table)) == Resolution(table, None)
  {
    if table != [] {
      var n := |table| - 1;
      var init := table[..n];
      var dump := Dump(t, table);
      assert AllNamed(t, init) by {
        forall i | 0 <= i < n
          ensures HasValue(t.cecCodes, init[i].0) && HasValue(t.inputKeys, init[i].1)
        {
          assert init[i] == table[i];
        }
      }
      DumpInit(t, table);
      DumpResolves(t, init);
      DumpEntryResolves(t, table[n]);
      ResolveAppend(t, dump, init, table[n]);
      assert init + [table[n]] == table;
    }
  }

  /** Assigning a code above every code in the table appends its entry. */
  lemma {:induction false} PutAtEnd(table: seq<(CecCode, KeyCode)>, code: CecCode, key: KeyCode)
    requires forall i :: 0 <= i < |table| ==> table[i].0 < code
    ensures Put(table, code, key) == table + [(code, key)]
  {
    if table != [] {
      PutAtEnd(table[1..], code, key);
      assert [table[0]] + (table[1..] + [(code, key)]) == table + [(code, key)];
    }
  }

  /** Assigning the entries of a table in ascending code order rebuilds exactly that table. */
  lemma {:induction false} BuildAscending(table: seq<(CecCode, KeyCode)>)
    requires AscendingCodes(table)
    ensures Build([], table) == table
  {
    if table != [] {
      var n := |table| - 1;
      BuildAscending(table[..n]);
      PutAtEnd(table[..n], table[n].0, table[n].1);
      assert table[..n] + [table[n]] == table;
    }
  }

  /** Loading a dump of a fully named table loads without error and reproduces the table. */
  lemma DumpLoadRoundTrip(t: Symbols, table: seq<(CecCode, KeyCode)>)
    requires WellFormed(t) && AscendingCodes(table) && AllNamed(t, table)
    ensures Resolve(t, Dump(t, table)).invalid.None?
    ensures Build([], Resolve(t, Dump(t, table)).resolved) == table
  {
    DumpResolves(t, table);
    BuildAscending(table);
  }

  // ---------------------------------------------------------------------------
  // The program state: the translation table and the output device

  /** How loading a keymap document ends. */
  datatype LoadOutcome =
    | Replaced                                 // every pair resolved; the table was replaced
    | DefaultsKept                             // the document has no keymap
    | InvalidPair(key: string, value: string)  // this pair did not resolve; the process exits with status 1

  class Keyboard {
    const symbols: Symbols
    /** cec_to_key */
    var cecToKey: seq<(CecCode, KeyCode)>
    /** The virtual keyboard, or null before it is opened. */
    var id: InputDevice.Device?
    /** The process has called exit(1); nothing runs after that. */
    ghost var exited: bool

    ghost predicate Valid()
      reads this
    {
      WellFormed(symbols) && AscendingCodes(cecToKey)
    }

    /** The state the program starts in: the built-in translation table. */
    constructor (symbols: Symbols, defaults: seq<(CecCode, KeyCode)>, id: InputDevice.Device?)
      requires WellFormed(symbols) && AscendingCodes(defaults)
      ensures Valid()
      ensures this.symbols == symbols && cecToKey == defaults && this.id == id && !exited
    {
      this.symbols := symbols;
      cecToKey := defaults;
      this.id := id;
      exited := false;
    }

    /**
     * The keymap part of read_config_yaml. With no keymap the table is kept;
     * otherwise it is cleared and the pairs are assigned in document order
     * until one of them does not resolve, which ends the process.
     */
    method LoadKeymap(keymap: Option<seq<(string, string)>>) returns (outcome: LoadOutcome)
      requires Valid() && !exited
      modifies this`cecToKey, this`exited
      ensures Valid()
      ensures exited <==> outcome.InvalidPair?
      ensures keymap.None? ==> outcome == DefaultsKept && cecToKey == old(cecToKey)
      ensures keymap.Some? ==>
                var res := Resolve(symbols, keymap.value);
                && cecToKey == Build([], res.resolved)
                && outcome == if res.invalid.None? then Replaced
                              else InvalidPair(res.invalid.value.0, res.invalid.value.1)
    {
      if keymap.None? {
        return DefaultsKept;
      }
      var pairs := keymap.value;
      cecToKey := [];
      var i := 0;
      while i < |pairs|
        invariant 0 <= i <= |pairs|
        invariant Resolve(symbols, pairs[..i]).invalid.None?
        invariant cecToKey == Build([], Resolve(symbols, pairs[..i]).resolved)
        invariant AscendingCodes(cecToKey)
        invariant !exited
      {
        var (key, value) := pairs[i];
        var controlCode := GetCECControlCode(symbols, key);
        var inputKey := GetInputKeyCode(symbols, value);
        ghost var prev := Resolve(symbols, pairs[..i]).resolved;
        ResolveSnoc(symbols, pairs, i);
        if !(controlCode.found && inputKey.found) {
          ResolveStops(symbols, pairs, i + 1);
          exited := true;
          return InvalidPair(key, value);
        }
        BuildSnoc(prev, (controlCode.value, inputKey.value));
        cecToKey := Put(cecToKey, controlCode.value, inputKey.value);
        i := i + 1;
      }
      assert pairs[..i] == pairs;
      return Replaced;
    }

    /** dump_keymap: the (CEC button name, key name) pair of every entry, in table order. */
    method DumpKeymap() returns (out: seq<(string, string)>)
      requires Valid() && !exited
      ensures out == Dump(symbols, cecToKey)
    {
      out := [];
      var i := 0;
      while i < |cecToKey|
        invariant 0 <= i <= |cecToKey|
        invariant |out| == i
        invariant forall j :: 0 <= j < i ==> out[j] == DumpEntry(symbols, cecToKey[j])
      {
        var cecName := GetCECControlStr(symbols, cecToKey[i].0);
        var keyName := GetKeyStr(symbols, cecToKey[i].1);
        out := out + [(cecName, keyName)];
        i := i + 1;
      }
    }

    /** Dumping the table and loading that dump back leaves the table as it was. */
    method ReloadDump() returns (outcome: LoadOutcome)
      requires Valid() && !exited && AllNamed(symbols, cecToKey)
      modifies this`cecToKey, this`exited
      ensures Valid() && !exited
      ensures outcome == Replaced && cecToKey == old(cecToKey)
    {
      var dump := DumpKeymap();
      DumpLoadRoundTrip(symbols, cecToKey);
      outcome := LoadKeymap(Some(dump));
    }

    /**
     * cecKeyPress: a mapped code sends its key to the device once; an
     * unmapped code sends nothing. The table does not change.
     */
    method CecKeyPress(code: CecCode)
      requires Valid() && !exited
      modifies id
      ensures Valid() && unchanged(this)
      ensures old(id) != null ==>
                var tr := TranslateCECToKeyCode(cecToKey, code);
                id.sent == old(id.sent) + (if tr.found then [tr.value] else [])
    {
      var tr := TranslateCECToKeyCode(cecToKey, code);
      if tr.found {
        if id != null {
          id.SendKeyInput(tr.value);
        }
      }
    }
  }
}
