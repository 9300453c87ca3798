/** The table from cursor roles to Windows registry value names
    (`CURSOR_KEYS`), what the apply and reset loops write with it, and the
    registry key itself as an external collaborator. */
module CursorRegistry {

  /** `CURSOR_KEYS` in declaration order: (role, registry value name). */
  const CursorKeys: seq<(string, string)> := [
    ("pointer", "Arrow"),
    ("help", "Help"),
    ("busy", "Busy"),
    ("link", "AppStarting"),
    ("cross", "Crosshair"),
    ("text", "IBeam"),
    ("move", "SizeAll"),
    ("dgn1", "SizeNESW"),
    ("dgn2", "SizeNWSE"),
    ("horz", "SizeWE"),
    ("vert", "SizeNS"),
    ("alternate", "AlternateSelect"),
    ("unavailable", "No"),
    ("work", "WorkingInBackground"),
    ("hand", "Hand"),
    ("normal", "Arrow"),
    ("alternate2", "AlternateSelect"),
    ("diagonal1", "SizeNESW"),
    ("diagonal2", "SizeNWSE"),
    ("handwriting", "Handwriting"),
    ("horizontal", "SizeWE"),
    ("vertical", "SizeNS"),
    ("person", "Person"),
    ("pin", "Pin"),
    ("precision", "PrecisionSelect"),
    ("working", "WorkingInBackground")
  ]

  /** The registry value names a table writes. */
  function RegistryNames(keys: seq<(string, string)>): set<string> {
    set i | 0 <= i < |keys| :: keys[i].1
  }

  /** Entry `i` of the table writes registry name `name` for this scheme. */
  predicate Writes(scheme: map<string, string>, keys: seq<(string, string)>, i: int, name: string) {
    0 <= i < |keys| && keys[i].1 == name && keys[i].0 in scheme
  }

  /** The registry values after the apply loop: each entry whose role the
      scheme has writes that role's path under its registry name. */
  function Written(reg: map<string, string>, scheme: map<string, string>, keys: seq<(string, string)>): map<string, string>
    decreases |keys|
  {
    if keys == [] then reg
    else
      var prev := Written(reg, scheme, keys[..|keys| - 1]);
      var entry := keys[|keys| - 1];
      if entry.0 in scheme then prev[entry.1 := scheme[entry.0]] else prev
  }

  /** Later entries override earlier ones: a registry name gets the path of
      the last entry that writes it. */
  lemma {:induction false} WrittenLastWins(reg: map<string, string>, scheme: map<string, string>,
                                           keys: seq<(string, string)>, i: int, name: string)
    requires Writes(scheme, keys, i, name)
    requires forall j | i < j < |keys| :: !Writes(scheme, keys, j, name)
    ensures name in Written(reg, scheme, keys)
    ensures Written(reg, scheme, keys)[name] == scheme[keys[i].0]
  {
    var init := keys[..|keys| - 1];
    if i < |keys| - 1 {
      assert !Writes(scheme, keys, |keys| - 1, name);
      assert init[i] == keys[i];
      forall j | i < j < |init| ensures !Writes(scheme, init, j, name) {
        assert init[j] == keys[j];
        assert !Writes(scheme, keys, j, name);
      }
      WrittenLastWins(reg, scheme, init, i, name);
    }
  }

  /** A registry name no present role maps to keeps its value (or its
      absence). */
  lemma {:induction false} WrittenUntouched(reg: map<string, string>, scheme: map<string, string>,
                                            keys: seq<(string, string)>, name: string)
    requires forall j | 0 <= j < |keys| :: !Writes(scheme, keys, j, name)
    ensures name in Written(reg, scheme, keys) <==> name in reg
    ensures name in reg ==> Written(reg, scheme, keys)[name] == reg[name]
  {
    if keys != [] {
      var init := keys[..|keys| - 1];
      assert !Writes(scheme, keys, |keys| - 1, name);
      forall j | 0 <= j < |init| ensures !Writes(scheme, init, j, name) {
        assert init[j] == keys[j];
        assert !Writes(scheme, keys, j, name);
      }
      WrittenUntouched(reg, scheme, init, name);
    }
  }

  /** Only names of the table are ever written. */
  lemma {:induction false} WrittenKeys(reg: map<string, string>, scheme: map<string, string>, keys: seq<(string, string)>)
    ensures Written(reg, scheme, keys).Keys <= reg.Keys + RegistryNames(keys)
  {
    if keys != [] {
      var init := keys[..|keys| - 1];
      WrittenKeys(reg, scheme, init);
      assert RegistryNames(init) <= RegistryNames(keys) by {
        forall n | n in RegistryNames(init) ensures n in RegistryNames(keys) {
          var j :| 0 <= j < |init| && init[j].1 == n;
          assert keys[j] == init[j];
        }
      }
      assert keys[|keys| - 1].1 in RegistryNames(keys);
    }
  }

  /** With both roles present, "working" (the later entry) decides
      `WorkingInBackground`, not "work". */
  lemma WorkingOverridesWork(reg: map<string, string>, scheme: map<string, string>)
    requires "work" in scheme && "working" in scheme
    ensures "WorkingInBackground" in Written(reg, scheme, CursorKeys)
    ensures Written(reg, scheme, CursorKeys)["WorkingInBackground"] == scheme["working"]
  {
    assert CursorKeys[25] == ("working", "WorkingInBackground");
    WrittenLastWins(reg, scheme, CursorKeys, 25, "WorkingInBackground");
  }

  /** Only "pointer" and "normal" map to `Arrow`. */
  lemma ArrowEntries(j: int)
    requires 0 <= j < |CursorKeys| && CursorKeys[j].1 == "Arrow"
    ensures j == 0 || j == 15
  {
  }

  /** `Arrow` comes from "normal" whenever the scheme has it, else from
      "pointer". */
  lemma ArrowFromNormalOrPointer(reg: map<string, string>, scheme: map<string, string>)
    requires "pointer" in scheme || "normal" in scheme
    ensures "Arrow" in Written(reg, scheme, CursorKeys)
    ensures Written(reg, scheme, CursorKeys)["Arrow"] ==
            if "normal" in scheme then scheme["normal"] else scheme["pointer"]
  {
    forall j | 0 <= j < |CursorKeys| && CursorKeys[j].1 == "Arrow" ensures j == 0 || j == 15 {
      ArrowEntries(j);
    }
    if "normal" in scheme {
      WrittenLastWins(reg, scheme, CursorKeys, 15, "Arrow");
    } else {
      WrittenLastWins(reg, scheme, CursorKeys, 0, "Arrow");
    }
  }

  /** The registry values after the reset loop: every name of the table
      set to the empty string. */
  function Cleared(reg: map<string, string>, keys: seq<(string, string)>): map<string, string>
    decreases |keys|
  {
    if keys == [] then reg
    else Cleared(reg, keys[..|keys| - 1])[keys[|keys| - 1].1 := ""]
  }

  /** Reset blanks every registry name of the table and leaves every other
      value as it was. */
  lemma {:induction false} ClearedSpec(reg: map<string, string>, keys: seq<(string, string)>)
    ensures Cleared(reg, keys).Keys == reg.Keys + RegistryNames(keys)
    ensures forall n | n in RegistryNames(keys) :: Cleared(reg, keys)[n] == ""
    ensures forall n | n in reg && n !in RegistryNames(keys) :: Cleared(reg, keys)[n] == reg[n]
  {
    if keys != [] {
      var init := keys[..|keys| - 1];
      ClearedSpec(reg, init);
      assert RegistryNames(keys) == RegistryNames(init) + {keys[|keys| - 1].1} by {
        assert forall j | 0 <= j < |init| :: init[j] == keys[j];
      }
    }
  }

  /** Resetting after applying any scheme gives the same registry as
      resetting straight away. */
  lemma ResetUndoesApply(reg: map<string, string>, scheme: map<string, string>, keys: seq<(string, string)>)
    ensures Cleared(Written(reg, scheme, keys), keys) == Cleared(reg, keys)
  {
    var w := Written(reg, scheme, keys);
    ClearedSpec(reg, keys);
    ClearedSpec(w, keys);
    WrittenKeys(reg, scheme, keys);
    forall n | n in reg && n !in RegistryNames(keys) ensures n in w && w[n] == reg[n] {
      forall j | 0 <= j < |keys| ensures !Writes(scheme, keys, j, n) {
        assert keys[j].1 in RegistryNames(keys);
      }
      WrittenUntouched(reg, scheme, keys, n);
    }
  }

  /** The key `HKEY_CURRENT_USER\Control Panel\Cursors` and the number of
      `SystemParametersInfoW(SPI_SETCURSORS, ...)` broadcasts so far. */
  class Registry {
    var values: map<string, string>
    var refreshes: nat

    constructor (initial: map<string, string>)
      ensures values == initial && refreshes == 0
    {
      values := initial;
      refreshes := 0;
    }

    /** `winreg.SetValueEx(key, name, 0, REG_SZ, value)`. */
    method SetValue(name: string, value: string)
      modifies this
      ensures values == old(values)[name := value]
      ensures refreshes == old(refreshes)
    {
      values := values[name := value];
    }

    /** Asks Windows to reload the cursor settings. */
    method Refresh()
      modifies this
      ensures values == old(values)
      ensures refreshes == old(refreshes) + 1
    {
      refreshes := refreshes + 1;
    }
  }
}
