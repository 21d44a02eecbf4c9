/** Properties of `get` and `getAll` as the Mapping module defines them. */
module LoadFacts {
  import opened Wrappers
  import opened Metadata
  import opened Backend
  import opened Mapping

  /** Slot `i` of a successful populate is what field `i` alone yields. */
  lemma {:induction false} PopulateSeqAt(reg: Registry, ts: Tables, fs: seq<FieldDecl>, row: Row, fuel: nat, i: nat)
    requires PopulateSeq(reg, ts, fs, row, fuel).Ok? && i < |fs|
    ensures SlotOf(reg, ts, fs[i], row, fuel) == Ok(PopulateSeq(reg, ts, fs, row, fuel).value[i])
  {
    var n := |fs| - 1;
    if i < n {
      PopulateSeqAt(reg, ts, fs[..n], row, fuel, i);
      assert fs[..n][i] == fs[i];
    }
  }

  /** Populating succeeds exactly when every field succeeds on its own: the
      loop aborts at the first field that fails. */
  lemma {:induction false} PopulateSeqOk(reg: Registry, ts: Tables, fs: seq<FieldDecl>, row: Row, fuel: nat)
    ensures PopulateSeq(reg, ts, fs, row, fuel).Ok? <==> forall i :: 0 <= i < |fs| ==> SlotOf(reg, ts, fs[i], row, fuel).Ok?
  {
    if fs != [] {
      var n := |fs| - 1;
      PopulateSeqOk(reg, ts, fs[..n], row, fuel);
      assert forall i :: 0 <= i < n ==> fs[..n][i] == fs[i];
      if PopulateSeq(reg, ts, fs, row, fuel).Ok? {
        forall i | 0 <= i < |fs| ensures SlotOf(reg, ts, fs[i], row, fuel).Ok? {
          PopulateSeqAt(reg, ts, fs, row, fuel, i);
        }
      }
    }
  }

  /** Where every field reads back as the value a map holds under its name,
      populating yields exactly those values. */
  lemma PopulatedAs(reg: Registry, ts: Tables, fs: seq<FieldDecl>, row: Row, fuel: nat, vals: map<string, Value>)
    requires forall i :: 0 <= i < |fs| ==> fs[i].name in vals && SlotOf(reg, ts, fs[i], row, fuel) == Ok(Plain(vals[fs[i].name]))
    ensures PopulateSeq(reg, ts, fs, row, fuel).Ok?
    ensures forall i :: 0 <= i < |fs| ==> PopulateSeq(reg, ts, fs, row, fuel).value[i] == Plain(vals[fs[i].name])
  {
    PopulateSeqOk(reg, ts, fs, row, fuel);
    forall i | 0 <= i < |fs| ensures PopulateSeq(reg, ts, fs, row, fuel).value[i] == Plain(vals[fs[i].name]) {
      PopulateSeqAt(reg, ts, fs, row, fuel, i);
    }
  }

  /** `get` of a key whose row is found is the populated row. */
  lemma LoadFromRow(reg: Registry, ts: Tables, t: string, id: int, fuel: nat, row: Row)
    requires fuel > 0 && t in reg && SelectById(ts, TableOf(reg[t]), id) == Ok(Some(row))
    requires PopulateSeq(reg, ts, reg[t].fields, row, fuel - 1).Ok?
    ensures Load(reg, ts, t, id, fuel) == Ok(Some(Loaded(t, PopulateSeq(reg, ts, reg[t].fields, row, fuel - 1).value)))
  {
  }

  /** What each of the fields `fs` loads to from `row` on its own. */
  ghost function FieldSlots(reg: Registry, ts: Tables, fs: seq<FieldDecl>, row: Row, fuel: nat): (rs: seq<Result<Slot>>) {
    seq(|fs|, i requires 0 <= i < |fs| => SlotOf(reg, ts, fs[i], row, fuel))
  }

  /** The slots of `rs` when every one of them succeeds, and the error
      otherwise. */
  function AllOk(rs: seq<Result<Slot>>): (r: Result<seq<Slot>>) {
    if forall i :: 0 <= i < |rs| ==> rs[i].Ok? then Ok(seq(|rs|, i requires 0 <= i < |rs| => rs[i].value)) else Err
  }

  /** The outcome of `get` for class `t` whose row was found, given the
      outcome of populating it. */
  function Found(t: string, slots: Result<seq<Slot>>): (r: Result<Option<Loaded>>) {
    match slots
    case Ok(v) => Ok(Some(Loaded(t, v)))
    case Err => Err
  }

  /** An instance assembled from per-field outcomes exists exactly when
      every field succeeds, and then holds each field's slot. */
  lemma FoundAllOk(t: string, rs: seq<Result<Slot>>)
    ensures var r := Found(t, AllOk(rs));
            && (r.Ok? <==> forall i :: 0 <= i < |rs| ==> rs[i].Ok?)
            && (r.Ok? ==> (r.value.Some? && r.value.value.cls == t && |r.value.value.slots| == |rs|
                           && forall i :: 0 <= i < |rs| ==> r.value.value.slots[i] == rs[i].value))
  {
  }

  /** Populating a row fails exactly when one of its fields fails on its
      own, and otherwise holds what each field loads to. */
  lemma PopulateSeqAll(reg: Registry, ts: Tables, fs: seq<FieldDecl>, row: Row, fuel: nat)
    ensures PopulateSeq(reg, ts, fs, row, fuel) == AllOk(FieldSlots(reg, ts, fs, row, fuel))
  {
    PopulateSeqOk(reg, ts, fs, row, fuel);
    var p := PopulateSeq(reg, ts, fs, row, fuel);
    var rs := FieldSlots(reg, ts, fs, row, fuel);
    var q := AllOk(rs);
    assert forall i :: 0 <= i < |fs| ==> rs[i] == SlotOf(reg, ts, fs[i], row, fuel);
    if p.Ok? {
      forall i | 0 <= i < |fs| ensures p.value[i] == q.value[i] {
        PopulateSeqAt(reg, ts, fs, row, fuel, i);
      }
      assert p.value == q.value;
    }
  }

  /** `get` of a key whose row is found: it fails exactly when some field of
      that row fails to load, and otherwise holds what each field loads to. */
  lemma LoadRowAs(reg: Registry, ts: Tables, t: string, id: int, fuel: nat, row: Row)
    requires fuel > 0 && t in reg && SelectById(ts, TableOf(reg[t]), id) == Ok(Some(row))
    ensures Load(reg, ts, t, id, fuel) == Found(t, AllOk(FieldSlots(reg, ts, reg[t].fields, row, fuel - 1)))
  {
    PopulateSeqAll(reg, ts, reg[t].fields, row, fuel - 1);
  }

  /** `get` of a key whose row is found, where that row's fields load
      exactly as `want` says. */
  lemma LoadRowAsWanted(reg: Registry, ts: Tables, t: string, id: int, fuel: nat, row: Row, want: seq<Result<Slot>>)
    requires fuel > 0 && t in reg && SelectById(ts, TableOf(reg[t]), id) == Ok(Some(row))
    requires Found(t, AllOk(FieldSlots(reg, ts, reg[t].fields, row, fuel - 1))) == Found(t, AllOk(want))
    ensures Load(reg, ts, t, id, fuel) == Found(t, AllOk(want))
  {
    LoadRowAs(reg, ts, t, id, fuel, row);
  }

  /** Instance `k` of `getAll` is built from row `k`. */
  lemma {:induction false} PopulateRowsAt(reg: Registry, ts: Tables, t: string, rows: seq<Row>, fuel: nat, k: nat)
    requires t in reg && PopulateRows(reg, ts, t, rows, fuel).Ok? && k < |rows|
    ensures PopulateSeq(reg, ts, reg[t].fields, rows[k], fuel).Ok?
    ensures PopulateRows(reg, ts, t, rows, fuel).value[k] == Loaded(t, PopulateSeq(reg, ts, reg[t].fields, rows[k], fuel).value)
  {
    var n := |rows| - 1;
    if k < n {
      PopulateRowsAt(reg, ts, t, rows[..n], fuel, k);
      assert rows[..n][k] == rows[k];
    }
  }

  /** In a valid table, looking a row's key up finds that very row. */
  lemma SelectFindsRow(ts: Tables, table: string, k: nat)
    requires TablesValid(ts) && table in ts && k < |ts[table].rows|
    ensures Key(ts[table].rows[k]).SqlInt?
    ensures SelectById(ts, table, Key(ts[table].rows[k]).n) == Ok(Some(ts[table].rows[k]))
  {
    var rows := ts[table].rows;
    assert rows[k] in rows;
    var f := FirstWithId(rows, Key(rows[k]).n);
    assert f.Some?;
  }

  /** `getAll` and `get` agree: the instance `getAll` builds for row `k` is
      the one `get` builds for that row's key (`get` spends one level of
      nesting on the lookup itself). */
  lemma GetAllAgreesWithGet(reg: Registry, ts: Tables, t: string, fuel: nat, k: nat)
    requires TablesValid(ts) && LoadAll(reg, ts, t, fuel).Ok? && k < |LoadAll(reg, ts, t, fuel).value|
    ensures t in reg && TableOf(reg[t]) in ts && k < |ts[TableOf(reg[t])].rows|
    ensures Key(ts[TableOf(reg[t])].rows[k]).SqlInt?
    ensures Load(reg, ts, t, Key(ts[TableOf(reg[t])].rows[k]).n, fuel + 1) == Ok(Some(LoadAll(reg, ts, t, fuel).value[k]))
  {
    var rows := ts[TableOf(reg[t])].rows;
    SelectFindsRow(ts, TableOf(reg[t]), k);
    PopulateRowsAt(reg, ts, t, rows, fuel, k);
  }

  /** A found instance's `id` field holds the key it was looked up by. */
  lemma LoadedKeySlot(reg: Registry, ts: Tables, t: string, id: int, fuel: nat, i: nat)
    requires Load(reg, ts, t, id, fuel).Ok? && Load(reg, ts, t, id, fuel).value.Some?
    requires t in reg && i < |reg[t].fields| && reg[t].fields[i].name == "id"
    requires reg[t].fields[i].kind == IntKind || reg[t].fields[i].kind == LongKind
    ensures Load(reg, ts, t, id, fuel).value.value.slots[i] ==
              Plain(if reg[t].fields[i].kind == IntKind then IntV(id) else LongV(id))
  {
    var row := SelectById(ts, TableOf(reg[t]), id).value.value;
    assert HasId(row, id);
    PopulateSeqAt(reg, ts, reg[t].fields, row, fuel - 1, i);
  }

  /** A non-NULL value in the column of a `boolean` field makes every load
      of that row fail: the driver returns a number, and a number cannot be
      stored into a `boolean`. */
  lemma BooleanColumnBreaksLoad(reg: Registry, ts: Tables, t: string, id: int, fuel: nat, i: nat)
    requires fuel > 0 && t in reg && TableOf(reg[t]) in ts
    requires SelectById(ts, TableOf(reg[t]), id).Ok? && SelectById(ts, TableOf(reg[t]), id).value.Some?
    requires i < |reg[t].fields| && reg[t].fields[i].kind == BooleanKind
    requires reg[t].fields[i].name in SelectById(ts, TableOf(reg[t]), id).value.value
    requires SelectById(ts, TableOf(reg[t]), id).value.value[reg[t].fields[i].name] != SqlNull
    ensures Load(reg, ts, t, id, fuel).Err?
  {
    var row := SelectById(ts, TableOf(reg[t]), id).value.value;
    PopulateSeqOk(reg, ts, reg[t].fields, row, fuel - 1);
  }

  /** A REAL value in the column of a `float` field makes every load of
      that row fail: the driver returns a Double, and `field.set` does not
      narrow a Double into a `float`. A saved `float` binds as REAL, so it
      never loads back. */
  lemma FloatColumnBreaksLoad(reg: Registry, ts: Tables, t: string, id: int, fuel: nat, i: nat)
    requires fuel > 0 && t in reg && TableOf(reg[t]) in ts
    requires SelectById(ts, TableOf(reg[t]), id).Ok? && SelectById(ts, TableOf(reg[t]), id).value.Some?
    requires i < |reg[t].fields| && reg[t].fields[i].kind == FloatKind
    requires reg[t].fields[i].name in SelectById(ts, TableOf(reg[t]), id).value.value
    requires SelectById(ts, TableOf(reg[t]), id).value.value[reg[t].fields[i].name].SqlReal?
    ensures Load(reg, ts, t, id, fuel).Err?
  {
    var row := SelectById(ts, TableOf(reg[t]), id).value.value;
    PopulateSeqOk(reg, ts, reg[t].fields, row, fuel - 1);
  }

  /** Fuel only bounds the nesting: where `get` succeeds, more fuel changes
      nothing. */
  lemma {:induction false} LoadFuel(reg: Registry, ts: Tables, t: string, id: int, fuel: nat)
    requires Load(reg, ts, t, id, fuel).Ok?
    ensures Load(reg, ts, t, id, fuel + 1) == Load(reg, ts, t, id, fuel)
    decreases fuel, 0, 0
  {
    var row := SelectById(ts, TableOf(reg[t]), id);
    if row.value.Some? {
      PopulateSeqFuel(reg, ts, reg[t].fields, row.value.value, fuel - 1);
    }
  }

  lemma {:induction false} PopulateSeqFuel(reg: Registry, ts: Tables, fs: seq<FieldDecl>, row: Row, fuel: nat)
    requires PopulateSeq(reg, ts, fs, row, fuel).Ok?
    ensures PopulateSeq(reg, ts, fs, row, fuel + 1) == PopulateSeq(reg, ts, fs, row, fuel)
    decreases fuel, 1, |fs|
  {
    if fs != [] {
      PopulateSeqFuel(reg, ts, fs[..|fs| - 1], row, fuel);
      SlotOfFuel(reg, ts, fs[|fs| - 1], row, fuel);
    }
  }

  lemma {:induction false} SlotOfFuel(reg: Registry, ts: Tables, f: FieldDecl, row: Row, fuel: nat)
    requires SlotOf(reg, ts, f, row, fuel).Ok?
    ensures SlotOf(reg, ts, f, row, fuel + 1) == SlotOf(reg, ts, f, row, fuel)
    decreases fuel, 1, 0
  {
    if f.name in row && IsEntityField(f.kind) {
      var n := GetLong(row[f.name]).value;
      if n > 0 {
        LoadFuel(reg, ts, f.kind.name, n, fuel);
      }
    }
  }
}
