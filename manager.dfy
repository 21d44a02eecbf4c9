/** `ReflectivePersistenceManager`: the object that loads, saves and deletes
    entity instances through a connection. Each method is proved against
    the specification functions of `Mapping`: what it returns and what it
    leaves in the store and in the instances are exactly what those
    functions compute from the state before the call. */
module Manager {
  import opened Wrappers
  import opened Metadata
  import opened Backend
  import opened Mapping
  import SqlText
  import LoadFacts
  import Statements

  // ---------------------------------------------------------------------
  // Loaded values and the instances that hold them

  /** The field value `v` is what the slot `s` describes: the same plain
      value, or a reference into `R` to an instance that holds the nested
      loaded value. */
  ghost predicate ValueHolds(reg: Registry, s: Slot, v: Value, R: set<Entity>)
    reads R
    decreases s
  {
    match s
    case Plain(x) => v == x
    case Nested(l) => v.Ref? && v.obj in R && Models(reg, l, v.obj, R)
  }

  /** The instance `e` (and every instance it reaches, all in `R`) is the
      loaded value `l`: its class, exactly the declared fields, and one
      field per slot. */
  ghost predicate Models(reg: Registry, l: Loaded, e: Entity, R: set<Entity>)
    reads R
    decreases l
  {
    && e in R && l.cls in reg && e.cls == l.cls
    && |l.slots| == |reg[l.cls].fields|
    && e.fields.Keys == DefaultFields(reg[l.cls].fields).Keys
    && forall i :: 0 <= i < |l.slots| ==>
         reg[l.cls].fields[i].name in e.fields && ValueHolds(reg, l.slots[i], e.fields[reg[l.cls].fields[i].name], R)
  }

  lemma {:induction false} ValueHoldsGrow(reg: Registry, s: Slot, v: Value, R: set<Entity>, R': set<Entity>)
    requires ValueHolds(reg, s, v, R) && R <= R'
    ensures ValueHolds(reg, s, v, R')
    decreases s
  {
    if s.Nested? {
      ModelsGrow(reg, s.obj, v.obj, R, R');
    }
  }

  /** A bigger set of instances still holds a loaded value. */
  lemma {:induction false} ModelsGrow(reg: Registry, l: Loaded, e: Entity, R: set<Entity>, R': set<Entity>)
    requires Models(reg, l, e, R) && R <= R'
    ensures Models(reg, l, e, R')
    decreases l
  {
    var fs := reg[l.cls].fields;
    forall i | 0 <= i < |l.slots| ensures ValueHolds(reg, l.slots[i], e.fields[fs[i].name], R') {
      ValueHoldsGrow(reg, l.slots[i], e.fields[fs[i].name], R, R');
    }
  }

  /** The first `|slots|` fields of `fs` hold the slots in the field map
      `m`; every later field still holds its constructed value. */
  ghost predicate FieldsHold(reg: Registry, fs: seq<FieldDecl>, slots: seq<Slot>, m: map<string, Value>, R: set<Entity>)
    reads R
  {
    && |slots| <= |fs|
    && (forall j :: 0 <= j < |slots| ==> fs[j].name in m && ValueHolds(reg, slots[j], m[fs[j].name], R))
    && (forall j :: |slots| <= j < |fs| ==> fs[j].name in m && m[fs[j].name] == Default(fs[j].kind))
  }

  /** Storing the next field's value keeps the earlier fields, and a
      bigger set of instances still holds them. */
  lemma FieldsHoldStep(reg: Registry, fs: seq<FieldDecl>, slots: seq<Slot>, m: map<string, Value>, R: set<Entity>,
                       s: Slot, v: Value, Rs: set<Entity>)
    requires DistinctNames(fs) && FieldsHold(reg, fs, slots, m, R) && |slots| < |fs|
    requires ValueHolds(reg, s, v, Rs)
    ensures FieldsHold(reg, fs, slots + [s], m[fs[|slots|].name := v], R + Rs)
  {
    var k := |slots|;
    var m' := m[fs[k].name := v];
    forall j | 0 <= j < k ensures fs[j].name in m' && ValueHolds(reg, slots[j], m'[fs[j].name], R + Rs) {
      assert fs[j].name != fs[k].name;
      ValueHoldsGrow(reg, slots[j], m[fs[j].name], R, R + Rs);
    }
    ValueHoldsGrow(reg, s, v, Rs, R + Rs);
    forall j | k + 1 <= j < |fs| ensures fs[j].name in m' && m'[fs[j].name] == Default(fs[j].kind) {
      assert fs[j].name != fs[k].name;
    }
  }

  /** All fields stored: the instance is the loaded value. */
  lemma FieldsHoldModels(reg: Registry, t: string, slots: seq<Slot>, e: Entity, R: set<Entity>)
    requires t in reg && e.cls == t && e.fields.Keys == DefaultFields(reg[t].fields).Keys && e !in R
    requires FieldsHold(reg, reg[t].fields, slots, e.fields, R) && |slots| == |reg[t].fields|
    ensures Models(reg, Loaded(t, slots), e, R + {e})
  {
    var fs := reg[t].fields;
    forall j | 0 <= j < |fs| ensures ValueHolds(reg, slots[j], e.fields[fs[j].name], R + {e}) {
      ValueHoldsGrow(reg, slots[j], e.fields[fs[j].name], R, R + {e});
    }
  }

  /** One more field of `populateEntityFromResultSet`. */
  lemma PopulateStep(reg: Registry, ts: Tables, fs: seq<FieldDecl>, row: Row, fuel: nat, i: nat, slots: seq<Slot>)
    requires i < |fs| && PopulateSeq(reg, ts, fs[..i], row, fuel) == Ok(slots)
    ensures PopulateSeq(reg, ts, fs[..i + 1], row, fuel) ==
              if SlotOf(reg, ts, fs[i], row, fuel).Ok? then Ok(slots + [SlotOf(reg, ts, fs[i], row, fuel).value]) else Err
  {
    assert fs[..i + 1][..i] == fs[..i];
  }

  /** A field that cannot be read makes the whole instance fail. */
  lemma PopulateFailsAt(reg: Registry, ts: Tables, fs: seq<FieldDecl>, row: Row, fuel: nat, i: nat)
    requires i < |fs| && SlotOf(reg, ts, fs[i], row, fuel).Err?
    ensures PopulateSeq(reg, ts, fs, row, fuel).Err?
  {
    LoadFacts.PopulateSeqOk(reg, ts, fs, row, fuel);
  }

  /** One more row of `getAll`. */
  lemma PopulateRowsStep(reg: Registry, ts: Tables, t: string, rows: seq<Row>, fuel: nat, k: nat, loaded: seq<Loaded>)
    requires t in reg && k < |rows| && PopulateRows(reg, ts, t, rows[..k], fuel) == Ok(loaded)
    ensures PopulateRows(reg, ts, t, rows[..k + 1], fuel) ==
              if PopulateSeq(reg, ts, reg[t].fields, rows[k], fuel).Ok?
              then Ok(loaded + [Loaded(t, PopulateSeq(reg, ts, reg[t].fields, rows[k], fuel).value)])
              else Err
  {
    assert rows[..k + 1][..k] == rows[..k];
  }

  /** A row that cannot be read makes the whole list fail. */
  lemma PopulateRowsFailsAt(reg: Registry, ts: Tables, t: string, rows: seq<Row>, fuel: nat, k: nat)
    requires t in reg && k < |rows| && PopulateSeq(reg, ts, reg[t].fields, rows[k], fuel).Err?
    ensures PopulateRows(reg, ts, t, rows, fuel).Err?
  {
    if PopulateRows(reg, ts, t, rows, fuel).Ok? {
      LoadFacts.PopulateRowsAt(reg, ts, t, rows, fuel, k);
    }
  }

  class PersistenceManager {
    const conn: Connection
    const reg: Registry

    ghost predicate Valid()
      reads conn
    {
      conn.Valid() && WellFormed(reg)
    }

    constructor (conn: Connection, reg: Registry)
      ensures this.conn == conn && this.reg == reg
    {
      this.conn := conn;
      this.reg := reg;
    }

    // -------------------------------------------------------------------
    // get, getAll, populateEntityFromResultSet

    /** `get(type, id)`. It fails exactly when `Load` does, finds nothing
        exactly when `Load` finds nothing, and otherwise returns a new
        instance graph, all of it allocated by this call, that holds what
        `Load` loads. */
    method Get(t: string, id: int, fuel: nat) returns (r: Result<Option<Entity>>, ghost R: set<Entity>)
      requires WellFormed(reg)
      ensures var l := Load(reg, conn.tables, t, id, fuel);
              && (r.Err? <==> l.Err?)
              && (r.Ok? ==> (r.value.Some? <==> l.value.Some?))
              && (r.Ok? && r.value.Some? ==> Models(reg, l.value.value, r.value.value, R))
      ensures fresh(R)
      decreases fuel, 0
    {
      r, R := Err, {};
      if fuel > 0 && t in reg {
        var sql := SqlText.SelectByIdSql(TableOf(reg[t]));
        var q := conn.QueryById(sql, TableOf(reg[t]), id);
        if q.Ok? && q.value.None? {
          r := Ok(None);
        } else if q.Ok? {
          var e;
          e, R := Instantiate(t, q.value.value, fuel - 1);
          ghost var p := PopulateSeq(reg, conn.tables, reg[t].fields, q.value.value, fuel - 1);
          assert Load(reg, conn.tables, t, id, fuel) == if p.Ok? then Ok(Some(Loaded(t, p.value))) else Err;
          if e.Ok? {
            r := Ok(Some(e.value));
          }
        }
      }
    }

    /** A new instance of `t` populated from `row`. */
    method Instantiate(t: string, row: Row, fuel: nat) returns (r: Result<Entity>, ghost R: set<Entity>)
      requires WellFormed(reg) && t in reg
      ensures var p := PopulateSeq(reg, conn.tables, reg[t].fields, row, fuel);
              && (r.Ok? <==> p.Ok?)
              && (r.Ok? ==> Models(reg, Loaded(t, p.value), r.value, R))
      ensures fresh(R)
      decreases fuel, 4
    {
      var e := new Entity(t, DefaultFields(reg[t].fields));
      assert FieldsHold(reg, reg[t].fields, [], e.fields, {});
      var ok, Rs := Populate(e, t, row, fuel);
      if ok {
        FieldsHoldModels(reg, t, PopulateSeq(reg, conn.tables, reg[t].fields, row, fuel).value, e, Rs);
      }
      r, R := if ok then Ok(e) else Err, Rs + {e};
    }

    /** `populateEntityFromResultSet(instance, type, rs)` on a freshly
        constructed instance: it succeeds exactly when `PopulateSeq` does,
        and the instance then holds what `PopulateSeq` computes. */
    method Populate(e: Entity, t: string, row: Row, fuel: nat) returns (ok: bool, ghost R: set<Entity>)
      requires WellFormed(reg) && t in reg && FieldsHold(reg, reg[t].fields, [], e.fields, {})
      modifies e
      ensures e.fields.Keys == old(e.fields).Keys
      ensures var p := PopulateSeq(reg, conn.tables, reg[t].fields, row, fuel);
              && (ok <==> p.Ok?)
              && (ok ==> FieldsHold(reg, reg[t].fields, p.value, e.fields, R))
      ensures fresh(R) && e !in R
      decreases fuel, 3
    {
      var fs := reg[t].fields;
      assert DistinctNames(fs);
      ghost var ts := conn.tables;
      ghost var slots: seq<Slot> := [];
      R := {};
      var i := 0;
      while i < |fs|
        invariant 0 <= i <= |fs| && i == |slots|
        invariant conn.tables == ts && PopulateSeq(reg, ts, fs[..i], row, fuel) == Ok(slots)
        invariant fresh(R) && e !in R
        invariant e.fields.Keys == old(e.fields).Keys
        invariant FieldsHold(reg, fs, slots, e.fields, R)
      {
        var fieldOk, slots', Rs := PopulateNext(e, fs, i, row, fuel, slots, R);
        if !fieldOk {
          return false, R + Rs;
        }
        slots, R := slots', R + Rs;
        i := i + 1;
      }
      assert fs[..|fs|] == fs;
      assert PopulateSeq(reg, ts, fs, row, fuel) == Ok(slots);
      ok := true;
    }

    /** One iteration of `populateEntityFromResultSet`'s loop: field `i`
        is stored, or the whole instance fails. */
    method PopulateNext(e: Entity, fs: seq<FieldDecl>, i: nat, row: Row, fuel: nat, ghost slots: seq<Slot>, ghost R: set<Entity>)
      returns (ok: bool, ghost slots': seq<Slot>, ghost Rs: set<Entity>)
      requires WellFormed(reg) && DistinctNames(fs) && i == |slots| < |fs|
      requires PopulateSeq(reg, conn.tables, fs[..i], row, fuel) == Ok(slots)
      requires FieldsHold(reg, fs, slots, e.fields, R) && e !in R
      modifies e
      ensures e.fields.Keys == old(e.fields).Keys
      ensures !ok ==> PopulateSeq(reg, conn.tables, fs, row, fuel).Err?
      ensures ok ==> PopulateSeq(reg, conn.tables, fs[..i + 1], row, fuel) == Ok(slots') && FieldsHold(reg, fs, slots', e.fields, R + Rs)
      ensures fresh(Rs)
      decreases fuel, 2
    {
      var f := fs[i];
      ghost var m := e.fields;
      var fieldOk;
      fieldOk, Rs := PopulateField(e, f, row, fuel);
      slots' := slots;
      if !fieldOk {
        PopulateFailsAt(reg, conn.tables, fs, row, fuel, i);
        return false, slots', Rs;
      }
      ghost var s := SlotOf(reg, conn.tables, f, row, fuel).value;
      PopulateStep(reg, conn.tables, fs, row, fuel, i, slots);
      FieldsHoldStep(reg, fs, slots, m, R, s, e.fields[f.name], Rs);
      slots' := slots + [s];
      ok := true;
    }

    /** One field of `populateEntityFromResultSet`, taken from a field
        still holding its constructed value: it succeeds exactly when
        `SlotOf` does, the field then holds the slot (a nested instance
        in the new set `R`), and no other field changes. */
    method PopulateField(e: Entity, f: FieldDecl, row: Row, fuel: nat) returns (ok: bool, ghost R: set<Entity>)
      requires WellFormed(reg) && f.name in e.fields && e.fields[f.name] == Default(f.kind)
      modifies e
      ensures f.name in e.fields && e.fields == old(e.fields)[f.name := e.fields[f.name]]
      ensures var sl := SlotOf(reg, conn.tables, f, row, fuel);
              && (ok <==> sl.Ok?)
              && (ok ==> ValueHolds(reg, sl.value, e.fields[f.name], R))
      ensures fresh(R)
      decreases fuel, 1
    {
      R := {};
      if f.name !in row {
        return false, R;
      }
      if IsEntityField(f.kind) {
        var n := GetLong(row[f.name]);
        if n.Err? {
          return false, R;
        }
        if n.value > 0 {
          var sub, Rs := Get(f.kind.name, n.value, fuel);
          if sub.Err? {
            return false, R;
          }
          if sub.value.Some? {
            e.fields := e.fields[f.name := Ref(sub.value.value)];
            R := Rs;
          }
        }
      } else if row[f.name] != SqlNull {
        var v := Assign(f.kind, row[f.name]);
        if v.Err? {
          return false, R;
        }
        e.fields := e.fields[f.name := v.value];
      }
      ok := true;
    }

    /** `getAll(type)`: one new instance per row, in table order. It fails
        exactly when `LoadAll` does, and otherwise the k-th instance holds
        the k-th value `LoadAll` loads. */
    method GetAll(t: string, fuel: nat) returns (r: Result<seq<Entity>>, ghost R: set<Entity>)
      requires WellFormed(reg)
      ensures var l := LoadAll(reg, conn.tables, t, fuel);
              && (r.Err? <==> l.Err?)
              && (r.Ok? ==> |r.value| == |l.value| && forall k :: 0 <= k < |r.value| ==> Models(reg, l.value[k], r.value[k], R))
      ensures fresh(R)
    {
      R := {};
      if t !in reg {
        return Err, R;
      }
      var sql := SqlText.SelectAllSql(TableOf(reg[t]));
      var q := conn.QueryAll(sql, TableOf(reg[t]));
      if q.Err? {
        return Err, R;
      }
      var rows := q.value;
      var list: seq<Entity> := [];
      ghost var loaded: seq<Loaded> := [];
      var k := 0;
      while k < |rows|
        invariant 0 <= k <= |rows|
        invariant PopulateRows(reg, conn.tables, t, rows[..k], fuel) == Ok(loaded)
        invariant |list| == k && |loaded| == k
        invariant fresh(R)
        invariant forall j :: 0 <= j < k ==> Models(reg, loaded[j], list[j], R)
      {
        PopulateRowsStep(reg, conn.tables, t, rows, fuel, k, loaded);
        var e, Rs := Instantiate(t, rows[k], fuel);
        if e.Err? {
          PopulateRowsFailsAt(reg, conn.tables, t, rows, fuel, k);
          return Err, R;
        }
        ghost var l := Loaded(t, PopulateSeq(reg, conn.tables, reg[t].fields, rows[k], fuel).value);
        ghost var R' := R + Rs;
        forall j | 0 <= j < k ensures Models(reg, loaded[j], list[j], R') {
          ModelsGrow(reg, loaded[j], list[j], R, R');
        }
        ModelsGrow(reg, l, e.value, Rs, R');
        list := list + [e.value];
        loaded := loaded + [l];
        R := R';
        k := k + 1;
      }
      assert rows[..|rows|] == rows;
      r := Ok(list);
    }

    // -------------------------------------------------------------------
    // save, insertEntity, updateEntity, executeInsert, executeUpdate,
    // setEntityId

    /** `save(entity)`: it succeeds exactly when `SaveSpec` does on the
        state before the call, and then leaves the store and the entity's
        fields as `SaveSpec` says; when it fails nothing has changed. */
    method Save(e: Entity) returns (ok: bool)
      requires Valid()
      modifies conn, e
      ensures Valid()
      ensures var sv := SaveSpec(reg, old(conn.tables), old(Snap(reg, e)));
              && (ok <==> sv.Ok?)
              && (ok ==> conn.tables == sv.value.tables && e.fields == sv.value.fields)
              && (!ok ==> conn.tables == old(conn.tables) && e.fields == old(e.fields))
    {
      if e.cls !in reg {
        return false;
      }
      var c := reg[e.cls];
      var table := TableOf(c);
      var s := Snap(reg, e);
      var entityId := EntityId(reg, Ref(e));
      if entityId.Err? {
        return false;
      }
      var fs := c.fields;
      var i := 0;
      while i < |fs|
        invariant 0 <= i <= |fs|
        invariant unchanged(conn) && unchanged(e)
        invariant forall j :: 0 <= j < i && IsReferenceField(fs[j].kind) ==> RefOk(s, fs[j])
      {
        if IsReferenceField(fs[i].kind) {
          if fs[i].name !in e.fields {
            assert !RefOk(s, fs[i]);
            return false;
          }
          var referencedId := EntityId(reg, e.fields[fs[i].name]);
          assert s.ids[fs[i].name] == referencedId;
          if referencedId.Err? || referencedId.value == 0 {
            assert !RefOk(s, fs[i]);
            return false;
          }
        }
        i := i + 1;
      }
      assert RefsOk(fs, s);
      if entityId.value == 0 {
        var key := InsertEntity(e, table, fs);
        if key.Err? {
          return false;
        }
        ok := SetEntityId(e, key.value);
      } else {
        ok := UpdateEntity(e, table, fs, entityId.value);
      }
    }

    /** `insertEntity(entity, tableName, clazz)`: builds the statement and
        its values, then runs it. The outcome is `InsertSpec` on the state
        before the call; on failure the store is unchanged. */
    method InsertEntity(e: Entity, table: string, fs: seq<FieldDecl>) returns (r: Result<int>)
      requires Valid()
      modifies conn
      ensures Valid()
      ensures var a := InsertSpec(old(conn.tables), table, fs, old(Snap(reg, e)));
              && (r.Err? <==> a.Err?)
              && (r.Ok? ==> r.value == a.value.1 && conn.tables == a.value.0)
              && (r.Err? ==> conn.tables == old(conn.tables))
    {
      var built := Statements.BuildInsert(Snap(reg, e), table, fs);
      if built.Err? {
        return Err;
      }
      var (sql, values) := built.value;
      r := ExecuteInsert(sql, table, NonIdColumns(fs), values);
    }

    /** `updateEntity(entity, tableName, clazz, entityId)`: builds the
        statement and its values, adds the key for `WHERE id = ?`, and runs
        it. The outcome is `UpdateSpec` on the state before the call; on
        failure the store is unchanged. */
    method UpdateEntity(e: Entity, table: string, fs: seq<FieldDecl>, entityId: int) returns (ok: bool)
      requires Valid()
      modifies conn
      ensures Valid()
      ensures var u := UpdateSpec(old(conn.tables), table, fs, old(Snap(reg, e)), entityId);
              && (ok <==> u.Ok?)
              && conn.tables == (if ok then u.value else old(conn.tables))
    {
      var built := Statements.BuildUpdate(Snap(reg, e), table, fs);
      if built.Err? {
        return false;
      }
      var (sql, values) := built.value;
      ok := ExecuteUpdate(sql, table, NonIdColumns(fs), values + [LongV(entityId)]);
    }

    /** `executeInsert(sql, values)` on the statement
        `InsertSql(table, cols)`: binds each value in turn, runs it and reads
        the generated key. The outcome is `RunInsert` on the state before
        the call; on failure the store is unchanged. */
    method ExecuteInsert(sql: string, table: string, cols: seq<string>, values: seq<Value>) returns (r: Result<int>)
      requires Valid() && sql == SqlText.InsertSql(table, cols)
      modifies conn
      ensures Valid()
      ensures var a := RunInsert(old(conn.tables), table, cols, values);
              && (r.Err? <==> a.Err?)
              && (r.Ok? ==> r.value == a.value.1 && conn.tables == a.value.0)
              && (r.Err? ==> conn.tables == old(conn.tables))
    {
      var params := Bind(values);
      if params.Err? {
        return Err;
      }
      var a := conn.ExecuteInsert(sql, table, cols, params.value);
      if a.Err? {
        return Err;
      }
      r := InsertOutcome(a.value.0, a.value.1);
    }

    /** `executeUpdate(sql, values)` on the statement
        `UpdateSql(table, cols)`: binds each value in turn and runs it. The
        outcome is `RunUpdate` on the state before the call; on failure the
        store is unchanged. */
    method ExecuteUpdate(sql: string, table: string, cols: seq<string>, values: seq<Value>) returns (ok: bool)
      requires Valid() && sql == SqlText.UpdateSql(table, cols)
      modifies conn
      ensures Valid()
      ensures var u := RunUpdate(old(conn.tables), table, cols, values);
              && (ok <==> u.Ok?)
              && conn.tables == (if ok then u.value else old(conn.tables))
    {
      var params := Bind(values);
      if params.Err? {
        return false;
      }
      var n := conn.ExecuteUpdate(sql, table, cols, params.value);
      ok := n.Ok?;
    }

    /** The `stmt.setObject(i + 1, values[i])` loop of both execute
        helpers: every value bound, in order, or the first failure. */
    method Bind(values: seq<Value>) returns (r: Result<seq<SqlValue>>)
      ensures r == BindAll(values)
    {
      var params: seq<SqlValue> := [];
      var i := 0;
      while i < |values|
        invariant 0 <= i <= |values|
        invariant BindAll(values[..i]) == Ok(params)
      {
        assert values[..i + 1][..i] == values[..i];
        var b := BindValue(values[i]);
        if b.Err? {
          return Err;
        }
        params := params + [b.value];
        i := i + 1;
      }
      assert values[..|values|] == values;
      r := Ok(params);
    }

    /** `setEntityId(entity, id)`: `idField.set` with the boxed key. A
        `long` field takes it as it is, a `double` or `float` field by
        widening; a class without a field `id`, or with one of any other
        kind, fails and leaves the instance as it was. */
    method SetEntityId(e: Entity, id: int) returns (ok: bool)
      requires e.cls in reg
      modifies e
      ensures var k := FieldKind(reg[e.cls].fields, "id");
              ok <==> k == Some(LongKind) || k == Some(DoubleKind) || k == Some(FloatKind)
      ensures var k := FieldKind(reg[e.cls].fields, "id");
              e.fields == if !ok then old(e.fields)
                          else old(e.fields)["id" := if k == Some(LongKind) then LongV(id) else RealV(id as real)]
    {
      var k := FieldKind(reg[e.cls].fields, "id");
      if k == Some(LongKind) {
        e.fields := e.fields["id" := LongV(id)];
      } else if k == Some(DoubleKind) || k == Some(FloatKind) {
        e.fields := e.fields["id" := RealV(id as real)];
      } else {
        return false;
      }
      ok := true;
    }

    // -------------------------------------------------------------------
    // delete

    /** `delete(entity)`: `DELETE FROM "t" WHERE id = ?` with the entity's
        key. The outcome is `DeleteSpec` on the state before the call; when
        it fails (no such key among the rows included) the store is
        unchanged. */
    method Delete(e: Entity) returns (ok: bool)
      requires Valid()
      modifies conn
      ensures Valid()
      ensures var d := DeleteSpec(reg, old(conn.tables), e.cls, e.fields);
              && (ok <==> d.Ok?)
              && conn.tables == (if ok then d.value else old(conn.tables))
    {
      if e.cls !in reg {
        return false;
      }
      var table := TableOf(reg[e.cls]);
      var id := DeleteKey(reg[e.cls], e.fields);
      if id.Err? {
        return false;
      }
      var sql := SqlText.DeleteSql(table);
      var affected := conn.ExecuteDelete(sql, table, id.value);
      ok := affected.Ok? && affected.value > 0;
    }
  }
}
