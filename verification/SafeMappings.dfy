/** Which deployable mappings never insert an incomplete row, judged from schema and mapping alone. */
module SafeMappings {
  import opened Outcomes
  import opened SchemaGraph
  import opened Store
  import opened Writer
  import opened Integrity
  import opened ByTable
  import opened Delivery
  import opened DeliveryIntegrity
  import opened DeployGate

  /** Every written table has a key and gets a value of its own from some mapping. */
  predicate WritesValues(reg: Registry, mappings: seq<Mapping>)
  {
    forall t | t in WriteSet(mappings) :: t in reg && Pk(reg, t).Some? && HasOwnColumn(reg, mappings, t)
  }

  predicate HasOwnColumn(reg: Registry, mappings: seq<Mapping>, t: string)
  {
    exists m | m in mappings :: m.targetTable == t && m.targetColumn != "" && m.targetColumn !in Managed(reg, t)
  }

  /** The writer may insert here; any other table is only looked up. */
  predicate Insertable(reg: Registry, t: string)
    requires t in reg
  {
    t in APP_ASSIGNED || !IsReference(reg, t)
  }

  predicate HasWrittenParent(reg: Registry, mappings: seq<Mapping>, t: string, c: string)
    requires t in reg
  {
    exists f | f in reg[t].foreignKeys :: f.column == c && f.refTable != t && f.refTable in WriteSet(mappings)
  }

  /** Each required foreign key of a table rows are inserted into has another written table as parent. */
  predicate ParentsWritten(reg: Registry, mappings: seq<Mapping>)
  {
    forall t | t in WriteSet(mappings) && t in reg && Insertable(reg, t) ::
      forall c | c in RequiredColumns(reg, t) && c in FkColumns(reg, t) && !AssignedKey(reg, t, c) ::
        HasWrittenParent(reg, mappings, t, c)
  }

  /** A delivery that goes through with clean values leaves every row it inserts complete. */
  ghost predicate CompleteDelivery(reg: Registry, mappings: seq<Mapping>, codec: Codec, st: State, src: Source, event: Event)
  {
    var o := DeliverEvent(reg, codec, st, src.system, src.entity, src.target, event, mappings);
    var r := Resolved(reg, codec, st, src.system, src.target, event.payload, mappings);
    KeysPresent(st) && src.reference == event.reference && ValuesClean(reg, codec, event.payload, mappings)
    && o.r.Ok? && o.r.value.Delivered? && r.Ok? && WriteRow(reg, st, src, r.value.0).r.Ok?
    ==> forall t | t in r.value.0 && t in reg :: InsertedComplete(reg, st, src, r.value.0, t)
  }

  ghost predicate AlwaysComplete(reg: Registry, mappings: seq<Mapping>)
  {
    forall codec, st, src, event :: CompleteDelivery(reg, mappings, codec, st, src, event)
  }

  /** With clean values exactly the written tables are delivered. */
  lemma FanIsWriteSet(reg: Registry, codec: Codec, st: State, system: string, target: string, payload: Payload, mappings: seq<Mapping>)
    requires WritesValues(reg, mappings) && ValuesClean(reg, codec, payload, mappings)
    requires Resolved(reg, codec, st, system, target, payload, mappings).Ok?
    ensures Resolved(reg, codec, st, system, target, payload, mappings).value.0.Keys == WriteSet(mappings)
  {
    var built := BuildValues(reg, codec, payload, mappings, map[], []).0;
    BuiltTables(reg, codec, payload, mappings, map[], []);
    ResolvingKeeps(reg, codec, st, system, target, payload, mappings, built, []);
    forall t | t in WriteSet(mappings)
      ensures t in built
    {
      var m :| m in mappings && m.targetTable == t && m.targetColumn != "" && m.targetColumn !in Managed(reg, t);
      assert WriteSet(mappings) !! {""};
      BuiltCoversMappings(reg, codec, payload, mappings, map[], []);
      assert ValueOf(reg, codec, payload, m).Some?;
    }
  }

  /** Enough: then every table is fed, whatever the state and the payload. */
  lemma ParentsWrittenIsEnough(reg: Registry, mappings: seq<Mapping>, seeded: set<string>, codec: Codec, st: State, src: Source, event: Event)
    requires SchemaOk(reg) && ColumnsDistinct(reg) && Deployable(reg, mappings, seeded)
    requires WritesValues(reg, mappings) && ParentsWritten(reg, mappings)
    ensures CompleteDelivery(reg, mappings, codec, st, src, event)
  {
    var o := DeliverEvent(reg, codec, st, src.system, src.entity, src.target, event, mappings);
    var r := Resolved(reg, codec, st, src.system, src.target, event.payload, mappings);
    if KeysPresent(st) && ValuesClean(reg, codec, event.payload, mappings) && r.Ok? && WriteRow(reg, st, src, r.value.0).r.Ok? {
      DeployableCarries(reg, codec, st, src.system, src.target, event.payload, mappings, seeded);
      FanIsWriteSet(reg, codec, st, src.system, src.target, event.payload, mappings);
      forall t | t in r.value.0 && t in reg
        ensures InsertedComplete(reg, st, src, r.value.0, t)
      {
        CompleteIffFed(reg, st, src, r.value.0, t);
        WriteIdsPresent(reg, st, src, r.value.0);
        if Insertable(reg, t) {
          WrittenParentFeeds(reg, mappings, r.value.0, t);
        }
      }
    }
  }

  lemma WrittenParentFeeds(reg: Registry, mappings: seq<Mapping>, fan: Fanout, t: string)
    requires ParentsWritten(reg, mappings) && fan.Keys == WriteSet(mappings) && t in fan && t in reg && Insertable(reg, t)
    ensures Fed(reg, fan, t)
  {
    forall c | c in RequiredColumns(reg, t) && c in FkColumns(reg, t) && !AssignedKey(reg, t, c)
      ensures HasParent(reg, fan, t, c)
    {
      assert HasWrittenParent(reg, mappings, t, c);
    }
  }

  // ------------------------------------------------- and no less will do

  const ONE: Value := Num(1)

  /** Values taken as they are; no reference is ever found. */
  const PLAIN: Codec := Codec((name: string, v: Value) => Some(v), (ty: string) => None, (system: string, entity: string, v: Value) => "")

  function Ones(mappings: seq<Mapping>): Payload
  {
    map m | m in mappings :: m.sourceColumn := ONE
  }

  function OneIds(fan: Fanout): TargetIds
  {
    map t | t in fan :: ONE
  }

  /** What the mappings make of a payload of ones. */
  function OnesFan(reg: Registry, mappings: seq<Mapping>): Fanout
  {
    BuildValues(reg, PLAIN, Ones(mappings), mappings, map[], []).0
  }

  /** Nothing delivered yet: every written table that is not generated holds the one row the payload will
      match, but for `t0`, where the next id is 1 as well. */
  function OnesState(reg: Registry, mappings: seq<Mapping>, t0: string): State
    requires forall t | t in OnesFan(reg, mappings) :: t in reg
  {
    var fan := OnesFan(reg, mappings);
    State(map t | t in fan && IsReference(reg, t) && t != t0 :: map[ONE := Filled(reg, fan, OneIds(fan), t)],
          map[], map[], map[], map[t0 := 0])
  }

  lemma OnesClean(reg: Registry, mappings: seq<Mapping>)
    ensures ValuesClean(reg, PLAIN, Ones(mappings), mappings)
    ensures BuildValues(reg, PLAIN, Ones(mappings), mappings, map[], []).1 == []
  {
    forall m | m in mappings
      ensures m.sourceColumn in Ones(mappings) && Ones(mappings)[m.sourceColumn] == ONE
    {
    }
    BuiltCoversMappings(reg, PLAIN, Ones(mappings), mappings, map[], []);
  }

  /** Every value delivered is a one, and each table has one in a column of its own. */
  lemma OnesFanOf(reg: Registry, mappings: seq<Mapping>, t: string)
    requires WritesValues(reg, mappings)
    ensures t in OnesFan(reg, mappings) <==> t in WriteSet(mappings)
    ensures t in OnesFan(reg, mappings) ==>
              && (forall c | c in OnesFan(reg, mappings)[t] :: OnesFan(reg, mappings)[t][c] == ONE && c !in Managed(reg, t))
              && OnesFan(reg, mappings)[t] != map[]
  {
    var payload := Ones(mappings);
    OnesClean(reg, mappings);
    BuiltTables(reg, PLAIN, payload, mappings, map[], []);
    BuiltCoversMappings(reg, PLAIN, payload, mappings, map[], []);
    if t in WriteSet(mappings) {
      var m :| m in mappings && m.targetTable == t && m.targetColumn != "" && m.targetColumn !in Managed(reg, t);
      assert WriteSet(mappings) !! {""};
      assert ValueOf(reg, PLAIN, payload, m).Some?;
      assert Holds(OnesFan(reg, mappings), t, m.targetColumn);
      OnesAreOnes(reg, mappings, t);
    }
  }

  lemma OnesAreOnes(reg: Registry, mappings: seq<Mapping>, t: string)
    requires t in OnesFan(reg, mappings)
    ensures forall c | c in OnesFan(reg, mappings)[t] :: OnesFan(reg, mappings)[t][c] == ONE && c !in Managed(reg, t)
  {
    forall c | c in OnesFan(reg, mappings)[t]
      ensures OnesFan(reg, mappings)[t][c] == ONE && c !in Managed(reg, t)
    {
      BuiltFromMappings(reg, PLAIN, Ones(mappings), mappings, map[], [], t, c);
      BuiltLeavesManagedAlone(reg, PLAIN, Ones(mappings), mappings, t, c);
    }
  }

  /** Without entries no reference is resolved. */
  lemma {:induction false} NothingResolves(reg: Registry, codec: Codec, st: State, system: string, target: string, payload: Payload,
                                           mappings: seq<Mapping>, fan: Fanout, unresolved: seq<Mapping>)
    requires st.crosswalk == map[]
    ensures var r := ResolveCross(reg, codec, st, system, target, payload, mappings, fan, unresolved); r.Ok? && r.value.0 == fan
    decreases |mappings|
  {
    if mappings != [] {
      var m, rest := mappings[0], mappings[1..];
      NothingResolves(reg, codec, st, system, target, payload, rest, fan, unresolved);
      NothingResolves(reg, codec, st, system, target, payload, rest, fan, unresolved + [m]);
    }
  }

  /** Filling ones with ones gives ones. */
  lemma {:induction false} OnesFilled(t: string, fks: seq<ForeignKey>, values: Row, ids: TargetIds)
    requires (forall c | c in values :: values[c] == ONE) && forall p | p in ids :: ids[p] == ONE
    ensures forall c | c in ApplyForeignKeys(fks, t, values, ids) :: ApplyForeignKeys(fks, t, values, ids)[c] == ONE
    ensures values.Keys <= ApplyForeignKeys(fks, t, values, ids).Keys
    decreases |fks|
  {
    if fks != [] {
      OnesFilled(t, fks[1..], FillForeignKey(fks[0], t, values, ids), ids);
    }
  }

  /** A row of ones is matched by itself, under the key one. */
  lemma OnesMatched(reg: Registry, t: string, values: Row)
    requires t in reg && Pk(reg, t).Some? && values != map[] && forall c | c in values :: values[c] == ONE
    ensures ResolveReference(reg, map[ONE := values], t, values) == Ok(ONE)
  {
    var pk := Pk(reg, t).value;
    if Get(values, pk) == Null {
      var c :| c in values;
      assert c in Criteria(values, pk);
      assert Matching(map[ONE := values], Criteria(values, pk)) == {ONE};
    }
  }

  lemma NothingMatched(reg: Registry, t: string, values: Row)
    requires t in reg
    ensures ResolveReference(reg, map[], t, values).Err?
  {
  }

  lemma OnesSlice(reg: Registry, mappings: seq<Mapping>, t0: string, src: Source, t: string)
    requires t in OnesFan(reg, mappings) && forall u | u in OnesFan(reg, mappings) :: u in reg
    ensures var fan := OnesFan(reg, mappings);
            SliceOf(OnesState(reg, mappings, t0), src, t)
            == Slice(if IsReference(reg, t) && t != t0 then map[ONE := Filled(reg, fan, OneIds(fan), t)] else map[],
                     1, if t == t0 then Some(0) else None, None)
  {
  }

  /** A table that holds the row it is about to match. */
  lemma MatchedPart(reg: Registry, t: string, values: Row)
    requires t in reg && IsReference(reg, t) && Pk(reg, t).Some? && values != map[] && forall c | c in values :: values[c] == ONE
    ensures SliceWrite(reg, Slice(map[ONE := values], 1, None, None), t, values).1 == Ok(ONE)
  {
    OnesMatched(reg, t, values);
  }

  /** An empty table whose next id is one. */
  lemma InsertedPart(reg: Registry, t: string, handedOut: Option<int>, values: Row)
    requires t in reg && Pk(reg, t).Some? && Insertable(reg, t) && (t in APP_ASSIGNED ==> handedOut == Some(0))
    ensures var sl := Slice(map[], 1, handedOut, None);
            SliceWrite(reg, sl, t, values).1 == Ok(ONE) && Inserts(reg, sl, t, values)
  {
    NothingMatched(reg, t, values);
  }

  /** Every table's own part gives the id one; at `t0` a row is inserted. */
  lemma OnesPart(reg: Registry, mappings: seq<Mapping>, t0: string, src: Source, t: string)
    requires SchemaOk(reg) && WritesValues(reg, mappings) && t in OnesFan(reg, mappings) && t in reg
    requires t0 in reg && Insertable(reg, t0) && forall u | u in OnesFan(reg, mappings) :: u in reg
    ensures var fan := OnesFan(reg, mappings);
            var sl := SliceOf(OnesState(reg, mappings, t0), src, t);
            && SliceWrite(reg, sl, t, Filled(reg, fan, OneIds(fan), t)).1 == Ok(ONE)
            && (t == t0 ==> Inserts(reg, sl, t, Filled(reg, fan, OneIds(fan), t)))
  {
    var fan := OnesFan(reg, mappings);
    var values := Filled(reg, fan, OneIds(fan), t);
    OnesFanOf(reg, mappings, t);
    OnesSlice(reg, mappings, t0, src, t);
    if IsReference(reg, t) && t != t0 {
      OnesFilled(t, reg[t].foreignKeys, fan[t], OneIds(fan));
      MatchedPart(reg, t, values);
    } else {
      InsertedPart(reg, t, if t == t0 then Some(0) else None, values);
    }
  }

  /** A required foreign key without a written parent: some delivery leaves it empty. */
  lemma GapIsReached(reg: Registry, mappings: seq<Mapping>, seeded: set<string>, t0: string, c0: string)
    requires SchemaOk(reg) && ColumnsDistinct(reg) && Deployable(reg, mappings, seeded)
    requires WritesValues(reg, mappings) && Order(reg, WriteSet(mappings)).Ok?
    requires t0 in WriteSet(mappings) && t0 in reg && Insertable(reg, t0)
    requires c0 in RequiredColumns(reg, t0) && c0 in FkColumns(reg, t0) && !AssignedKey(reg, t0, c0)
    requires !HasWrittenParent(reg, mappings, t0, c0)
    ensures !AlwaysComplete(reg, mappings)
  {
    var src := Source("", "", "", "");
    var event := Event("", "", "insert", Ones(mappings));
    forall t | t in OnesFan(reg, mappings) ensures t in reg {
      OnesFanOf(reg, mappings, t);
    }
    var st := OnesState(reg, mappings, t0);
    OnesDelivered(reg, mappings, t0, src, event);
    OnesUnfed(reg, mappings, seeded, t0, c0, src);
    IncompleteDelivery(reg, mappings, PLAIN, st, src, event, OnesFan(reg, mappings), t0);
  }

  lemma IncompleteDelivery(reg: Registry, mappings: seq<Mapping>, codec: Codec, st: State, src: Source, event: Event, fan: Fanout, t: string)
    requires KeysPresent(st) && src.reference == event.reference && ValuesClean(reg, codec, event.payload, mappings)
    requires var o := DeliverEvent(reg, codec, st, src.system, src.entity, src.target, event, mappings); o.r.Ok? && o.r.value.Delivered?
    requires var r := Resolved(reg, codec, st, src.system, src.target, event.payload, mappings); r.Ok? && r.value.0 == fan
    requires WriteRow(reg, st, src, fan).r.Ok? && t in fan && t in reg && !InsertedComplete(reg, st, src, fan, t)
    ensures !AlwaysComplete(reg, mappings)
  {
    assert !CompleteDelivery(reg, mappings, codec, st, src, event);
  }

  /** The payload of ones is delivered, to exactly the written tables. */
  lemma OnesDelivered(reg: Registry, mappings: seq<Mapping>, t0: string, src: Source, event: Event)
    requires SchemaOk(reg) && WritesValues(reg, mappings) && Order(reg, WriteSet(mappings)).Ok?
    requires t0 in WriteSet(mappings) && t0 in reg && Insertable(reg, t0)
    requires src.reference == event.reference && event.payload == Ones(mappings)
    ensures OnesFan(reg, mappings).Keys == WriteSet(mappings)
    ensures var fan := OnesFan(reg, mappings);
            var st := OnesState(reg, mappings, t0);
            var r := Resolved(reg, PLAIN, st, src.system, src.target, event.payload, mappings);
            var o := DeliverEvent(reg, PLAIN, st, src.system, src.entity, src.target, event, mappings);
            && KeysPresent(st) && ValuesClean(reg, PLAIN, event.payload, mappings)
            && r.Ok? && r.value.0 == fan && WriteRow(reg, st, src, fan).r == Ok(OneIds(fan))
            && o.r.Ok? && o.r.value.Delivered?
  {
    var fan := OnesFan(reg, mappings);
    forall t ensures t in fan <==> t in WriteSet(mappings) {
      OnesFanOf(reg, mappings, t);
    }
    assert fan.Keys == WriteSet(mappings);
    OnesWritten(reg, mappings, t0, src);
    OnesClean(reg, mappings);
    OnesNotEmpty(reg, mappings, t0);
    NothingResolves(reg, PLAIN, OnesState(reg, mappings, t0), src.system, src.target, event.payload, mappings, fan, []);
  }

  lemma OnesNotEmpty(reg: Registry, mappings: seq<Mapping>, t0: string)
    requires WritesValues(reg, mappings) && t0 in WriteSet(mappings)
    ensures OnesFan(reg, mappings) != map[]
  {
    OnesFanOf(reg, mappings, t0);
  }

  /** And the row inserted into `t0` lacks the column. */
  lemma OnesUnfed(reg: Registry, mappings: seq<Mapping>, seeded: set<string>, t0: string, c0: string, src: Source)
    requires SchemaOk(reg) && ColumnsDistinct(reg) && Deployable(reg, mappings, seeded)
    requires WritesValues(reg, mappings) && OnesFan(reg, mappings).Keys == WriteSet(mappings)
    requires t0 in WriteSet(mappings) && t0 in reg && Insertable(reg, t0)
    requires c0 in RequiredColumns(reg, t0) && c0 in FkColumns(reg, t0) && !AssignedKey(reg, t0, c0)
    requires !HasWrittenParent(reg, mappings, t0, c0)
    requires var st := OnesState(reg, mappings, t0);
             KeysPresent(st) && WriteRow(reg, st, src, OnesFan(reg, mappings)).r == Ok(OneIds(OnesFan(reg, mappings)))
    ensures !InsertedComplete(reg, OnesState(reg, mappings, t0), src, OnesFan(reg, mappings), t0)
  {
    var fan := OnesFan(reg, mappings);
    var st := OnesState(reg, mappings, t0);
    OnesCarried(reg, mappings, seeded, t0);
    CompleteIffFed(reg, st, src, fan, t0);
    OnesPart(reg, mappings, t0, src, t0);
    OnesFanOf(reg, mappings, t0);
    assert c0 in Managed(reg, t0) && Get(fan[t0], c0) == Null;
    assert !HasParent(reg, fan, t0, c0);
    assert !Fed(reg, fan, t0);
  }

  lemma OnesCarried(reg: Registry, mappings: seq<Mapping>, seeded: set<string>, t: string)
    requires ColumnsDistinct(reg) && Deployable(reg, mappings, seeded) && WritesValues(reg, mappings)
    requires t in WriteSet(mappings) && t in OnesFan(reg, mappings) && t in reg
    ensures Carries(reg, OnesFan(reg, mappings), t)
  {
    OnesClean(reg, mappings);
    forall c | c in MustSupply(reg, t)
      ensures Get(OnesFan(reg, mappings)[t], c) != Null
    {
      CoveredColumnSupplied(reg, PLAIN, Ones(mappings), mappings, seeded, t, c);
    }
  }

  lemma OnesWritten(reg: Registry, mappings: seq<Mapping>, t0: string, src: Source)
    requires SchemaOk(reg) && WritesValues(reg, mappings) && Order(reg, WriteSet(mappings)).Ok?
    requires OnesFan(reg, mappings).Keys == WriteSet(mappings) && t0 in reg && Insertable(reg, t0)
    ensures var fan := OnesFan(reg, mappings);
            KeysPresent(OnesState(reg, mappings, t0)) && WriteRow(reg, OnesState(reg, mappings, t0), src, fan).r == Ok(OneIds(fan))
  {
    var fan := OnesFan(reg, mappings);
    forall t | t in fan
      ensures t in reg && SliceWrite(reg, SliceOf(OnesState(reg, mappings, t0), src, t), t, Filled(reg, fan, OneIds(fan), t)).1 == Ok(ONE)
    {
      OnesPart(reg, mappings, t0, src, t);
    }
    ConsistentGoesThrough(reg, OnesState(reg, mappings, t0), src, fan, OneIds(fan));
  }

  /** For a deployable mapping whose every written table gets a value of its own: no delivery, whatever the
      databases hold and the clean payload says, inserts a row that lacks a required column, if and only if
      each required foreign key of a table it may insert into has another written table as parent. */
  lemma AlwaysCompleteIff(reg: Registry, mappings: seq<Mapping>, seeded: set<string>)
    requires SchemaOk(reg) && ColumnsDistinct(reg) && Deployable(reg, mappings, seeded)
    requires WritesValues(reg, mappings) && Order(reg, WriteSet(mappings)).Ok?
    ensures AlwaysComplete(reg, mappings) <==> ParentsWritten(reg, mappings)
  {
    if ParentsWritten(reg, mappings) {
      forall codec, st, src, event
        ensures CompleteDelivery(reg, mappings, codec, st, src, event)
      {
        ParentsWrittenIsEnough(reg, mappings, seeded, codec, st, src, event);
      }
    } else {
      var t :| t in WriteSet(mappings) && t in reg && Insertable(reg, t)
               && !(forall c | c in RequiredColumns(reg, t) && c in FkColumns(reg, t) && !AssignedKey(reg, t, c) :: HasWrittenParent(reg, mappings, t, c));
      var c :| c in RequiredColumns(reg, t) && c in FkColumns(reg, t) && !AssignedKey(reg, t, c) && !HasWrittenParent(reg, mappings, t, c);
      GapIsReached(reg, mappings, seeded, t, c);
    }
  }
}
