/** The two databases as tables of values: the target's rows and AUTO_INCREMENT counters,
    and the central crosswalk and id sequence. Each statement is one atomic update. */
module Store {
  import opened Ordering
  import opened Outcomes

  datatype Value = Null | Num(n: int) | Text(s: string)

  /** Column values. An absent column holds NULL. */
  type Row = map<string, Value>

  function Get(row: Row, column: string): Value
  {
    if column in row then row[column] else Null
  }

  /** Which source row, and towards which target. */
  datatype Source = Source(system: string, entity: string, reference: string, target: string)

  /** Primary key of the crosswalk. */
  datatype CrossKey = CrossKey(source: Source, table: string)

  /** A snapshot of both databases as one worker sees them. Rows are filed under the value
      of their primary key; `audit` is the envelope of each delivered event, active or not. */
  datatype State = State(
    tables: map<string, map<Value, Row>>,
    nextAuto: map<string, int>,
    audit: map<string, bool>,
    crosswalk: map<CrossKey, Value>,
    sequence: map<string, int>)

  function Rows(st: State, t: string): map<Value, Row>
  {
    if t in st.tables then st.tables[t] else map[]
  }

  function NextAuto(st: State, t: string): int
  {
    if t in st.nextAuto then st.nextAuto[t] else 1
  }

  function PutRow(st: State, t: string, key: Value, row: Row): State
  {
    st.(tables := st.tables[t := Rows(st, t)[key := row]])
  }

  /** INSERT with a generated key: the row gets the counter's value, which then moves on.
      The counter is not transactional: a rollback restores rows, never the counter. */
  function InsertGenerated(st: State, t: string, keyColumn: string, values: Row): State
  {
    var id := Num(NextAuto(st, t));
    PutRow(st, t, id, values[keyColumn := id]).(nextAuto := st.nextAuto[t := NextAuto(st, t) + 1])
  }

  /** UPDATE of the columns other than the key, where the key matches. */
  function UpdateRow(st: State, t: string, keyColumn: string, key: Value, values: Row): State
  {
    if key in Rows(st, t) then PutRow(st, t, key, Rows(st, t)[key] + (values - {keyColumn})) else st
  }

  function Lookup(st: State, k: CrossKey): Option<Value>
  {
    if k in st.crosswalk then Some(st.crosswalk[k]) else None
  }

  function Record(st: State, k: CrossKey, id: Value): State
  {
    st.(crosswalk := st.crosswalk[k := id])
  }

  /** The next app-assigned id: the start the first time, one more than the last after that. */
  function NextAssigned(st: State, t: string, start: int): int
  {
    if t in st.sequence then st.sequence[t] + 1 else start
  }

  function Allocate(st: State, t: string, start: int): State
  {
    st.(sequence := st.sequence[t := NextAssigned(st, t, start)])
  }

  // -------------------------------------------------- lookups by natural key

  predicate ValueLess(a: Value, b: Value)
  {
    match (a, b)
    case (Null, Null) => false
    case (Null, _) => true
    case (Num(x), Num(y)) => x < y
    case (Num(_), Text(_)) => true
    case (Text(x), Text(y)) => Less(x, y)
    case _ => false
  }

  predicate IsFirst(m: Value, s: set<Value>)
  {
    m in s && forall x | x in s && x != m :: ValueLess(m, x)
  }

  lemma ValueOrder(a: Value, b: Value, c: Value)
    ensures ValueLess(a, b) && ValueLess(b, c) ==> ValueLess(a, c)
    ensures a != b ==> ValueLess(a, b) != ValueLess(b, a)
  {
    if a.Text? && b.Text? {
      LessTotal(a.s, b.s);
      if c.Text? && Less(a.s, b.s) && Less(b.s, c.s) {
        LessTransitive(a.s, b.s, c.s);
      }
    }
  }

  lemma {:induction false} FirstExists(s: set<Value>)
    requires s != {}
    ensures exists m :: IsFirst(m, s)
    decreases |s|
  {
    var x :| x in s;
    if s == {x} {
      assert IsFirst(x, s);
    } else {
      FirstExists(s - {x});
      var m :| IsFirst(m, s - {x});
      ValueOrder(x, m, m);
      var best := if ValueLess(x, m) then x else m;
      forall y | y in s && y != best
        ensures ValueLess(best, y)
      {
        ValueOrder(best, m, y);
      }
      assert IsFirst(best, s);
    }
  }

  /** LIMIT 1 takes the match with the smallest key: a scan in primary-key order. */
  function First(s: set<Value>): (m: Value)
    requires s != {}
    ensures IsFirst(m, s)
  {
    FirstExists(s);
    assert forall a, b | IsFirst(a, s) && IsFirst(b, s) :: a == b by {
      forall a, b | IsFirst(a, s) && IsFirst(b, s)
        ensures a == b
      {
        ValueOrder(a, b, a);
      }
    }
    var m :| m in s && IsFirst(m, s);
    m
  }

  lemma FirstIsSmallest(s: set<Value>)
    requires s != {}
    ensures forall x | x in s && x.Num? :: First(s) == Null || (First(s).Num? && First(s).n <= x.n)
    ensures First(s).Text? ==> forall x | x in s && x != First(s) :: x.Text? && Less(First(s).s, x.s)
  {
  }

  function Criteria(values: Row, keyColumn: string): Row
  {
    map c | c in values && c != keyColumn && values[c] != Null :: values[c]
  }

  function Matching(rows: map<Value, Row>, criteria: Row): set<Value>
  {
    set k | k in rows && forall c | c in criteria :: Get(rows[k], c) == criteria[c]
  }

  // ------------------------------------------------------------- connections

  /** The open target and central connections a writer is handed. */
  class Connections {
    // target
    var tables: map<string, map<Value, Row>>
    var nextAuto: map<string, int>
    var audit: map<string, bool>
    // central
    var crosswalk: map<CrossKey, Value>
    var sequence: map<string, int>

    constructor (st: State)
      ensures Snapshot() == st
    {
      tables, nextAuto, audit := st.tables, st.nextAuto, st.audit;
      crosswalk, sequence := st.crosswalk, st.sequence;
    }

    function Snapshot(): State
      reads this
    {
      State(tables, nextAuto, audit, crosswalk, sequence)
    }

    method CrosswalkLookup(k: CrossKey) returns (id: Option<Value>)
      ensures id == Lookup(Snapshot(), k)
    {
      id := if k in crosswalk then Some(crosswalk[k]) else None;
    }

    /** INSERT .. ON CONFLICT DO UPDATE. */
    method CrosswalkRecord(k: CrossKey, id: Value)
      modifies this
      ensures Snapshot() == Record(old(Snapshot()), k, id)
    {
      crosswalk := crosswalk[k := id];
    }

    /** One upsert, so no two callers are handed the same id. */
    method AllocateId(t: string, start: int) returns (id: int)
      modifies this
      ensures id == NextAssigned(old(Snapshot()), t, start)
      ensures Snapshot() == Allocate(old(Snapshot()), t, start)
    {
      id := if t in sequence then sequence[t] + 1 else start;
      sequence := sequence[t := id];
    }

    method RowExists(t: string, key: Value) returns (found: bool)
      ensures found <==> key in Rows(Snapshot(), t)
    {
      found := t in tables && key in tables[t];
    }

    method Insert(t: string, keyColumn: string, values: Row) returns (id: Value)
      modifies this
      ensures id == Num(NextAuto(old(Snapshot()), t))
      ensures Snapshot() == InsertGenerated(old(Snapshot()), t, keyColumn, values)
    {
      var next := if t in nextAuto then nextAuto[t] else 1;
      var rows := if t in tables then tables[t] else map[];
      id := Num(next);
      tables := tables[t := rows[id := values[keyColumn := id]]];
      nextAuto := nextAuto[t := next + 1];
    }

    /** INSERT with the key given; refused when the key is taken. */
    method InsertExplicit(t: string, key: Value, row: Row) returns (ok: bool)
      modifies this
      ensures ok <==> key !in Rows(old(Snapshot()), t)
      ensures Snapshot() == if ok then PutRow(old(Snapshot()), t, key, row) else old(Snapshot())
    {
      var rows := if t in tables then tables[t] else map[];
      ok := key !in rows;
      if ok {
        tables := tables[t := rows[key := row]];
      }
    }

    method Update(t: string, keyColumn: string, key: Value, values: Row)
      modifies this
      ensures Snapshot() == UpdateRow(old(Snapshot()), t, keyColumn, key, values)
    {
      var assignable := values - {keyColumn};
      if t in tables && key in tables[t] {
        tables := tables[t := tables[t][key := tables[t][key] + assignable]];
      }
    }
  }
}
