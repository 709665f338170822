/** internal/entry/jsonstore.go, sqlite.go and postgres.go: three backends for registration entries. */
module Stores {
  import opened Prelude
  import opened Matcher

  // ---- The abstract store: a table of entries keyed by ID --------------------------------------

  type Table = map<string, Entry>

  datatype Op = Create(e: Entry) | Update(e: Entry) | Delete(id: string)

  function Target(op: Op): string
  {
    match op
    case Create(e) => e.id
    case Update(e) => e.id
    case Delete(id) => id
  }

  /** Create needs the ID to be free; Update and Delete need it to be taken. */
  predicate Permitted(t: Table, op: Op)
  {
    op.Create? <==> Target(op) !in t
  }

  function Perform(t: Table, op: Op): Table
  {
    if op.Delete? then t - {op.id} else t[op.e.id := op.e]
  }

  function Apply(t: Table, op: Op): Table
  {
    if Permitted(t, op) then Perform(t, op) else t
  }

  ghost predicate Keyed(t: Table) { forall id <- t :: t[id].id == id }

  lemma KeyedTablesHaveDistinctIds(t: Table)
    requires Keyed(t)
    ensures DistinctIds(t.Values)
  {
  }

  /** What a backend's Match answers; handleAttest takes a failure and a nil entry alike. */
  datatype MatchReply = Found(e: Entry) | Nothing | Failure

  function Selected(r: MatchReply): Option<Entry>
  {
    if r.Found? then Some(r.e) else None
  }

  // ---- JSON file -------------------------------------------------------------------------------

  /** Null is a file with the JSON word null in it. */
  datatype FileContent = Absent | Unreadable | Corrupt | Null | Holding(table: Table)

  /** A write either puts the table in the file or fails and leaves there whatever it leaves. */
  datatype Write = Written | Broken(left: FileContent)

  class Disk {
    var content: FileContent

    constructor (content: FileContent)
      ensures this.content == content
    {
      this.content := content;
    }
  }

  /** `entries` is None for Go's nil map, which reads as empty and which nothing can be put into. */
  datatype JsonState = JsonState(entries: Option<Table>, file: FileContent)

  function InMemory(entries: Option<Table>): Table { if entries.None? then map[] else entries.value }

  /** The map in memory after opening, if the file opens. */
  function Open(file: FileContent): Option<Option<Table>>
  {
    match file
    case Absent => Some(Some(map[]))
    case Null => Some(None)
    case Holding(t) => Some(Some(t))
    case Unreadable => None
    case Corrupt => None
  }

  function JsonSave(entries: Table, w: Write): JsonState
  {
    JsonState(Some(entries), if w.Written? then Holding(entries) else w.left)
  }

  predicate JsonPermitted(s: JsonState, op: Op) { s.entries.Some? && Permitted(s.entries.value, op) }

  function JsonNext(s: JsonState, op: Op, w: Write): JsonState
  {
    if JsonPermitted(s, op) then JsonSave(Perform(s.entries.value, op), w) else s
  }

  predicate JsonSucceeds(s: JsonState, op: Op, w: Write) { JsonPermitted(s, op) && w.Written? }

  function Lookup(t: Table, id: string): Option<Entry> { if id in t then Some(t[id]) else None }

  function JsonGet(s: JsonState, id: string): Option<Entry> { Lookup(InMemory(s.entries), id) }

  class JSONStore {
    const disk: Disk
    var entries: Option<Table>

    function View(): JsonState
      reads this, disk
    {
      JsonState(entries, disk.content)
    }

    constructor (disk: Disk, entries: Option<Table>)
      ensures this.disk == disk && this.entries == entries
    {
      this.disk := disk;
      this.entries := entries;
    }

    method Save(w: Write) returns (ok: bool)
      requires entries.Some?
      modifies disk
      ensures ok == w.Written? && View() == JsonSave(entries.value, w)
    {
      disk.content := if w.Written? then Holding(entries.value) else w.left;
      ok := w.Written?;
    }

    /** On a nil map the assignment panics; like an error, that leaves everything as it was. */
    method Create(e: Entry, w: Write) returns (ok: bool)
      modifies this, disk
      ensures ok <==> old(entries).Some? && e.id !in old(entries).value && w.Written?
      ensures old(entries).Some? && e.id !in old(entries).value ==>
                entries == Some(old(entries).value[e.id := e])
                && disk.content == if w.Written? then Holding(entries.value) else w.left
      ensures !(old(entries).Some? && e.id !in old(entries).value) ==>
                entries == old(entries) && disk.content == old(disk.content)
      ensures View() == JsonNext(old(View()), Op.Create(e), w)
      ensures ok == JsonSucceeds(old(View()), Op.Create(e), w)
    {
      if e.id in InMemory(entries) {
        return false;
      }
      if entries.None? {
        return false;
      }
      entries := Some(entries.value[e.id := e]);
      ok := Save(w);
    }

    method Update(e: Entry, w: Write) returns (ok: bool)
      modifies this, disk
      ensures ok <==> old(entries).Some? && e.id in old(entries).value && w.Written?
      ensures old(entries).Some? && e.id in old(entries).value ==>
                entries == Some(old(entries).value[e.id := e])
                && disk.content == if w.Written? then Holding(entries.value) else w.left
      ensures !(old(entries).Some? && e.id in old(entries).value) ==>
                entries == old(entries) && disk.content == old(disk.content)
      ensures View() == JsonNext(old(View()), Op.Update(e), w)
      ensures ok == JsonSucceeds(old(View()), Op.Update(e), w)
    {
      if e.id !in InMemory(entries) {
        return false;
      }
      entries := Some(entries.value[e.id := e]);
      ok := Save(w);
    }

    method Delete(id: string, w: Write) returns (ok: bool)
      modifies this, disk
      ensures ok <==> old(entries).Some? && id in old(entries).value && w.Written?
      ensures old(entries).Some? && id in old(entries).value ==>
                entries == Some(old(entries).value - {id})
                && disk.content == if w.Written? then Holding(entries.value) else w.left
      ensures !(old(entries).Some? && id in old(entries).value) ==>
                entries == old(entries) && disk.content == old(disk.content)
      ensures View() == JsonNext(old(View()), Op.Delete(id), w)
      ensures ok == JsonSucceeds(old(View()), Op.Delete(id), w)
    {
      if id !in InMemory(entries) {
        return false;
      }
      entries := Some(entries.value - {id});
      ok := Save(w);
    }

    method Get(id: string) returns (e: Option<Entry>)
      ensures e == JsonGet(View(), id)
      ensures e.Some? <==> entries.Some? && id in entries.value
      ensures e.Some? ==> e.value == entries.value[id]
    {
      if id !in InMemory(entries) {
        return None;
      }
      return Some(entries.value[id]);
    }

    /** Scans the entries in whatever order the map is walked. */
    method Match(attestor: string, claims: Claims) returns (reply: MatchReply)
      ensures reply != Nothing
      ensures ScannedFrom(Selected(reply), InMemory(entries).Values, attestor, claims)
      ensures Keyed(InMemory(entries)) ==> Selected(reply) == Winner(InMemory(entries).Values, attestor, claims)
    {
      var listed := Enumerate(InMemory(entries));
      var best := MatchEntries(listed, attestor, claims);
      if best.None? {
        return Failure;
      }
      return Found(best.value);
    }
  }

  /** Decoding null into the fresh map makes it nil. */
  method NewJSONStore(disk: Disk) returns (store: JSONStore?)
    ensures store != null <==> Open(disk.content).Some?
    ensures store != null ==> fresh(store) && store.disk == disk && Some(store.entries) == Open(disk.content)
    ensures store == null <==> disk.content == Unreadable || disk.content == Corrupt
    ensures disk.content == Absent ==> store.entries == Some(map[])
    ensures disk.content == Null ==> store.entries.None?
    ensures disk.content.Holding? ==> store.entries == Some(disk.content.table)
    ensures disk.content == old(disk.content)
  {
    match disk.content
    case Absent => store := new JSONStore(disk, Some(map[]));
    case Null => store := new JSONStore(disk, None);
    case Holding(t) => store := new JSONStore(disk, Some(t));
    case Unreadable => store := null;
    case Corrupt => store := null;
  }

  /** A map's values in the arbitrary order in which it happens to be walked. */
  method Enumerate(t: Table) returns (entries: seq<Entry>)
    ensures Pool(entries) == t.Values && |entries| == |t|
  {
    entries := [];
    var todo := t.Keys;
    while todo != {}
      invariant todo <= t.Keys && |entries| + |todo| == |t|
      invariant forall e :: e in entries <==> exists id :: id in t.Keys - todo && t[id] == e
      decreases |todo|
    {
      var id :| id in todo;
      entries := entries + [t[id]];
      todo := todo - {id};
    }
  }

  /** A mutating call: the operation and how its write goes. */
  datatype Call = Call(op: Op, write: Write)

  function JsonRun(s: JsonState, calls: seq<Call>): JsonState
  {
    if calls == [] then s
    else
      var last := calls[|calls| - 1];
      JsonNext(JsonRun(s, calls[..|calls| - 1]), last.op, last.write)
  }

  function ApplyAll(t: Table, calls: seq<Call>): Table
  {
    if calls == [] then t else Apply(ApplyAll(t, calls[..|calls| - 1]), calls[|calls| - 1].op)
  }

  ghost predicate LastCallSucceeded(s: JsonState, calls: seq<Call>)
  {
    calls != []
    && JsonSucceeds(JsonRun(s, calls[..|calls| - 1]), calls[|calls| - 1].op, calls[|calls| - 1].write)
  }

  /** Persistence over any run: memory is the guarded map operations applied in turn, whatever the
      writes did, and stays keyed by ID; after every successful mutating call, even one that follows
      failed saves, the file is the whole memory and reopening it gives the same store. */
  lemma {:induction false} JsonPersistence(s: JsonState, calls: seq<Call>)
    requires s.entries.Some? && Keyed(s.entries.value)
    ensures var v := JsonRun(s, calls);
      && v.entries == Some(ApplyAll(s.entries.value, calls)) && Keyed(v.entries.value)
      && (LastCallSucceeded(s, calls) ==> v.file == Holding(v.entries.value) && Open(v.file) == Some(v.entries))
    decreases |calls|
  {
    if calls == [] {
    } else {
      JsonPersistence(s, calls[..|calls| - 1]);
    }
  }

  /** A store opened on a file that holds null is dead: no call ever succeeds or changes anything, and
      the file, which reopens the same way, is never replaced. */
  lemma {:induction false} NullFileIsDead(s: JsonState, calls: seq<Call>)
    requires s.file == Null && Open(s.file) == Some(s.entries)
    ensures JsonRun(s, calls) == s && !LastCallSucceeded(s, calls)
    decreases |calls|
  {
    if calls == [] {
    } else {
      NullFileIsDead(s, calls[..|calls| - 1]);
    }
  }

  /** And null is the only content with which a file opens dead: in every other store just opened some
      call succeeds. */
  lemma DeadExactly(s: JsonState)
    requires Open(s.file) == Some(s.entries)
    ensures (exists calls :: LastCallSucceeded(s, calls)) <==> s.file != Null
  {
    if s.file == Null {
      forall calls ensures !LastCallSucceeded(s, calls) {
        NullFileIsDead(s, calls);
      }
    } else {
      var t := s.entries.value;
      var op := Op.Create(Entry("", "", "", [], 0));
      if id :| id in t {
        op := Op.Delete(id);
      }
      var calls := [Call(op, Written)];
      assert calls[..0] == [] && LastCallSucceeded(s, calls);
    }
  }

  /** The file falls out of step only through a failed write, and calls refused by their guard keep
      it in step. */
  lemma InStepKept(s: JsonState, op: Op, w: Write)
    requires s.entries.Some? && s.file == Holding(s.entries.value)
    ensures JsonNext(s, op, w).file == Holding(JsonNext(s, op, w).entries.value)
       <==> (w.Written? || !Permitted(s.entries.value, op) || w.left == Holding(Perform(s.entries.value, op)))
  {
  }

  /** What an operation leaves under its ID. */
  function Leaves(op: Op): Option<Entry> { if op.Delete? then None else Some(op.e) }

  /** Every one of these calls that is for this ID is refused. */
  ghost predicate LeftAlone(t: Table, calls: seq<Call>, id: string)
  {
    forall k :: 0 <= k < |calls| && Target(calls[k].op) == id ==> !Permitted(ApplyAll(t, calls[..k]), calls[k].op)
  }

  lemma {:induction false} LeftAloneKeeps(t: Table, calls: seq<Call>, id: string)
    requires LeftAlone(t, calls, id)
    ensures Lookup(ApplyAll(t, calls), id) == Lookup(t, id)
    decreases |calls|
  {
    if calls == [] {
    } else {
      var before := calls[..|calls| - 1];
      assert forall k :: 0 <= k < |before| ==> before[k] == calls[k] && before[..k] == calls[..k];
      LeftAloneKeeps(t, before, id);
    }
  }

  lemma {:induction false} MemoryIsApplied(s: JsonState, calls: seq<Call>)
    requires s.entries.Some?
    ensures JsonRun(s, calls).entries == Some(ApplyAll(s.entries.value, calls))
    decreases |calls|
  {
    if calls == [] {
    } else {
      MemoryIsApplied(s, calls[..|calls| - 1]);
    }
  }

  /** Reading back: Get answers what the last permitted operation for the ID left there, whatever other
      IDs' operations, refused calls and failed writes came since. */
  lemma JsonGetReadsBack(s: JsonState, op: Op, w: Write, later: seq<Call>)
    requires JsonPermitted(s, op) && LeftAlone(Perform(s.entries.value, op), later, Target(op))
    ensures JsonGet(JsonRun(JsonNext(s, op, w), later), Target(op)) == Leaves(op)
  {
    MemoryIsApplied(JsonNext(s, op, w), later);
    LeftAloneKeeps(Perform(s.entries.value, op), later, Target(op));
  }

  // ---- SQL tables ------------------------------------------------------------------------------

  datatype Row = Row(spiffeId: string, attestor: string, selectors: string, ttl: Int64)

  /** The JSON encoding of the selectors column. */
  datatype Codec = Codec(marshal: seq<string> -> string, unmarshal: string -> Option<seq<string>>)

  ghost predicate Lossless(c: Codec) { forall s :: c.unmarshal(c.marshal(s)) == Some(s) }

  function ToRow(c: Codec, e: Entry): Row { Row(e.spiffeId, e.attestor, c.marshal(e.selectors), e.ttl) }

  function Scan(c: Codec, id: string, r: Row): Option<Entry>
  {
    match c.unmarshal(r.selectors)
    case None => None
    case Some(selectors) => Some(Entry(id, r.spiffeId, r.attestor, selectors, r.ttl))
  }

  type Rows = map<string, Row>

  ghost predicate Readable(c: Codec, rows: Rows) { forall id <- rows :: Scan(c, id, rows[id]).Some? }

  /** The table that the rows stand for. */
  ghost function TableOf(c: Codec, rows: Rows): Table
    requires Readable(c, rows)
  {
    map id | id in rows :: Scan(c, id, rows[id]).value
  }

  ghost predicate RowsDecode(c: Codec, rows: Rows, attestor: string)
  {
    forall id <- rows :: rows[id].attestor == attestor ==> Scan(c, id, rows[id]).Some?
  }

  /** The entries of one attestor's rows. */
  ghost function Decoded(c: Codec, rows: Rows, attestor: string): set<Entry>
    requires RowsDecode(c, rows, attestor)
  {
    set id | id in rows && rows[id].attestor == attestor :: Scan(c, id, rows[id]).value
  }

  function SqlNext(c: Codec, rows: Rows, op: Op, dbOk: bool): Rows
  {
    if !dbOk then rows
    else
      match op
      case Create(e) => if e.id in rows then rows else rows[e.id := ToRow(c, e)]
      case Update(e) => if e.id in rows then rows[e.id := ToRow(c, e)] else rows
      case Delete(id) => rows - {id}
  }

  predicate SqlSucceeds(rows: Rows, op: Op, dbOk: bool)
  {
    dbOk && (op.Create? <==> Target(op) !in rows)
  }

  function SqlGet(c: Codec, rows: Rows, id: string, dbOk: bool): Option<Entry>
  {
    if dbOk && id in rows then Scan(c, id, rows[id]) else None
  }

  datatype Dialect = SQLite | Postgres

  class SqlStore {
    const codec: Codec
    const dialect: Dialect
    var rows: Rows

    constructor (codec: Codec, dialect: Dialect, rows: Rows)
      ensures this.codec == codec && this.dialect == dialect && this.rows == rows
    {
      this.codec, this.dialect, this.rows := codec, dialect, rows;
    }

    /** INSERT, which the primary key refuses for a taken ID; `dbOk` is false when the database fails. */
    method Create(e: Entry, dbOk: bool) returns (ok: bool)
      modifies this
      ensures ok <==> dbOk && e.id !in old(rows)
      ensures rows == if ok then old(rows)[e.id := Row(e.spiffeId, e.attestor, codec.marshal(e.selectors), e.ttl)]
                      else old(rows)
      ensures rows == SqlNext(codec, old(rows), Op.Create(e), dbOk)
      ensures ok == SqlSucceeds(old(rows), Op.Create(e), dbOk)
    {
      var selectors := codec.marshal(e.selectors);
      if !dbOk || e.id in rows {
        return false;
      }
      rows := rows[e.id := Row(e.spiffeId, e.attestor, selectors, e.ttl)];
      return true;
    }

    method Update(e: Entry, dbOk: bool) returns (ok: bool)
      modifies this
      ensures ok <==> dbOk && e.id in old(rows)
      ensures rows == if ok then old(rows)[e.id := Row(e.spiffeId, e.attestor, codec.marshal(e.selectors), e.ttl)]
                      else old(rows)
      ensures rows == SqlNext(codec, old(rows), Op.Update(e), dbOk)
      ensures ok == SqlSucceeds(old(rows), Op.Update(e), dbOk)
    {
      var selectors := codec.marshal(e.selectors);
      if !dbOk {
        return false;
      }
      var affected := 0;
      if e.id in rows {
        rows := rows[e.id := Row(e.spiffeId, e.attestor, selectors, e.ttl)];
        affected := 1;
      }
      return affected != 0;
    }

    method Delete(id: string, dbOk: bool) returns (ok: bool)
      modifies this
      ensures ok <==> dbOk && id in old(rows)
      ensures rows == if ok then old(rows) - {id} else old(rows)
      ensures rows == SqlNext(codec, old(rows), Op.Delete(id), dbOk)
      ensures ok == SqlSucceeds(old(rows), Op.Delete(id), dbOk)
    {
      if !dbOk {
        return false;
      }
      var affected := if id in rows then 1 else 0;
      rows := rows - {id};
      return affected != 0;
    }

    method Get(id: string, dbOk: bool) returns (e: Option<Entry>)
      ensures e == SqlGet(codec, rows, id, dbOk)
      ensures e.Some? <==> dbOk && id in rows && codec.unmarshal(rows[id].selectors).Some?
      ensures e.Some? ==> e.value.id == id
    {
      if !dbOk || id !in rows {
        return None;
      }
      return Scan(codec, id, rows[id]);
    }

    /** The row loop of Match: stops at the first row that does not decode. */
    method DecodeRows(attestor: string) returns (entries: Option<seq<Entry>>)
      ensures entries.Some? <==>
                forall id <- rows :: rows[id].attestor == attestor ==> codec.unmarshal(rows[id].selectors).Some?
      ensures entries.Some? ==> forall e <- entries.value :: e.attestor == attestor && e.id in rows
      ensures entries.Some? <==> RowsDecode(codec, rows, attestor)
      ensures entries.Some? ==> Pool(entries.value) == Decoded(codec, rows, attestor)
    {
      var wanted := set id | id in rows && rows[id].attestor == attestor;
      var todo := wanted;
      var sofar: seq<Entry> := [];
      while todo != {}
        invariant todo <= wanted
        invariant forall id <- wanted - todo :: Scan(codec, id, rows[id]).Some?
        invariant forall e :: e in sofar <==> exists id :: id in wanted - todo && Scan(codec, id, rows[id]) == Some(e)
        decreases |todo|
      {
        var id :| id in todo;
        var e := Scan(codec, id, rows[id]);
        if e.None? {
          return None;
        }
        sofar := sofar + [e.value];
        todo := todo - {id};
      }
      assert wanted - todo == wanted;
      assert RowsDecode(codec, rows, attestor);
      forall e ensures e in sofar <==> e in Decoded(codec, rows, attestor) {
        if e in sofar {
          var id :| id in wanted && Scan(codec, id, rows[id]) == Some(e);
        }
        if e in Decoded(codec, rows, attestor) {
          var id :| id in wanted && Scan(codec, id, rows[id]).value == e;
          assert Scan(codec, id, rows[id]) == Some(e);
        }
      }
      return Some(sofar);
    }

    /** SELECT ... WHERE attestor = ?, then the scan over the rows in whatever order they come. A row
        of this attestor that does not decode fails the whole call; other rows are never read. */
    method Match(attestor: string, claims: Claims, dbOk: bool) returns (reply: MatchReply)
      ensures !dbOk || !RowsDecode(codec, rows, attestor) ==> reply == Failure
      ensures (exists id <- rows :: rows[id].attestor == attestor && codec.unmarshal(rows[id].selectors).None?) ==>
                reply == Failure
      ensures reply.Found? ==> dbOk && reply.e.attestor == attestor && reply.e.id in rows
      ensures dbOk && RowsDecode(codec, rows, attestor) ==>
                Selected(reply) == Winner(Decoded(codec, rows, attestor), attestor, claims)
      ensures dbOk && RowsDecode(codec, rows, attestor) && Selected(reply).None? ==>
                reply == if dialect == Postgres then Nothing else Failure
    {
      if !dbOk {
        return Failure;
      }
      var entries := DecodeRows(attestor);
      if entries.None? {
        return Failure;
      }
      var best := MatchEntries(entries.value, attestor, claims);
      if best.None? {
        return if dialect == Postgres then Nothing else Failure;
      }
      return Found(best.value);
    }
  }

  /** With all rows readable, the attestor's rows select what the whole table would. */
  lemma PrefilteredRowsSelectAlike(c: Codec, rows: Rows, attestor: string, claims: Claims)
    requires Readable(c, rows)
    ensures RowsDecode(c, rows, attestor)
    ensures Winner(Decoded(c, rows, attestor), attestor, claims) == Winner(TableOf(c, rows).Values, attestor, claims)
  {
    var t := TableOf(c, rows);
    forall e ensures e in Decoded(c, rows, attestor) <==> e in RowsOf(t.Values, attestor) {
      if e in Decoded(c, rows, attestor) {
        var id :| id in rows && rows[id].attestor == attestor && Scan(c, id, rows[id]).value == e;
        assert id in t && t[id] == e;
      }
      if e in t.Values && e.attestor == attestor {
        var id :| id in t && t[id] == e;
        assert Scan(c, id, rows[id]) == Some(e) && rows[id].attestor == attestor;
      }
    }
    assert Decoded(c, rows, attestor) == RowsOf(t.Values, attestor);
    KeyedTablesHaveDistinctIds(t);
    FilterByAttestor(t.Values, attestor, claims);
  }

  // ---- Equivalence -----------------------------------------------------------------------------

  /** One SQL statement that the database carries out acts on the table as the abstract operation. */
  lemma SqlRefinesTable(c: Codec, rows: Rows, op: Op)
    requires Lossless(c) && Readable(c, rows)
    ensures Readable(c, SqlNext(c, rows, op, true))
    ensures TableOf(c, SqlNext(c, rows, op, true)) == Apply(TableOf(c, rows), op)
    ensures SqlSucceeds(rows, op, true) <==> Permitted(TableOf(c, rows), op)
  {
  }

  function SqlRun(c: Codec, rows: Rows, ops: seq<Op>): Rows
  {
    if ops == [] then rows else SqlNext(c, SqlRun(c, rows, ops[..|ops| - 1]), ops[|ops| - 1], true)
  }

  function Calls(ops: seq<Op>): seq<Call> { seq(|ops|, i requires 0 <= i < |ops| => Call(ops[i], Written)) }

  /** Backend equivalence: with working storage, any sequence of operations leaves all backends
      standing for the same table and permits the same next operation. */
  lemma {:induction false} BackendsAgree(c: Codec, rows: Rows, s: JsonState, ops: seq<Op>)
    requires Lossless(c) && Readable(c, rows) && Some(TableOf(c, rows)) == s.entries
    ensures Readable(c, SqlRun(c, rows, ops))
    ensures Some(TableOf(c, SqlRun(c, rows, ops))) == JsonRun(s, Calls(ops)).entries
    ensures forall next :: SqlSucceeds(SqlRun(c, rows, ops), next, true)
                      <==> JsonSucceeds(JsonRun(s, Calls(ops)), next, Written)
    decreases |ops|
  {
    if ops == [] {
    } else {
      var before := ops[..|ops| - 1];
      BackendsAgree(c, rows, s, before);
      assert Calls(ops)[..|ops| - 1] == Calls(before);
      SqlRefinesTable(c, SqlRun(c, rows, before), ops[|ops| - 1]);
    }
  }

  /** Reading back from SQL: with a working database, Get answers what the last permitted operation for
      the ID left there. */
  lemma SqlGetReadsBack(c: Codec, rows: Rows, op: Op, later: seq<Op>)
    requires Lossless(c) && Readable(c, rows) && SqlSucceeds(rows, op, true)
    requires LeftAlone(Apply(TableOf(c, rows), op), Calls(later), Target(op))
    ensures SqlGet(c, SqlRun(c, SqlNext(c, rows, op, true), later), Target(op), true) == Leaves(op)
  {
    SqlRefinesTable(c, rows, op);
    var after := SqlNext(c, rows, op, true);
    var s := JsonState(Some(TableOf(c, after)), Absent);
    BackendsAgree(c, after, s, later);
    MemoryIsApplied(s, Calls(later));
    LeftAloneKeeps(TableOf(c, after), Calls(later), Target(op));
  }

  /** With failing storage they part ways: a Create whose write fails reports an error everywhere, but
      retried it succeeds on SQL, while JSON already has the entry in memory and refuses it. */
  lemma RetryAfterFailedCreate(c: Codec, rows: Rows, s: JsonState, e: Entry, left: FileContent)
    requires e.id !in rows && JsonPermitted(s, Op.Create(e))
    ensures !SqlSucceeds(rows, Op.Create(e), false) && !JsonSucceeds(s, Op.Create(e), Broken(left))
    ensures SqlSucceeds(SqlNext(c, rows, Op.Create(e), false), Op.Create(e), true)
    ensures !JsonSucceeds(JsonNext(s, Op.Create(e), Broken(left)), Op.Create(e), Written)
  {
  }
}
