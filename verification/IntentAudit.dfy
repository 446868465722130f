/** The mapping table of intents to services, its audit log, and the cache that serves it. */
module IntentAudit {
  import opened Options

  /** One entry of a value dictionary: a column set to a value, None standing for NULL. */
  datatype Change = NameTo(name: string) | ServiceTo(service: Option<string>)
                  | ActiveTo(active: Option<bool>) | TaxonomyTo(taxonomy: Option<string>)

  datatype Mapping = Mapping(name: string, service: Option<string>, active: Option<bool>,
                             taxonomy: Option<string>, createdBy: string)

  type Table = map<nat, Mapping>

  datatype AuditRow = AuditRow(action: string, performedBy: string, entity: nat,
                               oldValue: Option<seq<Change>>, newValue: seq<Change>)

  // ---- one row ----

  function SetColumn(m: Mapping, c: Change): Mapping {
    match c
    case NameTo(name) => m.(name := name)
    case ServiceTo(service) => m.(service := service)
    case ActiveTo(active) => m.(active := active)
    case TaxonomyTo(taxonomy) => m.(taxonomy := taxonomy)
  }

  function Applied(changes: seq<Change>, m: Mapping): Mapping
    decreases |changes|
  {
    if changes == [] then m else Applied(changes[1..], SetColumn(m, changes[0]))
  }

  function Blank(createdBy: string): Mapping {
    Mapping("", None, None, None, createdBy)
  }

  /** The columns' constraints: service and taxonomy not NULL, the service one of the known services. */
  predicate Committable(services: set<string>, m: Mapping) {
    m.service.Some? && m.service.value in services && m.taxonomy.Some?
  }

  // ---- requests ----

  datatype CreatePayload = CreatePayload(name: string, service: string, taxonomy: string)

  /** A field of an update that may be missing, and may be an explicit null. */
  datatype Field<T> = Unset | Given(value: Option<T>)

  datatype UpdatePayload = UpdatePayload(service: Field<string>, active: Field<bool>, taxonomy: Field<string>)

  function ModelDump(p: UpdatePayload): seq<Change> {
    (if p.service.Given? then [ServiceTo(p.service.value)] else [])
    + (if p.active.Given? then [ActiveTo(p.active.value)] else [])
    + (if p.taxonomy.Given? then [TaxonomyTo(p.taxonomy.value)] else [])
  }

  function CreatedValues(p: CreatePayload): seq<Change> {
    [NameTo(p.name), ServiceTo(Some(p.service)), TaxonomyTo(Some(p.taxonomy)), ActiveTo(Some(true))]
  }

  function OldValues(m: Mapping): seq<Change> {
    [ServiceTo(m.service), ActiveTo(m.active), TaxonomyTo(m.taxonomy)]
  }

  datatype Outcome = Saved(mapping: Mapping) | AlreadyExists | NotFound | CommitFailed

  predicate NameTaken(table: Table, name: string) {
    exists id :: id in table && table[id].name == name
  }

  /** What one request does: the table, the rows it adds to the log, and its answer. */
  datatype Effect = Effect(table: Table, rows: seq<AuditRow>, outcome: Outcome)

  function Refused(table: Table, outcome: Outcome): Effect {
    Effect(table, [], outcome)
  }

  /** id is the key the database draws. */
  function Create(table: Table, services: set<string>, id: nat, p: CreatePayload, who: string): Effect {
    if NameTaken(table, p.name) then Refused(table, AlreadyExists)
    else
      var m := Mapping(p.name, Some(p.service), Some(true), Some(p.taxonomy), who);
      if id in table || !Committable(services, m) then Refused(table, CommitFailed)
      else Effect(table[id := m], [AuditRow("MAPPING_CREATED", who, id, None, CreatedValues(p))], Saved(m))
  }

  function Update(table: Table, services: set<string>, id: nat, p: UpdatePayload, who: string): Effect {
    if id !in table then Refused(table, NotFound)
    else
      var m := Applied(ModelDump(p), table[id]);
      if !Committable(services, m) then Refused(table, CommitFailed)
      else Effect(table[id := m],
                  [AuditRow("MAPPING_UPDATED", who, id, Some(OldValues(table[id])), ModelDump(p))], Saved(m))
  }

  function Deactivate(table: Table, id: nat, who: string): Effect {
    if id !in table then Refused(table, NotFound)
    else
      var m := table[id].(active := Some(false));
      Effect(table[id := m],
             [AuditRow("MAPPING_DEACTIVATED", who, id, Some([ActiveTo(table[id].active)]), [ActiveTo(Some(false))])],
             Saved(m))
  }

  /** The database and its guarded operations. A failed commit leaves no trace. */
  class IntentMappings {
    var table: Table
    var audit: seq<AuditRow>

    method CreateMapping(services: set<string>, id: nat, p: CreatePayload, who: string) returns (outcome: Outcome)
      modifies this
      ensures var e := Create(old(table), services, id, p, who);
              table == e.table && audit == old(audit) + e.rows && outcome == e.outcome
    {
      if NameTaken(table, p.name) {
        return AlreadyExists;
      }
      var mapping := Mapping(p.name, Some(p.service), Some(true), Some(p.taxonomy), who);
      if id in table || !Committable(services, mapping) {
        return CommitFailed;
      }
      table := table[id := mapping];
      audit := audit + [AuditRow("MAPPING_CREATED", who, id, None, CreatedValues(p))];
      return Saved(mapping);
    }

    method UpdateMapping(services: set<string>, id: nat, p: UpdatePayload, who: string) returns (outcome: Outcome)
      modifies this
      ensures var e := Update(old(table), services, id, p, who);
              table == e.table && audit == old(audit) + e.rows && outcome == e.outcome
    {
      if id !in table {
        return NotFound;
      }
      var oldValue := OldValues(table[id]);
      var updateData := ModelDump(p);
      var mapping := SetAttributes(table[id], updateData);
      if !Committable(services, mapping) {
        return CommitFailed;
      }
      table := table[id := mapping];
      audit := audit + [AuditRow("MAPPING_UPDATED", who, id, Some(oldValue), updateData)];
      return Saved(mapping);
    }

    method DeleteMapping(id: nat, who: string) returns (outcome: Outcome)
      modifies this
      ensures var e := Deactivate(old(table), id, who);
              table == e.table && audit == old(audit) + e.rows && outcome == e.outcome
    {
      if id !in table {
        return NotFound;
      }
      var oldValue := [ActiveTo(table[id].active)];
      var mapping := table[id].(active := Some(false));
      table := table[id := mapping];
      audit := audit + [AuditRow("MAPPING_DEACTIVATED", who, id, Some(oldValue), [ActiveTo(Some(false))])];
      return Saved(mapping);
    }
  }

  /** The setattr loop. */
  method SetAttributes(before: Mapping, changes: seq<Change>) returns (m: Mapping)
    ensures m == Applied(changes, before)
  {
    m := before;
    for i := 0 to |changes|
      invariant Applied(changes[i..], m) == Applied(changes, before)
    {
      assert changes[i..][1..] == changes[i + 1..];
      m := SetColumn(m, changes[i]);
    }
  }

  // ---- the log against the table ----

  /** Applying the new values of a log row: to its entity, or to a blank row when it has none yet. */
  function Redo(table: Table, row: AuditRow): Table {
    var before := if row.entity in table then table[row.entity] else Blank(row.performedBy);
    table[row.entity := Applied(row.newValue, before)]
  }

  /** Putting the old values of a log row back; a row without any made the entity. */
  function Undo(table: Table, row: AuditRow): Table {
    if row.entity !in table then table
    else if row.oldValue.None? then table - {row.entity}
    else table[row.entity := Applied(row.oldValue.value, table[row.entity])]
  }

  function RedoAll(table: Table, rows: seq<AuditRow>): Table
    decreases |rows|
  {
    if rows == [] then table else RedoAll(Redo(table, rows[0]), rows[1..])
  }

  function UndoAll(table: Table, rows: seq<AuditRow>): Table
    decreases |rows|
  {
    if rows == [] then table else UndoAll(Undo(table, rows[|rows| - 1]), rows[..|rows| - 1])
  }

  ghost predicate UniqueNames(table: Table) {
    forall i, j :: i in table && j in table && table[i].name == table[j].name ==> i == j
  }

  ghost predicate NoNulls(table: Table) {
    forall i :: i in table ==> table[i].service.Some? && table[i].taxonomy.Some?
  }

  ghost predicate Inv(table: Table) {
    UniqueNames(table) && NoNulls(table)
  }

  /** An update can set neither the name nor the author, and its old values put all else back. */
  lemma {:induction false} UpdateReverses(m: Mapping, p: UpdatePayload)
    ensures var n := Applied(ModelDump(p), m);
            n.name == m.name && n.createdBy == m.createdBy && Applied(OldValues(m), n) == m
  {
    var n := Applied(ModelDump(p), m);
    assert n == m.(service := if p.service.Given? then p.service.value else m.service,
                   active := if p.active.Given? then p.active.value else m.active,
                   taxonomy := if p.taxonomy.Given? then p.taxonomy.value else m.taxonomy) by {
      DumpApplied(m, p);
    }
    AppliedThree(ServiceTo(m.service), ActiveTo(m.active), TaxonomyTo(m.taxonomy), n);
  }

  lemma {:induction false} AppliedConcat(a: seq<Change>, b: seq<Change>, m: Mapping)
    ensures Applied(a + b, m) == Applied(b, Applied(a, m))
    decreases |a|
  {
    if a == [] {
      assert a + b == b;
    } else {
      assert (a + b)[1..] == a[1..] + b;
      AppliedConcat(a[1..], b, SetColumn(m, a[0]));
    }
  }

  lemma {:induction false} AppliedOne(c: Change, m: Mapping)
    ensures Applied([c], m) == SetColumn(m, c)
  {
    assert [c][1..] == [];
  }

  lemma {:induction false} AppliedThree(a: Change, b: Change, c: Change, m: Mapping)
    ensures Applied([a, b, c], m) == SetColumn(SetColumn(SetColumn(m, a), b), c)
  {
    assert [a, b, c][1..] == [b, c];
    assert [b, c][1..] == [c];
    AppliedOne(c, SetColumn(SetColumn(m, a), b));
  }

  lemma {:induction false} DumpApplied(m: Mapping, p: UpdatePayload)
    ensures Applied(ModelDump(p), m)
            == m.(service := if p.service.Given? then p.service.value else m.service,
                  active := if p.active.Given? then p.active.value else m.active,
                  taxonomy := if p.taxonomy.Given? then p.taxonomy.value else m.taxonomy)
  {
    var s := if p.service.Given? then [ServiceTo(p.service.value)] else [];
    var a := if p.active.Given? then [ActiveTo(p.active.value)] else [];
    var t := if p.taxonomy.Given? then [TaxonomyTo(p.taxonomy.value)] else [];
    AppliedConcat(s + a, t, m);
    AppliedConcat(s, a, m);
    AppliedOne(ServiceTo(if p.service.Given? then p.service.value else None), m);
    var m1 := Applied(s, m);
    AppliedOne(ActiveTo(if p.active.Given? then p.active.value else None), m1);
    var m2 := Applied(a, m1);
    AppliedOne(TaxonomyTo(if p.taxonomy.Given? then p.taxonomy.value else None), m2);
  }

  lemma {:induction false} CreatedApplied(p: CreatePayload, who: string)
    ensures Applied(CreatedValues(p), Blank(who)) == Mapping(p.name, Some(p.service), Some(true), Some(p.taxonomy), who)
  {
    var v := CreatedValues(p);
    assert v[1..] == [v[1], v[2], v[3]];
    AppliedThree(v[1], v[2], v[3], SetColumn(Blank(who), v[0]));
  }

  // ---- runs ----

  /** A request, with the services known when it is committed. */
  datatype Request = CreateRequest(services: set<string>, id: nat, create: CreatePayload, who: string)
                   | UpdateRequest(services: set<string>, id: nat, update: UpdatePayload, who: string)
                   | DeleteRequest(id: nat, who: string)

  function Handle(table: Table, r: Request): Effect {
    match r
    case CreateRequest(services, id, p, who) => Create(table, services, id, p, who)
    case UpdateRequest(services, id, p, who) => Update(table, services, id, p, who)
    case DeleteRequest(id, who) => Deactivate(table, id, who)
  }

  /** The log rows say what happened: redone they make the new table, undone they give the old one back. */
  ghost predicate Explains(rows: seq<AuditRow>, before: Table, after: Table) {
    RedoAll(before, rows) == after && UndoAll(after, rows) == before
  }

  lemma {:induction false} NothingExplained(table: Table)
    ensures Explains([], table, table)
  {
  }

  lemma {:induction false} OneRowExplains(row: AuditRow, before: Table, after: Table)
    requires Redo(before, row) == after && Undo(after, row) == before
    ensures Explains([row], before, after)
  {
    assert [row][1..] == [] && [row][..0] == [];
  }

  lemma {:induction false} RedoConcat(table: Table, a: seq<AuditRow>, b: seq<AuditRow>)
    ensures RedoAll(table, a + b) == RedoAll(RedoAll(table, a), b)
    decreases |a|
  {
    if a == [] {
      assert a + b == b;
    } else {
      assert (a + b)[1..] == a[1..] + b;
      RedoConcat(Redo(table, a[0]), a[1..], b);
    }
  }

  lemma {:induction false} UndoConcat(table: Table, a: seq<AuditRow>, b: seq<AuditRow>)
    ensures UndoAll(table, a + b) == UndoAll(UndoAll(table, b), a)
    decreases |b|
  {
    if b == [] {
      assert a + b == a;
    } else {
      var n := |b| - 1;
      assert (a + b)[..|a + b| - 1] == a + b[..n];
      UndoConcat(Undo(table, b[n]), a, b[..n]);
    }
  }

  lemma {:induction false} ExplainsConcat(a: seq<AuditRow>, b: seq<AuditRow>, first: Table, middle: Table, last: Table)
    requires Explains(a, first, middle) && Explains(b, middle, last)
    ensures Explains(a + b, first, last)
  {
    RedoConcat(first, a, b);
    UndoConcat(last, a, b);
  }

  /** One request keeps the invariant, and its log rows explain it. A refused one leaves no trace. */
  lemma {:induction false} HandleExplains(table: Table, r: Request)
    requires Inv(table)
    ensures var e := Handle(table, r);
            Inv(e.table) && Explains(e.rows, table, e.table)
            && (if e.outcome.Saved? then |e.rows| == 1 && e.rows[0].entity == r.id && e.rows[0].performedBy == r.who
                else e.rows == [] && e.table == table)
  {
    var e := Handle(table, r);
    if e.outcome.Saved? {
      match r {
        case CreateRequest(_, id, p, who) =>
          CreatedApplied(p, who);
          assert e.table - {id} == table;
        case UpdateRequest(_, id, p, who) =>
          UpdateReverses(table[id], p);
          assert e.table[id := table[id]] == table;
        case DeleteRequest(id, who) =>
          AppliedOne(ActiveTo(Some(false)), table[id]);
          AppliedOne(ActiveTo(table[id].active), e.table[id]);
          assert e.table[id := table[id]] == table;
      }
      OneRowExplains(e.rows[0], table, e.table);
    } else {
      NothingExplained(table);
    }
  }

  function Run(table: Table, requests: seq<Request>): (Table, seq<AuditRow>)
    decreases |requests|
  {
    if requests == [] then (table, [])
    else
      var e := Handle(table, requests[0]);
      var (last, rows) := Run(e.table, requests[1..]);
      (last, e.rows + rows)
  }

  /** Every run of creates, updates and deactivations, refused ones among them: the log gives the table
      back in both directions, and no two rows, active or not, ever share a name. */
  lemma {:induction false} LogIsComplete(table: Table, requests: seq<Request>)
    requires Inv(table)
    ensures var (last, rows) := Run(table, requests);
            Inv(last) && Explains(rows, table, last)
    decreases |requests|
  {
    hide Inv, Explains, Handle;
    if requests == [] {
      NothingExplained(table);
    } else {
      HandleExplains(table, requests[0]);
      var e := Handle(table, requests[0]);
      LogIsComplete(e.table, requests[1..]);
      var (last, rows) := Run(e.table, requests[1..]);
      ExplainsConcat(e.rows, rows, table, e.table, last);
    }
  }

  // ---- the history of one mapping ----

  function RowsOf(rows: seq<AuditRow>, id: nat): seq<AuditRow> {
    if rows == [] then [] else (if rows[0].entity == id then [rows[0]] else []) + RowsOf(rows[1..], id)
  }

  /** The log rows of one entity alone tell that entity's state. */
  lemma {:induction false} OwnRowsSuffice(a: Table, b: Table, rows: seq<AuditRow>, id: nat)
    requires (id in a <==> id in b) && (id in a ==> a[id] == b[id])
    ensures var all := RedoAll(a, rows);
            var own := RedoAll(b, RowsOf(rows, id));
            (id in all <==> id in own) && (id in all ==> all[id] == own[id])
    decreases |rows|
  {
    if rows != [] {
      var row := rows[0];
      if row.entity == id {
        assert RowsOf(rows, id)[1..] == RowsOf(rows[1..], id);
        OwnRowsSuffice(Redo(a, row), Redo(b, row), rows[1..], id);
      } else {
        assert RowsOf(rows, id) == RowsOf(rows[1..], id);
        OwnRowsSuffice(Redo(a, row), b, rows[1..], id);
      }
    }
  }

  // ---- the cache ----

  predicate Active(m: Mapping) {
    m.active == Some(true)
  }

  /** The rows a query for the active mappings answers with, in the database's order. */
  ghost predicate ListsActive(table: Table, listed: seq<Mapping>) {
    && (forall i :: 0 <= i < |listed| ==> exists id :: id in table && table[id] == listed[i] && Active(listed[i]))
    && (forall id :: id in table && Active(table[id]) ==> table[id] in listed)
  }

  /** What a lookup must answer. */
  ghost predicate ServedBy(table: Table, name: string, service: string) {
    exists id :: id in table && Active(table[id]) && table[id].name == name && table[id].service == Some(service)
  }

  ghost predicate Serves(cache: map<string, string>, table: Table) {
    forall name, service :: (name in cache && cache[name] == service) <==> ServedBy(table, name, service)
  }

  class IntentCache {
    var cache: map<string, string>
    var version: string

    constructor ()
      ensures cache == map[] && version == "unknown"
    {
      cache := map[];
      version := "unknown";
    }

    method ForceReload(ghost table: Table, listed: seq<Mapping>)
      requires Inv(table) && ListsActive(table, listed)
      modifies this
      ensures Serves(cache, table)
      ensures version == VersionOf(listed)
      ensures if listed == [] then version == "unknown" else Some(version) == listed[|listed| - 1].taxonomy
    {
      LastTaxonomy(table, listed);
      hide Inv, ListsActive, Serves;
      var newCache: map<string, string> := map[];
      var latest := "unknown";
      for i := 0 to |listed|
        invariant newCache == CacheOf(listed[..i]) && latest == VersionOf(listed[..i])
      {
        assert listed[..i + 1][..i] == listed[..i];
        newCache := newCache[listed[i].name := ServiceOf(listed[i])];
        latest := TaxonomyOf(listed[i]);
      }
      assert listed[..|listed|] == listed;
      CacheServes(table, listed);
      cache, version := newCache, latest;
    }

    /** None stands for the "intent not found" error. For a cache loaded from a table: the service of the
        active mapping of that name, unless it is empty; and not found if there is no such mapping. */
    method ResolveIntent(ghost table: Table, name: string) returns (service: Option<string>)
      ensures service == Resolve(cache, name)
      ensures Serves(cache, table) ==> forall s :: service == Some(s) <==> s != "" && ServedBy(table, name, s)
      ensures Serves(cache, table) ==> (service == None <==> forall s :: ServedBy(table, name, s) ==> s == "")
    {
      assert Serves(cache, table) && name in cache ==> ServedBy(table, name, cache[name]);
      if name !in cache || cache[name] == "" {
        return None;
      }
      return Some(cache[name]);
    }
  }

  /** service_id = cache.get(name), and not found for nothing and for the empty string. */
  function Resolve(cache: map<string, string>, name: string): Option<string> {
    if name in cache && cache[name] != "" then Some(cache[name]) else None
  }

  // Neither is NULL in a committed row.
  function ServiceOf(m: Mapping): string {
    if m.service.Some? then m.service.value else ""
  }

  function TaxonomyOf(m: Mapping): string {
    if m.taxonomy.Some? then m.taxonomy.value else ""
  }

  function CacheOf(listed: seq<Mapping>): map<string, string> {
    if listed == [] then map[]
    else
      var last := |listed| - 1;
      CacheOf(listed[..last])[listed[last].name := ServiceOf(listed[last])]
  }

  function VersionOf(listed: seq<Mapping>): string {
    if listed == [] then "unknown" else TaxonomyOf(listed[|listed| - 1])
  }

  lemma {:induction false} LastTaxonomy(table: Table, listed: seq<Mapping>)
    requires Inv(table) && ListsActive(table, listed)
    ensures if listed == [] then VersionOf(listed) == "unknown"
            else Some(VersionOf(listed)) == listed[|listed| - 1].taxonomy
  {
  }

  ghost predicate Distinct(listed: seq<Mapping>) {
    forall i, j :: 0 <= i < |listed| && 0 <= j < |listed| && listed[i].name == listed[j].name ==> listed[i] == listed[j]
  }

  lemma {:induction false} CacheHas(listed: seq<Mapping>, i: nat)
    requires Distinct(listed) && i < |listed|
    ensures listed[i].name in CacheOf(listed) && CacheOf(listed)[listed[i].name] == ServiceOf(listed[i])
  {
    var last := |listed| - 1;
    if i < last {
      var before := listed[..last];
      CacheHas(before, i);
      assert before[i] == listed[i];
    }
  }

  lemma {:induction false} CacheHasOnly(listed: seq<Mapping>, name: string) returns (i: nat)
    requires name in CacheOf(listed)
    ensures i < |listed| && listed[i].name == name
  {
    i := |listed| - 1;
    if name != listed[i].name {
      i := CacheHasOnly(listed[..i], name);
    }
  }

  lemma {:induction false} CacheServes(table: Table, listed: seq<Mapping>)
    requires Inv(table) && ListsActive(table, listed)
    ensures Serves(CacheOf(listed), table)
  {
    var cache := CacheOf(listed);
    assert Distinct(listed);
    forall name, service ensures (name in cache && cache[name] == service) <==> ServedBy(table, name, service) {
      if name in cache && cache[name] == service {
        var j := CacheHasOnly(listed, name);
        CacheHas(listed, j);
        assert ServiceOf(listed[j]) == service;
      }
      if ServedBy(table, name, service) {
        var id :| id in table && Active(table[id]) && table[id].name == name && table[id].service == Some(service);
        var j :| 0 <= j < |listed| && listed[j] == table[id];
        CacheHas(listed, j);
        assert ServiceOf(listed[j]) == service;
      }
    }
  }

  /** After a reload that follows a run, an intent resolves to a service exactly if the log says so:
      it leads from the table before the run to an active row with that name and that service, which
      is not the empty string; and to one service at most. */
  lemma {:induction false} ReloadAgreesWithLog(table: Table, requests: seq<Request>, cache: map<string, string>,
                                               name: string, service: string, other: string)
    requires Inv(table) && Serves(cache, Run(table, requests).0)
    ensures var logged := RedoAll(table, Run(table, requests).1);
            && (Resolve(cache, name) == Some(service) <==> service != "" && ServedBy(logged, name, service))
            && (ServedBy(logged, name, service) && ServedBy(logged, name, other) ==> service == other)
  {
    LogIsComplete(table, requests);
  }

  /** A deactivated intent keeps its name: no new row can take it. */
  lemma {:induction false} NameStaysTaken(table: Table, requests: seq<Request>, name: string)
    requires NameTaken(table, name)
    ensures NameTaken(Run(table, requests).0, name)
    decreases |requests|
  {
    if requests != [] {
      var e := Handle(table, requests[0]);
      var id :| id in table && table[id].name == name;
      if requests[0].UpdateRequest? && requests[0].id in table {
        UpdateReverses(table[requests[0].id], requests[0].update);
      }
      assert id in e.table && e.table[id].name == name;
      NameStaysTaken(e.table, requests[1..], name);
    }
  }

  // ---- what each request does ----

  /** Names other than this one are served as before. */
  ghost predicate OthersServed(before: Table, after: Table, name: string) {
    forall other, service :: other != name ==> (ServedBy(after, other, service) <==> ServedBy(before, other, service))
  }

  /** Only this row is new or has changed. */
  ghost predicate OnlyRow(before: Table, after: Table, id: nat) {
    after.Keys == before.Keys + {id} && forall other :: other in before && other != id ==> after[other] == before[other]
  }

  lemma {:induction false} OthersServedBy(before: Table, after: Table, id: nat, name: string)
    requires OnlyRow(before, after, id) && after[id].name == name && (id in before ==> before[id].name == name)
    ensures OthersServed(before, after, name)
  {
    forall other, service | other != name
      ensures ServedBy(after, other, service) <==> ServedBy(before, other, service)
    {
      if ServedBy(after, other, service) {
        var i :| i in after && Active(after[i]) && after[i].name == other && after[i].service == Some(service);
        assert i in before && before[i] == after[i];
      }
      if ServedBy(before, other, service) {
        var i :| i in before && Active(before[i]) && before[i].name == other && before[i].service == Some(service);
        assert i in after && after[i] == before[i];
      }
    }
  }

  /** What is served under the name of a row: its own service if it is active, and nothing if it is not. */
  lemma {:induction false} ServedByRow(table: Table, id: nat, service: string)
    requires UniqueNames(table) && id in table
    ensures ServedBy(table, table[id].name, service)
            <==> table[id].active == Some(true) && table[id].service == Some(service)
  {
    if ServedBy(table, table[id].name, service) {
      var i :| i in table && Active(table[i]) && table[i].name == table[id].name && table[i].service == Some(service);
      assert i == id;
    }
  }

  /** A create is refused exactly for a name that some row has, active or not, a key that is taken, or an
      unknown service. Else the name is served at once, all others as before, and the log says so. */
  lemma {:induction false} CreateServes(table: Table, services: set<string>, id: nat, p: CreatePayload, who: string)
    requires Inv(table)
    ensures var e := Handle(table, CreateRequest(services, id, p, who));
            && (e.outcome == AlreadyExists <==> exists i :: i in table && table[i].name == p.name)
            && (e.outcome.Saved? <==>
                  (forall i :: i in table ==> table[i].name != p.name) && id !in table && p.service in services)
            && (e.outcome.Saved? ==>
                  && OnlyRow(table, e.table, id) && OthersServed(table, e.table, p.name)
                  && e.outcome == Saved(e.table[id]) && e.table[id].createdBy == who
                  && e.table[id].taxonomy == Some(p.taxonomy)
                  && (forall s :: ServedBy(e.table, p.name, s) <==> s == p.service)
                  && e.rows == [AuditRow("MAPPING_CREATED", who, id, None,
                                         [NameTo(p.name), ServiceTo(Some(p.service)), TaxonomyTo(Some(p.taxonomy)),
                                          ActiveTo(Some(true))])])
  {
    var r := CreateRequest(services, id, p, who);
    var e := Handle(table, r);
    HandleExplains(table, r);
    if e.outcome.Saved? {
      OthersServedBy(table, e.table, id, p.name);
      forall s ensures ServedBy(e.table, p.name, s) <==> s == p.service {
        ServedByRow(e.table, id, s);
      }
    }
  }

  /** An update is refused exactly for an unknown row, a missing service or taxonomy, or an unknown service.
      Else the fields given are set and no others; and the row's name is served exactly if it is active
      now, with its service of now. */
  lemma {:induction false} UpdateServes(table: Table, services: set<string>, id: nat, p: UpdatePayload, who: string)
    requires Inv(table)
    ensures var e := Handle(table, UpdateRequest(services, id, p, who));
            && (e.outcome == NotFound <==> id !in table)
            && (id in table ==>
                  var service := if p.service.Given? then p.service.value else table[id].service;
                  var active := if p.active.Given? then p.active.value else table[id].active;
                  var taxonomy := if p.taxonomy.Given? then p.taxonomy.value else table[id].taxonomy;
                  var m := Mapping(table[id].name, service, active, taxonomy, table[id].createdBy);
                  && (e.outcome.Saved? <==> service.Some? && service.value in services && taxonomy.Some?)
                  && (e.outcome.Saved? ==>
                        && e.outcome == Saved(m) && OnlyRow(table, e.table, id) && e.table[id] == m
                        && OthersServed(table, e.table, m.name)
                        && (forall s :: ServedBy(e.table, m.name, s) <==> active == Some(true) && service == Some(s))
                        && |e.rows| == 1 && e.rows[0].action == "MAPPING_UPDATED"
                        && e.rows[0].newValue == ModelDump(p)))
  {
    var r := UpdateRequest(services, id, p, who);
    var e := Handle(table, r);
    HandleExplains(table, r);
    if id in table {
      DumpApplied(table[id], p);
      if e.outcome.Saved? {
        OthersServedBy(table, e.table, id, table[id].name);
        forall s ensures ServedBy(e.table, table[id].name, s)
                         <==> e.table[id].active == Some(true) && e.table[id].service == Some(s) {
          ServedByRow(e.table, id, s);
        }
      }
    }
  }

  /** A delete of a known row changes its active column and nothing else: no service is served under its name
      any more, a cache that serves the new table does not find it, and all other names are served as
      before. */
  lemma {:induction false} DeleteDeactivates(table: Table, id: nat, who: string, cache: map<string, string>)
    requires Inv(table)
    ensures var e := Handle(table, DeleteRequest(id, who));
            && (e.outcome == NotFound <==> id !in table) && (e.outcome.Saved? <==> id in table)
            && (id in table ==>
                  var name := table[id].name;
                  && e.outcome == Saved(e.table[id]) && OnlyRow(table, e.table, id)
                  && e.table[id] == Mapping(name, table[id].service, Some(false), table[id].taxonomy,
                                            table[id].createdBy)
                  && (forall s :: !ServedBy(e.table, name, s)) && OthersServed(table, e.table, name)
                  && (Serves(cache, e.table) ==> Resolve(cache, name) == None)
                  && e.rows == [AuditRow("MAPPING_DEACTIVATED", who, id, Some([ActiveTo(table[id].active)]),
                                         [ActiveTo(Some(false))])])
  {
    var r := DeleteRequest(id, who);
    var e := Handle(table, r);
    HandleExplains(table, r);
    if id in table {
      var name := table[id].name;
      assert Serves(cache, e.table) && name in cache ==> ServedBy(e.table, name, cache[name]);
      OthersServedBy(table, e.table, id, name);
      forall s ensures !ServedBy(e.table, name, s) {
        ServedByRow(e.table, id, s);
      }
    }
  }
}
