/** `SchemaCompareService`: the per-table version ledger, the write-once snapshot store and
    the random analysis identifiers. The ledger and the store are the class's two maps; the
    pure functions below say what each call does to them. */
module CompareService {
  import opened SchemaModel

  /** Table name to the last version handed out for it. */
  type Ledger = map<string, nat>

  /** Analysis identifier to the schemas gathered under it. */
  type Store = map<string, seq<TableSchema>>

  // The version ledger.

  /** The version `getAndIncCurrentTableVersion` hands out next for `table`. */
  function NextVersion(ledger: Ledger, table: string): nat {
    if table in ledger then ledger[table] + 1 else 0
  }

  /** The ledger after one call for `table`. */
  function Bump(ledger: Ledger, table: string): Ledger {
    ledger[table := NextVersion(ledger, table)]
  }

  /** The ledger after one call per element of `tables`, in order. */
  function LedgerAfter(ledger: Ledger, tables: seq<string>): Ledger
    decreases |tables|
  {
    if tables == [] then ledger
    else Bump(LedgerAfter(ledger, tables[..|tables| - 1]), tables[|tables| - 1])
  }

  /** The versions those calls return, in order. */
  function HandedOut(ledger: Ledger, tables: seq<string>): (vs: seq<nat>) {
    seq(|tables|, k requires 0 <= k < |tables| => NextVersion(LedgerAfter(ledger, tables[..k]), tables[k]))
  }

  function Occurrences(tables: seq<string>, t: string): nat
    decreases |tables|
  {
    if tables == [] then 0
    else Occurrences(tables[..|tables| - 1], t) + (if tables[|tables| - 1] == t then 1 else 0)
  }

  /** Every entry of `ledger` is in `later`, at the same or a higher version. */
  ghost predicate Extends(ledger: Ledger, later: Ledger) {
    forall t :: t in ledger ==> t in later && ledger[t] <= later[t]
  }

  /** After a run of calls, a table has an entry exactly when it had one or was asked for, and
      the entry is one below its first version plus the number of calls for it. */
  lemma {:induction false} LedgerAfterCounts(ledger: Ledger, tables: seq<string>, t: string)
    ensures t in LedgerAfter(ledger, tables) <==> t in ledger || t in tables
    ensures t !in tables ==> Occurrences(tables, t) == 0
    ensures t in LedgerAfter(ledger, tables) ==>
              LedgerAfter(ledger, tables)[t] + 1 == NextVersion(ledger, t) + Occurrences(tables, t)
    decreases |tables|
  {
    if tables != [] {
      var prefix := tables[..|tables| - 1];
      assert tables == prefix + [tables[|tables| - 1]];
      LedgerAfterCounts(ledger, prefix, t);
    }
  }

  /** Sequentially, the call for `tables[k]` returns the table's first version plus the number
      of earlier calls for it: from an empty ledger the n-th call for a table returns n - 1. */
  lemma NthCallVersion(ledger: Ledger, tables: seq<string>, k: nat)
    requires k < |tables|
    ensures HandedOut(ledger, tables)[k] == NextVersion(ledger, tables[k]) + Occurrences(tables[..k], tables[k])
  {
    LedgerAfterCounts(ledger, tables[..k], tables[k]);
  }

  /** Calls never lower or drop an entry, and a version handed out for a table that already
      had an entry is above that entry. */
  lemma {:induction false} LedgerOnlyGrows(ledger: Ledger, tables: seq<string>)
    ensures Extends(ledger, LedgerAfter(ledger, tables))
    ensures forall k :: 0 <= k < |tables| && tables[k] in ledger ==>
              HandedOut(ledger, tables)[k] > ledger[tables[k]]
    decreases |tables|
  {
    if tables != [] {
      LedgerOnlyGrows(ledger, tables[..|tables| - 1]);
      forall k | 0 <= k < |tables| && tables[k] in ledger
        ensures HandedOut(ledger, tables)[k] > ledger[tables[k]]
      {
        LedgerOnlyGrows(ledger, tables[..k]);
      }
    }
  }

  /** A later run of calls starts from the ledger a shorter run left. */
  lemma {:induction false} LedgerAfterExtendsPrefix(ledger: Ledger, tables: seq<string>, i: nat)
    requires i <= |tables|
    ensures Extends(LedgerAfter(ledger, tables[..i]), LedgerAfter(ledger, tables))
    decreases |tables| - i
  {
    if i < |tables| {
      var prefix := tables[..|tables| - 1];
      assert prefix[..i] == tables[..i];
      LedgerAfterExtendsPrefix(ledger, prefix, i);
      LedgerOnlyGrows(LedgerAfter(ledger, prefix), [tables[|tables| - 1]]);
    } else {
      assert tables[..i] == tables;
    }
  }

  /** Every version handed out during a run is at most the table's entry after the run. */
  lemma HandedOutBelowLedger(ledger: Ledger, tables: seq<string>, k: nat)
    requires k < |tables|
    ensures tables[k] in LedgerAfter(ledger, tables)
    ensures HandedOut(ledger, tables)[k] <= LedgerAfter(ledger, tables)[tables[k]]
  {
    LedgerAfterExtendsPrefix(ledger, tables, k + 1);
    assert tables[..k + 1][..k] == tables[..k];
  }

  // The snapshot store.

  /** What `getSchemasForAnalysis` returns from `store`. */
  function Lookup(store: Store, id: string): seq<TableSchema> {
    if id in store then store[id] else []
  }

  /** The store after `saveSchemas(id, schemas)`: written only when `id` is new. */
  function Save(store: Store, id: string, schemas: seq<TableSchema>): (r: Store)
    ensures r.Keys == store.Keys + {id}
    ensures forall k :: k in store ==> r[k] == store[k]
    ensures Lookup(r, id) == if id in store then store[id] else schemas
  {
    if id in store then store else store[id := schemas]
  }

  /** `schema` carries a version the ledger has already handed out for its table. */
  ghost predicate Covered(schema: TableSchema, ledger: Ledger) {
    schema.tableName in ledger && schema.version <= ledger[schema.tableName]
  }

  /** Every stored schema is covered by the ledger. */
  ghost predicate StoreCovered(store: Store, ledger: Ledger) {
    forall id, k :: id in store && 0 <= k < |store[id]| ==> Covered(store[id][k], ledger)
  }

  /** Saving covered schemas keeps the store covered, and a grown ledger covers what the
      old one did. */
  lemma CoverageKept(store: Store, ledger: Ledger, later: Ledger, id: string, schemas: seq<TableSchema>)
    requires StoreCovered(store, ledger) && Extends(ledger, later)
    requires forall k :: 0 <= k < |schemas| ==> Covered(schemas[k], later)
    ensures StoreCovered(store, later)
    ensures StoreCovered(Save(store, id, schemas), later)
  {
    assert forall s :: Covered(s, ledger) ==> Covered(s, later);
  }

  // Analysis identifiers.

  const IdLength: nat := 5
  const AlphabetSize: nat := 62

  /** The characters the generator keeps from the range '0'..'z': letters and digits. */
  predicate IsIdChar(c: char) {
    '0' <= c <= 'z' && ('0' <= c <= '9' || 'A' <= c <= 'Z' || 'a' <= c <= 'z')
  }

  function IdChar(i: nat): (c: char)
    requires i < AlphabetSize
    ensures IsIdChar(c)
  {
    if i < 10 then ('0' as int + i) as char
    else if i < 36 then ('A' as int + i - 10) as char
    else ('a' as int + i - 36) as char
  }

  function IdCharIndex(c: char): (i: nat)
    requires IsIdChar(c)
    ensures i < AlphabetSize && IdChar(i) == c
  {
    if c <= '9' then c as int - '0' as int
    else if c <= 'Z' then c as int - 'A' as int + 10
    else c as int - 'a' as int + 36
  }

  /** `generateRandomID`, given the generator's draws: one per character. */
  function GenerateRandomId(draws: seq<nat>): (id: string)
    requires |draws| == IdLength
    ensures |id| == IdLength && forall k :: 0 <= k < |id| ==> IsIdChar(id[k])
  {
    seq(IdLength, k requires 0 <= k < IdLength => IdChar(draws[k] % AlphabetSize))
  }

  /** Every five-character string of letters and digits is a possible identifier, so two
      generated identifiers can coincide. */
  lemma EveryIdIsPossible(id: string)
    requires |id| == IdLength && forall k :: 0 <= k < |id| ==> IsIdChar(id[k])
    ensures exists draws :: |draws| == IdLength && GenerateRandomId(draws) == id
  {
    var draws := seq(IdLength, k requires 0 <= k < IdLength => IdCharIndex(id[k]));
    assert GenerateRandomId(draws) == id;
  }

  class SchemaCompareService {
    var tableVersionMap: Ledger
    var gatheredSchemas: Store

    constructor ()
      ensures tableVersionMap == map[] && gatheredSchemas == map[]
    {
      tableVersionMap := map[];
      gatheredSchemas := map[];
    }

    /** Hands out the next version for `tableName`: 0 the first time, then one above the last. */
    method GetAndIncCurrentTableVersion(tableName: string) returns (version: nat)
      modifies this`tableVersionMap
      ensures version == NextVersion(old(tableVersionMap), tableName)
      ensures tableVersionMap == Bump(old(tableVersionMap), tableName)
      ensures version == 0 <==> tableName !in old(tableVersionMap)
      ensures tableName in old(tableVersionMap) ==> version == old(tableVersionMap)[tableName] + 1
      ensures forall t :: t != tableName && t in old(tableVersionMap) ==>
                t in tableVersionMap && tableVersionMap[t] == old(tableVersionMap)[t]
    {
      if tableName !in tableVersionMap {
        tableVersionMap := tableVersionMap[tableName := 0];
        return 0;
      }
      version := tableVersionMap[tableName] + 1;
      tableVersionMap := tableVersionMap[tableName := version];
    }

    /** Stores `schemas` under `analysisId` unless something is stored there already. */
    method SaveSchemas(analysisId: string, schemas: seq<TableSchema>) returns (saved: bool)
      modifies this`gatheredSchemas
      ensures saved <==> analysisId !in old(gatheredSchemas)
      ensures gatheredSchemas == Save(old(gatheredSchemas), analysisId, schemas)
      ensures !saved ==> gatheredSchemas == old(gatheredSchemas)
      ensures GetSchemasForAnalysis(analysisId) ==
                if saved then schemas else old(GetSchemasForAnalysis(analysisId))
    {
      saved := analysisId !in gatheredSchemas;
      if saved {
        gatheredSchemas := gatheredSchemas[analysisId := schemas];
      }
    }

    /** The schemas stored under `analysisId`, or none for an unknown identifier. */
    function GetSchemasForAnalysis(analysisId: string): (schemas: seq<TableSchema>)
      reads this
      ensures analysisId in gatheredSchemas ==> schemas == gatheredSchemas[analysisId]
      ensures analysisId !in gatheredSchemas ==> schemas == []
    {
      Lookup(gatheredSchemas, analysisId)
    }

    /** Every stored schema carries a version the ledger has handed out for its table. */
    ghost predicate VersionsCovered()
      reads this
    {
      StoreCovered(gatheredSchemas, tableVersionMap)
    }
  }
}
