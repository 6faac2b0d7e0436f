/** The expand/collapse state of the Snowflake database explorer: the set
    of expanded databases and the set of expanded `database.schema` keys. */
module SnowflakeExplorer {
  import opened Strings
  import opened Catalog

  /** The key under which a schema's expansion is kept. */
  function SchemaKey(db: string, schema: string): string {
    db + "." + schema
  }

  /** The schema keys that survive collapsing `db`: those that do not start
      with `db` followed by a dot. */
  function CollapseUnder(keys: set<string>, db: string): (r: set<string>)
    ensures r <= keys
    ensures forall k :: k in r ==> !StartsWith(k, db + ".")
    ensures forall k :: k in keys && !StartsWith(k, db + ".") ==> k in r
  {
    set k | k in keys && !StartsWith(k, db + ".")
  }

  /** For names without dots, a schema key starts with `db.` exactly when it
      belongs to `db`. */
  lemma SchemaKeyPrefix(db: string, d: string, schema: string)
    requires '.' !in db && '.' !in d
    ensures StartsWith(SchemaKey(d, schema), db + ".") <==> d == db
  {
    var key := SchemaKey(d, schema);
    IndexOfAfter(d, '.', schema);
    if StartsWith(key, db + ".") {
      var rest := key[|db| + 1..];
      assert key == db + ['.'] + rest;
      IndexOfAfter(db, '.', rest);
      assert d == key[..|d|] == db;
    }
    if d == db {
      assert key[..|db| + 1] == db + ".";
    }
  }

  /** For names without dots, collapsing `db` removes the keys of `db`'s
      schemas and no key of another database's schema. */
  lemma CollapseRemovesOnlyItsSchemas(keys: set<string>, db: string, d: string, schema: string)
    requires '.' !in db && '.' !in d
    ensures SchemaKey(d, schema) in CollapseUnder(keys, db) <==> SchemaKey(d, schema) in keys && d != db
  {
    SchemaKeyPrefix(db, d, schema);
  }

  /** Every expanded schema key lies under some expanded database. */
  predicate Covered(dbs: set<string>, keys: set<string>) {
    forall k :: k in keys ==> exists d :: d in dbs && StartsWith(k, d + ".")
  }

  /** Collapsing a database keeps the schema keys covered. */
  lemma CollapseKeepsCovered(dbs: set<string>, keys: set<string>, db: string)
    requires Covered(dbs, keys)
    ensures Covered(dbs - {db}, CollapseUnder(keys, db))
  {
    forall k | k in CollapseUnder(keys, db)
      ensures exists d :: d in dbs - {db} && StartsWith(k, d + ".")
    {
      var d :| d in dbs && StartsWith(k, d + ".");
      assert d != db;
    }
  }

  /** Expanding a database, or a schema of an expanded database, keeps the
      schema keys covered. */
  lemma ExpandKeepsCovered(dbs: set<string>, keys: set<string>, db: string, schema: string)
    requires Covered(dbs, keys)
    ensures Covered(dbs + {db}, keys)
    ensures db in dbs ==> Covered(dbs, Toggle(keys, SchemaKey(db, schema)))
  {
    var key := SchemaKey(db, schema);
    assert key[..|db| + 1] == db + ".";
    forall k | k in keys ensures exists d :: d in dbs + {db} && StartsWith(k, d + ".") {
      var d :| d in dbs && StartsWith(k, d + ".");
      assert d in dbs + {db};
    }
  }

  class Explorer {
    var expandedDatabases: set<string>
    var expandedSchemas: set<string>

    constructor ()
      ensures expandedDatabases == {} && expandedSchemas == {}
    {
      expandedDatabases := {};
      expandedSchemas := {};
    }

    /** `toggleDatabase`: collapsing a database also collapses every schema
        key under its prefix; expanding it touches no schema key. */
    method ToggleDatabase(db: string)
      modifies this
      ensures expandedDatabases == Toggle(old(expandedDatabases), db)
      ensures db in old(expandedDatabases) ==> expandedSchemas == CollapseUnder(old(expandedSchemas), db)
      ensures db !in old(expandedDatabases) ==> expandedSchemas == old(expandedSchemas)
    {
      var newExpanded := expandedDatabases;
      if db in newExpanded {
        newExpanded := newExpanded - {db};
        var newExpandedSchemas := expandedSchemas;
        var remaining := expandedSchemas;
        while remaining != {}
          invariant remaining <= expandedSchemas
          invariant newExpandedSchemas ==
            set k | k in expandedSchemas && (k in remaining || !StartsWith(k, db + "."))
          decreases |remaining|
        {
          var key :| key in remaining;
          if StartsWith(key, db + ".") {
            newExpandedSchemas := newExpandedSchemas - {key};
          }
          remaining := remaining - {key};
        }
        expandedSchemas := newExpandedSchemas;
      } else {
        newExpanded := newExpanded + {db};
      }
      expandedDatabases := newExpanded;
    }

    /** `toggleSchema`: flips the key `db.schema` and nothing else. */
    method ToggleSchema(db: string, schema: string)
      modifies this`expandedSchemas
      ensures expandedSchemas == Toggle(old(expandedSchemas), SchemaKey(db, schema))
    {
      var key := db + "." + schema;
      var newExpanded := expandedSchemas;
      if key in newExpanded {
        newExpanded := newExpanded - {key};
      } else {
        newExpanded := newExpanded + {key};
      }
      expandedSchemas := newExpanded;
    }
  }
}
