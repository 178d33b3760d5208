/**
 The schema upgrades of the mobile database. Each migration and the version it leads to are
 one transaction; an upgrade may be cut short, and the next start tries again.

 A migration is any function on schemas. `failAt` is the migration whose transaction rolls back.
 */
module SchemaMigrations {
  import opened Outcomes

  type Migration<!S> = S -> S

  datatype Database<S> = Database(version: nat, schema: S)

  /** Migrations `from` up to `end`, in order. */
  function Migrated<S>(migrations: seq<Migration<S>>, schema: S, from: nat, end: nat): S
    requires from <= end <= |migrations|
  {
    if from == end then schema else migrations[end - 1](Migrated(migrations, schema, from, end - 1))
  }

  lemma OneMoreMigration<S>(migrations: seq<Migration<S>>, schema: S, from: nat, next: nat)
    requires from <= next <= |migrations|
    ensures Migrated(migrations, schema, from, from) == schema
    ensures next < |migrations| ==>
              Migrated(migrations, schema, from, next + 1) ==
              migrations[next](Migrated(migrations, schema, from, next))
  {
  }

  /** Where an upgrade stops: at the migration that fails, or at the last one. */
  function StopsAt(version: nat, count: nat, failAt: Option<nat>): nat {
    if failAt.Some? && version <= failAt.value < count then failAt.value
    else if version < count then count
    else version
  }

  /** A database newer than the app is left alone. */
  function Upgraded<S>(migrations: seq<Migration<S>>, db: Database<S>, failAt: Option<nat>): Database<S> {
    var stop := StopsAt(db.version, |migrations|, failAt);
    if stop <= db.version then db else Database(stop, Migrated(migrations, db.schema, db.version, stop))
  }

  class MigratableDb<S> {
    var version: nat
    var schema: S

    constructor (version: nat, schema: S)
      ensures this.version == version && this.schema == schema
    {
      this.version := version;
      this.schema := schema;
    }

    /** True when the upgrade finished. */
    method RunMigrations(migrations: seq<Migration<S>>, failAt: Option<nat>) returns (ok: bool)
      modifies this
      ensures Database(version, schema) == Upgraded(migrations, Database(old(version), old(schema)), failAt)
      ensures ok <==> version >= |migrations|
      ensures old(version) >= |migrations| ==> version == old(version) && schema == old(schema)
      ensures old(version) < |migrations| ==>
                && version == (if failAt.Some? && old(version) <= failAt.value < |migrations| then failAt.value
                               else |migrations|)
                && schema == Migrated(migrations, old(schema), old(version), version)
    {
      hide Migrated;
      var next := version;
      if next <= |migrations| {
        OneMoreMigration(migrations, schema, version, version);
      }
      while next < |migrations|
        invariant version == next
        invariant old(version) <= next && (old(version) <= |migrations| ==> next <= |migrations|)
        invariant failAt.Some? && old(version) <= failAt.value < |migrations| ==> next <= failAt.value
        invariant old(version) > |migrations| ==> next == old(version) && schema == old(schema)
        invariant next <= |migrations| ==> schema == Migrated(migrations, old(schema), old(version), next)
      {
        if failAt == Some(next) {
          return false;
        }
        OneMoreMigration(migrations, old(schema), old(version), next);
        schema := migrations[next](schema);
        version := next + 1;
        next := next + 1;
      }
      return true;
    }
  }

  lemma {:induction false} MigratedInParts<S>(migrations: seq<Migration<S>>, schema: S, from: nat, mid: nat, end: nat)
    requires from <= mid <= end <= |migrations|
    ensures Migrated(migrations, Migrated(migrations, schema, from, mid), mid, end) ==
            Migrated(migrations, schema, from, end)
    decreases end
  {
    if mid < end {
      MigratedInParts(migrations, schema, from, mid, end - 1);
    }
  }

  /** The database after one attempt per entry of `failures`. */
  function AfterAttempts<S>(migrations: seq<Migration<S>>, db: Database<S>, failures: seq<Option<nat>>): Database<S> {
    if failures == [] then db
    else
      Upgraded(migrations, AfterAttempts(migrations, db, failures[..|failures| - 1]), failures[|failures| - 1])
  }

  /**
   However often an upgrade is cut short, the schema is always that of the version recorded: each
   migration up to it ran exactly once, in order. So the attempt that finishes ends where an
   uninterrupted upgrade does.
   */
  lemma {:induction false} InterruptedUpgradesResume<S>(migrations: seq<Migration<S>>, db: Database<S>,
                                                        failures: seq<Option<nat>>)
    requires db.version <= |migrations|
    ensures var after := AfterAttempts(migrations, db, failures);
            && db.version <= after.version <= |migrations|
            && after.schema == Migrated(migrations, db.schema, db.version, after.version)
            && Upgraded(migrations, after, None) == Upgraded(migrations, db, None)
  {
    if failures != [] {
      var before := AfterAttempts(migrations, db, failures[..|failures| - 1]);
      InterruptedUpgradesResume(migrations, db, failures[..|failures| - 1]);
      var stop := StopsAt(before.version, |migrations|, failures[|failures| - 1]);
      MigratedInParts(migrations, db.schema, db.version, before.version, stop);
    }
    var after := AfterAttempts(migrations, db, failures);
    MigratedInParts(migrations, db.schema, db.version, after.version, |migrations|);
  }
}
