/**
 * The database the Django ORM gives the application, held in memory: one
 * sequence of rows per table, in insertion order, and the next primary key
 * of each table. `Valid` gathers what the database and `Service.save`
 * guarantee about the stored rows.
 */
module Orm {
  import opened Wrappers
  import opened Models

  predicate UniqueUserIds(users: seq<User>) {
    forall i, j :: 0 <= i < j < |users| ==> users[i].id != users[j].id
  }

  /** At most one open service per user (`Service.clean`). */
  predicate OneOpenPerUser(services: seq<Service>) {
    forall i, j :: 0 <= i < j < |services| && services[i].user == services[j].user ==>
      !(services[i].statut == OUVERT && services[j].statut == OUVERT)
  }

  predicate HasOpenService(services: seq<Service>, user: nat) {
    exists s :: s in services && s.user == user && s.statut == OUVERT
  }

  /** Service rows: increasing keys below the next key, a closing time set
      by `save`, and at most one open service per user. */
  predicate ServiceRowsValid(services: seq<Service>, nextId: nat) {
    && (forall i, j :: 0 <= i < j < |services| ==> services[i].id < services[j].id)
    && (forall s :: s in services ==> s.id < nextId && s.dateFermeture.Some?)
    && OneOpenPerUser(services)
  }

  /** Action rows: increasing keys, and each points at a stored service. */
  predicate ActionRowsValid(actions: seq<Action>, nextId: nat, services: seq<Service>) {
    && (forall i, j :: 0 <= i < j < |actions| ==> actions[i].id < actions[j].id)
    && (forall a :: a in actions ==> a.id < nextId && FindService(services, a.service).Some?)
  }

  /** Validation rows: increasing keys below the next key. */
  predicate ValidationRowsValid(vs: seq<Validation>, nextId: nat) {
    && (forall i, j :: 0 <= i < j < |vs| ==> vs[i].id < vs[j].id)
    && (forall v :: v in vs ==> v.id < nextId)
  }

  /** Notification rows: increasing keys below the next key. */
  predicate NotificationRowsValid(ns: seq<Notification>, nextId: nat) {
    && (forall i, j :: 0 <= i < j < |ns| ==> ns[i].id < ns[j].id)
    && (forall n :: n in ns ==> n.id < nextId)
  }

  /** Rewriting rows without touching their keys keeps the table valid. */
  lemma SameKeysKeepNotificationRows(a: seq<Notification>, b: seq<Notification>, nextId: nat)
    requires NotificationRowsValid(a, nextId)
    requires |a| == |b| && forall i :: 0 <= i < |a| ==> b[i].id == a[i].id
    ensures NotificationRowsValid(b, nextId)
  {
    forall n | n in b ensures n.id < nextId {
      var k :| 0 <= k < |b| && b[k] == n;
      assert a[k] in a;
    }
  }

  /** Deleting one row keeps every other row. */
  lemma RemovalKeepsOthers(a: seq<Notification>, k: nat)
    requires k < |a|
    ensures forall n :: n in a[..k] + a[k + 1..] ==> n in a
    ensures forall i :: 0 <= i < |a| && i != k ==> a[i] in a[..k] + a[k + 1..]
  {
    var b := a[..k] + a[k + 1..];
    forall i | 0 <= i < |a| && i != k ensures a[i] in b {
      if i < k { assert b[i] == a[i]; } else { assert b[i - 1] == a[i]; }
    }
    forall n | n in b ensures n in a {
      var j :| 0 <= j < |b| && b[j] == n;
      if j < k { assert a[j] == n; } else { assert a[j + 1] == n; }
    }
  }

  /** Deleting one row keeps the table valid. */
  lemma RemovalKeepsNotificationRows(a: seq<Notification>, k: nat, nextId: nat)
    requires NotificationRowsValid(a, nextId) && k < |a|
    ensures NotificationRowsValid(a[..k] + a[k + 1..], nextId)
  {
    var b := a[..k] + a[k + 1..];
    forall i, j | 0 <= i < j < |b| ensures b[i].id < b[j].id {
      var i' := if i < k then i else i + 1;
      var j' := if j < k then j else j + 1;
      assert b[i] == a[i'] && b[j] == a[j'];
    }
    RemovalKeepsOthers(a, k);
  }

  /** Closing a user's open service leaves that user with none open. */
  lemma {:induction false} ClosingTheOpenOne(services: seq<Service>, k: nat)
    requires OneOpenPerUser(services) && k < |services| && services[k].statut == OUVERT
    ensures !HasOpenService(services[k := services[k].Closed()], services[k].user)
  {
    var b := services[k := services[k].Closed()];
    forall s | s in b && s.user == services[k].user ensures s.statut != OUVERT {
      var i :| 0 <= i < |b| && b[i] == s;
      if i < k {
        assert !(services[k].statut == OUVERT && services[i].statut == OUVERT);
      } else if i > k {
        assert !(services[k].statut == OUVERT && services[i].statut == OUVERT);
      }
    }
  }

  /** Rewriting an action row without touching its key or its service
      keeps the action table valid. */
  lemma UpdateKeepsActionRows(actions: seq<Action>, nextId: nat, services: seq<Service>, k: nat, x: Action)
    requires ActionRowsValid(actions, nextId, services) && k < |actions|
    requires x.id == actions[k].id && x.service == actions[k].service
    ensures ActionRowsValid(actions[k := x], nextId, services)
  {
    var b := actions[k := x];
    forall y | y in b ensures y.id < nextId && FindService(services, y.service).Some? {
      var j :| 0 <= j < |b| && b[j] == y;
      assert actions[j] in actions;
    }
  }

  /** Every action's service is stored and carries a closing time. */
  predicate ServicesOfActionsSet(actions: seq<Action>, services: seq<Service>) {
    forall a :: a in actions ==>
      FindService(services, a.service).Some? && FindService(services, a.service).value.dateFermeture.Some?
  }

  lemma ValidTablesSetServices(actions: seq<Action>, nextActionId: nat, services: seq<Service>, nextServiceId: nat)
    requires ActionRowsValid(actions, nextActionId, services) && ServiceRowsValid(services, nextServiceId)
    ensures ServicesOfActionsSet(actions, services)
  {
  }

  /** `b` is `a` with some rows closed by `close_service` and nothing else. */
  predicate ClosesOnly(a: seq<Service>, b: seq<Service>) {
    |a| == |b| && forall i :: 0 <= i < |a| ==> b[i] == a[i] || b[i] == a[i].Closed()
  }

  /** A new service keeps one open service per user when its user has no
      open service yet (or it is not open). */
  lemma OneOpenAppend(services: seq<Service>, s: Service)
    requires OneOpenPerUser(services)
    requires s.statut == OUVERT ==> !HasOpenService(services, s.user)
    ensures OneOpenPerUser(services + [s])
  {
    var r := services + [s];
    forall i, j | 0 <= i < j < |r| && r[i].user == r[j].user
      ensures !(r[i].statut == OUVERT && r[j].statut == OUVERT)
    {
      if j == |services| {
        assert r[i] == services[i] && services[i] in services;
      } else {
        assert r[i] == services[i] && r[j] == services[j];
      }
    }
  }

  /** A new service row, keyed by the next key, keeps the table valid. */
  lemma NewServiceKeepsRows(services: seq<Service>, nextId: nat, s: Service)
    requires ServiceRowsValid(services, nextId)
    requires s.id == nextId && s.dateFermeture.Some?
    requires s.statut == OUVERT ==> !HasOpenService(services, s.user)
    ensures ServiceRowsValid(services + [s], nextId + 1)
  {
    OneOpenAppend(services, s);
    var r := services + [s];
    forall i, j | 0 <= i < j < |r| ensures r[i].id < r[j].id {
      assert r[i] == services[i] && services[i] in services;
    }
  }

  /** A new action row, keyed by the next key and pointing at a stored
      service, keeps the table valid. */
  lemma NewActionKeepsRows(actions: seq<Action>, nextId: nat, services: seq<Service>, a: Action)
    requires ActionRowsValid(actions, nextId, services)
    requires a.id == nextId && FindService(services, a.service).Some?
    ensures ActionRowsValid(actions + [a], nextId + 1, services)
  {
    var r := actions + [a];
    forall i, j | 0 <= i < j < |r| ensures r[i].id < r[j].id {
      assert r[i] == actions[i] && actions[i] in actions;
    }
  }

  /** A new validation row, keyed by the next key, keeps the table valid. */
  lemma NewValidationKeepsRows(vs: seq<Validation>, nextId: nat, v: Validation)
    requires ValidationRowsValid(vs, nextId) && v.id == nextId
    ensures ValidationRowsValid(vs + [v], nextId + 1)
  {
    var r := vs + [v];
    forall i, j | 0 <= i < j < |r| ensures r[i].id < r[j].id {
      assert r[i] == vs[i] && vs[i] in vs;
    }
  }

  /** Closing rows keeps the service table valid. */
  lemma ClosingKeepsServiceRows(a: seq<Service>, b: seq<Service>, nextId: nat)
    requires ServiceRowsValid(a, nextId) && ClosesOnly(a, b)
    ensures ServiceRowsValid(b, nextId)
  {
    forall s | s in b ensures s.id < nextId && s.dateFermeture.Some? {
      var k :| 0 <= k < |b| && b[k] == s;
      assert a[k] in a;
    }
  }

  /** Closing rows keeps every key findable, so actions still point at a
      stored service. */
  lemma ClosingKeepsActionRows(actions: seq<Action>, nextId: nat, a: seq<Service>, b: seq<Service>)
    requires ActionRowsValid(actions, nextId, a) && ClosesOnly(a, b)
    ensures ActionRowsValid(actions, nextId, b)
  {
    forall x | x in actions ensures FindService(b, x.service).Some? {
      var s := FindService(a, x.service).value;
      var k :| 0 <= k < |a| && a[k] == s;
      assert b[k] in b && b[k].id == x.service;
    }
  }

  /** A new service row keeps every key findable. */
  lemma AppendKeepsActionRows(actions: seq<Action>, nextId: nat, services: seq<Service>, s: Service)
    requires ActionRowsValid(actions, nextId, services)
    ensures ActionRowsValid(actions, nextId, services + [s])
  {
    forall x | x in actions ensures FindService(services + [s], x.service).Some? {
      var f := FindService(services, x.service).value;
      assert f in services + [s];
    }
  }

  class Database {
    var users: seq<User>
    var services: seq<Service>
    var actions: seq<Action>
    var validations: seq<Validation>
    var notifications: seq<Notification>
    var nextServiceId: nat
    var nextActionId: nat
    var nextValidationId: nat
    var nextNotificationId: nat

    /** What the database and `Service.save` guarantee about the rows. */
    ghost predicate Valid()
      reads this
    {
      && UniqueUserIds(users)
      && ServiceRowsValid(services, nextServiceId)
      && ActionRowsValid(actions, nextActionId, services)
      && ValidationRowsValid(validations, nextValidationId)
      && NotificationRowsValid(notifications, nextNotificationId)
    }

    /** A database holding the given accounts and nothing else. */
    constructor (accounts: seq<User>)
      requires UniqueUserIds(accounts)
      ensures Valid()
      ensures users == accounts && services == [] && actions == []
      ensures validations == [] && notifications == []
    {
      users := accounts;
      services, actions, validations, notifications := [], [], [], [];
      nextServiceId, nextActionId, nextValidationId, nextNotificationId := 1, 1, 1, 1;
    }
  }
}
