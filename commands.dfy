/**
 * The `close_expired_services` management command: every open service
 * whose closing time lies strictly before now is closed with
 * `close_service`, and the command reports how many it closed.
 */
module Commands {
  import opened Wrappers
  import opened Models
  import opened Orm

  /** The command's filter: `statut='ouvert'` and
      `date_fermeture__lt=now`; a NULL closing time never compares, so
      such a row is not selected. */
  predicate Expired(s: Service, now: nat) {
    s.statut == OUVERT && s.dateFermeture.Some? && s.dateFermeture.value < now
  }

  /** A selected row is an open service that `Service.is_expired` calls
      expired. */
  lemma ExpiredIsOpenAndPastClosing(s: Service, now: nat)
    ensures Expired(s, now) <==> s.statut == OUVERT && s.dateFermeture.Some? && s.IsExpired(now)
  {
  }

  /** `expired_services.count()`. */
  function ExpiredCount(services: seq<Service>, now: nat): (r: nat)
    ensures r <= |services|
  {
    if services == [] then 0
    else ExpiredCount(services[..|services| - 1], now) + (if Expired(services[|services| - 1], now) then 1 else 0)
  }

  /** The count is zero exactly when no row is selected. */
  lemma {:induction false} ExpiredCountZeroIffNone(services: seq<Service>, now: nat)
    ensures ExpiredCount(services, now) == 0 <==> forall s :: s in services ==> !Expired(s, now)
  {
    if services != [] {
      var front := services[..|services| - 1];
      ExpiredCountZeroIffNone(front, now);
      assert services == front + [services[|services| - 1]];
      assert forall s :: s in services <==> s in front || s == services[|services| - 1];
    }
  }

  /** The service table once the selected rows are closed. */
  function CloseExpired(services: seq<Service>, now: nat): (r: seq<Service>)
    ensures |r| == |services|
  {
    seq(|services|, i requires 0 <= i < |services| =>
      if Expired(services[i], now) then services[i].Closed() else services[i])
  }

  /** Closing the selected rows closes exactly them: selected rows become
      'fermé' with every other column kept, other rows are untouched, and
      no row is left selected. */
  lemma CloseExpiredCloses(services: seq<Service>, now: nat)
    ensures |CloseExpired(services, now)| == |services|
    ensures ClosesOnly(services, CloseExpired(services, now))
    ensures forall i :: 0 <= i < |services| && Expired(services[i], now) ==>
              CloseExpired(services, now)[i].statut == FERME
              && CloseExpired(services, now)[i] == services[i].(statut := FERME)
    ensures forall i :: 0 <= i < |services| && !Expired(services[i], now) ==>
              CloseExpired(services, now)[i] == services[i]
    ensures forall s :: s in CloseExpired(services, now) ==> !Expired(s, now)
  {
  }

  /** Running the command a second time at the same instant changes
      nothing and finds nothing to close. */
  lemma CloseExpiredIdempotent(services: seq<Service>, now: nat)
    ensures CloseExpired(CloseExpired(services, now), now) == CloseExpired(services, now)
    ensures ExpiredCount(CloseExpired(services, now), now) == 0
  {
    CloseExpiredCloses(services, now);
    CloseExpiredCloses(CloseExpired(services, now), now);
    ExpiredCountZeroIffNone(CloseExpired(services, now), now);
  }

  /** When the count is zero the command returns early; the table is then
      what the loop would have left anyway. */
  lemma NothingExpiredNothingChanges(services: seq<Service>, now: nat)
    requires ExpiredCount(services, now) == 0
    ensures CloseExpired(services, now) == services
  {
    ExpiredCountZeroIffNone(services, now);
    forall i | 0 <= i < |services|
      ensures CloseExpired(services, now)[i] == services[i]
    {
      assert services[i] in services;
    }
  }

  /** One pass of the loop over the selected rows. */
  lemma CloseStep(old0: seq<Service>, cur: seq<Service>, i: nat, now: nat)
    requires i < |old0| && |cur| == |old0|
    requires cur[..i] == CloseExpired(old0, now)[..i] && cur[i..] == old0[i..]
    ensures var next := if Expired(cur[i], now) then cur[i := cur[i].Closed()] else cur;
            next[..i + 1] == CloseExpired(old0, now)[..i + 1] && next[i + 1..] == old0[i + 1..]
  {
    assert cur[i] == old0[i] by { assert cur[i..][0] == old0[i..][0]; }
    var next := if Expired(cur[i], now) then cur[i := cur[i].Closed()] else cur;
    assert next[..i + 1] == CloseExpired(old0, now)[..i + 1] by {
      forall k | 0 <= k < i + 1
        ensures next[k] == CloseExpired(old0, now)[k]
      {
        if k < i {
          assert cur[k] == cur[..i][k];
        }
      }
    }
    assert next[i + 1..] == old0[i + 1..] by {
      forall k | i + 1 <= k < |old0|
        ensures next[k] == old0[k]
      {
        assert cur[k] == cur[i..][k - i];
      }
    }
  }

  /** `Command.handle`: count the selected rows, stop if there are none,
      otherwise close each of them; returns the count it reports. */
  method CloseExpiredServices(db: Database, now: nat) returns (count: nat)
    requires db.Valid()
    modifies db`services
    ensures db.Valid()
    ensures count == ExpiredCount(old(db.services), now)
    ensures db.services == CloseExpired(old(db.services), now)
  {
    count := ExpiredCount(db.services, now);
    if count == 0 {
      NothingExpiredNothingChanges(db.services, now);
      return;
    }
    ghost var old0 := db.services;
    var i := 0;
    while i < |db.services|
      invariant 0 <= i <= |old0| && |db.services| == |old0|
      invariant db.services[..i] == CloseExpired(old0, now)[..i]
      invariant db.services[i..] == old0[i..]
    {
      CloseStep(old0, db.services, i, now);
      if Expired(db.services[i], now) {
        db.services := db.services[i := db.services[i].Closed()];
      }
      i := i + 1;
    }
    assert db.services == db.services[..i];
    CloseExpiredCloses(old0, now);
    ClosingKeepsServiceRows(old0, db.services, db.nextServiceId);
    ClosingKeepsActionRows(db.actions, db.nextActionId, old0, db.services);
  }
}
