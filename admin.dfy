/**
 * core/admin.py: the bulk `validate_actions` admin action, which appends
 * to the validation ledger in a loop, and the pure helpers the admin
 * pages use (previews, read-only field lists, delete permission, status
 * badge). The flash messages become the returned count and warnings.
 */
module Admin {
  import opened Wrappers
  import opened Models
  import opened Orm
  import opened Signals
  import Views
  import Text

  /** What `validate_actions` has produced after some prefix of the
      selection: the ledger entries and the ids of the self-validated
      actions. The notifications the entries' post_save signal writes are
      `BulkNotes`. */
  datatype Bulk = Bulk(entries: seq<Validation>, warnings: seq<nat>)

  /** The rows of an admin selection are distinct: no primary key twice. */
  predicate DistinctIds(q: seq<Action>) {
    forall i, j :: 0 <= i < j < |q| ==> q[i].id != q[j].id
  }

  /** Which actions were 'validé' in the ledger `vs`. */
  function ValidatedIn(vs: seq<Validation>): nat -> bool {
    (id: nat) => ValidationStatus(vs, id) == VALIDE
  }

  lemma ValidatedInMeans(vs: seq<Validation>, id: nat)
    ensures ValidatedIn(vs)(id) <==> ValidationStatus(vs, id) == VALIDE
  {
  }

  /** The entry the bulk action writes for `a` when it already wrote
      `written` entries: 'validé', by the requester, no comment, dated now,
      with the next primary key. */
  function BulkEntryFor(a: Action, requester: User, firstV: nat, written: nat, now: nat): (v: Validation)
    ensures v.action == a.id && v.validateur == requester.id && v.statut == VALIDE
  {
    Validation(firstV + written, a.id, requester.id, VALIDE, None, now)
  }

  /** `validate_actions` over the first `n` selected actions; `validated`
      tells which actions were 'validé' before the bulk action
      (`ValidatedIn` of the ledger). An action already 'validé' is skipped;
      any other gets one 'validé' entry by the requester, and a warning when
      the requester wrote it. `firstV` is the next free primary key. The
      loop reads each status from the growing ledger; on a selection of
      distinct rows that is the status the action had before, see
      `LiveStatusIsInitial`. */
  function BulkValidate(q: seq<Action>, n: nat, validated: nat -> bool, requester: User, firstV: nat, now: nat)
    : (r: Bulk)
    requires n <= |q|
    ensures |r.entries| <= n
    ensures |r.warnings| <= |r.entries|
  {
    if n == 0 then Bulk([], [])
    else
      var b := BulkValidate(q, n - 1, validated, requester, firstV, now);
      var a := q[n - 1];
      if validated(a.id) then b
      else Bulk(b.entries + [BulkEntryFor(a, requester, firstV, |b.entries|, now)],
                b.warnings + (if a.auteur == requester.id then [a.id] else []))
  }

  /** The notifications written by the post_save signal of those entries:
      one for each entry on an action the requester did not write.
      `firstN` is the next free notification key. */
  function BulkNotes(q: seq<Action>, n: nat, validated: nat -> bool, requester: User, firstV: nat, firstN: nat, now: nat)
    : (r: seq<Notification>)
    requires n <= |q|
    ensures |r| + |BulkValidate(q, n, validated, requester, firstV, now).warnings|
            == |BulkValidate(q, n, validated, requester, firstV, now).entries|
    ensures forall x :: x in r ==> x.destinataire != requester.id && !x.lue && x.kind == KIND_VALIDATION
  {
    if n == 0 then []
    else
      var notes := BulkNotes(q, n - 1, validated, requester, firstV, firstN, now);
      var a := q[n - 1];
      if validated(a.id) then notes
      else
        var v := BulkEntryFor(a, requester, firstV, |BulkValidate(q, n - 1, validated, requester, firstV, now).entries|, now);
        notes + ValidationNotifications(v, a, requester, true, firstN + |notes|, now)
  }

  /** An entry of the bulk action: 'validé', by the requester, without a
      comment, dated now, for one of the first `n` selected actions, which
      was not 'validé' before. */
  predicate BulkEntry(e: Validation, q: seq<Action>, n: nat, validated: nat -> bool, requester: User, now: nat)
    requires n <= |q|
  {
    && e.statut == VALIDE && e.validateur == requester.id && e.commentaire.None? && e.dateValidation == now
    && !validated(e.action)
    && exists k :: 0 <= k < n && q[k].id == e.action
  }

  lemma {:induction false} BulkEntriesShape(q: seq<Action>, n: nat, validated: nat -> bool, requester: User, firstV: nat, now: nat)
    requires n <= |q|
    ensures forall e :: e in BulkValidate(q, n, validated, requester, firstV, now).entries ==>
              BulkEntry(e, q, n, validated, requester, now)
  {
    if n > 0 {
      var b := BulkValidate(q, n - 1, validated, requester, firstV, now);
      BulkEntriesShape(q, n - 1, validated, requester, firstV, now);
      forall e | e in BulkValidate(q, n, validated, requester, firstV, now).entries
        ensures BulkEntry(e, q, n, validated, requester, now)
      {
        if e in b.entries {
          assert BulkEntry(e, q, n - 1, validated, requester, now);
        } else {
          assert e.action == q[n - 1].id;
        }
      }
    }
  }

  /** Every selected action that was not 'validé' receives an entry. */
  lemma {:induction false} BulkCoversUnvalidated(q: seq<Action>, n: nat, validated: nat -> bool, requester: User, firstV: nat, now: nat)
    requires n <= |q|
    ensures forall k :: 0 <= k < n && !validated(q[k].id) ==>
              exists e :: e in BulkValidate(q, n, validated, requester, firstV, now).entries && e.action == q[k].id
  {
    if n > 0 {
      var b := BulkValidate(q, n - 1, validated, requester, firstV, now);
      var r := BulkValidate(q, n, validated, requester, firstV, now);
      BulkCoversUnvalidated(q, n - 1, validated, requester, firstV, now);
      assert forall e :: e in b.entries ==> e in r.entries;
      forall k | 0 <= k < n && !validated(q[k].id)
        ensures exists e :: e in r.entries && e.action == q[k].id
      {
        if k < n - 1 {
          var e :| e in b.entries && e.action == q[k].id;
          assert e in r.entries;
        } else {
          assert BulkEntryFor(q[k], requester, firstV, |b.entries|, now) in r.entries;
        }
      }
    }
  }

  /** A selected action receives an entry exactly when it was not 'validé'
      before the bulk action. */
  lemma BulkAppendsForUnvalidated(q: seq<Action>, n: nat, validated: nat -> bool, requester: User, firstV: nat, now: nat)
    requires n <= |q|
    ensures forall k :: 0 <= k < n ==>
              ((exists e :: e in BulkValidate(q, n, validated, requester, firstV, now).entries && e.action == q[k].id)
               <==> !validated(q[k].id))
  {
    var r := BulkValidate(q, n, validated, requester, firstV, now);
    BulkCoversUnvalidated(q, n, validated, requester, firstV, now);
    BulkEntriesShape(q, n, validated, requester, firstV, now);
    forall k, e | 0 <= k < n && e in r.entries && e.action == q[k].id
      ensures !validated(q[k].id)
    {
      assert BulkEntry(e, q, n, validated, requester, now);
    }
  }

  /** No two entries are for the same action. */
  predicate Distinct(entries: seq<Validation>) {
    forall i, j :: 0 <= i < j < |entries| ==> entries[i].action != entries[j].action
  }

  /** On a selection of distinct rows, no action receives two entries. */
  lemma {:induction false} BulkEntriesDistinct(q: seq<Action>, n: nat, validated: nat -> bool, requester: User, firstV: nat, now: nat)
    requires n <= |q| && DistinctIds(q)
    ensures Distinct(BulkValidate(q, n, validated, requester, firstV, now).entries)
  {
    if n > 0 {
      var b := BulkValidate(q, n - 1, validated, requester, firstV, now);
      BulkEntriesDistinct(q, n - 1, validated, requester, firstV, now);
      if !validated(q[n - 1].id) {
        BulkEntriesShape(q, n - 1, validated, requester, firstV, now);
        forall i | 0 <= i < |b.entries|
          ensures b.entries[i].action != q[n - 1].id
        {
          assert BulkEntry(b.entries[i], q, n - 1, validated, requester, now);
        }
      }
    }
  }

  /** A warning names an action that received an entry and whose author
      is the requester. */
  lemma {:induction false} BulkWarnings(q: seq<Action>, n: nat, validated: nat -> bool, requester: User, firstV: nat, now: nat)
    requires n <= |q|
    ensures forall x :: x in BulkValidate(q, n, validated, requester, firstV, now).warnings ==>
              && (exists k :: 0 <= k < n && q[k].id == x && q[k].auteur == requester.id)
              && (exists e :: e in BulkValidate(q, n, validated, requester, firstV, now).entries && e.action == x)
  {
    if n > 0 {
      var b := BulkValidate(q, n - 1, validated, requester, firstV, now);
      var r := BulkValidate(q, n, validated, requester, firstV, now);
      BulkWarnings(q, n - 1, validated, requester, firstV, now);
      if !validated(q[n - 1].id) {
        var v := BulkEntryFor(q[n - 1], requester, firstV, |b.entries|, now);
        forall x | x in r.warnings
          ensures exists k :: 0 <= k < n && q[k].id == x && q[k].auteur == requester.id
          ensures exists e :: e in r.entries && e.action == x
        {
          if x in b.warnings {
            var k :| 0 <= k < n - 1 && q[k].id == x && q[k].auteur == requester.id;
            var e :| e in b.entries && e.action == x;
            assert e in r.entries;
          } else {
            assert v in r.entries;
          }
        }
      }
    }
  }

  /** Every selected action that was not 'validé' and that the requester
      wrote is named by a warning. */
  lemma {:induction false} BulkWarnsEverySelfValidation(q: seq<Action>, n: nat, validated: nat -> bool, requester: User,
                                                        firstV: nat, now: nat)
    requires n <= |q|
    ensures forall k :: 0 <= k < n && !validated(q[k].id) && q[k].auteur == requester.id ==>
              q[k].id in BulkValidate(q, n, validated, requester, firstV, now).warnings
  {
    if n > 0 {
      var b := BulkValidate(q, n - 1, validated, requester, firstV, now);
      var r := BulkValidate(q, n, validated, requester, firstV, now);
      BulkWarnsEverySelfValidation(q, n - 1, validated, requester, firstV, now);
      assert forall x :: x in b.warnings ==> x in r.warnings;
    }
  }

  /** No id occurs twice. */
  predicate NoRepeats(ids: seq<nat>) {
    forall i, j :: 0 <= i < j < |ids| ==> ids[i] != ids[j]
  }

  /** On a selection of distinct rows, no action is named by two warnings;
      with `BulkWarnings` and `BulkWarnsEverySelfValidation`, each
      self-validated action is warned about exactly once. */
  lemma {:induction false} BulkWarningsDistinct(q: seq<Action>, n: nat, validated: nat -> bool, requester: User,
                                                firstV: nat, now: nat)
    requires n <= |q| && DistinctIds(q)
    ensures NoRepeats(BulkValidate(q, n, validated, requester, firstV, now).warnings)
  {
    if n > 0 {
      var b := BulkValidate(q, n - 1, validated, requester, firstV, now);
      BulkWarningsDistinct(q, n - 1, validated, requester, firstV, now);
      BulkWarnings(q, n - 1, validated, requester, firstV, now);
      if !validated(q[n - 1].id) && q[n - 1].auteur == requester.id {
        var w := b.warnings + [q[n - 1].id];
        assert BulkValidate(q, n, validated, requester, firstV, now).warnings == w;
        forall i | 0 <= i < |b.warnings|
          ensures b.warnings[i] != q[n - 1].id
        {
          assert b.warnings[i] in b.warnings;
          var k :| 0 <= k < n - 1 && q[k].id == b.warnings[i] && q[k].auteur == requester.id;
        }
        forall i, j | 0 <= i < j < |w|
          ensures w[i] != w[j]
        {
          if j < |b.warnings| {
            assert w[i] == b.warnings[i] && w[j] == b.warnings[j];
            assert b.warnings[i] != b.warnings[j];
          } else {
            assert w[i] == b.warnings[i];
          }
        }
      }
    }
  }

  /** While the loop runs, the status it reads for the next selected
      action is the status that action had before the bulk action. */
  lemma LiveStatusIsInitial(q: seq<Action>, i: nat, vs: seq<Validation>, validated: nat -> bool, requester: User, firstV: nat, now: nat)
    requires DistinctIds(q) && i < |q|
    ensures ValidationStatus(vs + BulkValidate(q, i, validated, requester, firstV, now).entries, q[i].id)
            == ValidationStatus(vs, q[i].id)
  {
    var entries := BulkValidate(q, i, validated, requester, firstV, now).entries;
    BulkEntriesShape(q, i, validated, requester, firstV, now);
    forall e | e in entries
      ensures e.action != q[i].id
    {
      assert BulkEntry(e, q, i, validated, requester, now);
    }
    StatusUnaffected(vs, entries, q[i].id);
  }

  /** Every ledger date is at most `now`: true of a database whose entries
      were all stamped with earlier readings of the clock. */
  predicate DatedBefore(vs: seq<Validation>, now: nat) {
    forall w :: w in vs ==> w.dateValidation <= now
  }

  /** Entries appended now, all 'validé', at least one of them for `a`,
      leave `a` 'validé' when nothing in the ledger is dated later than now
      (the latest entry is one of them). */
  lemma {:induction false} NowEntriesDecide(vs: seq<Validation>, extra: seq<Validation>, a: nat, now: nat)
    requires DatedBefore(vs, now)
    requires forall e :: e in extra ==> e.statut == VALIDE && e.dateValidation == now
    requires exists e :: e in extra && e.action == a
    ensures ValidationStatus(vs + extra, a) == VALIDE
  {
    var front := extra[..|extra| - 1];
    var x := extra[|extra| - 1];
    assert extra == front + [x];
    assert vs + extra == (vs + front) + [x];
    assert forall e :: e in front ==> e in extra;
    if x.action == a {
      AppendedEntryDecidesStatus(vs + front, x);
    } else {
      StatusUnaffected(vs + front, [x], a);
      NowEntriesDecide(vs, front, a, now);
    }
  }

  /** Every one of the first `n` selected actions is 'validé' in `l`. */
  predicate AllValidated(l: seq<Validation>, q: seq<Action>, n: nat)
    requires n <= |q|
  {
    forall k {:trigger ValidationStatus(l, q[k].id)} :: 0 <= k < n ==> ValidationStatus(l, q[k].id) == VALIDE
  }

  /** After the bulk action every selected action is 'validé', whatever
      the skip decision, as long as it skips only actions the ledger already
      shows 'validé'. */
  lemma BulkValidatesSelection(q: seq<Action>, n: nat, vs: seq<Validation>, validated: nat -> bool, requester: User, firstV: nat, now: nat)
    requires n <= |q| && DatedBefore(vs, now)
    requires forall k :: 0 <= k < n && validated(q[k].id) ==> ValidationStatus(vs, q[k].id) == VALIDE
    ensures AllValidated(vs + BulkValidate(q, n, validated, requester, firstV, now).entries, q, n)
  {
    var entries := BulkValidate(q, n, validated, requester, firstV, now).entries;
    BulkEntriesShape(q, n, validated, requester, firstV, now);
    BulkAppendsForUnvalidated(q, n, validated, requester, firstV, now);
    forall k | 0 <= k < n
      ensures ValidationStatus(vs + entries, q[k].id) == VALIDE
    {
      if validated(q[k].id) {
        forall e | e in entries
          ensures e.action != q[k].id
        {
          assert BulkEntry(e, q, n, validated, requester, now);
        }
        StatusUnaffected(vs, entries, q[k].id);
      } else {
        forall e | e in entries
          ensures e.statut == VALIDE && e.dateValidation == now
        {
          assert BulkEntry(e, q, n, validated, requester, now);
        }
        NowEntriesDecide(vs, entries, q[k].id, now);
      }
    }
  }

  /** With the skip decision the bulk action actually uses, the ledger
      before the action: every selected action ends 'validé'. */
  lemma BulkValidatesLedgerSelection(q: seq<Action>, vs: seq<Validation>, requester: User, firstV: nat, now: nat)
    requires DatedBefore(vs, now)
    ensures forall k :: 0 <= k < |q| ==>
              ValidationStatus(vs + BulkValidate(q, |q|, ValidatedIn(vs), requester, firstV, now).entries, q[k].id) == VALIDE
  {
    forall k | 0 <= k < |q| && ValidatedIn(vs)(q[k].id)
      ensures ValidationStatus(vs, q[k].id) == VALIDE
    {
      ValidatedInMeans(vs, q[k].id);
    }
    BulkValidatesSelection(q, |q|, vs, ValidatedIn(vs), requester, firstV, now);
  }

  /** The flash message of one warning. */
  function SelfValidationWarning(id: nat): (r: string)
    ensures Text.EndsWith(r, "#" + Text.Decimal(id))
  {
    "⚠️ Auto-validation détectée pour l'action #" + Text.Decimal(id)
  }

  /** What the bulk action has written so far: the ledger, the
      notifications, their next keys, and the loop's count and warnings. */
  datatype Progress = Progress(validations: seq<Validation>, nextV: nat, notifications: seq<Notification>, nextN: nat,
                               count: nat, warnings: seq<nat>)

  /** The progress expected after the first `i` selected actions, starting
      from the ledger `vs`, the notifications `ns` and the keys `firstV`
      and `firstN`. */
  function Expected(q: seq<Action>, i: nat, validated: nat -> bool, requester: User, vs: seq<Validation>,
                    ns: seq<Notification>, firstV: nat, firstN: nat, now: nat): (p: Progress)
    requires i <= |q|
  {
    var b := BulkValidate(q, i, validated, requester, firstV, now);
    var notes := BulkNotes(q, i, validated, requester, firstV, firstN, now);
    Progress(vs + b.entries, firstV + |b.entries|, ns + notes, firstN + |notes|, |b.entries|, b.warnings)
  }

  /** A skipped action changes nothing. */
  lemma ExpectedSkip(q: seq<Action>, i: nat, validated: nat -> bool, requester: User, vs: seq<Validation>,
                     ns: seq<Notification>, firstV: nat, firstN: nat, now: nat)
    requires i < |q| && validated(q[i].id)
    ensures Expected(q, i + 1, validated, requester, vs, ns, firstV, firstN, now)
            == Expected(q, i, validated, requester, vs, ns, firstV, firstN, now)
  {
  }

  /** The progress after one more action that is not skipped: one entry,
      with the next primary key, and the notifications its signal writes;
      it counts once, and once more among the warnings when the requester
      wrote it. */
  function Advance(p: Progress, a: Action, requester: User, now: nat): Progress
  {
    var v := Validation(p.nextV, a.id, requester.id, VALIDE, None, now);
    var added := ValidationNotifications(v, a, requester, true, p.nextN, now);
    Progress(p.validations + [v], p.nextV + 1, p.notifications + added, p.nextN + |added|,
             p.count + 1, p.warnings + (if a.auteur == requester.id then [a.id] else []))
  }

  /** The recursion of `BulkValidate` and `BulkNotes` for an action that
      is not skipped, from their values `b` and `notes` on the shorter
      selection. */
  lemma BulkStep(q: seq<Action>, i: nat, validated: nat -> bool, requester: User, firstV: nat, firstN: nat, now: nat,
                 b: Bulk, notes: seq<Notification>)
    requires i < |q| && !validated(q[i].id)
    requires b == BulkValidate(q, i, validated, requester, firstV, now)
    requires notes == BulkNotes(q, i, validated, requester, firstV, firstN, now)
    ensures BulkValidate(q, i + 1, validated, requester, firstV, now)
            == Bulk(b.entries + [BulkEntryFor(q[i], requester, firstV, |b.entries|, now)],
                    b.warnings + (if q[i].auteur == requester.id then [q[i].id] else []))
    ensures BulkNotes(q, i + 1, validated, requester, firstV, firstN, now)
            == notes + ValidationNotifications(BulkEntryFor(q[i], requester, firstV, |b.entries|, now),
                                               q[i], requester, true, firstN + |notes|, now)
  {
  }

  /** The bookkeeping of one entry, on plain values. */
  lemma AdvanceOfStep(vs: seq<Validation>, ns: seq<Notification>, firstV: nat, firstN: nat,
                      b: Bulk, notes: seq<Notification>, b': Bulk, notes': seq<Notification>,
                      a: Action, requester: User, now: nat)
    requires b' == Bulk(b.entries + [BulkEntryFor(a, requester, firstV, |b.entries|, now)],
                        b.warnings + (if a.auteur == requester.id then [a.id] else []))
    requires notes' == notes + ValidationNotifications(BulkEntryFor(a, requester, firstV, |b.entries|, now),
                                                       a, requester, true, firstN + |notes|, now)
    ensures Progress(vs + b'.entries, firstV + |b'.entries|, ns + notes', firstN + |notes'|, |b'.entries|, b'.warnings)
            == Advance(Progress(vs + b.entries, firstV + |b.entries|, ns + notes, firstN + |notes|, |b.entries|, b.warnings),
                       a, requester, now)
  {
    var v := BulkEntryFor(a, requester, firstV, |b.entries|, now);
    var added := ValidationNotifications(v, a, requester, true, firstN + |notes|, now);
    assert vs + (b.entries + [v]) == (vs + b.entries) + [v];
    assert ns + (notes + added) == (ns + notes) + added;
  }

  lemma ExpectedEntry(q: seq<Action>, i: nat, validated: nat -> bool, requester: User, vs: seq<Validation>,
                      ns: seq<Notification>, firstV: nat, firstN: nat, now: nat)
    requires i < |q| && !validated(q[i].id)
    ensures Expected(q, i + 1, validated, requester, vs, ns, firstV, firstN, now)
            == Advance(Expected(q, i, validated, requester, vs, ns, firstV, firstN, now), q[i], requester, now)
  {
    var b := BulkValidate(q, i, validated, requester, firstV, now);
    var notes := BulkNotes(q, i, validated, requester, firstV, firstN, now);
    var b' := BulkValidate(q, i + 1, validated, requester, firstV, now);
    var notes' := BulkNotes(q, i + 1, validated, requester, firstV, firstN, now);
    BulkStep(q, i, validated, requester, firstV, firstN, now, b, notes);
    AdvanceOfStep(vs, ns, firstV, firstN, b, notes, b', notes', q[i], requester, now);
    assert Expected(q, i, validated, requester, vs, ns, firstV, firstN, now)
           == Progress(vs + b.entries, firstV + |b.entries|, ns + notes, firstN + |notes|, |b.entries|, b.warnings);
    assert Expected(q, i + 1, validated, requester, vs, ns, firstV, firstN, now)
           == Progress(vs + b'.entries, firstV + |b'.entries|, ns + notes', firstN + |notes'|, |b'.entries|, b'.warnings);
  }

  /** The database tables and the loop variables the bulk action updates. */
  ghost function Observed(db: Database, count: nat, warnings: seq<nat>): Progress
    reads db
  {
    Progress(db.validations, db.nextValidationId, db.notifications, db.nextNotificationId, count, warnings)
  }

  /** The body of the loop for an action that is not skipped: one
      'validé' entry by the requester, and a warning when the requester
      wrote the action. */
  method ValidateOne(db: Database, action: Action, requester: User, now: nat, count: nat, warnings: seq<nat>)
    returns (count': nat, warnings': seq<nat>)
    requires db.Valid()
    modifies db`validations, db`nextValidationId, db`notifications, db`nextNotificationId
    ensures db.Valid()
    ensures Observed(db, count', warnings') == Advance(old(Observed(db, count, warnings)), action, requester, now)
  {
    warnings' := if action.auteur == requester.id then warnings + [action.id] else warnings;
    var v := Views.CreateValidation(db, action, requester, VALIDE, None, now);
    count' := count + 1;
  }

  /** One pass of the loop: skip `q[i]` if validated, otherwise validate
      it. */
  method ValidateSelected(db: Database, requester: User, q: seq<Action>, i: nat, now: nat,
                          ghost vs: seq<Validation>, ghost ns: seq<Notification>, ghost firstV: nat, ghost firstN: nat,
                          count: nat, warnings: seq<nat>)
    returns (count': nat, warnings': seq<nat>)
    requires db.Valid() && i < |q| && DistinctIds(q)
    requires Observed(db, count, warnings) == Expected(q, i, ValidatedIn(vs), requester, vs, ns, firstV, firstN, now)
    modifies db`validations, db`nextValidationId, db`notifications, db`nextNotificationId
    ensures db.Valid()
    ensures Observed(db, count', warnings') == Expected(q, i + 1, ValidatedIn(vs), requester, vs, ns, firstV, firstN, now)
  {
    var action := q[i];
    LiveStatusIsInitial(q, i, vs, ValidatedIn(vs), requester, firstV, now);
    ValidatedInMeans(vs, action.id);
    if ValidationStatus(db.validations, action.id) == VALIDE {
      ExpectedSkip(q, i, ValidatedIn(vs), requester, vs, ns, firstV, firstN, now);
      return count, warnings;
    }
    ExpectedEntry(q, i, ValidatedIn(vs), requester, vs, ns, firstV, firstN, now);
    count', warnings' := ValidateOne(db, action, requester, now, count, warnings);
  }

  /** `validate_actions`: returns the success count and the ids named by
      the self-validation warnings. */
  method ValidateActions(db: Database, requester: User, q: seq<Action>, now: nat)
    returns (count: nat, warnings: seq<nat>)
    requires db.Valid() && DistinctIds(q)
    modifies db`validations, db`nextValidationId, db`notifications, db`nextNotificationId
    ensures db.Valid()
    ensures var b := BulkValidate(q, |q|, ValidatedIn(old(db.validations)), requester, old(db.nextValidationId), now);
            && db.validations == old(db.validations) + b.entries
            && db.notifications == old(db.notifications)
               + BulkNotes(q, |q|, ValidatedIn(old(db.validations)), requester, old(db.nextValidationId),
                           old(db.nextNotificationId), now)
            && count == |b.entries| && warnings == b.warnings
  {
    ghost var vs, ns := db.validations, db.notifications;
    ghost var firstV, firstN := db.nextValidationId, db.nextNotificationId;
    count, warnings := 0, [];
    var i := 0;
    while i < |q|
      invariant 0 <= i <= |q|
      invariant db.Valid()
      invariant Observed(db, count, warnings) == Expected(q, i, ValidatedIn(vs), requester, vs, ns, firstV, firstN, now)
    {
      count, warnings := ValidateSelected(db, requester, q, i, now, vs, ns, firstV, firstN, count, warnings);
      i := i + 1;
    }
  }

  /** `ActionAdmin.get_description_preview`. */
  function DescriptionPreview(description: string): (r: string)
    ensures |description| <= 50 ==> r == description
    ensures |description| > 50 ==> |r| == 53 && Text.StartsWith(description, r[..50]) && r[50..] == Text.ELLIPSIS
  {
    Text.Preview(description, 50)
  }

  /** `NotificationAdmin.get_message_preview`. */
  function MessagePreview(message: string): (r: string)
    ensures |message| <= 80 ==> r == message
    ensures |message| > 80 ==> |r| == 83 && Text.StartsWith(message, r[..80]) && r[80..] == Text.ELLIPSIS
  {
    Text.Preview(message, 80)
  }

  /** `ServiceAdmin.get_readonly_fields`; `obj` is None on the add page. */
  function ServiceReadonlyFields(obj: Option<Service>): (r: seq<string>)
    ensures "date_ouverture" in r
    ensures obj.Some? && obj.value.statut == FERME <==> "statut" in r
    ensures obj.Some? && obj.value.statut == FERME <==> "user" in r && "date_fermeture" in r
    ensures !(obj.Some? && obj.value.statut == FERME) ==> |r| == 1
    ensures obj.Some? && obj.value.statut == FERME ==> |r| == 4
  {
    if obj.Some? && obj.value.statut == FERME then ["user", "date_ouverture", "date_fermeture", "statut"]
    else ["date_ouverture"]
  }

  /** `ServiceAdmin.has_delete_permission`, `inherited` standing for the
      answer of the default ModelAdmin permission check. */
  function ServiceDeletePermission(obj: Option<Service>, inherited: bool): (r: bool)
    ensures r <==> inherited && !(obj.Some? && obj.value.statut == FERME)
  {
    if obj.Some? && obj.value.statut == FERME then false else inherited
  }

  /** The fields the Action admin form shows. */
  const ACTION_FIELDS := ["auteur", "service", "categorie", "statut", "description", "cause",
                          "personnes_impliquees", "suivi", "date_creation", "date_modification"]

  /** `ActionAdmin.get_readonly_fields`: everything once validated,
      otherwise only the two timestamps. */
  function ActionReadonlyFields(obj: Option<Action>, vs: seq<Validation>): (r: seq<string>)
    ensures obj.Some? && ValidationStatus(vs, obj.value.id) == VALIDE ==> forall f :: f in ACTION_FIELDS ==> f in r
    ensures !(obj.Some? && ValidationStatus(vs, obj.value.id) == VALIDE) ==>
              forall f :: f in r <==> f == "date_creation" || f == "date_modification"
    ensures forall f :: f in r ==> f in ACTION_FIELDS
  {
    if obj.Some? && ValidationStatus(vs, obj.value.id) == VALIDE then
      ["auteur", "service", "categorie", "description", "cause",
       "personnes_impliquees", "statut", "suivi", "date_creation", "date_modification"]
    else ["date_creation", "date_modification"]
  }

  /** A badge: its background colour and its label. */
  datatype Badge = Badge(color: string, caption: string)

  const GREY := "#64748b"

  /** `ActionAdmin.get_validation_badge`: a colour and a label per known
      status, grey and the raw status otherwise. */
  function ValidationBadge(status: string): (r: Badge)
    ensures status == EN_ATTENTE ==> r == Badge("#f59e0b", "En attente")
    ensures status == VALIDE ==> r == Badge("#10b981", "Validé")
    ensures status == REFUSE ==> r == Badge("#ef4444", "Refusé")
    ensures r.color == GREY <==> !(status in {EN_ATTENTE, VALIDE, REFUSE})
    ensures r.color == GREY ==> r.caption == status
  {
    if status == EN_ATTENTE then Badge("#f59e0b", "En attente")
    else if status == VALIDE then Badge("#10b981", "Validé")
    else if status == REFUSE then Badge("#ef4444", "Refusé")
    else Badge(GREY, status)
  }

  /** A ledger of well-formed entries never yields the grey fallback badge,
      and the badges of different statuses differ. */
  lemma LedgerBadgeIsKnown(vs: seq<Validation>, a: nat, b: nat)
    requires KnownStatuses(vs)
    ensures ValidationBadge(ValidationStatus(vs, a)).color != GREY
    ensures ValidationStatus(vs, a) != ValidationStatus(vs, b) ==>
              ValidationBadge(ValidationStatus(vs, a)) != ValidationBadge(ValidationStatus(vs, b))
  {
    StatusIsLatestEntry(vs, a);
    if exists v :: v in vs && v.action == a {
      var v :| v in vs && v.action == a && ValidationStatus(vs, a) == v.statut;
    }
  }
}
