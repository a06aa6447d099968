/**
 * The rows of the application (users, 24-hour services, actions, validation
 * entries, notifications) and the logic that core/models.py computes from
 * them: the validation ledger of an action and its derived status, the
 * validation rules, and the service timer rules.
 *
 * Time is a number of seconds; a datetime column that may be NULL is an
 * `Option<nat>`. Field choices are kept as the strings the database stores.
 */
module Models {
  import opened Wrappers

  const ADMIN := "admin"

  // Validation.statut choices; also the values of Action.validation_status.
  const EN_ATTENTE := "en_attente"
  const VALIDE := "validé"
  const REFUSE := "refusé"

  // Service.statut choices.
  const OUVERT := "ouvert"
  const FERME := "fermé"

  // Notification.type choices.
  const KIND_VALIDATION := "validation"
  const KIND_REFUS := "refus"
  const KIND_COMMENTAIRE := "commentaire"
  const KIND_NOUVELLE_ACTION := "nouvelle_action"

  /** timedelta(hours=24), in seconds. */
  const DAY: nat := 86400

  datatype User = User(id: nat, username: string, role: string, isValidated: bool, isStaff: bool)

  /** `Validation.can_validate`: only the 'admin' role may validate. */
  predicate CanValidate(u: User) {
    u.role == ADMIN
  }

  /** The outcome of a model's `clean()`: nothing, or a ValidationError. */
  datatype Clean = CleanOk | ValidationError(message: string)

  const MSG_COMMENT_REQUIRED := "Un commentaire est obligatoire pour refuser une action."
  const MSG_ADMIN_ONLY := "Seuls les administrateurs peuvent valider des actions."
  const MSG_SERVICE_ALREADY_OPEN :=
    "Cet utilisateur a déjà un service actif. Veuillez fermer le service actuel avant d'en ouvrir un nouveau."

  // ---------------------------------------------------------------- Service

  datatype Service = Service(id: nat, user: nat, dateOuverture: nat, dateFermeture: Option<nat>, statut: string)
  {
    /** `Service.save`: on creation (no primary key yet) a missing closing
        time becomes 24 hours from now; every other save keeps the row. */
    function Save(isCreation: bool, now: nat): (r: Service)
      ensures r.id == id && r.user == user && r.dateOuverture == dateOuverture && r.statut == statut
      ensures isCreation && dateFermeture.None? ==> r.dateFermeture == Some(now + DAY)
      ensures !isCreation || dateFermeture.Some? ==> r == this
      ensures r.dateFermeture.Some?
              || (!isCreation && dateFermeture.None?)
    {
      if isCreation && dateFermeture.None? then this.(dateFermeture := Some(now + DAY)) else this
    }

    /** `Service.is_active`. The statut is tested first, so a service that
        is not open answers False whatever its closing time; an open one
        compares its closing time, which Python cannot do when it is NULL. */
    predicate IsActive(now: nat)
      requires statut != OUVERT || dateFermeture.Some?
      ensures IsActive(now) ==> statut == OUVERT && dateFermeture.Some? && RemainingTime(now) == Some(dateFermeture.value - now)
    {
      statut == OUVERT && dateFermeture.value > now
    }

    /** `Service.is_expired`. */
    predicate IsExpired(now: nat)
      requires dateFermeture.Some?
      ensures IsExpired(now) ==> !IsActive(now)
      ensures IsExpired(now) && statut != FERME ==> RemainingTime(now) == Some(0)
    {
      now > dateFermeture.value
    }

    /** `Service.close_service`: the row after `statut = 'fermé'; save()`
        (an existing row, so save leaves the closing time alone). */
    function Closed(): (r: Service)
      ensures r.statut == FERME
      ensures r == Save(false, 0).(statut := FERME)
    {
      this.(statut := FERME)
    }

    /** `Service.get_remaining_time` in seconds: None once closed,
        otherwise the time left, never below zero. A closed row answers
        before its closing time is read, so only an open row needs one. */
    function RemainingTime(now: nat): (r: Option<nat>)
      requires statut == FERME || dateFermeture.Some?
      ensures statut == FERME <==> r.None?
      ensures r.Some? ==> r.value + now >= dateFermeture.value
      ensures r.Some? && r.value > 0 ==> r.value + now == dateFermeture.value
    {
      if statut == FERME then None
      else if dateFermeture.value > now then Some(dateFermeture.value - now)
      else Some(0)
    }
  }

  /** The two statuses a service row can hold. */
  predicate KnownServiceStatus(s: Service) {
    s.statut == OUVERT || s.statut == FERME
  }

  /** A service is active exactly when time remains on it. */
  lemma ActiveIffTimeRemains(s: Service, now: nat)
    requires s.dateFermeture.Some? && KnownServiceStatus(s)
    ensures s.IsActive(now) <==> (s.RemainingTime(now).Some? && s.RemainingTime(now).value > 0)
  {
  }

  /** An active service is never expired, and an open service that is not
      active has reached its closing time. At the closing instant itself
      an open service is neither active nor expired. */
  lemma ActiveVersusExpired(s: Service, now: nat)
    requires s.dateFermeture.Some?
    ensures s.IsActive(now) ==> !s.IsExpired(now)
    ensures s.statut == OUVERT && !s.IsActive(now) ==> now >= s.dateFermeture.value
    ensures s.statut == OUVERT && now == s.dateFermeture.value ==> !s.IsActive(now) && !s.IsExpired(now)
  {
  }

  /** The open services of `user` other than the one whose primary key is
      `pk` (an unsaved row has no key and excludes nothing). */
  function OtherOpen(services: seq<Service>, user: nat, pk: Option<nat>): (r: seq<Service>)
    ensures forall o :: o in r <==> o in services && o.user == user && o.statut == OUVERT && (pk.None? || o.id != pk.value)
  {
    if services == [] then []
    else
      var o := services[|services| - 1];
      OtherOpen(services[..|services| - 1], user, pk)
      + (if o.user == user && o.statut == OUVERT && (pk.None? || o.id != pk.value) then [o] else [])
  }

  /** `Service.clean`: an open service is refused when its user already has
      another open service; a closed one always passes. */
  function CleanService(services: seq<Service>, s: Service, pk: Option<nat>): (r: Clean)
    ensures r.ValidationError? <==>
              s.statut == OUVERT
              && exists o :: o in services && o.user == s.user && o.statut == OUVERT && (pk.None? || o.id != pk.value)
    ensures r.ValidationError? ==> r.message == MSG_SERVICE_ALREADY_OPEN
  {
    var others := OtherOpen(services, s.user, pk);
    if s.statut == OUVERT && |others| > 0 then
      assert others[0] in others;
      ValidationError(MSG_SERVICE_ALREADY_OPEN)
    else
      CleanOk
  }

  // ----------------------------------------------------------------- Action

  /** The fields an author fills in through the action form. */
  datatype ActionFields = ActionFields(
    categorie: string, description: string, cause: Option<string>,
    personnesImpliquees: Option<string>, statut: string, suivi: bool)

  datatype Action = Action(id: nat, auteur: nat, service: nat, fields: ActionFields,
                           dateCreation: nat, dateModification: nat)

  /** `Action.objects.get(id=...)`, None standing for DoesNotExist. */
  function FindAction(actions: seq<Action>, id: nat): (r: Option<Action>)
    ensures r.Some? ==> r.value in actions && r.value.id == id
    ensures r.None? <==> forall a :: a in actions ==> a.id != id
  {
    if actions == [] then None
    else if actions[0].id == id then Some(actions[0])
    else FindAction(actions[1..], id)
  }

  /** `Service.objects.get(id=...)`. */
  function FindService(services: seq<Service>, id: nat): (r: Option<Service>)
    ensures r.Some? ==> r.value in services && r.value.id == id
    ensures r.None? <==> forall s :: s in services ==> s.id != id
  {
    if services == [] then None
    else if services[0].id == id then Some(services[0])
    else FindService(services[1..], id)
  }

  // ------------------------------------------------------ Validation ledger

  datatype Validation = Validation(id: nat, action: nat, validateur: nat, statut: string,
                                   commentaire: Option<string>, dateValidation: nat)

  /** `action.validations`: the entries of one action, in append order. */
  function Ledger(vs: seq<Validation>, a: nat): (r: seq<Validation>)
    ensures |r| <= |vs|
  {
    if vs == [] then []
    else Ledger(vs[..|vs| - 1], a) + (if vs[|vs| - 1].action == a then [vs[|vs| - 1]] else [])
  }

  /** The ledger of `a` holds exactly the entries of `vs` about `a`. */
  lemma {:induction false} LedgerMembers(vs: seq<Validation>, a: nat)
    ensures forall v :: v in Ledger(vs, a) <==> v in vs && v.action == a
  {
    if vs != [] {
      LedgerMembers(vs[..|vs| - 1], a);
      assert vs == vs[..|vs| - 1] + [vs[|vs| - 1]];
    }
  }

  /** Position of the most recent entry: the one with the largest
      date_validation, and among entries sharing that date, the one appended
      last (the database orders by date only; this model breaks ties by
      insertion order). */
  function LatestIndex(l: seq<Validation>): (i: nat)
    requires l != []
    ensures i < |l|
  {
    if |l| == 1 then 0
    else
      var p := LatestIndex(l[..|l| - 1]);
      if l[|l| - 1].dateValidation >= l[p].dateValidation then |l| - 1 else p
  }

  /** The chosen entry is dated no earlier than any other, and strictly
      later than every entry appended after it. */
  lemma {:induction false} LatestIndexIsLatest(l: seq<Validation>)
    requires l != []
    ensures forall k :: 0 <= k < |l| ==> l[k].dateValidation <= l[LatestIndex(l)].dateValidation
    ensures forall j :: LatestIndex(l) < j < |l| ==> l[j].dateValidation < l[LatestIndex(l)].dateValidation
  {
    if |l| > 1 {
      var front := l[..|l| - 1];
      LatestIndexIsLatest(front);
      assert forall k :: 0 <= k < |front| ==> front[k] == l[k];
    }
  }

  /** The most recent entry of a non-empty ledger. */
  function Latest(l: seq<Validation>): (r: Validation)
    requires l != []
    ensures r in l
  {
    l[LatestIndex(l)]
  }

  /** The latest entry is an entry of the ledger dated no earlier than any
      other, and every entry appended after it is strictly earlier: among
      entries sharing the largest date, the last appended wins. */
  lemma LatestIsLastOfLatestDate(l: seq<Validation>)
    requires l != []
    ensures Latest(l) in l
    ensures forall k :: 0 <= k < |l| ==> l[k].dateValidation <= Latest(l).dateValidation
    ensures exists i :: 0 <= i < |l| && l[i] == Latest(l)
                        && forall j :: i < j < |l| ==> l[j].dateValidation < Latest(l).dateValidation
  {
    LatestIndexIsLatest(l);
    var i := LatestIndex(l);
    assert l[i] == Latest(l);
  }

  /** `Action.latest_validation`. */
  function LatestValidation(vs: seq<Validation>, a: nat): (r: Option<Validation>)
  {
    var l := Ledger(vs, a);
    if l == [] then None else Some(Latest(l))
  }

  /** `latest_validation` is empty exactly when the action has no entry;
      otherwise it is one of the action's entries, dated no earlier than
      any other. */
  lemma LatestValidationFacts(vs: seq<Validation>, a: nat)
    ensures LatestValidation(vs, a).None? <==> Ledger(vs, a) == []
    ensures LatestValidation(vs, a).Some? ==>
              LatestValidation(vs, a).value in vs && LatestValidation(vs, a).value.action == a
    ensures LatestValidation(vs, a).Some? ==>
              forall w :: w in vs && w.action == a ==> w.dateValidation <= LatestValidation(vs, a).value.dateValidation
  {
    var l := Ledger(vs, a);
    LedgerMembers(vs, a);
    if l != [] {
      LatestIndexIsLatest(l);
      forall w | w in vs && w.action == a
        ensures w.dateValidation <= Latest(l).dateValidation
      {
        var k :| 0 <= k < |l| && l[k] == w;
      }
    }
  }

  /** `Action.validation_status`: the statut of the latest entry, or
      'en_attente' while the action has none. */
  function ValidationStatus(vs: seq<Validation>, a: nat): string {
    match LatestValidation(vs, a)
    case Some(v) => v.statut
    case None => EN_ATTENTE
  }

  /** An action without entries is 'en_attente'; otherwise its status is
      the statut of one of its entries dated no earlier than all others. */
  lemma StatusIsLatestEntry(vs: seq<Validation>, a: nat)
    ensures (forall v :: v in vs ==> v.action != a) ==> ValidationStatus(vs, a) == EN_ATTENTE
    ensures (exists v :: v in vs && v.action == a) ==>
              exists v :: v in vs && v.action == a && ValidationStatus(vs, a) == v.statut
                && forall w :: w in vs && w.action == a ==> w.dateValidation <= v.dateValidation
  {
    var l := Ledger(vs, a);
    LedgerMembers(vs, a);
    LatestValidationFacts(vs, a);
    if exists v :: v in vs && v.action == a {
      var v :| v in vs && v.action == a;
      assert v in l;
    }
  }

  /** Entries are appended with non-decreasing dates. */
  predicate SortedByDate(l: seq<Validation>) {
    forall i, j :: 0 <= i < j < |l| ==> l[i].dateValidation <= l[j].dateValidation
  }

  /** Inserts `x` after every entry of `h` dated no later than `x`. */
  function InsertByDate(h: seq<Validation>, x: Validation): (r: seq<Validation>)
    ensures |r| == |h| + 1
    ensures multiset(r) == multiset(h) + multiset{x}
    ensures r[|r| - 1] == if h == [] || h[|h| - 1].dateValidation <= x.dateValidation then x else h[|h| - 1]
  {
    if h == [] || h[|h| - 1].dateValidation <= x.dateValidation then h + [x]
    else
      assert h == h[..|h| - 1] + [h[|h| - 1]];
      InsertByDate(h[..|h| - 1], x) + [h[|h| - 1]]
  }

  /** An entry dated no earlier than every entry of a date-ordered
      sequence can follow them. */
  lemma SortedAppend(front: seq<Validation>, y: Validation)
    requires SortedByDate(front)
    requires forall z :: z in front ==> z.dateValidation <= y.dateValidation
    ensures SortedByDate(front + [y])
  {
    var r := front + [y];
    forall i, j | 0 <= i < j < |r| ensures r[i].dateValidation <= r[j].dateValidation {
      if j == |front| {
        assert r[i] == front[i] && front[i] in front;
      } else {
        assert r[i] == front[i] && r[j] == front[j];
      }
    }
  }

  /** Insertion keeps a date-ordered sequence date-ordered. */
  lemma {:induction false} InsertByDateSorted(h: seq<Validation>, x: Validation)
    requires SortedByDate(h)
    ensures SortedByDate(InsertByDate(h, x))
  {
    if h != [] && h[|h| - 1].dateValidation > x.dateValidation {
      var y := h[|h| - 1];
      var init := h[..|h| - 1];
      assert SortedByDate(init);
      InsertByDateSorted(init, x);
      var front := InsertByDate(init, x);
      forall z | z in front ensures z.dateValidation <= y.dateValidation {
        assert z in multiset(init) + multiset{x};
        if z != x {
          var k :| 0 <= k < |init| && init[k] == z;
          assert h[k] == z;
        }
      }
      SortedAppend(front, y);
    }
  }

  /** `Action.get_validation_history` on a ledger: the entries in ascending
      date order, entries with equal dates kept in append order. */
  function History(l: seq<Validation>): (r: seq<Validation>)
    ensures |r| == |l|
    ensures multiset(r) == multiset(l)
    ensures SortedByDate(r)
  {
    if l == [] then []
    else
      assert l == l[..|l| - 1] + [l[|l| - 1]];
      var h := History(l[..|l| - 1]);
      InsertByDateSorted(h, l[|l| - 1]);
      InsertByDate(h, l[|l| - 1])
  }

  /** `get_validation_history` of one action. */
  function GetValidationHistory(vs: seq<Validation>, a: nat): (r: seq<Validation>)
    ensures forall v :: v in r <==> v in vs && v.action == a
    ensures multiset(r) == multiset(Ledger(vs, a))
    ensures SortedByDate(r)
  {
    var l := Ledger(vs, a);
    var r := History(l);
    LedgerMembers(vs, a);
    assert forall v :: v in r <==> v in multiset(l);
    r
  }

  /** The history ends with the latest entry. */
  lemma {:induction false} HistoryEndsWithLatest(l: seq<Validation>)
    requires l != []
    ensures History(l)[|l| - 1] == Latest(l)
  {
    if |l| > 1 {
      HistoryEndsWithLatest(l[..|l| - 1]);
    }
  }

  /** The last entry of `get_validation_history` is `latest_validation`. */
  lemma HistoryLastIsLatestValidation(vs: seq<Validation>, a: nat)
    ensures var h := GetValidationHistory(vs, a);
            h != [] ==> LatestValidation(vs, a) == Some(h[|h| - 1])
  {
    var l := Ledger(vs, a);
    if l != [] {
      HistoryEndsWithLatest(l);
    }
  }

  /** The history of a ledger is its shorter history with the last entry
      inserted. */
  lemma HistoryStep(l: seq<Validation>)
    requires l != []
    ensures History(l) == InsertByDate(History(l[..|l| - 1]), l[|l| - 1])
  {
  }

  /** A date-ordered ledger is its date-ordered front followed by an entry
      dated no earlier than the front's last, which then stays in place. */
  lemma SortedSplit(l: seq<Validation>)
    requires l != [] && SortedByDate(l)
    ensures SortedByDate(l[..|l| - 1])
    ensures InsertByDate(l[..|l| - 1], l[|l| - 1]) == l[..|l| - 1] + [l[|l| - 1]]
  {
    var front := l[..|l| - 1];
    assert front == [] || front[|front| - 1] == l[|l| - 2];
  }

  /** A ledger already in date order is its own history. */
  lemma {:induction false} SortedHistoryIsLedger(l: seq<Validation>)
    requires SortedByDate(l)
    ensures History(l) == l
  {
    if l != [] {
      var front := l[..|l| - 1];
      var x := l[|l| - 1];
      SortedSplit(l);
      SortedHistoryIsLedger(front);
      HistoryStep(l);
      assert l == front + [x];
    }
  }

  /** In a ledger appended with non-decreasing dates the last element wins. */
  lemma SortedLatestIsLast(l: seq<Validation>)
    requires l != [] && SortedByDate(l)
    ensures Latest(l) == l[|l| - 1]
  {
    HistoryEndsWithLatest(l);
    SortedHistoryIsLedger(l);
  }

  lemma LedgerAppend(vs: seq<Validation>, v: Validation, a: nat)
    ensures Ledger(vs + [v], a) == Ledger(vs, a) + (if v.action == a then [v] else [])
  {
    assert (vs + [v])[..|vs|] == vs;
  }

  /** Appending entries of other actions leaves an action's ledger alone. */
  lemma {:induction false} LedgerUnaffected(vs: seq<Validation>, extra: seq<Validation>, a: nat)
    requires forall e :: e in extra ==> e.action != a
    ensures Ledger(vs + extra, a) == Ledger(vs, a)
  {
    if extra == [] {
      assert vs + extra == vs;
    } else {
      var front := extra[..|extra| - 1];
      assert vs + extra == (vs + front) + [extra[|extra| - 1]];
      assert forall e :: e in front ==> e in extra;
      assert extra[|extra| - 1] in extra;
      LedgerAppend(vs + front, extra[|extra| - 1], a);
      LedgerUnaffected(vs, front, a);
      assert Ledger(vs + front, a) + [] == Ledger(vs + front, a);
    }
  }

  /** ... and so its derived status too. */
  lemma StatusUnaffected(vs: seq<Validation>, extra: seq<Validation>, a: nat)
    requires forall e :: e in extra ==> e.action != a
    ensures ValidationStatus(vs + extra, a) == ValidationStatus(vs, a)
  {
    LedgerUnaffected(vs, extra, a);
  }

  /** An entry dated no earlier than the action's other entries decides its
      status: the "last element wins" rule of the ledger. */
  lemma AppendedEntryDecidesStatus(vs: seq<Validation>, v: Validation)
    requires forall w :: w in vs && w.action == v.action ==> w.dateValidation <= v.dateValidation
    ensures ValidationStatus(vs + [v], v.action) == v.statut
  {
    LedgerAppend(vs, v, v.action);
    var l := Ledger(vs, v.action);
    if l != [] {
      LedgerMembers(vs, v.action);
      LatestIndexIsLatest(l);
      assert l[LatestIndex(l)] in l;
      assert (l + [v])[..|l|] == l;
    }
  }

  /** An entry that repeats the current status (a comment) keeps it,
      whatever its date. */
  lemma AppendingCurrentStatusKeepsIt(vs: seq<Validation>, v: Validation)
    requires v.statut == ValidationStatus(vs, v.action)
    ensures ValidationStatus(vs + [v], v.action) == ValidationStatus(vs, v.action)
  {
    LedgerAppend(vs, v, v.action);
  }

  /** `Action.can_be_edited`: the status is 'en_attente' or 'refusé'. */
  predicate CanBeEdited(vs: seq<Validation>, a: nat)
    ensures CanBeEdited(vs, a) ==> ValidationStatus(vs, a) != VALIDE
  {
    var status := ValidationStatus(vs, a);
    status == EN_ATTENTE || status == REFUSE
  }

  /** Every entry carries one of the three Validation.statut choices. */
  predicate KnownStatuses(vs: seq<Validation>) {
    forall v :: v in vs ==> v.statut in {EN_ATTENTE, VALIDE, REFUSE}
  }

  /** With well-formed entries, an action is editable exactly until it is
      validated; an action with no entry is editable. */
  lemma EditableIffNotValidated(vs: seq<Validation>, a: nat)
    requires KnownStatuses(vs)
    ensures CanBeEdited(vs, a) <==> ValidationStatus(vs, a) != VALIDE
    ensures Ledger(vs, a) == [] ==> CanBeEdited(vs, a)
  {
    LatestValidationFacts(vs, a);
  }

  /** `Validation.clean`: a rejection needs a non-empty comment (a blank
      but non-empty comment passes here), and the validator must be an
      admin. The comment rule is checked first. */
  function CleanValidation(v: Validation, validator: User): (r: Clean)
    requires v.validateur == validator.id
    ensures r.CleanOk? <==>
              (v.statut != REFUSE || (v.commentaire.Some? && v.commentaire.value != [])) && CanValidate(validator)
    ensures r.ValidationError? && v.statut == REFUSE && v.commentaire.GetOr([]) == [] ==> r.message == MSG_COMMENT_REQUIRED
    ensures r.ValidationError? && !(v.statut == REFUSE && v.commentaire.GetOr([]) == []) ==> r.message == MSG_ADMIN_ONLY
  {
    if v.statut == REFUSE && v.commentaire.GetOr([]) == [] then ValidationError(MSG_COMMENT_REQUIRED)
    else if validator.role != ADMIN then ValidationError(MSG_ADMIN_ONLY)
    else CleanOk
  }

  /** `Validation.is_self_validation`: the validator wrote the action. */
  predicate IsSelfValidation(v: Validation, a: Action)
    requires v.action == a.id
  {
    v.validateur == a.auteur
  }

  // ----------------------------------------------------------- Notification

  datatype Notification = Notification(id: nat, destinataire: nat, kind: string, message: string,
                                       lue: bool, date: nat, action: Option<nat>, validation: Option<nat>)

  /** `Notification.get_icon`. */
  function GetIcon(kind: string): (r: string)
    ensures kind == KIND_VALIDATION ==> r == "✓"
    ensures kind == KIND_REFUS ==> r == "✗"
    ensures kind == KIND_COMMENTAIRE ==> r == "💬"
    ensures kind == KIND_NOUVELLE_ACTION ==> r == "📝"
    ensures kind !in {KIND_VALIDATION, KIND_REFUS, KIND_COMMENTAIRE, KIND_NOUVELLE_ACTION} ==> r == "📌"
  {
    if kind == KIND_VALIDATION then "✓"
    else if kind == KIND_REFUS then "✗"
    else if kind == KIND_COMMENTAIRE then "💬"
    else if kind == KIND_NOUVELLE_ACTION then "📝"
    else "📌"
  }

  predicate UnreadFor(n: Notification, u: nat) {
    n.destinataire == u && !n.lue
  }

  /** `Notification.objects.filter(destinataire=u, lue=False).count()`. */
  function UnreadCount(ns: seq<Notification>, u: nat): (r: nat)
    ensures r <= |ns|
  {
    if ns == [] then 0
    else UnreadCount(ns[..|ns| - 1], u) + (if UnreadFor(ns[|ns| - 1], u) then 1 else 0)
  }

  /** The badge shows zero exactly when nothing addressed to the user is
      unread. */
  lemma {:induction false} UnreadZeroIffNoneUnread(ns: seq<Notification>, u: nat)
    ensures UnreadCount(ns, u) == 0 <==> forall n :: n in ns ==> !UnreadFor(n, u)
  {
    if ns != [] {
      var front := ns[..|ns| - 1];
      UnreadZeroIffNoneUnread(front, u);
      assert forall n :: n in ns ==> n in front || n == ns[|ns| - 1];
    }
  }

  lemma UnreadAppend(ns: seq<Notification>, n: Notification, u: nat)
    ensures UnreadCount(ns + [n], u) == UnreadCount(ns, u) + (if UnreadFor(n, u) then 1 else 0)
  {
    assert (ns + [n])[..|ns|] == ns;
  }

  /** Notifications addressed to someone else do not change a user's
      unread count. */
  lemma {:induction false} UnreadUnaffected(ns: seq<Notification>, extra: seq<Notification>, u: nat)
    requires forall n :: n in extra ==> n.destinataire != u
    ensures UnreadCount(ns + extra, u) == UnreadCount(ns, u)
  {
    if extra == [] {
      assert ns + extra == ns;
    } else {
      var front := extra[..|extra| - 1];
      assert ns + extra == (ns + front) + [extra[|extra| - 1]];
      assert forall n :: n in front ==> n in extra;
      assert extra[|extra| - 1] in extra;
      UnreadAppend(ns + front, extra[|extra| - 1], u);
      UnreadUnaffected(ns, front, u);
    }
  }
}
