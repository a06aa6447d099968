/**
 * core/views.py: the views that change the database. A view's HTTP answer
 * (a redirect, a page rendered again, a flash message) becomes an
 * `Outcome`; the request's user, method, posted comment and form verdict
 * become parameters, and `timezone.now()` is the parameter `now`.
 */
module Views {
  import opened Wrappers
  import opened Models
  import opened Orm
  import opened Signals
  import Text

  datatype Outcome =
    | Forbidden          // the role check failed
    | NotFound           // Action.DoesNotExist or get_object_or_404
    | AlreadyValidated   // the action's status is already 'validé'
    | CommentMissing     // the stripped comment is empty
    | FormShown          // GET, or a form that does not validate: the page again
    | AlreadyOpen        // the user already has an open service
    | NoActiveService    // no (active) service to close or to attach an action to
    | NotAuthor          // only the author may edit an action
    | ServiceClosed      // the action's service is closed or past its closing time
    | Done(selfValidation: bool)  // the change was made; the flag is the self-validation warning

  // ------------------------------------------------------- lookups by key

  /** Position of the first action with key `id`. */
  function ActionIndex(actions: seq<Action>, id: nat): (r: Option<nat>)
    ensures r.Some? ==> r.value < |actions| && FindAction(actions, id) == Some(actions[r.value])
    ensures r.None? <==> FindAction(actions, id).None?
  {
    if actions == [] then None
    else if actions[0].id == id then Some(0)
    else match ActionIndex(actions[1..], id)
      case Some(k) => Some(k + 1)
      case None => None
  }

  /** Position of the first service of `user` whose statut is 'ouvert':
      `Service.objects.filter(user=..., statut='ouvert').first()`. */
  function OpenServiceIndex(services: seq<Service>, user: nat): (r: Option<nat>)
    ensures r.Some? ==> r.value < |services| && services[r.value].user == user && services[r.value].statut == OUVERT
    ensures r.None? <==> !HasOpenService(services, user)
  {
    if services == [] then None
    else if services[0].user == user && services[0].statut == OUVERT then Some(0)
    else
      assert forall s :: s in services[1..] ==> s in services;
      assert forall s :: s in services ==> s == services[0] || s in services[1..];
      match OpenServiceIndex(services[1..], user)
      case Some(k) => Some(k + 1)
      case None => None
  }

  /** A service of `user` that is open and whose closing time lies ahead. */
  predicate ActiveFor(s: Service, user: nat, now: nat) {
    s.user == user && s.statut == OUVERT && s.dateFermeture.Some? && s.dateFermeture.value > now
  }

  /** Position of the first such service: `Service.objects.filter(user=...,
      statut='ouvert', date_fermeture__gt=now).first()`. */
  function ActiveServiceIndex(services: seq<Service>, user: nat, now: nat): (r: Option<nat>)
    ensures r.Some? ==> r.value < |services| && ActiveFor(services[r.value], user, now)
    ensures r.None? <==> forall s :: s in services ==> !ActiveFor(s, user, now)
  {
    if services == [] then None
    else if ActiveFor(services[0], user, now) then Some(0)
    else
      assert forall s :: s in services ==> s == services[0] || s in services[1..];
      match ActiveServiceIndex(services[1..], user, now)
      case Some(k) => Some(k + 1)
      case None => None
  }

  /** Position of the notification `get_object_or_404(Notification, id=...,
      destinataire=...)` finds. */
  function NotificationIndex(ns: seq<Notification>, id: nat, user: nat): (r: Option<nat>)
    ensures r.Some? ==> r.value < |ns| && ns[r.value].id == id && ns[r.value].destinataire == user
    ensures r.None? <==> forall n :: n in ns ==> !(n.id == id && n.destinataire == user)
  {
    if ns == [] then None
    else if ns[0].id == id && ns[0].destinataire == user then Some(0)
    else
      assert forall n :: n in ns ==> n == ns[0] || n in ns[1..];
      match NotificationIndex(ns[1..], id, user)
      case Some(k) => Some(k + 1)
      case None => None
  }

  // ------------------------------------------------------- validation views

  /** `Validation.objects.create(...)` followed by its post_save signal:
      appends the entry, dated now, and notifies the author. */
  method CreateValidation(db: Database, action: Action, validator: User, statut: string,
                          commentaire: Option<string>, now: nat)
    returns (v: Validation)
    requires db.Valid()
    modifies db`validations, db`nextValidationId, db`notifications, db`nextNotificationId
    ensures db.Valid()
    ensures v == Validation(old(db.nextValidationId), action.id, validator.id, statut, commentaire, now)
    ensures db.validations == old(db.validations) + [v]
    ensures db.nextValidationId == old(db.nextValidationId) + 1
    ensures var ns := ValidationNotifications(v, action, validator, true, old(db.nextNotificationId), now);
            && db.notifications == old(db.notifications) + ns
            && db.nextNotificationId == old(db.nextNotificationId) + |ns|
  {
    v := Validation(db.nextValidationId, action.id, validator.id, statut, commentaire, now);
    NewValidationKeepsRows(db.validations, db.nextValidationId, v);
    db.validations := db.validations + [v];
    db.nextValidationId := db.nextValidationId + 1;
    var _ := CreateValidationNotification(db, v, action, validator, true, now);
  }

  /** The answer `validate_action` gives: admins only, an existing action,
      not validated yet; validating one's own action is allowed with a
      warning. */
  function ValidateOutcome(requester: User, actions: seq<Action>, vs: seq<Validation>, actionId: nat): (r: Outcome)
    ensures !CanValidate(requester) ==> r == Forbidden
    ensures CanValidate(requester) && FindAction(actions, actionId).None? ==> r == NotFound
    ensures CanValidate(requester) && FindAction(actions, actionId).Some? && ValidationStatus(vs, actionId) == VALIDE ==>
              r == AlreadyValidated
    ensures r.Done? <==>
              CanValidate(requester) && FindAction(actions, actionId).Some? && ValidationStatus(vs, actionId) != VALIDE
    ensures r.Done? ==> r.selfValidation == (FindAction(actions, actionId).value.auteur == requester.id)
  {
    if requester.role != ADMIN then Forbidden
    else match FindAction(actions, actionId)
      case None => NotFound
      case Some(a) =>
        if ValidationStatus(vs, actionId) == VALIDE then AlreadyValidated
        else Done(a.auteur == requester.id)
  }

  /** `validate_action`: applies `ValidateOutcome`; on success a 'validé'
      entry without comment is appended and the author is notified. */
  method ValidateAction(db: Database, requester: User, actionId: nat, now: nat) returns (out: Outcome)
    requires db.Valid()
    modifies db`validations, db`nextValidationId, db`notifications, db`nextNotificationId
    ensures db.Valid()
    ensures out == ValidateOutcome(requester, db.actions, old(db.validations), actionId)
    ensures !out.Done? ==> db.validations == old(db.validations) && db.notifications == old(db.notifications)
    ensures out.Done? ==>
              var a := FindAction(db.actions, actionId).value;
              var v := Validation(old(db.nextValidationId), actionId, requester.id, VALIDE, None, now);
              && db.validations == old(db.validations) + [v]
              && db.notifications
                 == old(db.notifications) + ValidationNotifications(v, a, requester, true, old(db.nextNotificationId), now)
    ensures out.Done? && (forall w :: w in old(db.validations) ==> w.dateValidation <= now) ==>
              ValidationStatus(db.validations, actionId) == VALIDE
  {
    out := ValidateOutcome(requester, db.actions, db.validations, actionId);
    if !out.Done? {
      return;
    }
    var action := FindAction(db.actions, actionId).value;
    ghost var before := db.validations;
    var v := CreateValidation(db, action, requester, VALIDE, None, now);
    if forall w :: w in before ==> w.dateValidation <= now {
      AppendedEntryDecidesStatus(before, v);
    }
  }

  /** The answer `reject_action` and `comment_action` give: admins only,
      an existing action, a POST, and a comment that is not blank once
      stripped. */
  function CommentOutcome(requester: User, actions: seq<Action>, actionId: nat, isPost: bool, rawComment: string)
    : (r: Outcome)
    ensures !CanValidate(requester) ==> r == Forbidden
    ensures CanValidate(requester) && FindAction(actions, actionId).None? ==> r == NotFound
    ensures CanValidate(requester) && FindAction(actions, actionId).Some? && !isPost ==> r == FormShown
    ensures CanValidate(requester) && FindAction(actions, actionId).Some? && isPost && Text.AllSpace(rawComment) ==>
              r == CommentMissing
    ensures r.Done? <==>
              CanValidate(requester) && FindAction(actions, actionId).Some? && isPost && !Text.AllSpace(rawComment)
    ensures r.Done? ==> !r.selfValidation
  {
    Text.StripEmptyIffBlank(rawComment);
    if requester.role != ADMIN then Forbidden
    else if FindAction(actions, actionId).None? then NotFound
    else if !isPost then FormShown
    else if Text.Strip(rawComment) == [] then CommentMissing
    else Done(false)
  }

  /** `reject_action`: applies `CommentOutcome`; on success a 'refusé'
      entry carrying the stripped comment is appended and the author is
      notified. The entry always passes `Validation.clean`, so `full_clean`
      never fails here. */
  method RejectAction(db: Database, requester: User, actionId: nat, isPost: bool, rawComment: string, now: nat)
    returns (out: Outcome)
    requires db.Valid()
    modifies db`validations, db`nextValidationId, db`notifications, db`nextNotificationId
    ensures db.Valid()
    ensures out == CommentOutcome(requester, db.actions, actionId, isPost, rawComment)
    ensures !out.Done? ==> db.validations == old(db.validations) && db.notifications == old(db.notifications)
    ensures out.Done? ==>
              var a := FindAction(db.actions, actionId).value;
              var v := Validation(old(db.nextValidationId), actionId, requester.id, REFUSE, Some(Text.Strip(rawComment)), now);
              && db.validations == old(db.validations) + [v]
              && CleanValidation(v, requester).CleanOk?
              && db.notifications
                 == old(db.notifications) + ValidationNotifications(v, a, requester, true, old(db.nextNotificationId), now)
  {
    out := CommentOutcome(requester, db.actions, actionId, isPost, rawComment);
    if !out.Done? {
      return;
    }
    var commentaire := Text.Strip(rawComment);
    var candidate := Validation(db.nextValidationId, actionId, requester.id, REFUSE, Some(commentaire), now);
    assert CleanValidation(candidate, requester).CleanOk?;
    var _ := CreateValidation(db, FindAction(db.actions, actionId).value, requester, REFUSE, Some(commentaire), now);
  }

  /** `comment_action`: applies `CommentOutcome`; on success an entry that
      repeats the action's current status with the stripped comment is
      appended, so the status is the same afterwards. */
  method CommentAction(db: Database, requester: User, actionId: nat, isPost: bool, rawComment: string, now: nat)
    returns (out: Outcome)
    requires db.Valid()
    modifies db`validations, db`nextValidationId, db`notifications, db`nextNotificationId
    ensures db.Valid()
    ensures out == CommentOutcome(requester, db.actions, actionId, isPost, rawComment)
    ensures !out.Done? ==> db.validations == old(db.validations) && db.notifications == old(db.notifications)
    ensures out.Done? ==>
              var a := FindAction(db.actions, actionId).value;
              var status := ValidationStatus(old(db.validations), actionId);
              var v := Validation(old(db.nextValidationId), actionId, requester.id, status, Some(Text.Strip(rawComment)), now);
              && db.validations == old(db.validations) + [v]
              && db.notifications
                 == old(db.notifications) + ValidationNotifications(v, a, requester, true, old(db.nextNotificationId), now)
    ensures ValidationStatus(db.validations, actionId) == ValidationStatus(old(db.validations), actionId)
  {
    out := CommentOutcome(requester, db.actions, actionId, isPost, rawComment);
    if !out.Done? {
      return;
    }
    var status := ValidationStatus(db.validations, actionId);
    ghost var before := db.validations;
    var v := CreateValidation(db, FindAction(db.actions, actionId).value, requester, status, Some(Text.Strip(rawComment)), now);
    AppendingCurrentStatusKeepsIt(before, v);
  }

  /** A comment on an action that is already validated reaches its author
      as a 'validation' notification that does not show the comment. */
  lemma CommentOnValidatedAction(v: Validation, a: Action, validator: User, id: nat, now: nat)
    requires v.action == a.id && v.validateur == validator.id && v.validateur != a.auteur
    requires v.statut == VALIDE
    ensures var ns := ValidationNotifications(v, a, validator, true, id, now);
            && |ns| == 1 && ns[0].kind == KIND_VALIDATION
            && ns[0].message == ValidationMessage(VALIDE, validator.username, DateLabel(a.dateCreation), None)
  {
  }

  /** The actions whose status is 'en_attente', in table order. */
  function PendingActions(actions: seq<Action>, vs: seq<Validation>): (r: seq<Action>)
    ensures forall a :: a in r <==> a in actions && ValidationStatus(vs, a.id) == EN_ATTENTE
    ensures |r| <= |actions|
  {
    if actions == [] then []
    else
      var a := actions[|actions| - 1];
      PendingActions(actions[..|actions| - 1], vs) + (if ValidationStatus(vs, a.id) == EN_ATTENTE then [a] else [])
  }

  /** Each pending action occurs in `PendingActions` as often as in the
      table, and no other action occurs in it. */
  lemma {:induction false} PendingActionsMultiset(actions: seq<Action>, vs: seq<Validation>)
    ensures forall a :: multiset(PendingActions(actions, vs))[a]
                        == if ValidationStatus(vs, a.id) == EN_ATTENTE then multiset(actions)[a] else 0
  {
    if actions != [] {
      var front := actions[..|actions| - 1];
      PendingActionsMultiset(front, vs);
      assert actions == front + [actions[|actions| - 1]];
    }
  }

  /** There are as many pending actions as actions whose status is 'en_attente'. */
  lemma {:induction false} PendingActionsCount(actions: seq<Action>, vs: seq<Validation>)
    ensures |PendingActions(actions, vs)| == CountWithStatus(actions, vs, EN_ATTENTE)
  {
    if actions != [] {
      PendingActionsCount(actions[..|actions| - 1], vs);
    }
  }

  /** `pending_validations`: None for a requester who is not an admin,
      otherwise the pending actions, each as often as in the table; its
      length is the total shown. */
  function PendingValidations(requester: User, actions: seq<Action>, vs: seq<Validation>): (r: Option<seq<Action>>)
    ensures r.None? <==> !CanValidate(requester)
    ensures r.Some? ==> forall a :: a in r.value <==> a in actions && ValidationStatus(vs, a.id) == EN_ATTENTE
    ensures r.Some? ==> forall a :: multiset(r.value)[a]
                                    == if ValidationStatus(vs, a.id) == EN_ATTENTE then multiset(actions)[a] else 0
    ensures r.Some? ==> |r.value| == CountWithStatus(actions, vs, EN_ATTENTE)
  {
    if requester.role != ADMIN then None
    else
      PendingActionsMultiset(actions, vs);
      PendingActionsCount(actions, vs);
      Some(PendingActions(actions, vs))
  }

  /** A pending action can still be edited. */
  lemma PendingIsEditable(actions: seq<Action>, vs: seq<Validation>, a: Action)
    requires a in PendingActions(actions, vs)
    ensures CanBeEdited(vs, a.id)
  {
  }

  // ---------------------------------------------------------- service views

  /** `open_service`: refused while the user has an open service; otherwise
      a new open service closing 24 hours from now. `full_clean` cannot
      fail after that check. */
  method OpenService(db: Database, user: User, now: nat) returns (out: Outcome)
    requires db.Valid()
    modifies db`services, db`nextServiceId
    ensures db.Valid()
    ensures out == AlreadyOpen <==> HasOpenService(old(db.services), user.id)
    ensures out == AlreadyOpen ==> db.services == old(db.services)
    ensures out != AlreadyOpen ==>
              && out == Done(false)
              && db.services == old(db.services) + [Service(old(db.nextServiceId), user.id, now, Some(now + DAY), OUVERT)]
    ensures HasOpenService(db.services, user.id)
  {
    var active := OpenServiceIndex(db.services, user.id);
    if active.Some? {
      assert db.services[active.value] in db.services;
      return AlreadyOpen;
    }
    var services := db.services;
    var service := Service(db.nextServiceId, user.id, now, None, OUVERT);
    assert CleanService(services, service, None).CleanOk?;
    service := service.Save(true, now);
    NewServiceKeepsRows(services, db.nextServiceId, service);
    AppendKeepsActionRows(db.actions, db.nextActionId, services, service);
    assert service in services + [service];
    db.services := services + [service];
    db.nextServiceId := db.nextServiceId + 1;
    out := Done(false);
  }

  /** `close_service`: closes the user's open service; with one open
      service per user, none is left open. */
  method CloseService(db: Database, user: User) returns (out: Outcome)
    requires db.Valid()
    modifies db`services
    ensures db.Valid()
    ensures out == NoActiveService <==> !HasOpenService(old(db.services), user.id)
    ensures out == NoActiveService ==> db.services == old(db.services)
    ensures out != NoActiveService ==>
              && out == Done(false)
              && var k := OpenServiceIndex(old(db.services), user.id).value;
                 db.services == old(db.services)[k := old(db.services)[k].Closed()]
    ensures !HasOpenService(db.services, user.id)
  {
    var active := OpenServiceIndex(db.services, user.id);
    if active.None? {
      return NoActiveService;
    }
    var k := active.value;
    var before := db.services;
    var after := before[k := before[k].Closed()];
    assert ClosesOnly(before, after);
    ClosingKeepsServiceRows(before, after, db.nextServiceId);
    ClosingKeepsActionRows(db.actions, db.nextActionId, before, after);
    ClosingTheOpenOne(before, k);
    db.services := after;
    out := Done(false);
  }

  // ----------------------------------------------------------- action views

  /** `Action.save()` for a new action: the row gets the next key and must
      point at a stored service. */
  method InsertAction(db: Database, a: Action)
    requires db.Valid()
    requires a.id == db.nextActionId && FindService(db.services, a.service).Some?
    modifies db`actions, db`nextActionId
    ensures db.Valid()
    ensures db.actions == old(db.actions) + [a] && db.nextActionId == old(db.nextActionId) + 1
  {
    NewActionKeepsRows(db.actions, db.nextActionId, db.services, a);
    db.actions := db.actions + [a];
    db.nextActionId := db.nextActionId + 1;
  }

  /** `action_create`: needs an active service; on a valid POST the new
      action belongs to the user and to that service, and every validated
      admin other than the author is notified. */
  method ActionCreate(db: Database, user: User, isPost: bool, formValid: bool, fields: ActionFields, now: nat)
    returns (out: Outcome)
    requires db.Valid()
    modifies db`actions, db`nextActionId, db`notifications, db`nextNotificationId
    ensures db.Valid()
    ensures out == NoActiveService <==> ActiveServiceIndex(db.services, user.id, now).None?
    ensures out.Done? <==> ActiveServiceIndex(db.services, user.id, now).Some? && isPost && formValid
    ensures !out.Done? ==> db.actions == old(db.actions) && db.notifications == old(db.notifications)
    ensures out.Done? ==>
              var s := db.services[ActiveServiceIndex(db.services, user.id, now).value];
              var a := Action(old(db.nextActionId), user.id, s.id, fields, now, now);
              var message := NewActionMessage(user.username, DateLabel(now), fields.description);
              && s.IsActive(now)
              && db.actions == old(db.actions) + [a]
              && db.notifications
                 == old(db.notifications)
                    + NewActionNotifications(Recipients(db.users, user.id), a, message, old(db.nextNotificationId), now)
  {
    var active := ActiveServiceIndex(db.services, user.id, now);
    if active.None? {
      return NoActiveService;
    }
    if !isPost || !formValid {
      return FormShown;
    }
    var service := db.services[active.value];
    var action := Action(db.nextActionId, user.id, service.id, fields, now, now);
    assert FindService(db.services, service.id).Some?;
    InsertAction(db, action);
    var _ := CreateNewActionNotification(db, action, user, true, now);
    out := Done(false);
  }

  /** `form.save()` on an existing action: the row at position k is
      rewritten with the same key and service. */
  method UpdateAction(db: Database, k: nat, a: Action)
    requires db.Valid() && k < |db.actions|
    requires a.id == db.actions[k].id && a.service == db.actions[k].service
    modifies db`actions
    ensures db.Valid()
    ensures db.actions == old(db.actions)[k := a]
  {
    UpdateKeepsActionRows(db.actions, db.nextActionId, db.services, k, a);
    db.actions := db.actions[k := a];
  }

  /** The answer `action_edit` gives: only the author may edit, only while
      the action's service is open and not past its closing time, only
      while the action is not validated, and only with a valid form. */
  function EditOutcome(actions: seq<Action>, services: seq<Service>, vs: seq<Validation>, requester: nat,
                       actionId: nat, isPost: bool, formValid: bool, now: nat): (r: Outcome)
    requires ServicesOfActionsSet(actions, services)
    ensures FindAction(actions, actionId).None? ==> r == NotFound
    ensures FindAction(actions, actionId).Some? ==>
              var a := FindAction(actions, actionId).value;
              var s := FindService(services, a.service).value;
              && (a.auteur != requester ==> r == NotAuthor)
              && (a.auteur == requester && !s.IsActive(now) ==> r == ServiceClosed)
              && (a.auteur == requester && s.IsActive(now) && ValidationStatus(vs, actionId) == VALIDE ==>
                    r == AlreadyValidated)
    ensures r.Done? <==>
              && FindAction(actions, actionId).Some?
              && var a := FindAction(actions, actionId).value;
                 && a.auteur == requester && FindService(services, a.service).value.IsActive(now)
                 && ValidationStatus(vs, actionId) != VALIDE && isPost && formValid
    ensures r.Done? ==> !r.selfValidation
  {
    match FindAction(actions, actionId)
    case None => NotFound
    case Some(a) =>
      var s := FindService(services, a.service).value;
      if a.auteur != requester then NotAuthor
      else if s.statut != OUVERT || s.dateFermeture.value <= now then ServiceClosed
      else if ValidationStatus(vs, actionId) == VALIDE then AlreadyValidated
      else if !isPost || !formValid then FormShown
      else Done(false)
  }

  /** An edit that goes through is one the model allows: with well-formed
      entries the action is still pending or refused. */
  lemma EditedActionWasEditable(actions: seq<Action>, services: seq<Service>, vs: seq<Validation>, requester: nat,
                                actionId: nat, isPost: bool, formValid: bool, now: nat)
    requires ServicesOfActionsSet(actions, services)
    requires KnownStatuses(vs)
    requires EditOutcome(actions, services, vs, requester, actionId, isPost, formValid, now).Done?
    ensures CanBeEdited(vs, actionId)
  {
    EditableIffNotValidated(vs, actionId);
  }

  /** `action_edit`: applies `EditOutcome`; a successful edit rewrites the
      form's fields and the modification time, and notifies nobody. */
  method ActionEdit(db: Database, requester: User, actionId: nat, isPost: bool, formValid: bool,
                    fields: ActionFields, now: nat)
    returns (out: Outcome)
    requires db.Valid()
    modifies db`actions, db`notifications, db`nextNotificationId
    ensures db.Valid()
    ensures db.notifications == old(db.notifications)
    ensures out == EditOutcome(old(db.actions), db.services, db.validations, requester.id, actionId, isPost, formValid, now)
    ensures !out.Done? ==> db.actions == old(db.actions)
    ensures out.Done? ==>
              var k := ActionIndex(old(db.actions), actionId).value;
              db.actions == old(db.actions)[k := old(db.actions)[k].(fields := fields, dateModification := now)]
  {
    ValidTablesSetServices(db.actions, db.nextActionId, db.services, db.nextServiceId);
    out := EditOutcome(db.actions, db.services, db.validations, requester.id, actionId, isPost, formValid, now);
    if !out.Done? {
      return;
    }
    var k := ActionIndex(db.actions, actionId).value;
    var edited := db.actions[k].(fields := fields, dateModification := now);
    UpdateAction(db, k, edited);
    var _ := CreateNewActionNotification(db, edited, requester, false, now);
  }

  /** Of `actions`, how many have status `status`. */
  function CountWithStatus(actions: seq<Action>, vs: seq<Validation>, status: string): (r: nat)
    ensures r <= |actions|
  {
    if actions == [] then 0
    else
      CountWithStatus(actions[..|actions| - 1], vs, status)
      + (if ValidationStatus(vs, actions[|actions| - 1].id) == status then 1 else 0)
  }

  /** Of `actions`, how many are neither validated nor refused. */
  function CountOthers(actions: seq<Action>, vs: seq<Validation>): (r: nat)
    ensures r <= |actions|
  {
    if actions == [] then 0
    else
      var s := ValidationStatus(vs, actions[|actions| - 1].id);
      CountOthers(actions[..|actions| - 1], vs) + (if s != VALIDE && s != REFUSE then 1 else 0)
  }

  /** Every action is counted exactly once. */
  lemma {:induction false} CountsPartition(actions: seq<Action>, vs: seq<Validation>)
    ensures CountWithStatus(actions, vs, VALIDE) + CountWithStatus(actions, vs, REFUSE) + CountOthers(actions, vs)
            == |actions|
  {
    if actions != [] {
      CountsPartition(actions[..|actions| - 1], vs);
    }
  }

  /** With well-formed entries, the third count is the 'en_attente' count. */
  lemma {:induction false} OthersArePending(actions: seq<Action>, vs: seq<Validation>)
    requires KnownStatuses(vs)
    ensures CountOthers(actions, vs) == CountWithStatus(actions, vs, EN_ATTENTE)
  {
    if actions != [] {
      var a := actions[|actions| - 1];
      OthersArePending(actions[..|actions| - 1], vs);
      EditableIffNotValidated(vs, a.id);
    }
  }

  /** `Action.objects.filter(auteur=user)`, in table order. */
  function OwnActions(actions: seq<Action>, user: nat): (r: seq<Action>)
    ensures forall a :: a in r <==> a in actions && a.auteur == user
    ensures |r| <= |actions|
  {
    if actions == [] then []
    else
      var a := actions[|actions| - 1];
      OwnActions(actions[..|actions| - 1], user) + (if a.auteur == user then [a] else [])
  }

  /** Each of the user's actions occurs in `OwnActions` as often as in the
      table, and no other action occurs in it. */
  lemma {:induction false} OwnActionsMultiset(actions: seq<Action>, user: nat)
    ensures forall a :: multiset(OwnActions(actions, user))[a] == if a.auteur == user then multiset(actions)[a] else 0
  {
    if actions != [] {
      var front := actions[..|actions| - 1];
      OwnActionsMultiset(front, user);
      assert actions == front + [actions[|actions| - 1]];
    }
  }

  /** The counting loop of `action_list`: the validated, refused and other
      actions of the user, which together are all of them. */
  method ActionList(db: Database, user: User)
    returns (total: nat, validated: nat, pending: nat, rejected: nat)
    ensures var own := OwnActions(db.actions, user.id);
            && total == |own|
            && validated == CountWithStatus(own, db.validations, VALIDE)
            && rejected == CountWithStatus(own, db.validations, REFUSE)
            && pending == CountOthers(own, db.validations)
    ensures validated + pending + rejected == total
  {
    var actions := OwnActions(db.actions, user.id);
    total := |actions|;
    validated, pending, rejected := 0, 0, 0;
    for i := 0 to |actions|
      invariant validated == CountWithStatus(actions[..i], db.validations, VALIDE)
      invariant rejected == CountWithStatus(actions[..i], db.validations, REFUSE)
      invariant pending == CountOthers(actions[..i], db.validations)
    {
      assert actions[..i + 1][..i] == actions[..i];
      var status := ValidationStatus(db.validations, actions[i].id);
      if status == VALIDE {
        validated := validated + 1;
      } else if status == REFUSE {
        rejected := rejected + 1;
      } else {
        pending := pending + 1;
      }
    }
    assert actions[..|actions|] == actions;
    CountsPartition(actions, db.validations);
  }

  // ------------------------------------------------------ notification views

  /** `mark_notification_read`: flags the requester's notification as read;
      someone else's notification is not found. Reports whether it links
      an action (the view then redirects to the actions page). */
  method MarkNotificationRead(db: Database, requester: User, notifId: nat) returns (found: bool, linksAction: bool)
    requires db.Valid()
    modifies db`notifications
    ensures db.Valid()
    ensures found <==> exists n :: n in old(db.notifications) && n.id == notifId && n.destinataire == requester.id
    ensures !found ==> db.notifications == old(db.notifications)
    ensures found ==>
              var k := NotificationIndex(old(db.notifications), notifId, requester.id).value;
              && db.notifications == old(db.notifications)[k := old(db.notifications)[k].(lue := true)]
              && linksAction == old(db.notifications)[k].action.Some?
    ensures |db.notifications| == |old(db.notifications)|
    ensures forall i :: 0 <= i < |db.notifications| && old(db.notifications)[i].destinataire != requester.id ==>
              db.notifications[i] == old(db.notifications)[i]
  {
    var index := NotificationIndex(db.notifications, notifId, requester.id);
    if index.None? {
      return false, false;
    }
    var k := index.value;
    assert db.notifications[k] in db.notifications;
    var n := db.notifications[k];
    var after := db.notifications[k := n.(lue := true)];
    SameKeysKeepNotificationRows(db.notifications, after, db.nextNotificationId);
    db.notifications := after;
    found, linksAction := true, n.action.Some?;
  }

  /** The table after `filter(destinataire=u, lue=False).update(lue=True)`. */
  function MarkAllRead(ns: seq<Notification>, u: nat): (r: seq<Notification>)
    ensures |r| == |ns|
  {
    if ns == [] then []
    else
      var n := ns[|ns| - 1];
      MarkAllRead(ns[..|ns| - 1], u) + [if UnreadFor(n, u) then n.(lue := true) else n]
  }

  /** After marking all as read the user has nothing unread, and every
      other user's unread count is unchanged. */
  lemma {:induction false} MarkAllReadCounts(ns: seq<Notification>, u: nat, w: nat)
    ensures UnreadCount(MarkAllRead(ns, u), u) == 0
    ensures w != u ==> UnreadCount(MarkAllRead(ns, u), w) == UnreadCount(ns, w)
  {
    if ns != [] {
      var front := ns[..|ns| - 1];
      var n := ns[|ns| - 1];
      var m := if UnreadFor(n, u) then n.(lue := true) else n;
      MarkAllReadCounts(front, u, w);
      UnreadAppend(MarkAllRead(front, u), m, u);
      UnreadAppend(MarkAllRead(front, u), m, w);
    }
  }

  /** Only the user's unread rows change, and each just becomes read. */
  lemma {:induction false} MarkAllReadRows(ns: seq<Notification>, u: nat, i: nat)
    requires i < |ns|
    ensures MarkAllRead(ns, u)[i] == if UnreadFor(ns[i], u) then ns[i].(lue := true) else ns[i]
  {
    if i < |ns| - 1 {
      MarkAllReadRows(ns[..|ns| - 1], u, i);
    }
  }

  /** Marking as read keeps every key, so the table stays valid. */
  lemma MarkAllReadKeepsRows(ns: seq<Notification>, u: nat, nextId: nat)
    requires NotificationRowsValid(ns, nextId)
    ensures NotificationRowsValid(MarkAllRead(ns, u), nextId)
  {
    forall i | 0 <= i < |ns| ensures MarkAllRead(ns, u)[i].id == ns[i].id {
      MarkAllReadRows(ns, u, i);
    }
    SameKeysKeepNotificationRows(ns, MarkAllRead(ns, u), nextId);
  }

  /** `mark_all_notifications_read`: returns how many rows it updated,
      which is the requester's unread count before the call. */
  method MarkAllNotificationsRead(db: Database, requester: User) returns (updated: nat)
    requires db.Valid()
    modifies db`notifications
    ensures db.Valid()
    ensures updated == UnreadCount(old(db.notifications), requester.id)
    ensures db.notifications == MarkAllRead(old(db.notifications), requester.id)
    ensures UnreadCount(db.notifications, requester.id) == 0
  {
    updated := UnreadCount(db.notifications, requester.id);
    MarkAllReadCounts(db.notifications, requester.id, requester.id);
    MarkAllReadKeepsRows(db.notifications, requester.id, db.nextNotificationId);
    db.notifications := MarkAllRead(db.notifications, requester.id);
  }

  /** `delete_notification`: removes the requester's notification with that
      key; someone else's notification is not found. */
  method DeleteNotification(db: Database, requester: User, notifId: nat) returns (found: bool)
    requires db.Valid()
    modifies db`notifications
    ensures db.Valid()
    ensures found <==> exists n :: n in old(db.notifications) && n.id == notifId && n.destinataire == requester.id
    ensures !found ==> db.notifications == old(db.notifications)
    ensures found ==>
              var k := NotificationIndex(old(db.notifications), notifId, requester.id).value;
              db.notifications == old(db.notifications)[..k] + old(db.notifications)[k + 1..]
    ensures forall n :: n in db.notifications ==> n in old(db.notifications)
    ensures forall n :: n in old(db.notifications) && n.destinataire != requester.id ==> n in db.notifications
  {
    var index := NotificationIndex(db.notifications, notifId, requester.id);
    if index.None? {
      return false;
    }
    var k := index.value;
    var after := db.notifications[..k] + db.notifications[k + 1..];
    RemovalKeepsNotificationRows(db.notifications, k, db.nextNotificationId);
    RemovalKeepsOthers(db.notifications, k);
    db.notifications := after;
    found := true;
  }
}
