/**
 * core/signals.py: the notification rows written after a validation entry
 * or an action is saved, and the unread count pushed with each of them.
 * The push itself (a WebSocket group message) is not modelled; the count it
 * would carry is returned instead.
 */
module Signals {
  import opened Wrappers
  import opened Models
  import opened Orm
  import Text

  /** Stands for `date_creation.strftime('%d/%m/%Y à %H:%M')`: the model
      treats a formatted date as an opaque string. */
  function DateLabel(t: nat): string {
    Text.Decimal(t)
  }

  const COMMENT_BLOCK := "\n\nCommentaire : "

  /** Notification type derived from an entry's statut. */
  function NotificationKind(statut: string): (r: string)
    ensures statut == VALIDE ==> r == KIND_VALIDATION
    ensures statut == REFUSE ==> r == KIND_REFUS
    ensures statut != VALIDE && statut != REFUSE ==> r == KIND_COMMENTAIRE
  {
    if statut == VALIDE then KIND_VALIDATION
    else if statut == REFUSE then KIND_REFUS
    else KIND_COMMENTAIRE
  }

  /** The comment block appended when the comment is present and not empty. */
  function CommentSuffix(comment: Option<string>): string {
    if comment.Some? && comment.value != [] then COMMENT_BLOCK + comment.value else ""
  }

  /** The message of a validation, refusal or comment notification. */
  function ValidationMessage(statut: string, validator: string, when: string, comment: Option<string>): string {
    var suffix := if statut == VALIDE then "" else CommentSuffix(comment);
    var (first, middle, second) :=
      if statut == VALIDE then (when, " a été validée par ", validator)
      else if statut == REFUSE then (when, " a été refusée par ", validator)
      else (validator, " a commenté votre action du ", when);
    var lead := if statut == VALIDE || statut == REFUSE then "Votre action du " else "";
    lead + first + middle + second + "." + suffix
  }

  /** Every such message names the validator and the action's date; a
      refusal or a comment ends with the comment block when there is a
      comment, and every other message ends with a full stop. */
  lemma ValidationMessageShape(statut: string, validator: string, when: string, comment: Option<string>)
    ensures var r := ValidationMessage(statut, validator, when, comment);
            && Text.Contains(r, validator) && Text.Contains(r, when)
            && (statut != VALIDE && comment.Some? && comment.value != [] ==> Text.EndsWith(r, COMMENT_BLOCK + comment.value))
            && (statut == VALIDE || comment.GetOr([]) == [] ==> Text.EndsWith(r, "."))
  {
    var suffix := if statut == VALIDE then "" else CommentSuffix(comment);
    var (first, middle, second) :=
      if statut == VALIDE then (when, " a été validée par ", validator)
      else if statut == REFUSE then (when, " a été refusée par ", validator)
      else (validator, " a commenté votre action du ", when);
    var lead := if statut == VALIDE || statut == REFUSE then "Votre action du " else "";
    var p1 := lead + first;
    var p2 := p1 + middle + second;
    var p3 := p2 + ".";
    var r := p3 + suffix;
    assert r == ValidationMessage(statut, validator, when, comment);
    Text.OccursAtJoin(lead, first);
    Text.OccursAtJoin(p1 + middle, second);
    Text.OccursAtExtend(p1, middle, first, |lead|);
    Text.OccursAtExtend(p1 + middle, second, first, |lead|);
    Text.OccursAtExtend(p2, ".", first, |lead|);
    Text.OccursAtExtend(p2, ".", second, |p1 + middle|);
    Text.OccursAtExtend(p3, suffix, first, |lead|);
    Text.OccursAtExtend(p3, suffix, second, |p1 + middle|);
    Text.OccursAtJoin(p2, ".");
    Text.OccursAtJoin(p3, suffix);
    assert suffix == [] ==> r == p3;
  }

  /** A validation message never shows the comment: it is the same for
      every comment. */
  lemma ValidationMessageIgnoresComment(validator: string, when: string, c1: Option<string>, c2: Option<string>)
    ensures ValidationMessage(VALIDE, validator, when, c1) == ValidationMessage(VALIDE, validator, when, c2)
  {
  }

  /** The row `create_validation_notification` writes for a new entry `v`
      of `action` by `validator`: addressed to the author, linked to both
      the action and the entry, unread. */
  function ValidationNotification(v: Validation, action: Action, validator: User, id: nat, now: nat): Notification
  {
    Notification(id, action.auteur, NotificationKind(v.statut),
                 ValidationMessage(v.statut, validator.username, DateLabel(action.dateCreation), v.commentaire),
                 false, now, Some(action.id), Some(v.id))
  }

  /** What `create_validation_notification` writes: nothing for an update
      or a self-validation, otherwise one row for the action's author. */
  function ValidationNotifications(v: Validation, action: Action, validator: User, created: bool, id: nat, now: nat)
    : (r: seq<Notification>)
    requires v.action == action.id && v.validateur == validator.id
    ensures |r| <= 1
    ensures r == [] <==> !created || IsSelfValidation(v, action)
    ensures r != [] ==>
              && r[0].id == id && r[0].destinataire == action.auteur && !r[0].lue
              && r[0].kind == NotificationKind(v.statut)
              && r[0].action == Some(action.id) && r[0].validation == Some(v.id)
  {
    if !created || v.validateur == action.auteur then []
    else [ValidationNotification(v, action, validator, id, now)]
  }

  const DESCRIPTION_PREVIEW := 100

  /** The message of a new-action notification: the author, the creation
      date and the description cut to 100 characters plus "...". */
  function NewActionMessage(author: string, when: string, description: string): (r: string)
    ensures Text.Contains(r, author)
    ensures |description| <= DESCRIPTION_PREVIEW ==> Text.EndsWith(r, "\nDescription : " + description)
    ensures |description| > DESCRIPTION_PREVIEW ==>
              Text.EndsWith(r, "\nDescription : " + description[..DESCRIPTION_PREVIEW] + Text.ELLIPSIS)
  {
    var head := "Nouvelle action créée par ";
    var intro := "\nDescription : ";
    var p1 := head + author;
    var p2 := p1 + " le " + when + ".";
    var preview := Text.Preview(description, DESCRIPTION_PREVIEW);
    var r := p2 + (intro + preview);
    Text.OccursAtJoin(head, author);
    Text.OccursAtExtend(p1, " le " + when + ".", author, |head|);
    assert p2 == p1 + (" le " + when + ".");
    Text.OccursAtExtend(p2, intro + preview, author, |head|);
    Text.OccursAtJoin(p2, intro + preview);
    assert |description| > DESCRIPTION_PREVIEW ==>
             intro + preview == intro + description[..DESCRIPTION_PREVIEW] + Text.ELLIPSIS;
    r
  }

  /** `User.objects.filter(role='admin', is_validated=True).exclude(id=author)`. */
  predicate NotifiedOfNewAction(u: User, author: nat) {
    u.role == ADMIN && u.isValidated && u.id != author
  }

  /** The admins to notify of a new action, in table order. */
  function Recipients(users: seq<User>, author: nat): (r: seq<User>)
    ensures forall u :: u in r ==> u in users && NotifiedOfNewAction(u, author)
    ensures |r| <= |users|
  {
    if users == [] then []
    else
      var u := users[|users| - 1];
      Recipients(users[..|users| - 1], author) + (if NotifiedOfNewAction(u, author) then [u] else [])
  }

  /** The recipients are exactly the eligible users. */
  lemma {:induction false} RecipientsAreEligibleUsers(users: seq<User>, author: nat)
    ensures forall u :: u in Recipients(users, author) <==> u in users && NotifiedOfNewAction(u, author)
  {
    if users != [] {
      var front := users[..|users| - 1];
      RecipientsAreEligibleUsers(front, author);
      assert forall u :: u in users ==> u in front || u == users[|users| - 1];
    }
  }

  /** The row written for the k-th recipient of a new action. */
  function NewActionRow(recipient: User, action: Action, message: string, id: nat, now: nat): Notification {
    Notification(id, recipient.id, KIND_NOUVELLE_ACTION, message, false, now, Some(action.id), None)
  }

  /** The rows `create_new_action_notification` writes, one per recipient,
      numbered from `firstId`. */
  function NewActionNotifications(recipients: seq<User>, action: Action, message: string, firstId: nat, now: nat)
    : (r: seq<Notification>)
    ensures |r| == |recipients|
  {
    if recipients == [] then []
    else
      var k := |recipients| - 1;
      NewActionNotifications(recipients[..k], action, message, firstId, now)
        + [NewActionRow(recipients[k], action, message, firstId + k, now)]
  }

  /** The k-th row goes to the k-th recipient and carries key firstId + k. */
  lemma {:induction false} NewActionNotificationAt(recipients: seq<User>, action: Action, message: string,
                                                   firstId: nat, now: nat, k: nat)
    requires k < |recipients|
    ensures NewActionNotifications(recipients, action, message, firstId, now)[k]
            == NewActionRow(recipients[k], action, message, firstId + k, now)
  {
    var last := |recipients| - 1;
    if k < last {
      NewActionNotificationAt(recipients[..last], action, message, firstId, now, k);
    }
  }

  /** How many of `ns` are addressed to user `u`. */
  function AddressedTo(ns: seq<Notification>, u: nat): (r: nat)
    ensures r <= |ns|
  {
    if ns == [] then 0
    else AddressedTo(ns[..|ns| - 1], u) + (if ns[|ns| - 1].destinataire == u then 1 else 0)
  }

  /** How many of `users` carry id `u`. */
  function WithId(users: seq<User>, u: nat): nat {
    if users == [] then 0
    else WithId(users[..|users| - 1], u) + (if users[|users| - 1].id == u then 1 else 0)
  }

  lemma {:induction false} AddressedToRecipients(recipients: seq<User>, action: Action, message: string, firstId: nat, now: nat, u: nat)
    ensures AddressedTo(NewActionNotifications(recipients, action, message, firstId, now), u) == WithId(recipients, u)
  {
    if recipients != [] {
      var front := recipients[..|recipients| - 1];
      var ns := NewActionNotifications(recipients, action, message, firstId, now);
      assert ns[..|ns| - 1] == NewActionNotifications(front, action, message, firstId, now);
      AddressedToRecipients(front, action, message, firstId, now, u);
    }
  }

  /** Recipients gained by one more user. */
  lemma WithIdRecipientsStep(users: seq<User>, author: nat, id: nat)
    requires users != []
    ensures var last := users[|users| - 1];
            WithId(Recipients(users, author), id)
              == WithId(Recipients(users[..|users| - 1], author), id)
                 + (if NotifiedOfNewAction(last, author) && last.id == id then 1 else 0)
  {
    var front := Recipients(users[..|users| - 1], author);
    var last := users[|users| - 1];
    if NotifiedOfNewAction(last, author) {
      assert (front + [last])[..|front|] == front;
    } else {
      assert Recipients(users, author) == front + [] == front;
    }
  }

  lemma {:induction false} RecipientsWithId(users: seq<User>, author: nat, u: User)
    requires UniqueUserIds(users) && u in users
    ensures WithId(Recipients(users, author), u.id) == if NotifiedOfNewAction(u, author) then 1 else 0
  {
    var front := users[..|users| - 1];
    var last := users[|users| - 1];
    WithIdRecipientsStep(users, author, u.id);
    if u == last {
      forall w | w in front ensures w.id != u.id {
        var k :| 0 <= k < |front| && front[k] == w;
        assert users[k] == w;
      }
      NoneWithId(Recipients(front, author), u.id);
    } else {
      var k :| 0 <= k < |users| && users[k] == u;
      assert k < |users| - 1;
      assert front[k] == u;
      RecipientsWithId(front, author, u);
    }
  }

  lemma {:induction false} NoneWithId(users: seq<User>, u: nat)
    requires forall w :: w in users ==> w.id != u
    ensures WithId(users, u) == 0
  {
    if users != [] {
      assert users[|users| - 1] in users;
      NoneWithId(users[..|users| - 1], u);
    }
  }

  /** A new action notifies each validated admin other than its author
      exactly once, and nobody else. */
  lemma OneNotificationPerAdmin(users: seq<User>, action: Action, message: string, firstId: nat, now: nat)
    requires UniqueUserIds(users)
    ensures var ns := NewActionNotifications(Recipients(users, action.auteur), action, message, firstId, now);
            && (forall u :: u in users ==>
                  AddressedTo(ns, u.id) == if NotifiedOfNewAction(u, action.auteur) then 1 else 0)
            && (forall n :: n in ns ==> exists u :: u in users && NotifiedOfNewAction(u, action.auteur) && n.destinataire == u.id)
  {
    var rs := Recipients(users, action.auteur);
    var ns := NewActionNotifications(rs, action, message, firstId, now);
    forall u | u in users
      ensures AddressedTo(ns, u.id) == if NotifiedOfNewAction(u, action.auteur) then 1 else 0
    {
      AddressedToRecipients(rs, action, message, firstId, now, u.id);
      RecipientsWithId(users, action.auteur, u);
    }
    forall n | n in ns
      ensures exists u :: u in users && NotifiedOfNewAction(u, action.auteur) && n.destinataire == u.id
    {
      var k :| 0 <= k < |ns| && ns[k] == n;
      NewActionNotificationAt(rs, action, message, firstId, now, k);
      assert rs[k] in rs;
    }
  }

  /** `notify_user`: writes one unread row for `user` and returns it with
      the count pushed alongside, the user's unread count after the insert. */
  method NotifyUser(db: Database, user: nat, kind: string, message: string,
                    action: Option<nat>, validation: Option<nat>, now: nat)
    returns (n: Notification, count: nat)
    requires NotificationRowsValid(db.notifications, db.nextNotificationId)
    modifies db`notifications, db`nextNotificationId
    ensures NotificationRowsValid(db.notifications, db.nextNotificationId)
    ensures n == Notification(old(db.nextNotificationId), user, kind, message, false, now, action, validation)
    ensures db.notifications == old(db.notifications) + [n]
    ensures db.nextNotificationId == old(db.nextNotificationId) + 1
    ensures count == UnreadCount(db.notifications, user) == UnreadCount(old(db.notifications), user) + 1
  {
    n := Notification(db.nextNotificationId, user, kind, message, false, now, action, validation);
    UnreadAppend(db.notifications, n, user);
    db.notifications := db.notifications + [n];
    db.nextNotificationId := db.nextNotificationId + 1;
    count := UnreadCount(db.notifications, user);
  }

  /** `create_validation_notification`, run after entry `v` of `action`
      by `validator` is saved. `created` is false for an update. Returns
      the unread count pushed to the author, if a row was written. */
  method CreateValidationNotification(db: Database, v: Validation, action: Action, validator: User,
                                      created: bool, now: nat)
    returns (pushed: Option<nat>)
    requires db.Valid()
    requires v.action == action.id && v.validateur == validator.id
    modifies db`notifications, db`nextNotificationId
    ensures db.Valid()
    ensures var ns := ValidationNotifications(v, action, validator, created, old(db.nextNotificationId), now);
            && db.notifications == old(db.notifications) + ns
            && db.nextNotificationId == old(db.nextNotificationId) + |ns|
            && (pushed.Some? <==> ns != [])
    ensures pushed.Some? ==>
              pushed.value == UnreadCount(db.notifications, action.auteur)
                           == UnreadCount(old(db.notifications), action.auteur) + 1
  {
    if !created || v.validateur == action.auteur {
      assert db.notifications + [] == db.notifications;
      return None;
    }
    var n := ValidationNotification(v, action, validator, db.nextNotificationId, now);
    var _, count := NotifyUser(db, action.auteur, n.kind, n.message, n.action, n.validation, now);
    pushed := Some(count);
  }

  /** `counts` are the unread counts pushed with the new-action rows for
      `rs`: each recipient's count after its own row is inserted, which is
      one more than its count before the batch. */
  ghost predicate CountsPushed(counts: seq<nat>, before: seq<Notification>, rs: seq<User>)
  {
    && |counts| == |rs|
    && (rs != [] ==>
          && counts[|rs| - 1] == UnreadCount(before, rs[|rs| - 1].id) + 1
          && CountsPushed(counts[..|rs| - 1], before, rs[..|rs| - 1]))
  }

  lemma CountsPushedAppend(counts: seq<nat>, before: seq<Notification>, rs: seq<User>, u: User, c: nat)
    requires CountsPushed(counts, before, rs)
    requires c == UnreadCount(before, u.id) + 1
    ensures CountsPushed(counts + [c], before, rs + [u])
  {
    assert (counts + [c])[..|rs|] == counts;
    assert (rs + [u])[..|rs|] == rs;
  }

  /** Read position by position: the k-th count belongs to the k-th recipient. */
  lemma {:induction false} CountsPushedAt(counts: seq<nat>, before: seq<Notification>, rs: seq<User>, k: nat)
    requires CountsPushed(counts, before, rs) && k < |rs|
    ensures counts[k] == UnreadCount(before, rs[k].id) + 1
  {
    if k < |rs| - 1 {
      CountsPushedAt(counts[..|rs| - 1], before, rs[..|rs| - 1], k);
    }
  }

  lemma NewActionNotificationsAppend(rs: seq<User>, u: User, action: Action, message: string, firstId: nat, now: nat)
    ensures NewActionNotifications(rs + [u], action, message, firstId, now)
            == NewActionNotifications(rs, action, message, firstId, now)
               + [NewActionRow(u, action, message, firstId + |rs|, now)]
  {
    assert (rs + [u])[..|rs|] == rs;
  }

  /** A recipient distinct from the earlier ones: its pushed count, taken
      after its own row, is its unread count before the batch plus one. */
  lemma UnreadAfterOwnRow(before: seq<Notification>, rs: seq<User>, n: Notification,
                          action: Action, message: string, firstId: nat, now: nat)
    requires forall w :: w in rs ==> w.id != n.destinataire
    requires !n.lue
    ensures var ns := NewActionNotifications(rs, action, message, firstId, now);
            UnreadCount(before + ns + [n], n.destinataire) == UnreadCount(before, n.destinataire) + 1
  {
    var ns := NewActionNotifications(rs, action, message, firstId, now);
    forall m | m in ns ensures m.destinataire != n.destinataire {
      var k :| 0 <= k < |ns| && ns[k] == m;
      NewActionNotificationAt(rs, action, message, firstId, now, k);
      assert rs[k] in rs;
    }
    UnreadUnaffected(before, ns, n.destinataire);
    UnreadAppend(before + ns, n, n.destinataire);
  }

  /** One turn of the loop in `create_new_action_notification` for an
      eligible admin `u`: the table and the pushed counts grow by `u`'s row. */
  lemma NewActionRowStep(before: seq<Notification>, rs: seq<User>, u: User, counts: seq<nat>,
                         action: Action, message: string, firstId: nat, now: nat,
                         prior: seq<Notification>, table: seq<Notification>, count: nat)
    requires forall w :: w in rs ==> w.id != u.id
    requires CountsPushed(counts, before, rs)
    requires prior == before + NewActionNotifications(rs, action, message, firstId, now)
    requires table == prior + [NewActionRow(u, action, message, firstId + |rs|, now)]
    requires count == UnreadCount(table, u.id)
    ensures table == before + NewActionNotifications(rs + [u], action, message, firstId, now)
    ensures CountsPushed(counts + [count], before, rs + [u])
  {
    var n := NewActionRow(u, action, message, firstId + |rs|, now);
    NewActionNotificationsAppend(rs, u, action, message, firstId, now);
    UnreadAfterOwnRow(before, rs, n, action, message, firstId, now);
    CountsPushedAppend(counts, before, rs, u, count);
  }

  /** An eligible user at position i is the next recipient. */
  lemma RecipientsGrow(users: seq<User>, i: nat, author: nat)
    requires i < |users| && NotifiedOfNewAction(users[i], author)
    ensures Recipients(users[..i + 1], author) == Recipients(users[..i], author) + [users[i]]
  {
    assert users[..i + 1][..i] == users[..i];
  }

  /** A user at position i who is not eligible adds no recipient. */
  lemma RecipientsSkip(users: seq<User>, i: nat, author: nat)
    requires i < |users| && !NotifiedOfNewAction(users[i], author)
    ensures Recipients(users[..i + 1], author) == Recipients(users[..i], author)
  {
    assert users[..i + 1][..i] == users[..i];
    assert Recipients(users[..i], author) + [] == Recipients(users[..i], author);
  }

  /** Users before position i have ids other than the i-th user's, so the
      recipients found so far do too. */
  lemma EarlierRecipientsDiffer(users: seq<User>, i: nat, author: nat)
    requires UniqueUserIds(users) && i < |users|
    ensures forall w :: w in Recipients(users[..i], author) ==> w.id != users[i].id
  {
    forall w | w in Recipients(users[..i], author) ensures w.id != users[i].id {
      var k :| 0 <= k < i && users[..i][k] == w;
      assert users[k] == w;
    }
  }

  /** One turn of the loop in `create_new_action_notification`, at the
      i-th user: an eligible admin gets a row from `notify_user`, with the
      count pushed; anyone else is passed over. */
  method NotifyIfEligible(db: Database, users: seq<User>, i: nat, action: Action, message: string, now: nat,
                          ghost before: seq<Notification>, ghost rs: seq<User>, counts: seq<nat>,
                          ghost firstId: nat)
    returns (counts': seq<nat>, ghost rs': seq<User>)
    requires UniqueUserIds(users) && i < |users|
    requires NotificationRowsValid(db.notifications, db.nextNotificationId)
    requires rs == Recipients(users[..i], action.auteur)
    requires db.notifications == before + NewActionNotifications(rs, action, message, firstId, now)
    requires db.nextNotificationId == firstId + |rs|
    requires CountsPushed(counts, before, rs)
    modifies db`notifications, db`nextNotificationId
    ensures NotificationRowsValid(db.notifications, db.nextNotificationId)
    ensures rs' == Recipients(users[..i + 1], action.auteur)
    ensures db.notifications == before + NewActionNotifications(rs', action, message, firstId, now)
    ensures db.nextNotificationId == firstId + |rs'|
    ensures CountsPushed(counts', before, rs')
  {
    var u := users[i];
    if u.role == ADMIN && u.isValidated && u.id != action.auteur {
      RecipientsGrow(users, i, action.auteur);
      EarlierRecipientsDiffer(users, i, action.auteur);
      ghost var prior := db.notifications;
      var n, count := NotifyUser(db, u.id, KIND_NOUVELLE_ACTION, message, Some(action.id), None, now);
      assert n == NewActionRow(u, action, message, firstId + |rs|, now);
      NewActionRowStep(before, rs, u, counts, action, message, firstId, now, prior, db.notifications, count);
      counts', rs' := counts + [count], rs + [u];
    } else {
      RecipientsSkip(users, i, action.auteur);
      counts', rs' := counts, rs;
    }
  }

  /** The loop of `create_new_action_notification`: one row, with its
      pushed count, for each eligible admin in table order. */
  method NotifyAdmins(db: Database, action: Action, message: string, now: nat)
    returns (counts: seq<nat>)
    requires NotificationRowsValid(db.notifications, db.nextNotificationId) && UniqueUserIds(db.users)
    modifies db`notifications, db`nextNotificationId
    ensures NotificationRowsValid(db.notifications, db.nextNotificationId)
    ensures var rs := Recipients(db.users, action.auteur);
            var ns := NewActionNotifications(rs, action, message, old(db.nextNotificationId), now);
            && db.notifications == old(db.notifications) + ns
            && db.nextNotificationId == old(db.nextNotificationId) + |ns|
            && CountsPushed(counts, old(db.notifications), rs)
  {
    counts := [];
    ghost var firstId := db.nextNotificationId;
    ghost var before := db.notifications;
    ghost var rs: seq<User> := [];
    var users := db.users;
    var i := 0;
    while i < |users|
      invariant 0 <= i <= |users| && users == db.users
      invariant NotificationRowsValid(db.notifications, db.nextNotificationId)
      invariant rs == Recipients(users[..i], action.auteur)
      invariant db.notifications == before + NewActionNotifications(rs, action, message, firstId, now)
      invariant db.nextNotificationId == firstId + |rs|
      invariant CountsPushed(counts, before, rs)
    {
      counts, rs := NotifyIfEligible(db, users, i, action, message, now, before, rs, counts, firstId);
      i := i + 1;
    }
    assert users[..i] == users;
  }

  /** `create_new_action_notification`, run after `action` by `author` is
      saved: nothing for an update, otherwise one 'nouvelle_action' row per
      validated admin other than the author, in table order. Returns the
      unread count pushed with each. */
  method CreateNewActionNotification(db: Database, action: Action, author: User, created: bool, now: nat)
    returns (counts: seq<nat>)
    requires db.Valid()
    requires author.id == action.auteur
    modifies db`notifications, db`nextNotificationId
    ensures db.Valid()
    ensures var rs := if created then Recipients(db.users, author.id) else [];
            var message := NewActionMessage(author.username, DateLabel(action.dateCreation), action.fields.description);
            var ns := NewActionNotifications(rs, action, message, old(db.nextNotificationId), now);
            && db.notifications == old(db.notifications) + ns
            && db.nextNotificationId == old(db.nextNotificationId) + |ns|
            && CountsPushed(counts, old(db.notifications), rs)
  {
    var message := NewActionMessage(author.username, DateLabel(action.dateCreation), action.fields.description);
    if !created {
      assert db.notifications + [] == db.notifications;
      return [];
    }
    counts := NotifyAdmins(db, action, message, now);
  }
}
