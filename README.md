# Pv_App core: validation ledger, notifications and 24-hour services

Pv_App is a Django application where agents open a 24-hour *service*, record
*actions* during it, and administrators validate, refuse or comment on those
actions. Every decision is a *validation* row appended to the action's
ledger. The action's status (`en_attente`, `validé`, `refusé`) is the statut
of its latest ledger entry. Creating an action or a validation sends
*notifications*, which users can mark as read or delete. A middleware keeps
accounts that have not been validated out of the site. A management command
closes the services whose 24 hours are over.

This project models that core in Dafny and proves what it promises.

- `Models` (models.dfy): the rows, and the logic `core/models.py` computes from them.
  - The ledger, the latest entry, the derived status, the history in date order and editability.
  - `Validation.clean`, `Service.save` and `Service.clean`.
  - The service timer predicates and the notification icon.
  - The unread count.
- `Orm` (orm.dfy): the database as a class `Database`.
  - It holds one sequence per table plus the next primary key of each table.
  - Its invariant `Valid` covers increasing keys, actions that point at stored services, a closing time on every service row, and at most one open service per user.
- `Signals` (signals.dfy): the two `post_save` handlers and `notify_user`.
  - Message and type derivation are functions.
  - The inserts are methods over the database.
- `Views` (views.dfy): the workflow views as methods on the database, each with the guard it checks.
  - Validate, reject, comment, open and close service, create and edit action.
  - The counting loop of `action_list`.
  - The notification views.
  - Each view's outcome is a pure function of the request and the old state, and the method's contract ties its state change to that outcome.
- `Admin` (admin.dfy): the `validate_actions` bulk action, the previews, the read-only field lists, the delete permission and the status badge.
- `Middleware` (middleware.dfy): the redirect decision of `ValidatedUserMiddleware`.
- `Commands` (commands.dfy): `close_expired_services`.
- `Text` (text.dfy): Python's `str.strip`, prefixes and suffixes, and the truncated previews.
- `Wrappers` (wrappers.dfy): `Option`.

Design choices:

- **Time and dates.** Time is a natural number of seconds, and `timedelta(hours=24)` is 86400. A nullable datetime column is an `Option<nat>`.
- **Choice fields.** Statuses, roles and notification types are the strings the database stores. This keeps the source's "any other value" branches meaningful.
- **Ledger tie-break.** The ledger of an action is its validation rows in insertion order. `latest_validation` orders only by `date_validation`, so for entries with equal dates the model takes the one appended last.
- **Storage order.** `Service`, `Action`, `Validation` and `Notification` set `Meta.ordering` newest first (by opening date, creation date, validation date and date), so `.first()` and queryset iteration over them run newest first. `User` sets no ordering, so its querysets come in the database's default order. The model keeps every table in insertion order instead.
  - `.first()` on open services is unaffected: at most one service per user is open, so it has a single candidate.
  - `Signals.NotifyAdmins` and `Signals.CreateNewActionNotification` do fix an order: the new notification rows follow the users table in insertion order, while the source follows whatever order the database returns for the admins queryset. Only the order of the rows and their keys depend on it. Which admins are notified, one row each (`Signals.OneNotificationPerAdmin`), and every admin's unread count do not.
  - No other contract speaks of row order.

## Model

| member | source | states |
|---|---|---|
| Models.Service.Save | core/models.py:77-84 | on creation with no closing time the closing time becomes now + 86400; later saves and preset closing times leave the row as it was; the other columns never change |
| Models.Service.Closed | core/models.py:115-120 | `close_service` sets the statut to 'fermé', and the save that follows changes nothing else |
| Models.Service.RemainingTime | core/models.py:122-131 | None exactly for a closed service (whose closing time may be unset); otherwise exactly the seconds left while positive, and zero once the closing time is past |
| Models.Service.IsActive | core/models.py:103-107 | callable on any service that is not open, whatever its closing time; an active service is open, has a closing time, and has exactly the seconds up to it remaining (`get_remaining_time`) |
| Models.Service.IsExpired | core/models.py:109-113 | an expired service is not active, and an open expired service has zero time remaining |
| Models.ActiveIffTimeRemains | core/models.py:103-131 | for a service with a known statut, `is_active` holds iff the remaining time is present and positive |
| Models.ActiveVersusExpired | core/models.py:103-113 | an active service is not expired; an open service that is not active has reached its closing time; at the closing instant an open service is neither active nor expired |
| Models.OtherOpen | core/models.py:86-101 | the queryset `Service.clean` inspects: exactly the user's open services, excluding the row itself when it has a key |
| Models.CleanService | core/models.py:86-101 | `Service.clean` fails iff the service is open and the same user has another open service (self excluded), and then it fails with the "already has an active service" message |
| Models.FindAction | core/views.py:168-173 | `get_object_or_404(Action, id=...)`: a hit is a stored action with that id; a miss means no stored action has that id |
| Models.FindService | core/views.py:817 | the service an action points to: a hit is a stored service with that id; a miss means none has it |
| Models.LedgerMembers | core/models.py:248-252 | the ledger of an action holds exactly the validations whose action is that action |
| Models.LatestIndexIsLatest | core/models.py:242-246 | the chosen latest entry is dated no earlier than any entry, and every entry appended after it is strictly earlier (ties go to the last appended) |
| Models.Latest | core/models.py:242-246 | the latest entry is one of the ledger's entries |
| Models.LatestIsLastOfLatestDate | core/models.py:242-246 | the latest entry is an entry of the ledger, dated no earlier than any other, and every entry appended after it is strictly earlier (ties go to the last appended) |
| Models.LatestValidation | core/models.py:242-246 | `latest_validation`; proved in LatestValidationFacts: None iff the action has no entries, otherwise one of its entries dated no earlier than all the others |
| Models.LatestValidationFacts | core/models.py:242-246 | `latest_validation` is None iff the action has no entries; otherwise it is one of the action's entries and no entry of the action is dated later |
| Models.ValidationStatus | core/models.py:230-240 | `validation_status`; proved in StatusIsLatestEntry: 'en_attente' without entries, otherwise the statut of a latest-dated entry |
| Models.StatusIsLatestEntry | core/models.py:230-240 | the status is 'en_attente' when the action has no entries; otherwise it is the statut of one of its entries dated no earlier than all the others |
| Models.InsertByDate | core/models.py:248-252 | inserting an entry into a date-sorted history adds exactly that entry (multiset) and puts it last when it is the latest |
| Models.InsertByDateSorted | core/models.py:248-252 | inserting into a sorted history keeps it sorted by date |
| Models.History | core/models.py:248-252 | the history is a permutation of the ledger, sorted by ascending date |
| Models.GetValidationHistory | core/models.py:248-252 | `get_validation_history` holds exactly the action's entries, each as often as in the ledger (same multiset), in ascending date order |
| Models.HistoryEndsWithLatest | core/models.py:242-252 | the last element of the history is the latest entry |
| Models.HistoryLastIsLatestValidation | core/models.py:242-252 | a non-empty history ends with `latest_validation` |
| Models.SortedHistoryIsLedger | core/models.py:248-252 | a ledger already in date order is its own history |
| Models.SortedLatestIsLast | core/models.py:242-246 | in a ledger in date order the latest entry is the last appended |
| Models.LedgerAppend | core/models.py:248-252 | appending a validation extends exactly its own action's ledger |
| Models.LedgerUnaffected | core/models.py:248-252 | appending validations of other actions leaves a ledger unchanged |
| Models.StatusUnaffected | core/models.py:230-240 | appending validations of other actions leaves an action's status unchanged |
| Models.AppendedEntryDecidesStatus | core/models.py:230-246 | an entry dated no earlier than the action's existing entries decides its status |
| Models.AppendingCurrentStatusKeepsIt | core/models.py:230-246 | appending an entry carrying the current status, at any date, keeps that status |
| Models.CanBeEdited | core/models.py:254-260 | an editable action is not 'validé'; the converse for statuses from the choices is EditableIffNotValidated |
| Models.EditableIffNotValidated | core/models.py:254-260 | with statuses from the choices, `can_be_edited` holds iff the status is not 'validé', in particular for an action with no entries |
| Models.CleanValidation | core/models.py:317-331 | `Validation.clean` passes iff (the statut is not 'refusé' or there is a non-empty comment) and the validator has role 'admin', with the source's message for each failure |
| Models.CanValidate | core/models.py:333-338 | only a user whose role is 'admin' may validate; `Views.ValidateOutcome` (the guard of `Views.ValidateAction`) answers Forbidden to anyone else, and `Models.CleanValidation` rejects a validation whose validator is not an admin |
| Models.IsSelfValidation | core/models.py:310-315 | `is_self_validation`: the validator wrote the action; Signals.ValidationNotifications proves such an entry notifies no one |
| Models.GetIcon | core/models.py:402-412 | the icon of each of the four notification types, and the pin for any other value |
| Models.UnreadCount | core/views.py:680-688 | the unread count of a user never exceeds the number of notifications |
| Models.UnreadZeroIffNoneUnread | core/views.py:680-688 | the unread count is zero iff no notification of that user is unread |
| Models.UnreadAppend | core/signals.py:69 | inserting a notification raises its recipient's unread count by one when it is unread, and no one else's |
| Models.UnreadUnaffected | core/signals.py:112 | notifications to other users leave a user's unread count unchanged |
| Orm.Database.constructor | core/models.py:37-101 | an empty database over a set of accounts with distinct ids satisfies the invariant |
| Orm.ClosingTheOpenOne | core/models.py:115-120 | with at most one open service per user, closing the open one leaves the user with none |
| Orm.OneOpenAppend | core/models.py:86-101 | adding a service that `clean` accepts keeps at most one open service per user |
| Orm.NewServiceKeepsRows | core/models.py:77-101 | a new service with the next key, a closing time and no clash keeps the service table valid |
| Orm.ClosingKeepsServiceRows | core/models.py:115-120 | closing services keeps the service table valid |
| Signals.NotificationKind | core/signals.py:44-57 | 'validé' gives type 'validation', 'refusé' gives 'refus', anything else gives 'commentaire' |
| Signals.ValidationMessage | core/signals.py:44-57 | the message text; proved in ValidationMessageShape and ValidationMessageIgnoresComment: it names the validator and the date, ends with the comment block for a commented refusal or comment, and a validation message never depends on the comment |
| Signals.ValidationMessageShape | core/signals.py:44-57 | the message names the validator and the action date; a refusal or comment with a non-empty comment ends with the comment block; every other message ends with a full stop |
| Signals.ValidationMessageIgnoresComment | core/signals.py:45-47 | a validation message never depends on the comment |
| Signals.ValidationNotifications | core/signals.py:30-66 | a validation yields at most one notification, none iff the save is an update or a self-validation; when there is one it goes to the author, is unread, has the derived type and links both the action and the validation |
| Signals.NewActionMessage | core/signals.py:97-103 | the message names the author and ends with the description, or with its first 100 characters and "..." when it is longer |
| Signals.Recipients | core/signals.py:88-94 | every recipient is a stored user with role admin and `is_validated` who is not the author, and there are no more recipients than users |
| Signals.RecipientsAreEligibleUsers | core/signals.py:88-94 | the recipients are exactly the users with role admin and `is_validated`, other than the author |
| Signals.NewActionNotificationAt | core/signals.py:96-110 | the k-th new-action notification is a 'nouvelle_action' row for the k-th recipient with the k-th fresh key |
| Signals.OneNotificationPerAdmin | core/signals.py:88-110 | with distinct user ids, each eligible admin receives exactly one new-action notification, every other user none, and every row goes to an eligible admin |
| Signals.NotifyUser | core/signals.py:126-157 | inserts one unread notification with the next key and returns the recipient's unread count, which is one more than before |
| Signals.CreateValidationNotification | core/signals.py:30-81 | inserts exactly the notifications `ValidationNotifications` gives, and pushes a count iff one was inserted; the pushed count is the author's unread count after the insert |
| Signals.NotifyAdmins | core/signals.py:88-124 | the loop over the users inserts exactly the new-action rows, in order, and each pushed count is that admin's unread count before plus one |
| Signals.CreateNewActionNotification | core/signals.py:83-124 | on creation one row per eligible admin with the source's message; on update nothing |
| Views.ValidateOutcome | core/views.py:158-197 | forbidden for a non-admin; not found for a missing action; refused when already 'validé'; otherwise done, with the self-validation warning iff the requester is the author |
| Views.ValidateAction | core/views.py:158-197 | appends nothing unless done; when done, appends exactly one 'validé' entry by the requester (also on self-validation) and its notification; with no later-dated entry the action is then 'validé' |
| Views.CommentOutcome | core/views.py:200-282 | forbidden for a non-admin; not found; the form on GET; "comment missing" when the comment is blank after `strip()`; otherwise done |
| Views.RejectAction | core/views.py:200-242 | appends nothing unless done; when done, one 'refusé' entry carrying the stripped comment, which `Validation.clean` accepts, and its notification |
| Views.CommentAction | core/views.py:245-282 | appends nothing unless done; when done, one entry whose statut is the action's current status; in every case the status is unchanged afterwards |
| Views.CommentOnValidatedAction | core/signals.py:44-47 | a comment on a validated action notifies as a validation, and its message omits the comment |
| Views.PendingValidations | core/views.py:285-304 | nothing for a non-admin; otherwise every action whose status is 'en_attente', each as often as in the table and nothing else, so `total_count` is the number of pending actions |
| Views.PendingActionsMultiset | core/views.py:296-297 | the list comprehension keeps each pending action as often as the table holds it and drops every other action |
| Views.PendingActionsCount | core/views.py:297-302 | `len(pending_actions)` is the number of actions whose status is 'en_attente' |
| Views.PendingIsEditable | core/views.py:298 | a pending action can be edited |
| Views.OpenService | core/views.py:102-134 | refuses iff the user already has an open service, changing nothing; otherwise appends one open service closing 24 hours later; afterwards the user has an open service |
| Views.CloseService | core/views.py:137-155 | refuses iff the user has no open service; otherwise closes that one row; afterwards the user has no open service |
| Views.ActionCreate | core/views.py:696-742 | no active service iff none is open and unexpired; creates iff there is one and the form is posted and valid, then appends the action on that service and one notification per eligible admin; otherwise changes nothing |
| Views.EditOutcome | core/views.py:796-851 | not found; not the author; service closed or past its closing time; already 'validé'; done iff all guards pass and the form is posted and valid |
| Views.EditedActionWasEditable | core/views.py:825 | an edit that goes through is on an action that `can_be_edited` allows |
| Views.ActionEdit | core/views.py:796-851 | updates only the edited action's fields and modification date, and only when the outcome is done |
| Views.CountsPartition | core/views.py:770-782 | the validated, refused and other counts add up to the number of actions |
| Views.OthersArePending | core/views.py:775-782 | with statuses from the choices, the "other" count is the 'en_attente' count |
| Views.OwnActions | core/views.py:755 | the user's own actions and no others |
| Views.OwnActionsMultiset | core/views.py:755-756 | `filter(auteur=user)` keeps each of the user's actions as often as the table holds it and drops every other action, so `ActionList`'s total is the number of the user's actions |
| Views.ActionList | core/views.py:745-793 | the counting loop returns the totals of the user's actions by status, and the three counts sum to the total |
| Views.MarkNotificationRead | core/views.py:633-649 | found iff the requester owns a notification with that id; then only that row becomes read, and whether it links an action is reported; other users' rows never change |
| Views.MarkAllRead | core/views.py:658 | the table after the bulk update keeps its length; its rows and counts are stated by MarkAllReadRows and MarkAllReadCounts |
| Views.MarkAllReadCounts | core/views.py:652-662 | afterwards the requester has no unread notification and every other user's unread count is unchanged |
| Views.MarkAllReadRows | core/views.py:658 | exactly the requester's unread rows change, each only becoming read |
| Views.MarkAllNotificationsRead | core/views.py:652-662 | the update count is the requester's unread count before; the table becomes the marked one; no unread row of the requester remains |
| Views.DeleteNotification | core/views.py:665-677 | found iff the requester owns a notification with that id; then exactly that row is removed; no row is added and other users' rows stay |
| Admin.BulkEntriesShape | core/admin.py:134-150 | every entry of the bulk action is a 'validé' entry by the requester, dated now, for a selected action not yet validated |
| Admin.BulkAppendsForUnvalidated | core/admin.py:135-150 | a selected action receives an entry iff it was not already 'validé' |
| Admin.BulkEntriesDistinct | core/admin.py:134-150 | with distinct selected rows, no action receives two entries |
| Admin.BulkWarnings | core/admin.py:137-142 | every warning names a selected action authored by the requester that did receive an entry |
| Admin.BulkWarnsEverySelfValidation | core/admin.py:135-142 | every selected action that was not already 'validé' and that the requester wrote is named by a warning |
| Admin.BulkWarningsDistinct | core/admin.py:135-142 | with distinct selected rows no action is named by two warnings, so with BulkWarnings each self-validated action is warned about exactly once |
| Admin.BulkNotes | core/admin.py:144-148 | the bulk entries notify once per entry not authored by the requester, always another user, unread, of type 'validation' |
| Admin.BulkValidate | core/admin.py:126-157 | no more entries than selected actions, and no more warnings than entries |
| Admin.BulkValidatesLedgerSelection | core/admin.py:126-157 | with no entry dated later than now, every selected action is 'validé' after the bulk action |
| Admin.SelfValidationWarning | core/admin.py:140 | the warning ends with "#" and the action id |
| Admin.ValidateActions | core/admin.py:126-157 | the loop appends exactly the bulk entries and their notifications; the reported count is the number of entries appended and the warnings are the bulk warnings |
| Admin.DescriptionPreview | core/admin.py:199-205 | the description unchanged when at most 50 characters, else its first 50 characters and "..." |
| Admin.MessagePreview | core/admin.py:332-338 | the message unchanged when at most 80 characters, else its first 80 characters and "..." |
| Admin.ServiceReadonlyFields | core/admin.py:97-103 | a closed service has exactly four read-only fields: user, opening date, closing date and statut; any other service, or the add form, has the opening date alone |
| Admin.ServiceDeletePermission | core/admin.py:105-111 | deletion is allowed iff the inherited permission allows it and the service is not closed |
| Admin.ActionReadonlyFields | core/admin.py:233-240 | a validated action has every editable field read-only; otherwise exactly the two date fields |
| Admin.ValidationBadge | core/admin.py:208-231 | the three statuses map to their fixed colours and labels; grey iff the status is unknown, and then the label is the raw value |
| Admin.LedgerBadgeIsKnown | core/admin.py:212-224 | a status from the choices never gets the grey badge, and different statuses get different badges |
| Middleware.PublicUrls | core/middleware.py:14-20 | the public list is the login, register and logout routes plus the admin and static prefixes |
| Middleware.IsPublicIff | core/middleware.py:26 | a path is public iff some public URL is a prefix of it |
| Middleware.Decide | core/middleware.py:22-34 | the middleware's decision for one request; its contract is stated by `Middleware.DecideRedirectsIff` |
| Middleware.DecideRedirectsIff | core/middleware.py:22-34 | a redirect to login happens iff the user is authenticated, not validated, not staff and the path is not public; anonymous, validated and staff users always pass |
| Middleware.PublicPathsPass | core/middleware.py:26-33 | a path under a public URL passes for every user |
| Middleware.PublicPagesReachable | core/middleware.py:14-34 | login, register, logout, the admin site and the static files are always reachable |
| Commands.ExpiredCount | core/management/commands/close_expired_services.py:14-19 | the number of open services whose closing time is strictly before now, never more than the rows in the table; its zero case is `Commands.ExpiredCountZeroIffNone` |
| Commands.ExpiredCountZeroIffNone | core/management/commands/close_expired_services.py:14-25 | the count is zero iff no service is open with a closing time strictly before now |
| Commands.CloseExpired | core/management/commands/close_expired_services.py:28-29 | the loop's effect on the services table: one row out per row in; `Commands.CloseExpiredCloses` states what each row becomes |
| Commands.CloseExpiredCloses | core/management/commands/close_expired_services.py:28-29 | selected services become 'fermé' with every other column kept; unselected ones are unchanged; none is selected afterwards |
| Commands.CloseExpiredIdempotent | core/management/commands/close_expired_services.py:14-29 | a second run at the same instant changes nothing and counts zero |
| Commands.NothingExpiredNothingChanges | core/management/commands/close_expired_services.py:21-25 | the early return leaves the table exactly as the loop would |
| Commands.CloseExpiredServices | core/management/commands/close_expired_services.py:9-41 | the reported count is the number of selected services, and the table becomes the one with exactly those closed |
| Text.Strip | core/views.py:219 | `strip()` removes leading and trailing whitespace only: the result is a slice of the input, with whitespace around it and none at its ends |
| Text.StripEmptyIffBlank | core/views.py:219-221 | the stripped comment is empty iff the raw comment is all whitespace |
| Text.StripIdempotent | core/views.py:264 | stripping twice equals stripping once |
| Text.Preview | core/signals.py:97-101 | a text at most n long is unchanged; a longer one gives its first n characters and "..." |

## Left out

- `send_websocket_notification` (core/signals.py:8-28) and core/consumers.py are asynchronous transport through the channel layer. The model keeps only the counts they would push.
- `register`, `login_view`, `logout_view`, `dashboard` and `home` are authentication, form widgets and page rendering.
- `validation_history` is a rendering view.
- The listing views `global_actions_view`, `global_services_view`, `global_validations_view`, `user_profile_view`, `notifications_list` and `user_search_api` are filtering, pagination and float percentages over querysets.
- `get_unread_count` only wraps the unread count in JSON. The count itself is `Models.UnreadCount`.
- `Service.get_remaining_time_display` and `Notification.get_url` build display text and URLs.
- The admin actions `reject_actions`, `mark_as_read`, `mark_as_unread`, `validate_users` and `assign_role_*`, and the remaining `has_*_permission` hooks, are outside the modelled core.
- Flash messages, redirects, template context and the command's stdout are not modelled. Each view returns an outcome value instead.
- Dates inside messages are rendered as the decimal number of seconds (`Text.Decimal`) rather than with `strftime`.
- `Text.IsSpace` lists the characters Python's `str.isspace` accepts by their code points. Unicode databases of other Python versions are not modelled.
- The public URLs come from `reverse`, so they are parameters of `Middleware.PublicUrls`.
- Form validation is a boolean parameter of `Views.ActionCreate` and `Views.ActionEdit`.
- Concurrency is not modelled. The command counts and then iterates in two queries, and views run in parallel.
- A NULL closing time on a stored service is not modelled. The column is nullable and the admin form leaves it editable on an open service, so such a row can exist. `Orm.Database.Valid` requires a closing time on every service row, so the TypeError that `is_expired` (core/models.py:113) and `action_edit` (core/views.py:817) raise on such a row is outside the model.
- Admin.ValidateActions: decides whether each selected action is already validated from the ledger as it was before the bulk action. This matches the loop whenever the selected rows are distinct, which an admin queryset guarantees, so the method requires distinct ids.
- Views.ValidateAction: states that the action ends 'validé' only when no existing entry is dated after now. Otherwise an entry dated later than the new one would still decide the status.
- Admin.BulkValidatesLedgerSelection: makes the same assumption about entry dates as Views.ValidateAction.
