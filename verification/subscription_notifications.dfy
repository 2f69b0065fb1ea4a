/** Notifications sent when a subscription changes
    (SendNotificationsSubscriptionChangedEventHandler.cs). The notification,
    store, user and member services are lookups passed in as maps or
    functions; the sender is modelled by the list of what it was given. */
module SubscriptionNotifications {
  import opened Wrappers

  datatype Address = Address(email: Option<string>)

  datatype OrderPrototype = OrderPrototype(languageCode: string, addresses: Option<seq<Address>>)

  datatype Subscription = Subscription(
    id: string,
    storeId: string,
    customerId: string,
    isCancelled: bool,
    orderPrototype: OrderPrototype)

  datatype EntryState = Added | Modified | Deleted | Unchanged

  /** `GenericChangedEntry<Subscription>`. */
  datatype ChangedEntry = ChangedEntry(newEntry: Subscription, oldEntry: Option<Subscription>, state: EntryState)

  datatype NotificationType = SubscriptionCanceledEmail | NewSubscriptionEmail

  /** What `GetByTypeAsync(type, storeId, "Store")` returned: a subscription
      e-mail notification, or anything else (null included). */
  type NotificationLookup = (NotificationType, string) -> bool

  datatype Store = Store(email: Option<string>)
  datatype User = User(memberId: string, email: Option<string>)
  datatype Contact = Contact(emails: Option<seq<string>>)

  /** The services' lookups by id: a missing key stands for null. */
  datatype Directory = Directory(stores: map<string, Store>, users: map<string, User>, contacts: map<string, Contact>)

  datatype TenantIdentity = TenantIdentity(id: string, tenantType: string)

  /** A subscription e-mail notification after `SetNotificationParametersAsync`. */
  datatype EmailNotification = EmailNotification(
    kind: NotificationType,
    isActive: bool,
    subscription: Subscription,
    from: Option<string>,
    to: Option<string>,
    tenant: TenantIdentity)

  /** One call of `SendNotificationAsync`. */
  datatype Sent = Sent(notification: EmailNotification, language: string)

  /** `store.Email` on a null store. */
  datatype HandlerError = StoreNotFound(storeId: string)

  /** `IsSubscriptionCanceled`. */
  predicate IsSubscriptionCanceled(entry: ChangedEntry) {
    && entry.oldEntry.Some?
    && entry.oldEntry.value.isCancelled != entry.newEntry.isCancelled
    && entry.newEntry.isCancelled
  }

  /** A change is a cancellation exactly when an earlier state existed that was
      not cancelled and the new state is. */
  lemma CanceledIffTransition(entry: ChangedEntry)
    ensures IsSubscriptionCanceled(entry) <==>
              entry.oldEntry.Some? && !entry.oldEntry.value.isCancelled && entry.newEntry.isCancelled
  {
  }

  /** The notifications `TryToSendNotificationsAsync` collects, in order. */
  function SelectNotifications(entry: ChangedEntry, lookup: NotificationLookup): (r: seq<NotificationType>)
    ensures |r| <= 2
    ensures SubscriptionCanceledEmail in r <==>
              IsSubscriptionCanceled(entry) && lookup(SubscriptionCanceledEmail, entry.newEntry.storeId)
    ensures NewSubscriptionEmail in r <==>
              entry.state == Added && lookup(NewSubscriptionEmail, entry.newEntry.storeId)
    ensures |r| == 2 ==> r == [SubscriptionCanceledEmail, NewSubscriptionEmail]
  {
    var storeId := entry.newEntry.storeId;
    var canceled := if IsSubscriptionCanceled(entry) && lookup(SubscriptionCanceledEmail, storeId)
                    then [SubscriptionCanceledEmail] else [];
    var added := if entry.state == Added && lookup(NewSubscriptionEmail, storeId)
                 then [NewSubscriptionEmail] else [];
    canceled + added
  }

  /** A change with no earlier state is never announced as a cancellation. */
  lemma NoOldEntryNoCancellation(entry: ChangedEntry, lookup: NotificationLookup)
    requires entry.oldEntry.None?
    ensures SubscriptionCanceledEmail !in SelectNotifications(entry, lookup)
  {
  }

  /** `GetSubscriptionOrderEmailAsync`: the first address's e-mail, which may
      itself be null; null when there are no addresses. */
  function OrderEmail(s: Subscription): (r: Option<string>)
    ensures s.orderPrototype.addresses.None? ==> r.None?
    ensures s.orderPrototype.addresses.Some? && |s.orderPrototype.addresses.value| == 0 ==> r.None?
    ensures s.orderPrototype.addresses.Some? && |s.orderPrototype.addresses.value| > 0 ==>
              r == s.orderPrototype.addresses.value[0].email
  {
    match s.orderPrototype.addresses
    case None => None
    case Some(addresses) => if |addresses| == 0 then None else addresses[0].email
  }

  /** The contact has a non-empty e-mail list. */
  predicate HasFirstEmail(c: Contact) {
    c.emails.Some? && |c.emails.value| > 0
  }

  /** `GetCustomerEmailAsync`: the contact is looked up by the customer id and,
      failing that, by the member id of the user with that id; its first
      e-mail wins, then the user's own e-mail. */
  function CustomerEmail(customerId: string, dir: Directory): (r: Option<string>)
    // the contact found by the customer id, or else by the user's member id, supplies its first e-mail
    ensures r.Some? ==>
              (exists c :: c in dir.contacts.Values && c.emails.Some? && |c.emails.value| > 0 && r.value == c.emails.value[0])
              || (customerId in dir.users && dir.users[customerId].email == r)
    ensures customerId in dir.contacts && dir.contacts[customerId].emails.Some?
            && |dir.contacts[customerId].emails.value| > 0 ==>
              r == Some(dir.contacts[customerId].emails.value[0])
    ensures customerId !in dir.users && customerId !in dir.contacts ==> r.None?
    ensures (customerId !in dir.contacts && customerId in dir.users
             && dir.users[customerId].memberId !in dir.contacts) ==> r == dir.users[customerId].email
    ensures (customerId !in dir.contacts && customerId in dir.users
             && dir.users[customerId].memberId in dir.contacts
             && HasFirstEmail(dir.contacts[dir.users[customerId].memberId])) ==>
              r == Some(dir.contacts[dir.users[customerId].memberId].emails.value[0])
    ensures (customerId in dir.contacts && !HasFirstEmail(dir.contacts[customerId])) ==>
              r == (if customerId in dir.users then dir.users[customerId].email else None)
    ensures (customerId !in dir.contacts && customerId in dir.users
             && dir.users[customerId].memberId in dir.contacts
             && !HasFirstEmail(dir.contacts[dir.users[customerId].memberId])) ==>
              r == dir.users[customerId].email
  {
    var user := if customerId in dir.users then Some(dir.users[customerId]) else None;
    var contact :=
      if customerId in dir.contacts then Some(dir.contacts[customerId])
      else if user.Some? && user.value.memberId in dir.contacts then Some(dir.contacts[user.value.memberId])
      else None;
    var contactEmail :=
      if contact.Some? && contact.value.emails.Some? && |contact.value.emails.value| > 0
      then Some(contact.value.emails.value[0]) else None;
    var userEmail := if user.Some? then user.value.email else None;
    Coalesce(contactEmail, userEmail)
  }

  /** `GetSubscriptionRecipientEmailAsync`: the order e-mail when non-null,
      otherwise the customer's. */
  function RecipientEmail(s: Subscription, dir: Directory): (r: Option<string>)
    ensures OrderEmail(s).Some? ==> r == OrderEmail(s)
    ensures OrderEmail(s).None? ==> r == CustomerEmail(s.customerId, dir)
  {
    Coalesce(OrderEmail(s), CustomerEmail(s.customerId, dir))
  }

  /** `SetNotificationParametersAsync`; reading the e-mail of a missing store throws. */
  function SetNotificationParameters(kind: NotificationType, s: Subscription, dir: Directory): (r: Result<EmailNotification, HandlerError>)
    ensures s.storeId !in dir.stores <==> r.Failure?
    ensures r.Success? ==>
              && r.value.kind == kind
              && r.value.isActive
              && r.value.subscription == s
              && r.value.from == dir.stores[s.storeId].email
              && r.value.to == RecipientEmail(s, dir)
              && r.value.tenant == TenantIdentity(s.id, "Subscription")
  {
    if s.storeId !in dir.stores then Failure(StoreNotFound(s.storeId))
    else
      Success(EmailNotification(kind, true, s, dir.stores[s.storeId].email, RecipientEmail(s, dir),
                                TenantIdentity(s.id, "Subscription")))
  }

  /** Sets the parameters of each selected notification and sends it in the
      order's language. */
  function SendAll(kinds: seq<NotificationType>, s: Subscription, dir: Directory): (r: Result<seq<Sent>, HandlerError>)
    ensures r.Success? ==> |r.value| == |kinds|
    ensures r.Success? ==> forall i :: 0 <= i < |kinds| ==>
              && r.value[i].notification.kind == kinds[i]
              && r.value[i].language == s.orderPrototype.languageCode
              && SetNotificationParameters(kinds[i], s, dir) == Success(r.value[i].notification)
    ensures |kinds| == 0 ==> r == Success([])
    ensures |kinds| > 0 ==> (r.Failure? <==> s.storeId !in dir.stores)
    decreases |kinds|
  {
    if |kinds| == 0 then Success([])
    else
      match SetNotificationParameters(kinds[0], s, dir)
      case Failure(e) => Failure(e)
      case Success(n) =>
        match SendAll(kinds[1..], s, dir)
        case Failure(e) => Failure(e)
        case Success(rest) => Success([Sent(n, s.orderPrototype.languageCode)] + rest)
  }

  /** `TryToSendNotificationsAsync`: what is sent for one changed entry. */
  function TryToSendNotifications(entry: ChangedEntry, lookup: NotificationLookup, dir: Directory): (r: Result<seq<Sent>, HandlerError>)
    ensures r.Success? ==> |r.value| == |SelectNotifications(entry, lookup)|
    ensures r.Success? != (|SelectNotifications(entry, lookup)| > 0 && entry.newEntry.storeId !in dir.stores)
    ensures r.Success? && entry.newEntry.storeId in dir.stores ==> forall i :: 0 <= i < |r.value| ==>
              && r.value[i].notification.isActive
              && r.value[i].notification.from == dir.stores[entry.newEntry.storeId].email
              && r.value[i].notification.to == RecipientEmail(entry.newEntry, dir)
              && r.value[i].notification.tenant == TenantIdentity(entry.newEntry.id, "Subscription")
    ensures r.Success? && |r.value| == 2 ==>
              r.value[0].notification.kind == SubscriptionCanceledEmail
              && r.value[1].notification.kind == NewSubscriptionEmail
    ensures SelectNotifications(entry, lookup) == [] ==> r == Success([])
  {
    var kinds := SelectNotifications(entry, lookup);
    SendAll(kinds, entry.newEntry, dir)
  }

  /** The `foreach` of `Handle` over any per-entry step: entries are
      processed in order, the first failure stops the rest, and what was
      sent before it stays sent. */
  function HandleEach(entries: seq<ChangedEntry>, step: ChangedEntry -> Result<seq<Sent>, HandlerError>): (r: (seq<Sent>, Option<HandlerError>))
    ensures r.1.None? ==> forall i :: 0 <= i < |entries| ==> step(entries[i]).Success?
    ensures r.1.Some? ==> exists i :: 0 <= i < |entries| && step(entries[i]) == Failure(r.1.value)
    decreases |entries|
  {
    if |entries| == 0 then ([], None)
    else
      match step(entries[0])
      case Failure(e) => ([], Some(e))
      case Success(sent) =>
        var rest := HandleEach(entries[1..], step);
        assert forall i :: 1 <= i < |entries| ==> entries[i] == entries[1..][i - 1];
        (sent + rest.0, rest.1)
  }

  /** Handling a batch is handling its first part and then, when that part
      went through, the rest: what is sent is the concatenation. */
  lemma {:induction false} HandleEachSplits(a: seq<ChangedEntry>, b: seq<ChangedEntry>, step: ChangedEntry -> Result<seq<Sent>, HandlerError>)
    requires HandleEach(a, step).1.None?
    ensures HandleEach(a + b, step) == (HandleEach(a, step).0 + HandleEach(b, step).0, HandleEach(b, step).1)
    decreases |a|
  {
    if |a| == 0 {
      assert a + b == b;
      assert HandleEach(a, step).0 == [];
      assert [] + HandleEach(b, step).0 == HandleEach(b, step).0;
    } else {
      assert (a + b)[0] == a[0];
      assert (a + b)[1..] == a[1..] + b;
      var sent := step(a[0]).value;
      HandleEachSplits(a[1..], b, step);
      var head, tail := HandleEach(a[1..], step).0, HandleEach(b, step).0;
      assert sent + (head + tail) == (sent + head) + tail;
    }
  }

  /** The loop stops at the first failing entry: what the entries before it
      sent stays sent, its error is the one reported, and the entries after it
      are not handled. */
  lemma HandleEachStopsAtFirstFailure(a: seq<ChangedEntry>, e: ChangedEntry, b: seq<ChangedEntry>,
                            step: ChangedEntry -> Result<seq<Sent>, HandlerError>)
    requires HandleEach(a, step).1.None?
    requires step(e).Failure?
    ensures HandleEach(a + [e] + b, step) == (HandleEach(a, step).0, Some(step(e).error))
  {
    HandleEachSplits(a, [e] + b, step);
    assert a + [e] + b == a + ([e] + b);
    assert ([e] + b)[0] == e;
    assert HandleEach([e] + b, step) == ([], Some(step(e).error));
    assert HandleEach(a, step).0 + [] == HandleEach(a, step).0;
  }

  /** `Handle`. */
  function Handle(entries: seq<ChangedEntry>, lookup: NotificationLookup, dir: Directory): (r: (seq<Sent>, Option<HandlerError>))
    ensures r.1.None? ==> forall i :: 0 <= i < |entries| ==> TryToSendNotifications(entries[i], lookup, dir).Success?
    ensures r.1.Some? ==> exists i :: 0 <= i < |entries| && TryToSendNotifications(entries[i], lookup, dir) == Failure(r.1.value)
  {
    HandleEach(entries, e => TryToSendNotifications(e, lookup, dir))
  }

  /** The handler's batches split as `HandleEachSplits` says. */
  lemma HandleSplits(a: seq<ChangedEntry>, b: seq<ChangedEntry>, lookup: NotificationLookup, dir: Directory)
    requires Handle(a, lookup, dir).1.None?
    ensures Handle(a + b, lookup, dir) == (Handle(a, lookup, dir).0 + Handle(b, lookup, dir).0, Handle(b, lookup, dir).1)
  {
    HandleEachSplits(a, b, e => TryToSendNotifications(e, lookup, dir));
  }
}
