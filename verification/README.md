# VirtoCommerce platform core, modelled in Dafny

This project models the decision logic of several parts of the VirtoCommerce
platform (vc-platform-core) and proves properties of that logic. Each Dafny
module below follows one source file, except `StableSort` and `Wrappers`,
which hold what the others share.

- `ModuleCatalog` (module_catalog.dfy) covers the external module catalog.
  - On load, it merges the records of the remote manifest feed with the
    modules already installed locally.
  - A remote record not yet in the catalog is adopted: it takes `IsInstalled`
    and `Errors` from the first equal installed record, and it is marked
    OnDemand.
  - An installed record whose identity the catalog does not yet hold is then
    appended unchanged.
  - After the load, the catalog refuses to hold two equal records.
  - Module identity is the pair (id, version).
- `DependencySelection` (dependency_selection.dfy) picks one version per
  dependency id among the candidate records gathered for a root module. The
  rule, in order:
  - the highest compatible installed version;
  - else the highest compatible version;
  - else nothing.
- `StableSort` (stable_sort.dfy) is the stable sort by an integer key. Two
  places use it:
  - the push-notification registry (JavaScript's `Array.prototype.sort` is
    stable);
  - the priority order of dynamic-content publishings.
- `PushNotifications` (push_notifications.dfy) is the web client's
  push-notification template registry (`register`, `resolve`, the two default
  templates). It also holds the notification menu:
  - the upsert of a pushed notification;
  - `clearRecent`;
  - the success callback of `markAllAsRead`.
- `SubscriptionNotifications` (subscription_notifications.dfy) covers the
  e-mails sent when a subscription changes:
  - detecting a cancellation;
  - choosing the notifications;
  - filling in sender, recipient and tenant;
  - the chain of recipient e-mail fallbacks.
- `DynamicContentEvaluator` (dynamic_content_evaluator.dfy) covers which
  content items a store shows in a content place:
  - the publishing filter;
  - the priority order;
  - unconditioned publishings first;
  - conditions that may throw.
- `DynamicContentFolders` (dynamic_content_folder.dfy) models the `Path` and
  `Outline` of a dynamic-content folder, built along its parent chain.
- `UserGroupsCondition` (user_groups_condition.dfy) is the promotion
  condition "the customer is in user group G", compared ignoring case.
- `CategoryItemRelation` (category_item_relation.dfy) is the persistence
  entity linking a catalog item to a category: its mapping to and from
  `CategoryLink`, and its value equality.
- `Wrappers` (wrappers.dfy) holds `Option`, `Result` and the null-coalescing
  operator `??`.

Everything outside the model becomes an input:
- **Network, JSON and services:** the manifest download, JSON decoding and
  the platform's services (stores, users, members, notifications, the
  repository) are values handed to the functions. A missing map key stands
  for a `null` returned by a lookup.
- **Behaviour the model cannot see:** the semantic-version compatibility
  test, custom template tests and publishing conditions are function
  parameters.
- **Clock:** the current time is a parameter.
- **Exceptions:** a `Failure` result stands for a thrown exception. A
  condition that throws is `None`.

Behaviour of the code a reader may not expect:
- **Duplicates in the installed list:** two installed records with the same
  (id, version) do not make the load fail. `Except` is a set operation, so
  the second copy is never appended (`ModuleCatalog.LoadIntoEmptyCatalogIsUnique`).
- **Incompatible dependencies:** a dependency id with no compatible
  candidate is simply left out of the result. No error is recorded for it.
- **Undeclared dependency ids:** when a gathered id is not among the root's
  direct dependencies, `First` throws. This is the `NoMatchingDependency`
  failure.

## Model

| member | source | states |
|---|---|---|
| `ModuleCatalog.LoadModulesManifests` | VirtoCommerce.Platform.Modules/External/ExternalModuleCatalog.cs:113-137 | a download or decoding fault fails with its reason; a null or empty manifest list gives no records; otherwise the decoded records |
| `ModuleCatalog.FirstSameIndex` | VirtoCommerce.Platform.Modules/External/ExternalModuleCatalog.cs:41 | the position of the first installed record equal to the remote one, and none exactly when no record is equal |
| `ModuleCatalog.Adopt` | VirtoCommerce.Platform.Modules/External/ExternalModuleCatalog.cs:41-47 | the adopted record keeps its identity and dependencies, becomes OnDemand, and takes `IsInstalled` and `Errors` from the first equal installed record, or keeps its own when there is none |
| `ModuleCatalog.MergeRemote` | VirtoCommerce.Platform.Modules/External/ExternalModuleCatalog.cs:37-50 | the first loop keeps the existing catalog as a prefix and appends at most one entry per remote record |
| `ModuleCatalog.MergeRemoteAddsAdopted` | VirtoCommerce.Platform.Modules/External/ExternalModuleCatalog.cs:39-48 | every appended entry is a remote record as adopted |
| `ModuleCatalog.MergeRemoteCoversRemote` | VirtoCommerce.Platform.Modules/External/ExternalModuleCatalog.cs:37-50 | afterwards every remote record has an equal catalog entry |
| `ModuleCatalog.MergeRemoteAddsFirstRemote` | VirtoCommerce.Platform.Modules/External/ExternalModuleCatalog.cs:37-50 | the first remote record of an identity the catalog lacks is appended in its adopted form |
| `ModuleCatalog.MergeRemoteKeepsUnique` | VirtoCommerce.Platform.Modules/External/ExternalModuleCatalog.cs:39 | the `Contains` guard keeps a duplicate-free catalog duplicate-free |
| `ModuleCatalog.AddInstalled` | VirtoCommerce.Platform.Modules/External/ExternalModuleCatalog.cs:53-56 | the second loop keeps the catalog as a prefix and appends at most one entry per installed record |
| `ModuleCatalog.AddInstalledCoversInstalled` | VirtoCommerce.Platform.Modules/External/ExternalModuleCatalog.cs:53-56 | afterwards every installed record has an equal catalog entry |
| `ModuleCatalog.AddInstalledAddsFirstOfIdentity` | VirtoCommerce.Platform.Modules/External/ExternalModuleCatalog.cs:53-56 | every appended entry is an installed record, unchanged, the first of its identity, with no equal entry in the catalog the loop started from (the `Except` set semantics) |
| `ModuleCatalog.AddInstalledKeepsUnique` | VirtoCommerce.Platform.Modules/External/ExternalModuleCatalog.cs:53-56 | the second loop keeps a duplicate-free catalog duplicate-free, even when the installed list repeats a record |
| `ModuleCatalog.InnerLoad` | VirtoCommerce.Platform.Modules/External/ExternalModuleCatalog.cs:32-58 | a load only appends: the old catalog is a prefix of the new one, which grows by at most the two lists' lengths |
| `ModuleCatalog.InnerLoadAddsOnlyAdoptedOrOrphans` | VirtoCommerce.Platform.Modules/External/ExternalModuleCatalog.cs:37-56 | each added entry is an adopted, OnDemand remote record or an unchanged installed record whose identity the feed does not list |
| `ModuleCatalog.InnerLoadDropsNothing` | VirtoCommerce.Platform.Modules/External/ExternalModuleCatalog.cs:37-56 | every remote and every installed record ends up with an equal catalog entry |
| `ModuleCatalog.OrphanAddedUnchanged` | VirtoCommerce.Platform.Modules/External/ExternalModuleCatalog.cs:52-56 | an installed module missing from the feed and the catalog is added exactly as installed |
| `ModuleCatalog.RemoteAddedAdopted` | VirtoCommerce.Platform.Modules/External/ExternalModuleCatalog.cs:39-48 | a new remote module enters with the local install state and errors of its installed twin, OnDemand |
| `ModuleCatalog.InnerLoadKeepsUnique` | VirtoCommerce.Platform.Modules/External/ExternalModuleCatalog.cs:32-58 | a load never introduces two equal entries |
| `ModuleCatalog.Load` | VirtoCommerce.Platform.Modules/External/ExternalModuleCatalog.cs:34-37 | a failed download fails the load and adds nothing; an empty feed adds only the installed records |
| `ModuleCatalog.CountSameAboveOneIffTwin` | VirtoCommerce.Platform.Modules/External/ExternalModuleCatalog.cs:103 | `Count(y => y.Equals(x)) > 1` holds exactly when the entry has an equal twin elsewhere |
| `ModuleCatalog.FirstDuplicateFrom` | VirtoCommerce.Platform.Modules/External/ExternalModuleCatalog.cs:103 | the first entry counted more than once, or none when every entry is counted at most once |
| `ModuleCatalog.ValidateUniqueModules` | VirtoCommerce.Platform.Modules/External/ExternalModuleCatalog.cs:99-109 | succeeds exactly when no two entries are equal; otherwise names the first entry that has a twin |
| `ModuleCatalog.LoadIntoEmptyCatalogIsUnique` | VirtoCommerce.Platform.Modules/External/ExternalModuleCatalog.cs:32-58 | whatever the feed and the installed list hold, a first load passes the uniqueness validation |
| `DependencySelection.FirstMaxIndex` | VirtoCommerce.Platform.Modules/External/ExternalModuleCatalog.cs:81-82 | the head of `OrderByDescending(x => x.Version)`: a maximal version, and every earlier element strictly lower |
| `DependencySelection.FilterCompatible` | VirtoCommerce.Platform.Modules/External/ExternalModuleCatalog.cs:81 | exactly the group members compatible with the declared version |
| `DependencySelection.FilterInstalled` | VirtoCommerce.Platform.Modules/External/ExternalModuleCatalog.cs:82 | exactly the installed candidates |
| `DependencySelection.GroupOf` | VirtoCommerce.Platform.Modules/External/ExternalModuleCatalog.cs:78 | exactly the gathered records with the given id |
| `DependencySelection.DistinctIds` | VirtoCommerce.Platform.Modules/External/ExternalModuleCatalog.cs:78 | the group keys: every gathered id, each once |
| `DependencySelection.FindDependency` | VirtoCommerce.Platform.Modules/External/ExternalModuleCatalog.cs:80 | the first declared dependency with the id, none exactly when no declared dependency has it |
| `DependencySelection.SelectBest` | VirtoCommerce.Platform.Modules/External/ExternalModuleCatalog.cs:81-93 | nothing exactly when no candidate is compatible; otherwise a compatible member of the group, installed and highest among installed ones when any is installed, highest among all compatible ones otherwise |
| `DependencySelection.SelectAll` | VirtoCommerce.Platform.Modules/External/ExternalModuleCatalog.cs:78-94 | fails, naming the id, exactly when some group key has no declared dependency; on success each result is the choice for its own id |
| `DependencySelection.SelectAllCoversKeys` | VirtoCommerce.Platform.Modules/External/ExternalModuleCatalog.cs:90-93 | every key with a compatible candidate gets a record |
| `DependencySelection.SelectAllDistinctIds` | VirtoCommerce.Platform.Modules/External/ExternalModuleCatalog.cs:78 | distinct keys give records of distinct ids |
| `DependencySelection.GetDependentModules` | VirtoCommerce.Platform.Modules/External/ExternalModuleCatalog.cs:65-97 | a non-manifest root throws; a manifest root fails exactly when some gathered id is not among its direct dependencies |
| `DependencySelection.SelectionIsOnePerCompatibleId` | VirtoCommerce.Platform.Modules/External/ExternalModuleCatalog.cs:78-94 | at most one record per id, each a gathered compatible candidate, and an id present exactly when it has a compatible candidate |
| `DependencySelection.SelectionPrefersInstalledThenHighest` | VirtoCommerce.Platform.Modules/External/ExternalModuleCatalog.cs:81-88 | the chosen record is installed and highest among installed compatible ones when any exists; otherwise highest among all compatible ones |
| `DependencySelection.SelectionSucceedsForDirectDependencies` | VirtoCommerce.Platform.Modules/External/ExternalModuleCatalog.cs:80 | when every gathered id is declared by the root, selection does not throw |
| `DependencySelection.InstalledVersionIsPreferred` | VirtoCommerce.Platform.Modules/External/ExternalModuleCatalog.cs:81-88 | installed 1.0 and remote 1.2 both compatible: 1.0 is selected |
| `DependencySelection.HighestCompatibleIsFallback` | VirtoCommerce.Platform.Modules/External/ExternalModuleCatalog.cs:84-88 | remote 1.0 and 1.2 both compatible, none installed: 1.2 is selected |
| `StableSort.SortBy` | VirtoCommerce.Platform.Web/wwwroot/js/app/pushNotifications/pushNotifications.js:30 | the result has the input's length and is sorted by non-decreasing key |
| `StableSort.SortByPermutes` | VirtoCommerce.Platform.Web/wwwroot/js/app/pushNotifications/pushNotifications.js:30 | sorting is a permutation of its input |
| `StableSort.SortBySortedIsIdentity` | VirtoCommerce.Platform.Web/wwwroot/js/app/pushNotifications/pushNotifications.js:30 | sorting an already sorted list leaves it as it is |
| `PushNotifications.Register` | VirtoCommerce.Platform.Web/wwwroot/js/app/pushNotifications/pushNotifications.js:28-31 | the registry grows by one, is sorted by priority, and is the old registry plus the new template as a multiset |
| `PushNotifications.RegisterInsertsAfterEqualPriorities` | VirtoCommerce.Platform.Web/wwwroot/js/app/pushNotifications/pushNotifications.js:28-31 | on a sorted registry the new template goes after every template of lower or equal priority and the others keep their order |
| `PushNotifications.Resolve` | VirtoCommerce.Platform.Web/wwwroot/js/app/pushNotifications/pushNotifications.js:32-34 | the first template, in registry order, that satisfies the notification and place; nothing exactly when none does |
| `PushNotifications.ResolvedHasMinimalPriority` | VirtoCommerce.Platform.Web/wwwroot/js/app/pushNotifications/pushNotifications.js:30-33 | on a sorted registry the resolved template has the lowest priority among satisfying ones |
| `PushNotifications.RegisterTwoOfEqualPriority` | VirtoCommerce.Platform.Web/wwwroot/js/app/pushNotifications/pushNotifications.js:28-31 | two templates of equal priority registered into an empty registry stay in registration order |
| `PushNotifications.DefaultRegistryIsMenuThenHistory` | VirtoCommerce.Platform.Web/wwwroot/js/app/pushNotifications/pushNotifications.js:72-73 | the two equal-priority defaults stay in registration order |
| `PushNotifications.DefaultsResolveByPlace` | VirtoCommerce.Platform.Web/wwwroot/js/app/pushNotifications/pushNotifications.js:41-73 | with the defaults alone, 'menu' resolves to the menu template, 'history' to the history template, anything else to nothing |
| `PushNotifications.FindChild` | VirtoCommerce.Platform.Web/wwwroot/js/app/pushNotifications/pushNotifications.js:104 | the first child with the notification id, none exactly when no child has it |
| `PushNotifications.Run` | VirtoCommerce.Platform.Web/wwwroot/js/app/pushNotifications/pushNotifications.js:145-167 | an existing notification menu is kept; a missing one is created empty, with nothing unread |
| `PushNotifications.Send` | VirtoCommerce.Platform.Web/wwwroot/js/app/pushNotifications/pushNotifications.js:86-119 | throws on an unresolved menu template, and otherwise throws exactly when the menu does not exist yet; a known id keeps the child count and unread count; a new id appends one child after the old ones and raises the unread count by one; the notification is always shown with the resolved template |
| `PushNotifications.SendAfterRunSucceeds` | VirtoCommerce.Platform.Web/wwwroot/js/app/pushNotifications/pushNotifications.js:86-119 | after `run`, a notification with a menu template never throws, and on a fresh menu it becomes the first child |
| `PushNotifications.SendReplacesOnlyThatChild` | VirtoCommerce.Platform.Web/wwwroot/js/app/pushNotifications/pushNotifications.js:104-107 | only the first child with the id changes; it shows the new data and has lost its parent link |
| `PushNotifications.SendKeepsIdsUnique` | VirtoCommerce.Platform.Web/wwwroot/js/app/pushNotifications/pushNotifications.js:104-111 | children with unique notification ids keep unique ids |
| `PushNotifications.ClearRecent` | VirtoCommerce.Platform.Web/wwwroot/js/app/pushNotifications/pushNotifications.js:160 | no children remain and the unread count is untouched |
| `PushNotifications.MarkAllAsReadSucceeded` | VirtoCommerce.Platform.Web/wwwroot/js/app/pushNotifications/pushNotifications.js:136-138 | the unread count drops to zero and the children stay |
| `SubscriptionNotifications.CanceledIffTransition` | Modules/vc-module-subscriptions/VirtoCommerce.SubscriptionModule.Data/Handlers/SendNotificationsSubscriptionChangedEventHandler.cs:92-99 | a change is a cancellation exactly when an old state existed, was not cancelled, and the new state is |
| `SubscriptionNotifications.SelectNotifications` | Modules/vc-module-subscriptions/VirtoCommerce.SubscriptionModule.Data/Handlers/SendNotificationsSubscriptionChangedEventHandler.cs:45-66 | the cancellation e-mail is chosen exactly on a cancellation whose store defines it, the new-subscription e-mail exactly on an added entry whose store defines it, in that order |
| `SubscriptionNotifications.NoOldEntryNoCancellation` | Modules/vc-module-subscriptions/VirtoCommerce.SubscriptionModule.Data/Handlers/SendNotificationsSubscriptionChangedEventHandler.cs:94 | without an old state no cancellation e-mail is chosen |
| `SubscriptionNotifications.OrderEmail` | Modules/vc-module-subscriptions/VirtoCommerce.SubscriptionModule.Data/Handlers/SendNotificationsSubscriptionChangedEventHandler.cs:106-110 | the e-mail of the first order address; null for null or empty addresses |
| `SubscriptionNotifications.CustomerEmail` | Modules/vc-module-subscriptions/VirtoCommerce.SubscriptionModule.Data/Handlers/SendNotificationsSubscriptionChangedEventHandler.cs:112-125 | the first e-mail of the contact found by customer id, else of the contact found by the user's member id; when the contact found has no e-mail or no contact is found, the user's e-mail; null when there is neither user nor contact |
| `SubscriptionNotifications.RecipientEmail` | Modules/vc-module-subscriptions/VirtoCommerce.SubscriptionModule.Data/Handlers/SendNotificationsSubscriptionChangedEventHandler.cs:101-104 | the order e-mail when non-null, otherwise the customer e-mail |
| `SubscriptionNotifications.SetNotificationParameters` | Modules/vc-module-subscriptions/VirtoCommerce.SubscriptionModule.Data/Handlers/SendNotificationsSubscriptionChangedEventHandler.cs:78-90 | throws exactly when the store is missing; otherwise active, linked to the subscription, from the store's e-mail, to the recipient e-mail, tenant (subscription id, "Subscription") |
| `SubscriptionNotifications.SendAll` | Modules/vc-module-subscriptions/VirtoCommerce.SubscriptionModule.Data/Handlers/SendNotificationsSubscriptionChangedEventHandler.cs:68-72 | each chosen notification is sent once, in order, filled in as above, in the order's language; fails exactly when there is one to send and the store is missing |
| `SubscriptionNotifications.TryToSendNotifications` | Modules/vc-module-subscriptions/VirtoCommerce.SubscriptionModule.Data/Handlers/SendNotificationsSubscriptionChangedEventHandler.cs:43-73 | one e-mail per chosen notification, cancellation before new-subscription, all with the store's sender and the recipient e-mail; nothing sent when nothing is chosen |
| `SubscriptionNotifications.HandleEach` | Modules/vc-module-subscriptions/VirtoCommerce.SubscriptionModule.Data/Handlers/SendNotificationsSubscriptionChangedEventHandler.cs:37-40 | the loop stops at the first failing entry and reports that entry's error; no error means every entry went through |
| `SubscriptionNotifications.HandleEachStopsAtFirstFailure` | Modules/vc-module-subscriptions/VirtoCommerce.SubscriptionModule.Data/Handlers/SendNotificationsSubscriptionChangedEventHandler.cs:37-40 | at the first failing entry the loop reports that entry's error, keeps what the entries before it sent, and handles none after it |
| `SubscriptionNotifications.HandleEachSplits` | Modules/vc-module-subscriptions/VirtoCommerce.SubscriptionModule.Data/Handlers/SendNotificationsSubscriptionChangedEventHandler.cs:37-40 | entries are handled one after another: a batch sends its first part's e-mails, then the rest's |
| `SubscriptionNotifications.Handle` | Modules/vc-module-subscriptions/VirtoCommerce.SubscriptionModule.Data/Handlers/SendNotificationsSubscriptionChangedEventHandler.cs:35-41 | the handler fails only with the error of some entry's notifications, and succeeds only when every entry's went out |
| `SubscriptionNotifications.HandleSplits` | Modules/vc-module-subscriptions/VirtoCommerce.SubscriptionModule.Data/Handlers/SendNotificationsSubscriptionChangedEventHandler.cs:35-41 | the handler's batches split as the loop's do |
| `DynamicContentEvaluator.WithDefaultDate` | Modules/vc-module-marketing/VirtoCommerce.MarketingModule.Data/Services/DefaultDynamicContentEvaluatorImpl.cs:38-41 | a default `ToDate` becomes the current time; any other is kept |
| `DynamicContentEvaluator.Filter` | Modules/vc-module-marketing/VirtoCommerce.MarketingModule.Data/Services/DefaultDynamicContentEvaluatorImpl.cs:47-50 | exactly the active rows of the store, within their open-ended date window, listing the place, each kept as often as it occurs |
| `DynamicContentEvaluator.Candidates` | Modules/vc-module-marketing/VirtoCommerce.MarketingModule.Data/Services/DefaultDynamicContentEvaluatorImpl.cs:45-52 | the filtered rows, as a permutation, in ascending priority |
| `DynamicContentEvaluator.CollectIds` | Modules/vc-module-marketing/VirtoCommerce.MarketingModule.Data/Services/DefaultDynamicContentEvaluatorImpl.cs:55-58 | an id is collected exactly when a kept publishing holds it |
| `DynamicContentEvaluator.OrderedIds` | Modules/vc-module-marketing/VirtoCommerce.MarketingModule.Data/Services/DefaultDynamicContentEvaluatorImpl.cs:55-68 | ids of unconditioned publishings come first, then ids of publishings whose condition held |
| `DynamicContentEvaluator.EvaluateItems` | Modules/vc-module-marketing/VirtoCommerce.MarketingModule.Data/Services/DefaultDynamicContentEvaluatorImpl.cs:32-81 | any other context is an argument error; otherwise every id up to a split point comes from an unconditioned candidate and every id after it from a candidate whose condition held |
| `DynamicContentEvaluator.EvaluateItemsMembers` | Modules/vc-module-marketing/VirtoCommerce.MarketingModule.Data/Services/DefaultDynamicContentEvaluatorImpl.cs:45-68 | an id is listed exactly when a candidate holds it and has no condition or one that evaluated to true |
| `DynamicContentEvaluator.HeldInCandidates` | Modules/vc-module-marketing/VirtoCommerce.MarketingModule.Data/Services/DefaultDynamicContentEvaluatorImpl.cs:45-52 | reordering by priority neither adds nor loses a candidate's ids |
| `DynamicContentEvaluator.CollectIdsAppend` | Modules/vc-module-marketing/VirtoCommerce.MarketingModule.Data/Services/DefaultDynamicContentEvaluatorImpl.cs:55-58 | collecting from two lists in turn is collecting from their concatenation |
| `DynamicContentEvaluator.ThrowingConditionIsSkipped` | Modules/vc-module-marketing/VirtoCommerce.MarketingModule.Data/Services/DefaultDynamicContentEvaluatorImpl.cs:59-73 | a publishing whose condition throws contributes nothing and the rest are still processed |
| `DynamicContentEvaluator.PassesPartitionContributing` | Modules/vc-module-marketing/VirtoCommerce.MarketingModule.Data/Services/DefaultDynamicContentEvaluatorImpl.cs:55-68 | the two passes together list, with multiplicity, exactly the ids of the contributing publishings |
| `DynamicContentEvaluator.ContributedTwiceListedTwice` | Modules/vc-module-marketing/VirtoCommerce.MarketingModule.Data/Services/DefaultDynamicContentEvaluatorImpl.cs:55-67 | ids are not de-duplicated: an item of two contributing publishings is listed twice |
| `DynamicContentEvaluator.RepeatedRowListedTwice` | Modules/vc-module-marketing/VirtoCommerce.MarketingModule.Data/Services/DefaultDynamicContentEvaluatorImpl.cs:45-68 | a contributing candidate row stored twice has each of its content items listed at least twice |
| `DynamicContentEvaluator.DefaultDateIsNow` | Modules/vc-module-marketing/VirtoCommerce.MarketingModule.Data/Services/DefaultDynamicContentEvaluatorImpl.cs:38-41 | a default `ToDate` evaluates as the current time; a given one makes the clock irrelevant |
| `DynamicContentFolders.Path` | Modules/vc-module-marketing/VirtoCommerce.MarketingModule.Core/Model/DynamicContent/DynamicContentFolder.cs:10-16 | the path ends with the folder's own name |
| `DynamicContentFolders.Outline` | Modules/vc-module-marketing/VirtoCommerce.MarketingModule.Core/Model/DynamicContent/DynamicContentFolder.cs:17-23 | the outline ends with the folder's own id |
| `DynamicContentFolders.ParentOutlineIsProperPrefix` | Modules/vc-module-marketing/VirtoCommerce.MarketingModule.Core/Model/DynamicContent/DynamicContentFolder.cs:21 | a parent's outline is a proper prefix of its child's |
| `DynamicContentFolders.AncestorsArePrefixes` | Modules/vc-module-marketing/VirtoCommerce.MarketingModule.Core/Model/DynamicContent/DynamicContentFolder.cs:10-23 | every ancestor's outline and path are prefixes of the folder's |
| `DynamicContentFolders.OutlineSeparatorsCountAncestors` | Modules/vc-module-marketing/VirtoCommerce.MarketingModule.Core/Model/DynamicContent/DynamicContentFolder.cs:21 | with no ';' inside ids, the outline has one ';' per ancestor |
| `UserGroupsCondition.AnyEqualsIgnoreCase` | Modules/vc-module-marketing/VirtoCommerce.MarketingModule.Core/Model/Promotions/Conditions/CustomerConditions/UserGroupsContainsCondition.cs:23 | true exactly when some group equals the given one ignoring case |
| `UserGroupsCondition.Evaluate` | Modules/vc-module-marketing/VirtoCommerce.MarketingModule.Core/Model/Promotions/Conditions/CustomerConditions/UserGroupsContainsCondition.cs:15-28 | false for other contexts and null groups; otherwise true exactly when the customer has a group equal to the condition's ignoring case |
| `UserGroupsCondition.EmptyGroupsNeverMatch` | Modules/vc-module-marketing/VirtoCommerce.MarketingModule.Core/Model/Promotions/Conditions/CustomerConditions/UserGroupsContainsCondition.cs:23 | an empty group list is false |
| `UserGroupsCondition.EvaluateMonotone` | Modules/vc-module-marketing/VirtoCommerce.MarketingModule.Core/Model/Promotions/Conditions/CustomerConditions/UserGroupsContainsCondition.cs:23 | adding groups never turns true into false |
| `UserGroupsCondition.EvaluateIgnoresCaseOfGroup` | Modules/vc-module-marketing/VirtoCommerce.MarketingModule.Core/Model/Promotions/Conditions/CustomerConditions/UserGroupsContainsCondition.cs:23 | groups equal up to case give the same answer |
| `UserGroupsCondition.EvaluateIgnoresUpperLower` | Modules/vc-module-marketing/VirtoCommerce.MarketingModule.Core/Model/Promotions/Conditions/CustomerConditions/UserGroupsContainsCondition.cs:23 | upper- or lower-casing the group changes nothing |
| `CategoryItemRelation.ToModel` | Modules/vc-module-catalog2/VirtoCommerce.CatalogModule.Data/Model/CategoryItemRelationEntity.cs:26-37 | a null link throws; otherwise the link takes the item id as entry id, and the category, catalog and priority |
| `CategoryItemRelation.FromModel` | Modules/vc-module-catalog2/VirtoCommerce.CatalogModule.Data/Model/CategoryItemRelationEntity.cs:39-49 | a null link throws; otherwise category, catalog and priority come from the link and id and item id stay |
| `CategoryItemRelation.Patch` | Modules/vc-module-catalog2/VirtoCommerce.CatalogModule.Data/Model/CategoryItemRelationEntity.cs:51-54 | the target is left unchanged |
| `CategoryItemRelation.RoundTrip` | Modules/vc-module-catalog2/VirtoCommerce.CatalogModule.Data/Model/CategoryItemRelationEntity.cs:26-49 | a link stored into an entity and read back keeps its category, catalog and priority |
| `CategoryItemRelation.FromModelOfOwnLinkIsEqual` | Modules/vc-module-catalog2/VirtoCommerce.CatalogModule.Data/Model/CategoryItemRelationEntity.cs:26-49 | an entity read into a link and stored back is unchanged |
| `CategoryItemRelation.EqualityIgnoresIdItemAndPriority` | Modules/vc-module-catalog2/VirtoCommerce.CatalogModule.Data/Model/CategoryItemRelationEntity.cs:56-60 | entities differing only in id, item or priority are equal |
| `CategoryItemRelation.EntityEqualsIsEquivalence` | Modules/vc-module-catalog2/VirtoCommerce.CatalogModule.Data/Model/CategoryItemRelationEntity.cs:56-60 | the value equality is reflexive, symmetric and transitive |

## Left out

- The lock around `InnerLoad` and all concurrency: the model is a pure function of the catalog, the feed and the installed list.
- The manifest download and JSON decoding: the feed is an input (`FeedResponse`), and logging is not modelled.
- The base class's `GetDependentModulesInner`, which gathers the transitive candidates and handles cycles: the gathered list is an input.
- `IsCompatibleWithBySemVer`: a parameter. The version order is (major, minor, patch); prerelease tags are not modelled.
- `ManifestModuleInfo.Equals` is taken to compare (id, version). Catalog entries that are not manifest modules are not modelled; `OfType<ManifestModuleInfo>` is therefore the identity.
- Null strings (folder ids and names, user groups, relation fields) are not modelled. String comparison ignoring case is ASCII case folding, not the invariant culture.
- Register: priorities are integers. The comparator `a.priority - b.priority` works on JavaScript numbers, so a template registered without a numeric priority gives NaN and an order the engine chooses; that case is not modelled.
- Push notifications: the SignalR connection, the broadcast, the menu animation, navigation, blades and template actions are not modelled. A template's own test is a tag answered by an oracle.
- Dynamic content: the SQL `ORDER BY Priority` is modelled as a stable sort, but SQL leaves the order of equal priorities unspecified. The database collation of the store id and place name comparisons is not modelled: both compare as exact strings. `GetContentItemsByIdsAsync` is left out: the model stops at the ids handed to it. Dates are integer ticks, and `default(DateTime)` is 0.
- Subscription notifications: the sender (retries, SMTP) is not modelled; a send is the record of what it was given. A null `CustomerOrderPrototype`, and the null-reference exceptions it would cause, are not modelled. A missing store is the only failure.
- Dynamic-content folders: `Description`, `ParentFolderId` and the auditing fields are not modelled. The parent chain is finite by construction.
