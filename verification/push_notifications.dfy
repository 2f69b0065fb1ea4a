/** The push-notification template registry and the notification menu of the
    platform's web client (pushNotifications.js). The SignalR connection,
    animation timers, navigation and blades are not modelled. */
module PushNotifications {
  import opened Wrappers
  import opened StableSort

  /** A pushed notification; only the fields the menu logic reads. */
  datatype Notification = Notification(id: string, title: string)

  /** What a template's `satisfy(notification, place)` tests: the place name,
      as both default templates do, or some other test registered by a module,
      told apart by a tag and answered by an oracle. */
  datatype Rule = PlaceIs(place: string) | Custom(tag: nat)

  datatype Template = Template(priority: int, rule: Rule, url: string)

  /** The answer of the registered templates' own tests. */
  type CustomTest = (nat, Notification, string) -> bool

  function Priority(t: Template): int {
    t.priority
  }

  /** `template.satisfy(notification, place)`. */
  predicate Satisfies(t: Template, n: Notification, place: string, custom: CustomTest) {
    match t.rule
    case PlaceIs(p) => place == p
    case Custom(tag) => custom(tag, n, place)
  }

  /** `register`: push, then sort the whole list by priority (a stable sort). */
  function Register(registry: seq<Template>, t: Template): (r: seq<Template>)
    ensures |r| == |registry| + 1
    ensures SortedBy(r, Priority)
    ensures multiset(r) == multiset(registry) + multiset{t}
  {
    SortByPermutes(registry + [t], Priority);
    SortBy(registry + [t], Priority)
  }

  /** On a registry kept sorted, `register` puts the new template after every
      template of lower or equal priority and before the others, leaving
      their order as it was. */
  lemma {:induction false} RegisterInsertsAfterEqualPriorities(registry: seq<Template>, t: Template)
    requires SortedBy(registry, Priority)
    ensures exists k :: 0 <= k <= |registry| && Register(registry, t) == registry[..k] + [t] + registry[k..]
                        && (forall i :: 0 <= i < k ==> registry[i].priority <= t.priority)
                        && (forall i :: k <= i < |registry| ==> t.priority < registry[i].priority)
  {
    var s := registry + [t];
    assert s[..|s| - 1] == registry;
    SortBySortedIsIdentity(registry, Priority);
    var k := InsertPos(registry, t, Priority);
    assert Register(registry, t) == registry[..k] + [t] + registry[k..];
  }

  /** `resolve`: the first template, in registry order, that satisfies. */
  function Resolve(registry: seq<Template>, n: Notification, place: string, custom: CustomTest): (r: Option<Template>)
    ensures r.None? <==> forall i :: 0 <= i < |registry| ==> !Satisfies(registry[i], n, place, custom)
    ensures r.Some? ==> exists i :: 0 <= i < |registry| && registry[i] == r.value
                                    && Satisfies(registry[i], n, place, custom)
                                    && forall j :: 0 <= j < i ==> !Satisfies(registry[j], n, place, custom)
    decreases |registry|
  {
    if |registry| == 0 then None
    else if Satisfies(registry[0], n, place, custom) then Some(registry[0])
    else
      var r := Resolve(registry[1..], n, place, custom);
      assert forall i :: 1 <= i < |registry| ==> registry[i] == registry[1..][i - 1];
      if r.Some? then
        var i :| 0 <= i < |registry[1..]| && registry[1..][i] == r.value
                 && Satisfies(registry[1..][i], n, place, custom)
                 && forall j :: 0 <= j < i ==> !Satisfies(registry[1..][j], n, place, custom);
        assert registry[i + 1] == r.value;
        r
      else r
  }

  /** On a sorted registry the resolved template has the lowest priority of
      all the templates that satisfy. */
  lemma ResolvedHasMinimalPriority(registry: seq<Template>, n: Notification, place: string, custom: CustomTest)
    requires SortedBy(registry, Priority)
    requires Resolve(registry, n, place, custom).Some?
    ensures forall t :: t in registry && Satisfies(t, n, place, custom) ==>
              Resolve(registry, n, place, custom).value.priority <= t.priority
  {
    var r := Resolve(registry, n, place, custom).value;
    var i :| 0 <= i < |registry| && registry[i] == r && Satisfies(registry[i], n, place, custom)
             && forall j :: 0 <= j < i ==> !Satisfies(registry[j], n, place, custom);
    forall t | t in registry && Satisfies(t, n, place, custom) ensures r.priority <= t.priority {
      var j :| 0 <= j < |registry| && registry[j] == t;
      assert i <= j;
      assert Priority(registry[i]) <= Priority(registry[j]);
    }
  }

  const MenuDefaultTemplate := Template(1000, PlaceIs("menu"), "$(Platform)/Scripts/app/pushNotifications/menuDefault.tpl.html")
  const HistoryDefaultTemplate := Template(1000, PlaceIs("history"), "$(Platform)/Scripts/app/pushNotifications/blade/historyDefault.tpl.html")

  /** The registry as the resolver factory leaves it. */
  function DefaultRegistry(): seq<Template> {
    Register(Register([], MenuDefaultTemplate), HistoryDefaultTemplate)
  }

  /** Two templates of equal priority registered into an empty registry stay
      in registration order. */
  lemma RegisterTwoOfEqualPriority(a: Template, b: Template)
    requires a.priority == b.priority
    ensures Register(Register([], a), b) == [a, b]
  {
    assert [a][..0] == [];
    assert SortBy([a], Priority) == InsertByKey([], a, Priority);
    assert InsertPos([], a, Priority) == 0;
    assert Register([], a) == [a];
    assert ([a] + [b])[..1] == [a];
    assert SortBy([a, b], Priority) == InsertByKey(SortBy([a], Priority), b, Priority);
    assert InsertPos([a], b, Priority) == 1;
    assert InsertByKey([a], b, Priority) == [a] + [b] + [];
  }

  /** Both defaults have the same priority, so the stable sort keeps them in
      registration order. */
  lemma DefaultRegistryIsMenuThenHistory()
    ensures DefaultRegistry() == [MenuDefaultTemplate, HistoryDefaultTemplate]
  {
    RegisterTwoOfEqualPriority(MenuDefaultTemplate, HistoryDefaultTemplate);
  }

  /** With the defaults alone, 'menu' resolves to the menu template, 'history'
      to the history template, and any other place to nothing. */
  lemma DefaultsResolveByPlace(n: Notification, place: string, custom: CustomTest)
    ensures place == "menu" ==> Resolve(DefaultRegistry(), n, place, custom) == Some(MenuDefaultTemplate)
    ensures place == "history" ==> Resolve(DefaultRegistry(), n, place, custom) == Some(HistoryDefaultTemplate)
    ensures place != "menu" && place != "history" ==> Resolve(DefaultRegistry(), n, place, custom) == None
  {
    DefaultRegistryIsMenuThenHistory();
    var reg := [MenuDefaultTemplate, HistoryDefaultTemplate];
    assert reg[1..] == [HistoryDefaultTemplate];
    assert reg[1..][1..] == [];
  }

  // ---------------------------------------------------------------------
  // The notification menu

  /** A child of the notification menu. `attached` is whether its `parent`
      link is set. */
  datatype MenuItem = MenuItem(notify: Notification, title: string, template: Template, attached: bool)

  datatype NotifyMenu = NotifyMenu(children: seq<MenuItem>, newCount: int)

  /** Reading `.action` of an unresolved template throws a TypeError, and so
      does reading `.children` of the menu before `run` has created it. */
  datatype PushError = NoMenuTemplate | NoMenu

  /** `run`: the notification menu found under 'pushNotifications', or a new
      empty one when it is not defined yet. */
  function Run(found: Option<NotifyMenu>): (r: NotifyMenu)
    ensures found.Some? ==> r == found.value
    ensures found.None? ==> |r.children| == 0 && r.newCount == 0
  {
    match found
    case Some(menu) => menu
    case None => NotifyMenu([], 0)
  }

  /** `_.find(children, x => x.notify.id == id)`, as a position. */
  function FindChild(children: seq<MenuItem>, id: string): (r: Option<nat>)
    ensures r.None? <==> forall i :: 0 <= i < |children| ==> children[i].notify.id != id
    ensures r.Some? ==> r.value < |children| && children[r.value].notify.id == id
                        && forall j :: 0 <= j < r.value ==> children[j].notify.id != id
    decreases |children|
  {
    if |children| == 0 then None
    else if children[0].notify.id == id then Some(0)
    else
      var r := FindChild(children[1..], id);
      assert forall i :: 1 <= i < |children| ==> children[i] == children[1..][i - 1];
      if r.Some? then Some(r.value + 1) else None
  }

  /** No two children show the same notification id. */
  predicate UniqueNotifyIds(children: seq<MenuItem>) {
    forall i, j :: 0 <= i < j < |children| ==> children[i].notify.id != children[j].notify.id
  }

  /** The `Send` handler, given what `findByPath('pushNotifications')`
      returns. An unresolved template fails first; a menu `run` has not
      created yet fails next. A child showing the same notification id is
      overwritten in place by `angular.copy`, which first deletes the
      child's own properties, so it loses its `parent` link; otherwise the
      item is appended with its parent set and the unread count goes up. */
  function Send(found: Option<NotifyMenu>, registry: seq<Template>, data: Notification, custom: CustomTest): (r: Result<NotifyMenu, PushError>)
    ensures r.Failure? <==> Resolve(registry, data, "menu", custom).None? || found.None?
    ensures Resolve(registry, data, "menu", custom).None? ==> r == Failure(NoMenuTemplate)
    ensures Resolve(registry, data, "menu", custom).Some? && found.None? ==> r == Failure(NoMenu)
    ensures r.Success? && FindChild(found.value.children, data.id).Some? ==>
              |r.value.children| == |found.value.children| && r.value.newCount == found.value.newCount
    ensures r.Success? && FindChild(found.value.children, data.id).None? ==>
              |r.value.children| == |found.value.children| + 1 && r.value.newCount == found.value.newCount + 1
              && r.value.children[..|found.value.children|] == found.value.children
    ensures r.Success? ==> exists i :: 0 <= i < |r.value.children| && r.value.children[i].notify == data
                                      && r.value.children[i].template == Resolve(registry, data, "menu", custom).value
  {
    match Resolve(registry, data, "menu", custom)
    case None => Failure(NoMenuTemplate)
    case Some(template) =>
      match found
      case None => Failure(NoMenu)
      case Some(menu) =>
        var item := MenuItem(data, data.title, template, false);
        match FindChild(menu.children, data.id)
        case Some(i) =>
          var children := menu.children[i := item];
          assert children[i] == item;
          Success(menu.(children := children))
        case None =>
          var children := menu.children + [item.(attached := true)];
          assert children[|menu.children|].notify == data;
          assert children[..|menu.children|] == menu.children;
          Success(NotifyMenu(children, menu.newCount + 1))
  }

  /** Once `run` has created the menu, a notification with a menu template is
      always shown. */
  lemma SendAfterRunSucceeds(found: Option<NotifyMenu>, registry: seq<Template>, data: Notification, custom: CustomTest)
    requires Resolve(registry, data, "menu", custom).Some?
    ensures Send(Some(Run(found)), registry, data, custom).Success?
    ensures found.None? ==> Send(Some(Run(found)), registry, data, custom).value.children[0].notify == data
  {
  }

  /** Replacing a child touches only the first child with the same id. */
  lemma SendReplacesOnlyThatChild(menu: NotifyMenu, registry: seq<Template>, data: Notification, custom: CustomTest)
    requires Send(Some(menu), registry, data, custom).Success?
    requires FindChild(menu.children, data.id).Some?
    ensures var i := FindChild(menu.children, data.id).value;
            var after := Send(Some(menu), registry, data, custom).value.children;
            && after[i].notify == data && !after[i].attached
            && forall j :: 0 <= j < |after| && j != i ==> after[j] == menu.children[j]
  {
  }

  /** Children keep unique notification ids. */
  lemma SendKeepsIdsUnique(menu: NotifyMenu, registry: seq<Template>, data: Notification, custom: CustomTest)
    requires UniqueNotifyIds(menu.children)
    requires Send(Some(menu), registry, data, custom).Success?
    ensures UniqueNotifyIds(Send(Some(menu), registry, data, custom).value.children)
  {
    var after := Send(Some(menu), registry, data, custom).value.children;
    match FindChild(menu.children, data.id)
    case Some(i) =>
      assert forall j :: 0 <= j < |after| && j != i ==> after[j] == menu.children[j];
      assert after[i].notify.id == menu.children[i].notify.id;
    case None =>
      assert forall j :: 0 <= j < |menu.children| ==> after[j] == menu.children[j];
  }

  /** `clearRecent`: empties the children. */
  function ClearRecent(menu: NotifyMenu): (r: NotifyMenu)
    ensures |r.children| == 0 && r.newCount == menu.newCount
  {
    menu.(children := [])
  }

  /** The success callback of `markAllAsRead`: nothing is unread any more. */
  function MarkAllAsReadSucceeded(menu: NotifyMenu): (r: NotifyMenu)
    ensures r.newCount == 0 && r.children == menu.children
  {
    menu.(newCount := 0)
  }
}
