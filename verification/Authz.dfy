/**
 * Scoped permissions: grants gathered into a permission set, and the decision
 * on one record (`packages/platform/src/authz.ts`).
 */
module Authz {
  import opened Wrappers
  import opened Text

  datatype Scope = Own | Team | Any {
    function Rank(): nat {
      match this
      case Own => 1
      case Team => 2
      case Any => 3
    }
  }

  datatype ScopeType = Organisation | ByTeam | Service

  datatype Grant = Grant(key: string, scope: Scope, scopeType: Option<ScopeType>, scopeId: Option<string>)

  // What `buildPermissionSet` closes over: the grants of each key, and each key's widest scope.
  datatype PermissionSet = PermissionSet(byKey: map<string, seq<Grant>>, best: map<string, Scope>)

  datatype Record = Record(groupId: Option<string>, serviceId: Option<string>, fields: map<string, string>)

  datatype Context = Context(userId: string, organisationIds: seq<string>, isSystem: bool, permissions: PermissionSet)

  datatype Resolver = Resolver(
    isOwn: (Context, Record) -> bool,
    isTeam: (Context, Record) -> bool,
    orgId: Option<Record -> Option<string>>)

  // The registered resolvers, by aggregate.
  type Resolvers = map<string, Resolver>

  datatype Target = Target(aggregate: string, record: Record)

  /* ------------------------------------------------------------ gathering */

  // The grants of one key, in order.
  function GrantsFor(granted: seq<Grant>, key: string): seq<Grant> {
    if granted == [] then []
    else
      var last := granted[|granted| - 1];
      GrantsFor(granted[..|granted| - 1], key) + if last.key == key then [last] else []
  }

  function Wider(a: Scope, b: Scope): Scope {
    if b.Rank() > a.Rank() then b else a
  }

  // The widest scope of a list, starting from `own`.
  function Widest(grants: seq<Grant>): Scope {
    if grants == [] then Own else Wider(Widest(grants[..|grants| - 1]), grants[|grants| - 1].scope)
  }

  // Each key that was granted, with its grants in order.
  ghost predicate Groups(byKey: map<string, seq<Grant>>, granted: seq<Grant>) {
    forall key ::
      && (key in byKey <==> GrantsFor(granted, key) != [])
      && (key in byKey ==> byKey[key] == GrantsFor(granted, key))
  }

  ghost predicate Gathers(permissions: PermissionSet, granted: seq<Grant>) {
    && Groups(permissions.byKey, granted)
    && permissions.best.Keys == permissions.byKey.Keys
    && forall key | key in permissions.best :: permissions.best[key] == Widest(permissions.byKey[key])
  }

  /** `buildPermissionSet`. */
  method BuildPermissionSet(granted: seq<Grant>) returns (permissions: PermissionSet)
    ensures Gathers(permissions, granted)
  {
    var byKey := GroupByKey(granted);
    var best: map<string, Scope> := map[];
    var todo := byKey.Keys;
    while todo != {}
      invariant todo <= byKey.Keys && best.Keys == byKey.Keys - todo
      invariant forall key | key in best :: best[key] == Widest(byKey[key])
      decreases |todo|
    {
      var key :| key in todo;
      var top := WidestOf(byKey[key]);
      best := best[key := top];
      todo := todo - {key};
    }
    permissions := PermissionSet(byKey, best);
  }

  // The first loop of `buildPermissionSet`.
  method GroupByKey(granted: seq<Grant>) returns (byKey: map<string, seq<Grant>>)
    ensures Groups(byKey, granted)
  {
    byKey := map[];
    for i := 0 to |granted|
      invariant Groups(byKey, granted[..i])
    {
      var g := granted[i];
      assert granted[..i + 1][..i] == granted[..i];
      var list := (if g.key in byKey then byKey[g.key] else []) + [g];
      byKey := byKey[g.key := list];
    }
    assert granted[..|granted|] == granted;
  }

  // The inner loop of `buildPermissionSet`, and the reduce of `can`.
  method WidestOf(grants: seq<Grant>) returns (top: Scope)
    ensures top == Widest(grants)
  {
    top := Own;
    for i := 0 to |grants|
      invariant top == Widest(grants[..i])
    {
      assert grants[..i + 1][..i] == grants[..i];
      if grants[i].scope.Rank() > top.Rank() {
        top := grants[i].scope;
      }
    }
    assert grants[..|grants|] == grants;
  }

  /* ------------------------------------------------------------ asking the set */

  // `has`: the key alone, or with at least a scope.
  predicate Has(permissions: PermissionSet, key: string, scope: Option<Scope>) {
    key in permissions.best && (scope.Some? ==> permissions.best[key].Rank() >= scope.value.Rank())
  }

  // `scopeFor`.
  function ScopeFor(permissions: PermissionSet, key: string): Option<Scope> {
    if key in permissions.best then Some(permissions.best[key]) else None
  }

  predicate WideEnough(g: Grant, key: string, scope: Option<Scope>) {
    g.key == key && (scope.Some? ==> g.scope.Rank() >= scope.value.Rank())
  }

  ghost predicate SomeAsWide(grants: seq<Grant>, scope: Scope) {
    exists g :: g in grants && g.scope.Rank() >= scope.Rank()
  }

  lemma SomeOfAll(front: seq<Grant>, last: Grant, scope: Scope)
    ensures SomeAsWide(front + [last], scope) <==> SomeAsWide(front, scope) || last.scope.Rank() >= scope.Rank()
  {
    if last.scope.Rank() >= scope.Rank() {
      assert last in front + [last];
    }
  }

  lemma {:induction false} WidestIsSomeScope(grants: seq<Grant>, scope: Scope)
    ensures Widest(grants).Rank() >= scope.Rank() <==> scope == Own || SomeAsWide(grants, scope)
  {
    hide SomeAsWide;
    if grants == [] {
      NoneAsWide(scope);
    } else {
      var front, last := grants[..|grants| - 1], grants[|grants| - 1];
      WidestIsSomeScope(front, scope);
      SomeOfAll(front, last, scope);
      assert grants == front + [last];
    }
  }

  lemma NoneAsWide(scope: Scope)
    ensures !SomeAsWide([], scope)
  {
  }

  /** The set has a key, with at least a scope, if and only if some grant of it is that wide. */
  lemma HasIsSomeGrant(permissions: PermissionSet, granted: seq<Grant>, key: string, scope: Option<Scope>)
    requires Gathers(permissions, granted)
    ensures Has(permissions, key, scope) <==> exists g :: g in granted && WideEnough(g, key, scope)
    ensures Has(permissions, key, scope) <==>
            ScopeFor(permissions, key).Some? && (scope.Some? ==> ScopeFor(permissions, key).value.Rank() >= scope.value.Rank())
  {
    var list := GrantsFor(granted, key);
    GrantsForHasKey(granted, key);
    if list != [] {
      assert list[0] in list && list[0] in granted;
      if scope.Some? {
        WidestIsSomeScope(list, scope.value);
      }
    }
  }

  ghost predicate Sorted(keys: seq<string>) {
    forall i, j | 0 <= i < j < |keys| :: TextBelow(keys[i], keys[j])
  }

  // `keys`: the granted keys, each once, in order.
  method KeysOf(permissions: PermissionSet) returns (keys: seq<string>)
    ensures Sorted(keys) && forall k :: k in keys <==> k in permissions.best
  {
    keys := [];
    var todo := permissions.best.Keys;
    while todo != {}
      invariant todo <= permissions.best.Keys
      invariant Sorted(keys) && forall k :: k in keys <==> k in permissions.best && k !in todo
      decreases |todo|
    {
      var key :| key in todo;
      keys := InsertKey(keys, key);
      todo := todo - {key};
    }
  }

  method InsertKey(keys: seq<string>, key: string) returns (more: seq<string>)
    requires Sorted(keys) && key !in keys
    ensures Sorted(more) && forall k :: k in more <==> k in keys || k == key
  {
    hide TextBelow;
    var n := |keys|;
    while n > 0 && TextBelow(key, keys[n - 1])
      invariant 0 <= n <= |keys|
      invariant forall i | n <= i < |keys| :: TextBelow(key, keys[i])
    {
      n := n - 1;
    }
    if n > 0 {
      TextTrichotomy(key, keys[n - 1]);
      assert keys[n - 1] in keys;
    }
    forall i | 0 <= i < n
      ensures TextBelow(keys[i], key)
    {
      if i < n - 1 {
        TextTransitive(keys[i], keys[n - 1], key);
      }
    }
    more := keys[..n] + [key] + keys[n..];
    assert keys == keys[..n] + keys[n..];
  }

  /* ------------------------------------------------------------ deciding */

  /** `grantAppliesToRecord`: a grant may be narrowed to an organisation, a team or a service. */
  predicate Applies(ctx: Context, resolvers: Resolvers, grant: Grant, target: Target) {
    if grant.scopeType == None || grant.scopeId == None || grant.scopeId.value == "" then true
    else
      match grant.scopeType.value
      case Organisation =>
        && target.aggregate in resolvers
        && resolvers[target.aggregate].orgId.Some?
        && var orgId := resolvers[target.aggregate].orgId.value(target.record);
           orgId != None && orgId.value != "" && grant.scopeId.value in ctx.organisationIds && orgId == grant.scopeId
      case ByTeam => target.record.groupId == grant.scopeId
      case Service => target.record.serviceId == grant.scopeId
  }

  function Applicable(ctx: Context, resolvers: Resolvers, grants: seq<Grant>, target: Target): seq<Grant> {
    if grants == [] then []
    else
      var last := grants[|grants| - 1];
      Applicable(ctx, resolvers, grants[..|grants| - 1], target) + if Applies(ctx, resolvers, last, target) then [last] else []
  }

  /** `authz.can`. */
  predicate Can(ctx: Context, resolvers: Resolvers, key: string, target: Option<Target>) {
    if ctx.isSystem then true
    else if !Has(ctx.permissions, key, None) then false
    else if target == None then true
    else
      var grants := if key in ctx.permissions.byKey then ctx.permissions.byKey[key] else [];
      var applicable := Applicable(ctx, resolvers, grants, target.value);
      if |grants| > 0 && |applicable| == 0 then false
      else
        var bestScope := Widest(applicable);
        if bestScope == Any then true
        else if target.value.aggregate !in resolvers then false
        else
          var resolver := resolvers[target.value.aggregate];
          if bestScope == Team then resolver.isTeam(ctx, target.value.record) || resolver.isOwn(ctx, target.value.record)
          else resolver.isOwn(ctx, target.value.record)
  }

  /* ------------------------------------------------------------ what the decision means */

  // One scope on its own admits the record.
  ghost predicate Admits(ctx: Context, resolvers: Resolvers, scope: Scope, target: Target) {
    match scope
    case Any => true
    case Team =>
      && target.aggregate in resolvers
      && (resolvers[target.aggregate].isTeam(ctx, target.record) || resolvers[target.aggregate].isOwn(ctx, target.record))
    case Own =>
      target.aggregate in resolvers && resolvers[target.aggregate].isOwn(ctx, target.record)
  }

  // The organisation of the record, where its module says which.
  function OrganisationOf(resolvers: Resolvers, target: Target): Option<string> {
    if target.aggregate in resolvers && resolvers[target.aggregate].orgId.Some? then resolvers[target.aggregate].orgId.value(target.record)
    else None
  }

  // The grant is for one organisation, team or service only.
  predicate NarrowedTo(g: Grant, scopeType: ScopeType, id: string) {
    g.scopeType == Some(scopeType) && g.scopeId == Some(id) && id != ""
  }

  // The record is within the grant: of that team, of that service, or of that organisation, the person being a member.
  ghost predicate Within(ctx: Context, resolvers: Resolvers, g: Grant, target: Target) {
    && (forall id :: NarrowedTo(g, ByTeam, id) ==> target.record.groupId == Some(id))
    && (forall id :: NarrowedTo(g, Service, id) ==> target.record.serviceId == Some(id))
    && (forall id :: NarrowedTo(g, Organisation, id) ==> OrganisationOf(resolvers, target) == Some(id) && id in ctx.organisationIds)
  }

  lemma AppliesWithin(ctx: Context, resolvers: Resolvers, g: Grant, target: Target)
    ensures Applies(ctx, resolvers, g, target) <==> Within(ctx, resolvers, g, target)
  {
    if g.scopeType.Some? && g.scopeId.Some? && g.scopeId.value != "" {
      assert NarrowedTo(g, g.scopeType.value, g.scopeId.value);
    }
  }

  ghost predicate SomeGrantAdmits(ctx: Context, resolvers: Resolvers, granted: seq<Grant>, key: string, target: Target) {
    exists g :: g in granted && g.key == key && Within(ctx, resolvers, g, target) && Admits(ctx, resolvers, g.scope, target)
  }

  lemma {:induction false} GrantsForHasKey(granted: seq<Grant>, key: string)
    ensures forall g :: g in GrantsFor(granted, key) <==> g in granted && g.key == key
  {
    if granted != [] {
      var n := |granted| - 1;
      GrantsForHasKey(granted[..n], key);
      assert granted == granted[..n] + [granted[n]];
    }
  }

  lemma {:induction false} ApplicableApplies(ctx: Context, resolvers: Resolvers, grants: seq<Grant>, target: Target)
    ensures forall g :: g in Applicable(ctx, resolvers, grants, target) <==> g in grants && Applies(ctx, resolvers, g, target)
  {
    hide Applies;
    if grants != [] {
      var n := |grants| - 1;
      ApplicableApplies(ctx, resolvers, grants[..n], target);
      assert grants == grants[..n] + [grants[n]];
    }
  }

  // The widest scope admits exactly when some scope of the list does.
  lemma {:induction false} WidestAdmits(ctx: Context, resolvers: Resolvers, grants: seq<Grant>, target: Target)
    ensures grants != [] ==> (Admits(ctx, resolvers, Widest(grants), target) <==>
                              exists g :: g in grants && Admits(ctx, resolvers, g.scope, target))
  {
    if grants != [] {
      var n := |grants| - 1;
      WidestAdmits(ctx, resolvers, grants[..n], target);
      assert grants == grants[..n] + [grants[n]];
      assert grants[n] in grants;
      if grants[..n] == [] {
        assert forall g :: g in grants <==> g == grants[0];
      }
    }
  }

  /**
   * The decision on a record: a permission set lets someone act exactly when
   * some one grant of that key, on its own, has the record within it and its scope
   * admits it.  Collapsing a list of grants to its widest scope loses nothing.
   */
  lemma CanIsSomeGrant(ctx: Context, resolvers: Resolvers, granted: seq<Grant>, key: string, target: Target)
    requires Gathers(ctx.permissions, granted) && !ctx.isSystem
    ensures Can(ctx, resolvers, key, Some(target)) <==> SomeGrantAdmits(ctx, resolvers, granted, key, target)
  {
    hide Applies, Within, Can, Gathers, Admits;
    CanIsSomeApplying(ctx, resolvers, granted, key, target);
    forall g
      ensures Applies(ctx, resolvers, g, target) <==> Within(ctx, resolvers, g, target)
    {
      AppliesWithin(ctx, resolvers, g, target);
    }
  }

  lemma CanIsSomeApplying(ctx: Context, resolvers: Resolvers, granted: seq<Grant>, key: string, target: Target)
    requires Gathers(ctx.permissions, granted) && !ctx.isSystem
    ensures Can(ctx, resolvers, key, Some(target)) <==>
            exists g :: g in granted && g.key == key && Applies(ctx, resolvers, g, target) && Admits(ctx, resolvers, g.scope, target)
  {
    hide Applies;
    var grants := GrantsFor(granted, key);
    GrantsForHasKey(granted, key);
    assert key in ctx.permissions.best <==> grants != [];
    if key in ctx.permissions.best {
      assert ctx.permissions.byKey[key] == grants;
      var applicable := Applicable(ctx, resolvers, grants, target);
      ApplicableApplies(ctx, resolvers, grants, target);
      WidestAdmits(ctx, resolvers, applicable, target);
      assert Can(ctx, resolvers, key, Some(target)) <==> applicable != [] && Admits(ctx, resolvers, Widest(applicable), target);
    }
  }

  /**
   * One grant alone, wide in scope: narrowed to a team it lets the person act on
   * that team's records and no others, narrowed to a service on that service's, to
   * an organisation on its own if they belong to it, and not narrowed on all.
   */
  lemma NarrowedGrantCovers(ctx: Context, resolvers: Resolvers, g: Grant, target: Target, id: string)
    requires Gathers(ctx.permissions, [g]) && !ctx.isSystem && g.scope == Any
    ensures var allowed := Can(ctx, resolvers, g.key, Some(target));
            && (NarrowedTo(g, ByTeam, id) ==> (allowed <==> target.record.groupId == Some(id)))
            && (NarrowedTo(g, Service, id) ==> (allowed <==> target.record.serviceId == Some(id)))
            && (NarrowedTo(g, Organisation, id) ==>
                  (allowed <==> OrganisationOf(resolvers, target) == Some(id) && id in ctx.organisationIds))
            && (g.scopeType == None || g.scopeId == None || g.scopeId == Some("") ==> allowed)
            && (forall key :: key != g.key ==> !Can(ctx, resolvers, key, Some(target)))
  {
    hide Can, Gathers;
    forall key
      ensures Can(ctx, resolvers, key, Some(target)) <==> key == g.key && Within(ctx, resolvers, g, target)
    {
      CanIsSomeGrant(ctx, resolvers, [g], key, target);
      assert forall h :: h in [g] <==> h == g;
    }
  }

  /** Without a record any grant of the key will do, and the system may do anything. */
  lemma WithoutRecord(ctx: Context, resolvers: Resolvers, granted: seq<Grant>, key: string, target: Option<Target>)
    requires Gathers(ctx.permissions, granted)
    ensures ctx.isSystem ==> Can(ctx, resolvers, key, target)
    ensures !ctx.isSystem ==> (Can(ctx, resolvers, key, None) <==> exists g :: g in granted && g.key == key)
  {
    hide Widest, Applicable;
    HasIsSomeGrant(ctx.permissions, granted, key, None);
    assert forall g :: WideEnough(g, key, None) <==> g.key == key;
  }

  // Resolvers that look at the person and the record, not at what the person was granted.
  ghost predicate SamePerson(resolvers: Resolvers, ctx: Context, ctx': Context) {
    && ctx.organisationIds == ctx'.organisationIds && ctx.isSystem == ctx'.isSystem
    && forall aggregate, record: Record | aggregate in resolvers ::
         && resolvers[aggregate].isOwn(ctx, record) == resolvers[aggregate].isOwn(ctx', record)
         && resolvers[aggregate].isTeam(ctx, record) == resolvers[aggregate].isTeam(ctx', record)
  }

  lemma SameForSamePerson(ctx: Context, ctx': Context, resolvers: Resolvers, g: Grant, target: Target)
    requires SamePerson(resolvers, ctx, ctx')
    ensures Within(ctx, resolvers, g, target) == Within(ctx', resolvers, g, target)
    ensures Admits(ctx, resolvers, g.scope, target) == Admits(ctx', resolvers, g.scope, target)
  {
  }

  lemma KeyStaysGranted(granted: seq<Grant>, more: seq<Grant>, key: string)
    requires (forall g :: g in granted ==> g in more) && GrantsFor(granted, key) != []
    ensures GrantsFor(more, key) != []
  {
    GrantsForHasKey(granted, key);
    GrantsForHasKey(more, key);
    assert GrantsFor(granted, key)[0] in GrantsFor(more, key);
  }

  /** More grants never turn an allowed check into a refusal, with or without a record. */
  lemma GrantsOnlyWiden(ctx: Context, ctx': Context, resolvers: Resolvers, granted: seq<Grant>, more: seq<Grant>,
                        key: string, target: Option<Target>)
    requires Gathers(ctx.permissions, granted) && Gathers(ctx'.permissions, more)
    requires (forall g :: g in granted ==> g in more) && SamePerson(resolvers, ctx, ctx')
    requires Can(ctx, resolvers, key, target)
    ensures Can(ctx', resolvers, key, target)
  {
    if !ctx.isSystem {
      match target {
        case None =>
          hide Widest, Applicable, GrantsFor;
          if GrantsFor(granted, key) != [] {
            KeyStaysGranted(granted, more, key);
          }
        case Some(t) =>
          hide Within, Admits, Can, GrantsFor, Gathers;
          CanIsSomeGrant(ctx, resolvers, granted, key, t);
          CanIsSomeGrant(ctx', resolvers, more, key, t);
          var g :| g in granted && g.key == key && Within(ctx, resolvers, g, t) && Admits(ctx, resolvers, g.scope, t);
          SameForSamePerson(ctx, ctx', resolvers, g, t);
      }
    }
  }
}
