/** The transaction that publishes a new version of the inbox binding (`SQL_PUBLISH` of
    `publish_inbox_binding_version.py`): everything that names the inbox gets a new
    version, and what was published stays as it was. */
module InboxPublication {
  import opened Wrappers
  import opened Sets
  import opened Text
  import opened VersionedTables
  import opened InstanceTables

  /** The reference of the channel of an inbox. */
  function ChannelOf(inbox: int): string {
    "chatwoot-inbox:" + if inbox < 0 then "-" + Decimal(-inbox) else Decimal(inbox)
  }

  // -------------------------------------------------------------------------
  // What each step makes of the rows
  // -------------------------------------------------------------------------

  function Same<Row>(): Row -> Row {
    row => row
  }

  function Retire(): Binding -> Binding {
    (row: Binding) => row.(status := Retired)
  }

  function Follow(k: Key<string>, moved: map<Key<string>, int>): Key<string> {
    if k in moved then New(k, moved) else k
  }

  function Rebind(inbox: int, scopes: map<Key<string>, int>): (Key<Product>, Binding) -> Binding {
    (k: Key<Product>, row: Binding) => row.(status := Active, inbox := inbox, scope := Follow(row.scope, scopes))
  }

  function Republish(inbox: int, approver: string): (Key<string>, Inbound) -> Inbound {
    (k: Key<string>, row: Inbound) => row.(published := true, inbox := inbox, approver := approver)
  }

  function RepublishPilot(inbox: int, approver: string): (Key<string>, Pilot) -> Pilot {
    (k: Key<string>, row: Pilot) =>
      row.(published := true, inbox := inbox, channel := ChannelOf(inbox), approver := approver)
  }

  function PointToInbound(scopes: map<Key<string>, int>): (Key<string>, Handoff) -> Handoff {
    (k: Key<string>, row: Handoff) =>
      row.(inbound := match row.inbound case None => None case Some(scope) => Some(Follow(scope, scopes)))
  }

  function PointToPilot(pilots: map<Key<string>, int>): (Key<string>, Handoff) -> Handoff {
    (k: Key<string>, row: Handoff) =>
      row.(pilot := match row.pilot case None => None case Some(scope) => Some(Follow(scope, pilots)))
  }

  /** The rows of the catalog of one scope, in their order. */
  function OffersAt(catalog: seq<Offer>, scope: Key<string>): seq<Offer> {
    if catalog == [] then []
    else (if catalog[0].scope == scope then [catalog[0]] else []) + OffersAt(catalog[1..], scope)
  }

  /** The active ones of a tenant, for another version of the scope. */
  function Copies(offers: seq<Offer>, tenant: string, to: Key<string>, approver: string): seq<Offer> {
    if offers == [] then []
    else
      (if offers[0].tenant == tenant && offers[0].active then [offers[0].(scope := to, approver := approver)] else [])
      + Copies(offers[1..], tenant, to, approver)
  }

  // -------------------------------------------------------------------------
  // What is selected
  // -------------------------------------------------------------------------

  function ActiveOf(t: Bindings, tenant: string): set<Key<Product>> {
    set k | k in t && k.name.tenant == tenant && t[k].status == Active
  }

  function ScopesOf(tables: Tables, tenant: string): set<Key<string>> {
    set k | k in ActiveOf(tables.bindings, tenant) && tables.bindings[k].scope in tables.inbound :: tables.bindings[k].scope
  }

  function InboxesOf(t: Bindings, tenant: string): set<int> {
    set k | k in ActiveOf(t, tenant) :: t[k].inbox
  }

  function AccountsOf(t: Bindings, tenant: string): set<int> {
    set k | k in ActiveOf(t, tenant) :: t[k].account
  }

  /** The pilot scopes whose control runs a version with that inbox. */
  function PilotsOf(tables: Tables, tenant: string, inbox: int): set<string> {
    set s | s in tables.controls && Key(s, tables.controls[s].version) in tables.pilots
            && tables.pilots[Key(s, tables.controls[s].version)].tenant == tenant
            && tables.pilots[Key(s, tables.controls[s].version)].inbox == inbox
  }

  function HandoffsOfInbound(t: map<Key<string>, Handoff>, scopes: map<Key<string>, int>): set<Key<string>> {
    set k | k in t && t[k].active && t[k].inbound.Some? && t[k].inbound.value in scopes
  }

  function HandoffsOfPilots(t: map<Key<string>, Handoff>, pilots: map<Key<string>, int>): set<Key<string>> {
    set k | k in t && t[k].active && t[k].pilot.Some? && t[k].pilot.value in pilots
  }

  // -------------------------------------------------------------------------
  // The relation between the tables before and after
  // -------------------------------------------------------------------------

  /** What moved: the inbox it comes from and the version each key was moved to. */
  datatype Plan = Plan(
    from: int,
    bindings: map<Key<Product>, int>,
    scopes: map<Key<string>, int>,
    handoffs: map<Key<string>, int>,
    pilots: map<Key<string>, int>,
    pilotHandoffs: map<Key<string>, int>)

  ghost predicate CatalogCopied(
      before: seq<Offer>, tenant: string, scopes: map<Key<string>, int>, approver: string, after: seq<Offer>)
  {
    && before <= after
    && (forall k :: k in scopes ==>
          OffersAt(after, New(k, scopes))
          == OffersAt(before, New(k, scopes)) + Copies(OffersAt(before, k), tenant, New(k, scopes), approver))
    && (forall s :: (forall k :: k in scopes ==> New(k, scopes) != s) ==> OffersAt(after, s) == OffersAt(before, s))
  }

  /** The purchase policy of a binding goes with it to the new version. */
  ghost predicate PurchasesCopied(
      before: map<Key<Product>, string>, moved: map<Key<Product>, int>, after: map<Key<Product>, string>)
  {
    && (forall x :: x in before ==> x in after && after[x] == before[x])
    && (forall k :: k in moved && k in before ==> New(k, moved) in after && after[New(k, moved)] == before[k])
    && (forall x :: x in after ==> x in before || exists k :: k in moved && k in before && x == New(k, moved))
  }

  ghost predicate ControlsMoved(
      before: map<string, Control>, selected: set<string>, moved: map<Key<string>, int>, after: map<string, Control>)
  {
    && after.Keys == before.Keys && selected <= before.Keys
    && moved.Keys == (set s | s in selected :: Key(s, before[s].version))
    && forall s :: s in before ==>
         after[s] == if s in selected
                     then Control(moved[Key(s, before[s].version)], Inactive, before[s].generation + 1)
                     else before[s]
  }

  ghost predicate HandoffsMoved(
      before: map<Key<string>, Handoff>, plan: Plan, middle: map<Key<string>, Handoff>, after: map<Key<string>, Handoff>)
  {
    && plan.handoffs.Keys == HandoffsOfInbound(before, plan.scopes)
    && Extends(before, plan.handoffs, Same(), PointToInbound(plan.scopes), middle)
    && plan.pilotHandoffs.Keys == HandoffsOfPilots(middle, plan.pilots)
    && Extends(middle, plan.pilotHandoffs, Same(), PointToPilot(plan.pilots), after)
  }

  /** The bindings with their purchase policies, and the inbound scopes they name. */
  ghost predicate BindingsPublished(before: Tables, tenant: string, inbox: int, approver: string, plan: Plan, after: Tables) {
    && plan.bindings.Keys == ActiveOf(before.bindings, tenant)
    && Extends(before.bindings, plan.bindings, Retire(), Rebind(inbox, plan.scopes), after.bindings)
    && PurchasesCopied(before.purchases, plan.bindings, after.purchases)
    && InboundPublished(before, tenant, inbox, approver, plan, after)
  }

  ghost predicate InboundPublished(before: Tables, tenant: string, inbox: int, approver: string, plan: Plan, after: Tables) {
    && plan.scopes.Keys == ScopesOf(before, tenant)
    && (forall k :: k in plan.bindings && k in before.bindings ==> before.bindings[k].scope in plan.scopes)
    && (forall k :: k in plan.scopes && k in before.inbound ==>
          before.inbound[k].published && before.inbound[k].inbox == plan.from)
    && Extends(before.inbound, plan.scopes, Same(), Republish(inbox, approver), after.inbound)
    && CatalogCopied(before.catalog, tenant, plan.scopes, approver, after.catalog)
  }

  /** The scopes of the pilot with their controls, and the handoff policies. */
  ghost predicate RuntimePublished(before: Tables, tenant: string, inbox: int, approver: string, plan: Plan, after: Tables) {
    && PilotsMoved(before, PilotsOf(before, tenant, plan.from), inbox, approver, plan.pilots, after)
    && (exists middle :: HandoffsMoved(before.handoffs, plan, middle, after.handoffs))
  }

  ghost predicate PilotsMoved(
      before: Tables, done: set<string>, inbox: int, approver: string, moved: map<Key<string>, int>, now: Tables)
  {
    && Extends(before.pilots, moved, Same(), RepublishPilot(inbox, approver), now.pilots)
    && ControlsMoved(before.controls, done, moved, now.controls)
  }

  /** What a publication that does not raise leaves. */
  ghost predicate Published(before: Tables, tenant: string, inbox: int, approver: string, plan: Plan, after: Tables) {
    && InboxesOf(before.bindings, tenant) == {plan.from} && plan.from != inbox
    && ActiveOf(before.bindings, tenant) != {}
    && after.discounts == before.discounts && after.intents == before.intents
    && BindingsPublished(before, tenant, inbox, approver, plan, after)
    && RuntimePublished(before, tenant, inbox, approver, plan, after)
  }

  // -------------------------------------------------------------------------
  // Step 1: the inbound scopes and their catalogs
  // -------------------------------------------------------------------------

  lemma {:induction false} OffersOfConcatenation(a: seq<Offer>, b: seq<Offer>, scope: Key<string>)
    ensures OffersAt(a + b, scope) == OffersAt(a, scope) + OffersAt(b, scope)
  {
    if a == [] {
      assert a + b == b;
    } else {
      assert (a + b)[1..] == a[1..] + b;
      OffersOfConcatenation(a[1..], b, scope);
    }
  }

  lemma {:induction false} CopiesAreAt(offers: seq<Offer>, tenant: string, to: Key<string>, approver: string, scope: Key<string>)
    ensures OffersAt(Copies(offers, tenant, to, approver), scope)
            == if scope == to then Copies(offers, tenant, to, approver) else []
  {
    if offers != [] {
      var first := if offers[0].tenant == tenant && offers[0].active then [offers[0].(scope := to, approver := approver)] else [];
      CopiesAreAt(offers[1..], tenant, to, approver, scope);
      OffersOfConcatenation(first, Copies(offers[1..], tenant, to, approver), scope);
    }
  }

  lemma OffersAfterCopy(current: seq<Offer>, offers: seq<Offer>, tenant: string, to: Key<string>, approver: string, s: Key<string>)
    ensures OffersAt(current + Copies(offers, tenant, to, approver), s)
            == OffersAt(current, s) + if s == to then Copies(offers, tenant, to, approver) else []
  {
    OffersOfConcatenation(current, Copies(offers, tenant, to, approver), s);
    CopiesAreAt(offers, tenant, to, approver, s);
  }

  /** What the offers of a scope are after the copy of another one into `to`. */
  lemma OffersAtAfterCopy(
      before: seq<Offer>, tenant: string, approver: string, current: seq<Offer>, k: Key<string>, to: Key<string>,
      next: seq<Offer>, s: Key<string>)
    requires OffersAt(current, k) == OffersAt(before, k)
    requires next == current + Copies(OffersAt(current, k), tenant, to, approver)
    ensures OffersAt(next, s)
            == OffersAt(current, s) + if s == to then Copies(OffersAt(before, k), tenant, to, approver) else []
  {
    OffersAfterCopy(current, OffersAt(current, k), tenant, to, approver, s);
  }

  /** A scope that was not copied before has the offers it had at the start. */
  lemma StillAsBefore(
      before: seq<Offer>, tenant: string, scopes: map<Key<string>, int>, approver: string, current: seq<Offer>, s: Key<string>)
    requires CatalogCopied(before, tenant, scopes, approver, current)
    requires forall j :: j in scopes ==> New(j, scopes) != s
    ensures OffersAt(current, s) == OffersAt(before, s)
  {
  }

  lemma OneMoreScope(
      before: seq<Offer>, tenant: string, scopes: map<Key<string>, int>, approver: string, current: seq<Offer>,
      k: Key<string>, v: int, next: seq<Offer>, j: Key<string>)
    requires CatalogCopied(before, tenant, scopes, approver, current)
    requires k !in scopes && forall i :: i in scopes ==> New(i, scopes) != Key(k.name, v) && New(i, scopes) != k
    requires next == current + Copies(OffersAt(current, k), tenant, Key(k.name, v), approver)
    requires j in scopes || j == k
    ensures var to := if j == k then Key(k.name, v) else New(j, scopes);
            OffersAt(next, to) == OffersAt(before, to) + Copies(OffersAt(before, j), tenant, to, approver)
  {
    StillAsBefore(before, tenant, scopes, approver, current, k);
    if j == k {
      StillAsBefore(before, tenant, scopes, approver, current, Key(k.name, v));
    }
    OffersAtAfterCopy(before, tenant, approver, current, k, Key(k.name, v), next,
                      if j == k then Key(k.name, v) else New(j, scopes));
  }

  /** One more scope copied, out of the catalog as it is by then. */
  lemma OneMoreCatalog(
      before: seq<Offer>, tenant: string, scopes: map<Key<string>, int>, approver: string, current: seq<Offer>,
      k: Key<string>, v: int, next: seq<Offer>)
    requires CatalogCopied(before, tenant, scopes, approver, current)
    requires k !in scopes && forall j :: j in scopes ==> New(j, scopes) != Key(k.name, v) && New(j, scopes) != k
    requires next == current + Copies(OffersAt(current, k), tenant, Key(k.name, v), approver)
    ensures CatalogCopied(before, tenant, scopes[k := v], approver, next)
  {
    var to, more := Key(k.name, v), scopes[k := v];
    assert New(k, more) == to;
    assert forall j :: j in scopes ==> New(j, more) == New(j, scopes);
    forall j | j in more
      ensures OffersAt(next, New(j, more))
              == OffersAt(before, New(j, more)) + Copies(OffersAt(before, j), tenant, New(j, more), approver)
    {
      OneMoreScope(before, tenant, scopes, approver, current, k, v, next, j);
    }
    forall s | forall j :: j in more ==> New(j, more) != s
      ensures OffersAt(next, s) == OffersAt(before, s)
    {
      assert New(k, more) != s;
      assert forall j :: j in scopes ==> j in more && New(j, scopes) != s;
      StillAsBefore(before, tenant, scopes, approver, current, k);
      StillAsBefore(before, tenant, scopes, approver, current, s);
      OffersAtAfterCopy(before, tenant, approver, current, k, to, next, s);
    }
  }

  ghost predicate ScopesMoved(
      inbound: map<Key<string>, Inbound>, moved: map<Key<string>, int>, catalog: seq<Offer>, tenant: string, inbox: int,
      approver: string, after: map<Key<string>, Inbound>, offers: seq<Offer>)
  {
    && Extends(inbound, moved, Same(), Republish(inbox, approver), after)
    && CatalogCopied(catalog, tenant, moved, approver, offers)
  }

  /** One turn of the loop over the inbound scopes. */
  method MoveScope(
      k: Key<string>, current: map<Key<string>, Inbound>, offers: seq<Offer>, tenant: string, inbox: int, approver: string,
      ghost inbound: map<Key<string>, Inbound>, ghost moved: map<Key<string>, int>, ghost catalog: seq<Offer>)
    returns (v: int, after: map<Key<string>, Inbound>, more: seq<Offer>)
    requires ScopesMoved(inbound, moved, catalog, tenant, inbox, approver, current, offers)
    requires k in inbound && k !in moved && k in current
    ensures ScopesMoved(inbound, moved[k := v], catalog, tenant, inbox, approver, after, more)
  {
    ghost var edit := Republish(inbox, approver);
    v := NextVersion(current, k.name, k.version);
    NewKeysApart(inbound, moved, Same(), edit, current, k, v);
    more := offers + Copies(OffersAt(offers, k), tenant, Key(k.name, v), approver);
    OneMoreCatalog(catalog, tenant, moved, approver, offers, k, v, more);
    after := current[Key(k.name, v) := current[k].(published := true, inbox := inbox, approver := approver)];
    assert current[k] == inbound[k];
    assert after == current[k := Same()(inbound[k])][Key(k.name, v) := edit(k, inbound[k])];
    OneMoreMoved(inbound, moved, Same(), edit, current, k, v, after);
  }

  /** The loop over the inbound scopes. */
  method MoveScopes(
      inbound: map<Key<string>, Inbound>, catalog: seq<Offer>, selected: set<Key<string>>, tenant: string, from: int,
      inbox: int, approver: string)
    returns (r: Result<map<Key<string>, int>, PublishError>, after: map<Key<string>, Inbound>, offers: seq<Offer>)
    requires selected <= inbound.Keys
    ensures r.Failure? ==> r.error == ScopeMismatch
    ensures r.Success? <==> forall k :: k in selected ==> inbound[k].published && inbound[k].inbox == from
    ensures r.Success? ==>
              r.value.Keys == selected && ScopesMoved(inbound, r.value, catalog, tenant, inbox, approver, after, offers)
  {
    var rest := selected;
    var moved: map<Key<string>, int> := map[];
    after, offers := inbound, catalog;
    NothingMoved(inbound, Same(), Republish(inbox, approver));
    while rest != {}
      invariant rest <= selected && moved.Keys == selected - rest
      invariant forall k :: k in moved ==> inbound[k].published && inbound[k].inbox == from
      invariant ScopesMoved(inbound, moved, catalog, tenant, inbox, approver, after, offers)
    {
      var k := Any(rest);
      if !inbound[k].published || inbound[k].inbox != from {
        return Failure(ScopeMismatch), after, offers;
      }
      var v;
      v, after, offers := MoveScope(k, after, offers, tenant, inbox, approver, inbound, moved, catalog);
      rest, moved := rest - {k}, moved[k := v];
    }
    r := Success(moved);
  }

  /** A number not used yet is not one that was given, and those are not old keys. */
  lemma NewKeysApart<N, Row>(
      before: map<Key<N>, Row>, moved: map<Key<N>, int>, leave: Row -> Row, edit: (Key<N>, Row) -> Row,
      current: map<Key<N>, Row>, k: Key<N>, v: int)
    requires Extends(before, moved, leave, edit, current) && k in before && IsNext(current, k.name, v)
    ensures forall j :: j in moved ==> New(j, moved) != Key(k.name, v) && New(j, moved) != k
    ensures Key(k.name, v) !in current
  {
    forall j | j in moved
      ensures New(j, moved) != Key(k.name, v) && New(j, moved) != k
    {
      assert New(j, moved) in current;
    }
  }

  // -------------------------------------------------------------------------
  // Step 2: the bindings and their purchase policies
  // -------------------------------------------------------------------------

  ghost predicate BindingsMoved(
      before: Tables, moved: map<Key<Product>, int>, inbox: int, scopes: map<Key<string>, int>, now: Tables)
  {
    && Extends(before.bindings, moved, Retire(), Rebind(inbox, scopes), now.bindings)
    && PurchasesCopied(before.purchases, moved, now.purchases)
  }

  lemma ReplacementIsAllowed(b: Bindings, k: Key<Product>, next: Key<Product>, approved: Binding)
    requires OneActive(b) && k in b && b[k].status == Active && next !in b && next.name == k.name
    requires approved.status == Approved
    ensures OneActive(b[next := approved])
    ensures OneActive(b[next := approved][k := b[k].(status := Retired)])
    ensures OneActive(b[k := b[k].(status := Retired)][next := approved.(status := Active)])
  {
    assert forall j :: j in b && j != k && j.name == k.name ==> b[j].status != Active;
  }

  /** The three statements: the new version enters approved, the old one retires, the
      new one becomes active. None of them is refused. */
  method ReplaceBinding(db: Database, k: Key<Product>, v: int, approved: Binding) returns (ok: bool)
    requires OneActive(db.tables.bindings) && approved.status == Approved
    requires k in db.tables.bindings && db.tables.bindings[k].status == Active
    requires Key(k.name, v) !in db.tables.bindings
    modifies db
    ensures ok && OneActive(db.tables.bindings)
    ensures var b := old(db.tables.bindings);
            db.tables == old(db.tables).(bindings := b[k := b[k].(status := Retired)][Key(k.name, v) := approved.(status := Active)])
  {
    var next := Key(k.name, v);
    ghost var b := db.tables.bindings;
    ReplacementIsAllowed(b, k, next, approved);
    ok := db.InsertBinding(next, approved);
    if ok {
      ok := db.SetStatus(k, Retired);
    }
    if ok {
      assert b[next := approved][k := b[k].(status := Retired)][next := approved.(status := Active)]
          == b[k := b[k].(status := Retired)][next := approved.(status := Active)];
      ok := db.SetStatus(next, Active);
    }
  }

  /** The purchase policy of one binding. */
  method CopyPurchase(
      current: map<Key<Product>, string>, k: Key<Product>, v: int,
      ghost bindings: Bindings, ghost before: map<Key<Product>, string>, ghost moved: map<Key<Product>, int>)
    returns (after: map<Key<Product>, string>)
    requires Fresh(bindings, moved) && PurchasesCopied(before, moved, current)
    requires before.Keys <= bindings.Keys
    requires k in bindings && k !in moved && Fresh(bindings, moved[k := v])
    ensures PurchasesCopied(before, moved[k := v], after)
  {
    after := current;
    if k in current {
      after := current[Key(k.name, v) := current[k]];
    }
    NewestIsUnused(bindings, moved, k, v);
    OneMorePurchase(before, moved, current, k, v, after);
  }

  lemma NewestIsUnused(bindings: Bindings, moved: map<Key<Product>, int>, k: Key<Product>, v: int)
    requires Fresh(bindings, moved) && k in bindings && k !in moved && Fresh(bindings, moved[k := v])
    ensures Key(k.name, v) !in bindings
    ensures forall j :: j in moved ==> New(j, moved) !in bindings && New(j, moved) != Key(k.name, v)
  {
    var more := moved[k := v];
    assert New(k, more) == Key(k.name, v);
    assert forall j :: j in moved ==> New(j, more) == New(j, moved);
  }

  lemma OneMorePurchase(
      before: map<Key<Product>, string>, moved: map<Key<Product>, int>,
      current: map<Key<Product>, string>, k: Key<Product>, v: int, after: map<Key<Product>, string>)
    requires PurchasesCopied(before, moved, current) && Key(k.name, v) !in before && k !in moved
    requires forall j :: j in moved ==> New(j, moved) !in before && New(j, moved) != Key(k.name, v) && New(j, moved) != k
    requires after == if k in current then current[Key(k.name, v) := current[k]] else current
    ensures PurchasesCopied(before, moved[k := v], after)
  {
    var more := moved[k := v];
    assert New(k, more) == Key(k.name, v);
    assert forall j :: j in moved ==> New(j, more) == New(j, moved);
    forall j | j in more && j in before
      ensures New(j, more) in after && after[New(j, more)] == before[j]
    {
      assert j != k ==> New(j, moved) in current && New(j, more) != Key(k.name, v);
    }
    forall x | x in after
      ensures x in before || exists j :: j in more && j in before && x == New(j, more)
    {
      if x in current && x !in before {
        var j :| j in moved && j in before && x == New(j, moved);
        assert j in more;
      }
    }
  }

  /** One turn of the loop over the bindings. */
  method MoveBinding(
      db: Database, k: Key<Product>, inbox: int, scopes: map<Key<string>, int>,
      ghost before: Tables, ghost moved: map<Key<Product>, int>)
    returns (r: Result<int, PublishError>)
    requires OneActive(db.tables.bindings) && BindingsMoved(before, moved, inbox, scopes, db.tables)
    requires before.purchases.Keys <= before.bindings.Keys
    requires k in before.bindings && before.bindings[k].status == Active && k !in moved
    modifies db
    ensures OneActive(db.tables.bindings)
    ensures db.tables == old(db.tables).(bindings := db.tables.bindings, purchases := db.tables.purchases)
    ensures r.Failure? ==> r.error == NotNullViolation
    ensures r.Success? <==> before.bindings[k].scope in scopes
    ensures r.Success? ==> BindingsMoved(before, moved[k := r.value], inbox, scopes, db.tables)
  {
    ghost var current := db.tables.bindings;
    var row := db.tables.bindings[k];
    assert row == before.bindings[k];
    if row.scope !in scopes {
      return Failure(NotNullViolation);
    }
    var v := NextVersion(db.tables.bindings, k.name, k.version);
    var scope := Key(row.scope.name, scopes[row.scope]);
    NewKeysApart(before.bindings, moved, Retire(), Rebind(inbox, scopes), current, k, v);
    var ok := ReplaceBinding(db, k, v, row.(status := Approved, inbox := inbox, scope := scope));
    OneMoreMoved(before.bindings, moved, Retire(), Rebind(inbox, scopes), current, k, v, db.tables.bindings);
    if !ok {
      return Failure(UniqueViolation);
    }
    var purchases := CopyPurchase(db.tables.purchases, k, v, before.bindings, before.purchases, moved);
    db.tables := db.tables.(purchases := purchases);
    r := Success(v);
  }

  /** The loop over the bindings. */
  method MoveBindings(db: Database, selected: set<Key<Product>>, inbox: int, scopes: map<Key<string>, int>)
    returns (r: Result<map<Key<Product>, int>, PublishError>)
    requires db.tables.Valid() && selected <= db.tables.bindings.Keys
    requires forall k :: k in selected ==> db.tables.bindings[k].status == Active
    modifies db
    ensures db.tables == old(db.tables).(bindings := db.tables.bindings, purchases := db.tables.purchases)
    ensures OneActive(db.tables.bindings)
    ensures r.Failure? ==> r.error == NotNullViolation
    ensures r.Success? <==> forall k :: k in selected ==> old(db.tables.bindings)[k].scope in scopes
    ensures r.Success? ==> r.value.Keys == selected && BindingsMoved(old(db.tables), r.value, inbox, scopes, db.tables)
  {
    ghost var before := db.tables;
    var rest := selected;
    var moved: map<Key<Product>, int> := map[];
    NothingMoved(before.bindings, Retire(), Rebind(inbox, scopes));
    while rest != {}
      invariant rest <= selected && moved.Keys == selected - rest
      invariant forall k :: k in moved ==> before.bindings[k].scope in scopes
      invariant OneActive(db.tables.bindings) && BindingsMoved(before, moved, inbox, scopes, db.tables)
      invariant db.tables == before.(bindings := db.tables.bindings, purchases := db.tables.purchases)
    {
      var k := Any(rest);
      var one := MoveBinding(db, k, inbox, scopes, before, moved);
      if one.Failure? {
        return Failure(one.error);
      }
      rest, moved := rest - {k}, moved[k := one.value];
    }
    r := Success(moved);
  }

  // -------------------------------------------------------------------------
  // Step 3: the scopes of the pilot and their controls
  // -------------------------------------------------------------------------

  lemma OneMoreControl(
      before: map<string, Control>, done: set<string>, moved: map<Key<string>, int>, current: map<string, Control>,
      s: string, v: int)
    requires ControlsMoved(before, done, moved, current) && s in before && s !in done
    ensures ControlsMoved(before, done + {s}, moved[Key(s, before[s].version) := v],
                          current[s := Control(v, Inactive, before[s].generation + 1)])
  {
    var more := moved[Key(s, before[s].version) := v];
    assert forall t :: t in done + {s} <==> t in done || t == s;
    assert more.Keys == moved.Keys + {Key(s, before[s].version)};
  }

  /** The insert of the next version of a pilot scope. */
  method InsertPilot(
      current: map<Key<string>, Pilot>, k: Key<string>, inbox: int, approver: string,
      ghost before: map<Key<string>, Pilot>, ghost moved: map<Key<string>, int>)
    returns (v: int, after: map<Key<string>, Pilot>)
    requires Extends(before, moved, Same(), RepublishPilot(inbox, approver), current)
    requires k in before && k in current && k !in moved
    ensures Extends(before, moved[k := v], Same(), RepublishPilot(inbox, approver), after)
    ensures v != k.version && Key(k.name, v) in after && after[Key(k.name, v)].published
  {
    ghost var edit := RepublishPilot(inbox, approver);
    v := NextVersion(current, k.name, k.version);
    after := current[Key(k.name, v) :=
      current[k].(published := true, inbox := inbox, channel := ChannelOf(inbox), approver := approver)];
    assert current[k] == before[k];
    assert after == current[k := Same()(before[k])][Key(k.name, v) := edit(k, before[k])];
    OneMoreMoved(before, moved, Same(), edit, current, k, v, after);
  }

  /** One turn of the loop over the pilot scopes. */
  method MovePilot(
      db: Database, s: string, inbox: int, approver: string,
      ghost before: Tables, ghost done: set<string>, ghost moved: map<Key<string>, int>)
    returns (r: Result<int, PublishError>)
    requires PilotsMoved(before, done, inbox, approver, moved, db.tables)
    requires s in before.controls && s !in done && Key(s, before.controls[s].version) in before.pilots
    modifies db
    ensures db.tables == old(db.tables).(pilots := db.tables.pilots, controls := db.tables.controls)
    ensures r.Failure? ==> r.error == ActivationRefused
    ensures r.Success? <==> before.controls[s].state in {Inactive, Paused}
    ensures r.Success? ==>
              PilotsMoved(before, done + {s}, inbox, approver, moved[Key(s, before.controls[s].version) := r.value], db.tables)
  {
    var control := db.tables.controls[s];
    assert control == before.controls[s];
    var k := Key(s, control.version);
    var v, pilots := InsertPilot(db.tables.pilots, k, inbox, approver, before.pilots, moved);
    OneMoreControl(before.controls, done, moved, db.tables.controls, s, v);
    db.tables := db.tables.(pilots := pilots);
    var activation := db.Activate(s, v, control.generation);
    if activation.Failure? || activation.value != Activation(v, Inactive, true) {
      return Failure(ActivationRefused);
    }
    r := Success(v);
  }

  /** The loop over the pilot scopes. */
  method MovePilots(db: Database, selected: set<string>, inbox: int, approver: string)
    returns (r: Result<map<Key<string>, int>, PublishError>)
    requires forall s :: s in db.tables.controls ==> Key(s, db.tables.controls[s].version) in db.tables.pilots
    requires selected <= db.tables.controls.Keys
    modifies db
    ensures db.tables == old(db.tables).(pilots := db.tables.pilots, controls := db.tables.controls)
    ensures r.Failure? ==> r.error == ActivationRefused
    ensures r.Success? <==> forall s :: s in selected ==> old(db.tables.controls)[s].state in {Inactive, Paused}
    ensures r.Success? ==> PilotsMoved(old(db.tables), selected, inbox, approver, r.value, db.tables)
  {
    ghost var before := db.tables;
    var rest := selected;
    var moved: map<Key<string>, int> := map[];
    NothingMoved(before.pilots, Same(), RepublishPilot(inbox, approver));
    while rest != {}
      invariant rest <= selected
      invariant forall s :: s in selected - rest ==> before.controls[s].state in {Inactive, Paused}
      invariant PilotsMoved(before, selected - rest, inbox, approver, moved, db.tables)
      invariant db.tables == before.(pilots := db.tables.pilots, controls := db.tables.controls)
    {
      var s := Any(rest);
      ghost var done := selected - rest;
      var version := db.tables.controls[s].version;
      assert db.tables.controls[s] == before.controls[s];
      var one := MovePilot(db, s, inbox, approver, before, done, moved);
      if one.Failure? {
        return Failure(one.error);
      }
      OneTaken(selected, rest, s);
      rest, moved := rest - {s}, moved[Key(s, version) := one.value];
    }
    assert selected - rest == selected;
    r := Success(moved);
  }

  // -------------------------------------------------------------------------
  // Step 4: the verification
  // -------------------------------------------------------------------------

  /** `resolve_commercial_ally_runtime_binding`: the active row with that key. */
  function Resolve(t: Bindings, k: Key<Product>): set<Key<Product>> {
    set j | j in t && j == k && t[j].status == Active
  }

  predicate BindingResolves(tables: Tables, k: Key<Product>, inbox: int)
    requires k in tables.bindings
  {
    var row := tables.bindings[k];
    && row.inbox == inbox && |Resolve(tables.bindings, k)| == 1
    && row.scope in tables.inbound && tables.inbound[row.scope].published && tables.inbound[row.scope].inbox == inbox
  }

  predicate PilotMovedTo(tables: Tables, scope: string, version: int, inbox: int) {
    scope in tables.controls && Key(scope, tables.controls[scope].version) in tables.pilots ==>
      && tables.controls[scope].version == version
      && tables.pilots[Key(scope, version)].inbox == inbox
      && tables.pilots[Key(scope, version)].channel == ChannelOf(inbox)
  }

  predicate Verifies(tables: Tables, tenant: string, inbox: int, plan: Plan) {
    && (forall k :: k in ActiveOf(tables.bindings, tenant) ==> BindingResolves(tables, k, inbox))
    && |ActiveOf(tables.bindings, tenant)| == |plan.bindings.Keys|
    && (forall k :: k in plan.pilots ==> PilotMovedTo(tables, k.name, plan.pilots[k], inbox))
  }

  /** The active bindings afterwards are the new versions of the ones there were. */
  lemma ActiveAfter(
      before: Bindings, tenant: string, moved: map<Key<Product>, int>, inbox: int, scopes: map<Key<string>, int>, after: Bindings)
    requires moved.Keys == ActiveOf(before, tenant)
    requires Extends(before, moved, Retire(), Rebind(inbox, scopes), after)
    ensures ActiveOf(after, tenant) == set k | k in moved :: New(k, moved)
  {
    forall x | x in before
      ensures x !in ActiveOf(after, tenant)
    {
      assert x in moved ==> after[x] == Retire()(before[x]);
      assert x !in moved ==> after[x] == before[x] && x !in ActiveOf(before, tenant);
    }
    forall k | k in moved
      ensures New(k, moved) in ActiveOf(after, tenant)
    {
      assert after[New(k, moved)] == Rebind(inbox, scopes)(k, before[k]);
    }
    assert forall x :: x in ActiveOf(after, tenant) ==> x in after;
  }

  lemma BindingResolved(
      before: Tables, tenant: string, inbox: int, approver: string, plan: Plan, after: Tables, k: Key<Product>)
    requires k in plan.bindings && k in before.bindings && before.bindings[k].scope in plan.scopes
    requires Extends(before.bindings, plan.bindings, Retire(), Rebind(inbox, plan.scopes), after.bindings)
    requires Extends(before.inbound, plan.scopes, Same(), Republish(inbox, approver), after.inbound)
    ensures New(k, plan.bindings) in after.bindings && BindingResolves(after, New(k, plan.bindings), inbox)
  {
    var x, scope := New(k, plan.bindings), before.bindings[k].scope;
    assert after.bindings[x] == Rebind(inbox, plan.scopes)(k, before.bindings[k]);
    assert after.inbound[New(scope, plan.scopes)] == Republish(inbox, approver)(scope, before.inbound[scope]);
    assert Resolve(after.bindings, x) == {x};
  }

  lemma BindingsResolve(before: Tables, tenant: string, inbox: int, approver: string, plan: Plan, after: Tables)
    requires plan.bindings.Keys == ActiveOf(before.bindings, tenant)
    requires Extends(before.bindings, plan.bindings, Retire(), Rebind(inbox, plan.scopes), after.bindings)
    requires InboundPublished(before, tenant, inbox, approver, plan, after)
    ensures forall k :: k in ActiveOf(after.bindings, tenant) ==> BindingResolves(after, k, inbox)
  {
    ActiveAfter(before.bindings, tenant, plan.bindings, inbox, plan.scopes, after.bindings);
    forall x | x in ActiveOf(after.bindings, tenant)
      ensures BindingResolves(after, x, inbox)
    {
      var k :| k in plan.bindings && x == New(k, plan.bindings);
      assert k in ActiveOf(before.bindings, tenant);
      BindingResolved(before, tenant, inbox, approver, plan, after, k);
    }
  }

  lemma PilotsArrive(before: Tables, selected: set<string>, inbox: int, approver: string, moved: map<Key<string>, int>, after: Tables)
    requires PilotsMoved(before, selected, inbox, approver, moved, after)
    ensures forall k :: k in moved ==> PilotMovedTo(after, k.name, moved[k], inbox)
  {
    forall k | k in moved
      ensures PilotMovedTo(after, k.name, moved[k], inbox)
    {
      var s :| s in selected && k == Key(s, before.controls[s].version);
      assert after.pilots[New(k, moved)] == RepublishPilot(inbox, approver)(k, before.pilots[k]);
    }
  }

  /** The verification at the end of the transaction never fails. */
  lemma VerificationHolds(before: Tables, tenant: string, inbox: int, approver: string, plan: Plan, after: Tables)
    requires Published(before, tenant, inbox, approver, plan, after)
    ensures Verifies(after, tenant, inbox, plan)
  {
    BindingsResolve(before, tenant, inbox, approver, plan, after);
    ActiveAfter(before.bindings, tenant, plan.bindings, inbox, plan.scopes, after.bindings);
    AsManyNewKeys(before.bindings, plan.bindings, ActiveOf(after.bindings, tenant));
    PilotsArrive(before, PilotsOf(before, tenant, plan.from), inbox, approver, plan.pilots, after);
  }

  // -------------------------------------------------------------------------
  // The transaction
  // -------------------------------------------------------------------------

  /** The checks before anything is written. */
  ghost predicate GuardsPass(tables: Tables, tenant: string, inbox: int, from: int) {
    && InboxesOf(tables.bindings, tenant) == {from} && from != inbox
    && |AccountsOf(tables.bindings, tenant)| == 1
    && ActiveOf(tables.bindings, tenant) !! tables.discounts
    && forall s :: s in PilotsOf(tables, tenant, from) ==> tables.controls[s].state != Armed
  }

  /** Exactly when a publication goes through. */
  ghost predicate MayPublish(tables: Tables, tenant: string, inbox: int, from: int) {
    GuardsPass(tables, tenant, inbox, from) && ScopesReady(tables, tenant, from) && ControlsReady(tables, tenant, from)
  }

  ghost predicate ScopesReady(tables: Tables, tenant: string, from: int) {
    forall k :: k in ActiveOf(tables.bindings, tenant) ==>
      && tables.bindings[k].scope in tables.inbound
      && tables.inbound[tables.bindings[k].scope].published && tables.inbound[tables.bindings[k].scope].inbox == from
  }

  ghost predicate ControlsReady(tables: Tables, tenant: string, from: int) {
    forall s :: s in PilotsOf(tables, tenant, from) ==> tables.controls[s].state in {Inactive, Paused}
  }

  method Guards(tables: Tables, tenant: string, inbox: int) returns (r: Result<int, PublishError>)
    ensures r.Success? ==> GuardsPass(tables, tenant, inbox, r.value) && ActiveOf(tables.bindings, tenant) != {}
    ensures r.Failure? ==> forall from :: !GuardsPass(tables, tenant, inbox, from)
    ensures r.Failure? ==> r.error in {NoActiveBinding, MixedInboxes, AccountMismatch, SameInbox,
                                       DiscountPoliciesUnsupported, ControlArmed}
  {
    var active := ActiveOf(tables.bindings, tenant);
    var inboxes := InboxesOf(tables.bindings, tenant);
    if active == {} {
      assert forall from :: from !in inboxes;
      assert forall other: int :: other in {other};
      return Failure(NoActiveBinding);
    }
    if |inboxes| != 1 {
      return Failure(MixedInboxes);
    }
    if |AccountsOf(tables.bindings, tenant)| != 1 {
      return Failure(AccountMismatch);
    }
    var from := Any(inboxes);
    assert inboxes == {from} by {
      assert |inboxes - {from}| == 0;
      assert inboxes == (inboxes - {from}) + {from};
    }
    assert forall other :: inboxes == {other} ==> other == from by {
      assert forall other: int :: other in {other};
    }
    if from == inbox {
      return Failure(SameInbox);
    }
    if exists k :: k in active && k in tables.discounts {
      return Failure(DiscountPoliciesUnsupported);
    }
    if exists s :: s in PilotsOf(tables, tenant, from) && tables.controls[s].state == Armed {
      return Failure(ControlArmed);
    }
    r := Success(from);
  }

  /** The handoff policies, those of the inbound scopes first. The second pass reads what the first left. */
  method MoveHandoffs(before: map<Key<string>, Handoff>, plan: Plan) returns (r: Plan, after: map<Key<string>, Handoff>)
    ensures r == plan.(handoffs := r.handoffs, pilotHandoffs := r.pilotHandoffs)
    ensures exists middle :: HandoffsMoved(before, r, middle, after)
  {
    var middle, handoffs := CopyNext(before, HandoffsOfInbound(before, plan.scopes), PointToInbound(plan.scopes));
    var last, pilotHandoffs := CopyNext(middle, HandoffsOfPilots(middle, plan.pilots), PointToPilot(plan.pilots));
    after := last;
    r := plan.(handoffs := handoffs, pilotHandoffs := pilotHandoffs);
    assert HandoffsMoved(before, r, middle, after);
  }

  /** The constraints of the database hold afterwards. */
  lemma ControlsStayValid(before: Tables, tenant: string, inbox: int, approver: string, plan: Plan, after: Tables)
    requires before.Valid() && RuntimePublished(before, tenant, inbox, approver, plan, after)
    ensures forall s :: s in after.controls ==> Key(s, after.controls[s].version) in after.pilots
  {
    forall s | s in after.controls
      ensures Key(s, after.controls[s].version) in after.pilots
    {
      var k := Key(s, before.controls[s].version);
      if s in PilotsOf(before, tenant, plan.from) {
        assert k in plan.pilots && New(k, plan.pilots) in after.pilots;
      } else {
        assert after.controls[s] == before.controls[s];
      }
    }
  }

  lemma PurchasesStayValid(before: Tables, tenant: string, inbox: int, approver: string, plan: Plan, after: Tables)
    requires before.Valid() && BindingsPublished(before, tenant, inbox, approver, plan, after)
    ensures after.purchases.Keys <= after.bindings.Keys
  {
    forall x | x in after.purchases
      ensures x in after.bindings
    {
      if x !in before.purchases {
        var k :| k in plan.bindings && k in before.purchases && x == New(k, plan.bindings);
      }
    }
  }

  method Publish(db: Database, tenant: string, inbox: int, actor: string) returns (r: Result<Plan, PublishError>)
    requires db.tables.Valid()
    modifies db
    ensures r.Success? ==> Published(old(db.tables), tenant, inbox, "inbox-binding:" + actor, r.value, db.tables)
    ensures r.Success? <==> exists from :: MayPublish(old(db.tables), tenant, inbox, from)
    ensures r.Failure? ==> db.tables == old(db.tables)
    ensures r.Failure? ==> r.error !in {UniqueViolation, ActivationInvalid, VerificationFailed}
    ensures db.tables.Valid()
  {
    var before := db.tables;
    var from := Guards(before, tenant, inbox);
    if from.Failure? {
      return Failure(from.error);
    }
    r := PublishFrom(db, tenant, inbox, "inbox-binding:" + actor, from.value);
    if r.Failure? {
      db.tables := before;
    } else {
      ControlsStayValid(before, tenant, inbox, "inbox-binding:" + actor, r.value, db.tables);
      PurchasesStayValid(before, tenant, inbox, "inbox-binding:" + actor, r.value, db.tables);
    }
  }

  /** Steps 1 and 2. */
  method PublishBindings(db: Database, tenant: string, inbox: int, approver: string, from: int) returns (r: Result<Plan, PublishError>)
    requires db.tables.Valid()
    modifies db
    ensures db.tables == old(db.tables).(bindings := db.tables.bindings, purchases := db.tables.purchases,
                                         inbound := db.tables.inbound, catalog := db.tables.catalog)
    ensures OneActive(db.tables.bindings)
    ensures r.Success? ==> r.value.from == from && BindingsPublished(old(db.tables), tenant, inbox, approver, r.value, db.tables)
    ensures r.Success? <==> ScopesReady(old(db.tables), tenant, from)
    ensures r.Failure? ==> r.error in {ScopeMismatch, NotNullViolation}
  {
    ghost var before := db.tables;
    var selected := ScopesOf(db.tables, tenant);
    var scopes, inbound, catalog := MoveScopes(db.tables.inbound, db.tables.catalog, selected, tenant, from, inbox, approver);
    if scopes.Failure? {
      ReadyScopes(before, tenant, from);
      return Failure(scopes.error);
    }
    db.tables := db.tables.(inbound := inbound, catalog := catalog);
    var bindings := MoveBindings(db, ActiveOf(db.tables.bindings, tenant), inbox, scopes.value);
    if bindings.Failure? {
      return Failure(bindings.error);
    }
    r := Success(Plan(from, bindings.value, scopes.value, map[], map[], map[]));
  }

  lemma ReadyScopes(tables: Tables, tenant: string, from: int)
    ensures ScopesReady(tables, tenant, from) ==>
              forall k :: k in ScopesOf(tables, tenant) ==> tables.inbound[k].published && tables.inbound[k].inbox == from
  {
  }

  /** Step 3 and the handoff policies. */
  method PublishRuntime(db: Database, tenant: string, inbox: int, approver: string, plan: Plan) returns (r: Result<Plan, PublishError>)
    requires forall s :: s in db.tables.controls ==> Key(s, db.tables.controls[s].version) in db.tables.pilots
    modifies db
    ensures db.tables == old(db.tables).(pilots := db.tables.pilots, controls := db.tables.controls, handoffs := db.tables.handoffs)
    ensures r.Success? ==>
              r.value == plan.(pilots := r.value.pilots, handoffs := r.value.handoffs, pilotHandoffs := r.value.pilotHandoffs)
              && RuntimePublished(old(db.tables), tenant, inbox, approver, r.value, db.tables)
    ensures r.Success? <==> ControlsReady(old(db.tables), tenant, plan.from)
    ensures r.Failure? ==> r.error == ActivationRefused
  {
    var pilots := MovePilots(db, PilotsOf(db.tables, tenant, plan.from), inbox, approver);
    if pilots.Failure? {
      return Failure(pilots.error);
    }
    var full, handoffs := MoveHandoffs(db.tables.handoffs, plan.(pilots := pilots.value));
    db.tables := db.tables.(handoffs := handoffs);
    r := Success(full);
  }

  /** The steps of the transaction, once the guards let it through. */
  method PublishFrom(db: Database, tenant: string, inbox: int, approver: string, from: int) returns (r: Result<Plan, PublishError>)
    requires db.tables.Valid() && GuardsPass(db.tables, tenant, inbox, from) && ActiveOf(db.tables.bindings, tenant) != {}
    modifies db
    ensures r.Success? ==> Published(old(db.tables), tenant, inbox, approver, r.value, db.tables)
    ensures r.Success? <==> MayPublish(old(db.tables), tenant, inbox, from)
    ensures r.Failure? ==> r.error in {ScopeMismatch, NotNullViolation, ActivationRefused}
    ensures OneActive(db.tables.bindings)
  {
    ghost var before := db.tables;
    var bindings := PublishBindings(db, tenant, inbox, approver, from);
    if bindings.Failure? {
      return Failure(bindings.error);
    }
    r := PublishRuntime(db, tenant, inbox, approver, bindings.value);
    if r.Success? {
      VerificationHolds(before, tenant, inbox, approver, r.value, db.tables);
      if !Verifies(db.tables, tenant, inbox, r.value) {
        return Failure(VerificationFailed);
      }
    }
  }

  // -------------------------------------------------------------------------
  // What a publication means
  // -------------------------------------------------------------------------

  /** The product has exactly one active binding, and this is it. */
  ghost predicate IsTheActive(t: Bindings, k: Key<Product>) {
    && k in t && t[k].status == Active
    && forall j :: j in t && j.name == k.name && t[j].status == Active ==> j == k
  }

  /** The row at `x` afterwards is the one at `k`, with its scope, moved to another inbox. */
  ghost predicate IsRebound(
      before: Tables, k: Key<Product>, after: Tables, x: Key<Product>, from: int, inbox: int, approver: string)
  {
    && k in before.bindings && x in after.bindings && x.name == k.name
    && var was, now := before.bindings[k], after.bindings[x];
       && was.scope in before.inbound && now.scope in after.inbound
       && now.scope.name == was.scope.name && now.scope !in before.inbound
       && now == was.(inbox := inbox, scope := now.scope)
       && before.inbound[was.scope].published && before.inbound[was.scope].inbox == from
       && after.inbound[now.scope] == before.inbound[was.scope].(inbox := inbox, approver := approver)
  }

  lemma AsRebound(before: Tables, tenant: string, inbox: int, approver: string, plan: Plan, after: Tables, k: Key<Product>)
    requires BindingsPublished(before, tenant, inbox, approver, plan, after) && k in ActiveOf(before.bindings, tenant)
    ensures k in plan.bindings && IsRebound(before, k, after, New(k, plan.bindings), plan.from, inbox, approver)
  {
    assert k in plan.bindings;
    var was := before.bindings[k];
    assert after.bindings[New(k, plan.bindings)] == Rebind(inbox, plan.scopes)(k, was);
    assert was.scope in plan.scopes;
    assert after.inbound[New(was.scope, plan.scopes)] == Republish(inbox, approver)(was.scope, before.inbound[was.scope]);
  }

  /** Every product that had an active binding has exactly one, at a version it never
      had, with the new inbox, over a new published version of its inbound scope with
      that inbox; what the binding and the scope say otherwise is as it was. */
  lemma EveryProductIsRebound(
      before: Tables, tenant: string, inbox: int, approver: string, plan: Plan, after: Tables, k: Key<Product>)
    requires BindingsPublished(before, tenant, inbox, approver, plan, after) && OneActive(after.bindings)
    requires k in ActiveOf(before.bindings, tenant)
    ensures k in plan.bindings && IsTheActive(after.bindings, New(k, plan.bindings))
    ensures forall j :: j in before.bindings && j.name == k.name ==> j.version < plan.bindings[k]
    ensures var was, now := before.bindings[k], after.bindings[New(k, plan.bindings)];
            && now == was.(inbox := inbox, scope := now.scope)
            && was.scope in before.inbound && now.scope in after.inbound
            && now.scope.name == was.scope.name && now.scope !in before.inbound
            && after.inbound[now.scope] == before.inbound[was.scope].(inbox := inbox, approver := approver)
            && after.inbound[now.scope].published
  {
    AsRebound(before, tenant, inbox, approver, plan, after, k);
    forall j | j in before.bindings && j.name == k.name
      ensures j.version < plan.bindings[k]
    {
      assert New(k, plan.bindings).version == plan.bindings[k];
    }
  }

  ghost predicate KeepsRows<K, V>(before: map<K, V>, after: map<K, V>) {
    forall k :: k in before ==> k in after && after[k] == before[k]
  }

  lemma ExtendsKeepsRows<N, Row>(
      before: map<Key<N>, Row>, moved: map<Key<N>, int>, edit: (Key<N>, Row) -> Row, after: map<Key<N>, Row>)
    requires Extends(before, moved, Same(), edit, after)
    ensures KeepsRows(before, after)
  {
  }

  lemma HandoffsStay(before: map<Key<string>, Handoff>, plan: Plan, middle: map<Key<string>, Handoff>, after: map<Key<string>, Handoff>)
    requires HandoffsMoved(before, plan, middle, after)
    ensures KeepsRows(before, after)
  {
    ExtendsKeepsRows(before, plan.handoffs, PointToInbound(plan.scopes), middle);
    ExtendsKeepsRows(middle, plan.pilotHandoffs, PointToPilot(plan.pilots), after);
  }

  /** Of the rows there were, only the retired bindings and the controls that moved
      change: of the scopes, the handoff policies, the purchase policies and the catalog, none. */
  lemma WhatWasPublishedStays(before: Tables, tenant: string, inbox: int, approver: string, plan: Plan, after: Tables)
    requires BindingsPublished(before, tenant, inbox, approver, plan, after)
    ensures forall k :: k in before.inbound ==> k in after.inbound && after.inbound[k] == before.inbound[k]
    ensures forall k :: k in before.purchases ==> k in after.purchases && after.purchases[k] == before.purchases[k]
    ensures before.catalog <= after.catalog
  {
    ExtendsKeepsRows(before.inbound, plan.scopes, Republish(inbox, approver), after.inbound);
  }

  lemma WhatRanStays(before: Tables, tenant: string, inbox: int, approver: string, plan: Plan, after: Tables)
    requires RuntimePublished(before, tenant, inbox, approver, plan, after)
    ensures forall k :: k in before.pilots ==> k in after.pilots && after.pilots[k] == before.pilots[k]
    ensures forall k :: k in before.handoffs ==> k in after.handoffs && after.handoffs[k] == before.handoffs[k]
  {
    var middle :| HandoffsMoved(before.handoffs, plan, middle, after.handoffs);
    HandoffsStay(before.handoffs, plan, middle, after.handoffs);
    ExtendsKeepsRows(before.pilots, plan.pilots, RepublishPilot(inbox, approver), after.pilots);
  }

  lemma OnlyTheReplacedChange(before: Tables, tenant: string, inbox: int, approver: string, plan: Plan, after: Tables)
    requires plan.bindings.Keys == ActiveOf(before.bindings, tenant)
    requires Extends(before.bindings, plan.bindings, Retire(), Rebind(inbox, plan.scopes), after.bindings)
    requires ControlsMoved(before.controls, PilotsOf(before, tenant, plan.from), plan.pilots, after.controls)
    ensures forall k :: k in before.bindings ==>
              k in after.bindings
              && after.bindings[k] == if k.name.tenant == tenant && before.bindings[k].status == Active
                                      then before.bindings[k].(status := Retired) else before.bindings[k]
    ensures after.controls.Keys == before.controls.Keys
    ensures forall s :: s in before.controls && s !in PilotsOf(before, tenant, plan.from) ==> after.controls[s] == before.controls[s]
    ensures forall s :: s in PilotsOf(before, tenant, plan.from) ==> after.controls[s].state == Inactive
  {
  }

  /** Publishing back to the first inbox: the active bindings are the first ones again,
      up to their version, the version of their scope and the approver of it. */
  lemma PublishingBackRestoresTheBindings(
      first: Tables, tenant: string, there: int, a: string, out: Plan, second: Tables, b: string, back: Plan, third: Tables,
      k: Key<Product>)
    returns (last: Key<Product>)
    requires BindingsPublished(first, tenant, there, a, out, second) && OneActive(second.bindings)
    requires BindingsPublished(second, tenant, out.from, b, back, third) && OneActive(third.bindings)
    requires InboxesOf(first.bindings, tenant) == {out.from}
    requires k in ActiveOf(first.bindings, tenant)
    ensures last in third.bindings && last.name == k.name && third.bindings[last].status == Active
    ensures forall j :: j in third.bindings && j.name == k.name && third.bindings[j].status == Active ==> j == last
    ensures third.bindings[last] == first.bindings[k].(scope := third.bindings[last].scope)
    ensures var was, now := first.bindings[k].scope, third.bindings[last].scope;
            && now.name == was.name && was in first.inbound && now in third.inbound
            && third.inbound[now] == first.inbound[was].(approver := b)
  {
    var middle := New(k, out.bindings);
    last := New(middle, back.bindings);
    AsRebound(first, tenant, there, a, out, second, k);
    ReboundIsTheActive(first, tenant, k, second, middle, out.from, there, a);
    AsRebound(second, tenant, out.from, b, back, third, middle);
    ReboundIsTheActive(second, tenant, middle, third, last, back.from, out.from, b);
    TheOneInbox(first.bindings, tenant, out.from, k);
    ReboundTwice(first, k, second, middle, out.from, there, a, third, last, back.from, b);
  }

  lemma TheOneInbox(t: Bindings, tenant: string, from: int, k: Key<Product>)
    requires InboxesOf(t, tenant) == {from} && k in ActiveOf(t, tenant)
    ensures t[k].inbox == from
  {
    assert t[k].inbox in InboxesOf(t, tenant);
  }

  lemma ReboundIsTheActive(
      before: Tables, tenant: string, k: Key<Product>, after: Tables, x: Key<Product>, from: int, inbox: int, approver: string)
    requires k in ActiveOf(before.bindings, tenant) && IsRebound(before, k, after, x, from, inbox, approver)
    requires OneActive(after.bindings)
    ensures x in ActiveOf(after.bindings, tenant) && IsTheActive(after.bindings, x)
  {
  }

  lemma ReboundTwice(
      first: Tables, k: Key<Product>, second: Tables, middle: Key<Product>, here: int, there: int, a: string,
      third: Tables, last: Key<Product>, from: int, b: string)
    requires IsRebound(first, k, second, middle, here, there, a) && first.bindings[k].inbox == here
    requires IsRebound(second, middle, third, last, from, here, b)
    ensures BackAgain(first, k, third, last, b)
  {
  }

  ghost predicate BackAgain(first: Tables, k: Key<Product>, third: Tables, last: Key<Product>, approver: string) {
    && k in first.bindings && last in third.bindings
    && third.bindings[last].(scope := first.bindings[k].scope) == first.bindings[k]
    && var was, now := first.bindings[k].scope, third.bindings[last].scope;
       && now.name == was.name && was in first.inbound && now in third.inbound
       && third.inbound[now] == first.inbound[was].(approver := approver)
  }

  /** The version a control runs. */
  function Running(tables: Tables, s: string): Key<string>
    requires s in tables.controls
  {
    Key(s, tables.controls[s].version)
  }

  /** Every control runs a version that exists. */
  ghost predicate ControlsRun(tables: Tables) {
    forall s :: s in tables.controls ==> Running(tables, s) in tables.pilots
  }

  /** The scope that a control runs after a publication. */
  lemma WhatRunsAfter(
      before: Tables, tenant: string, from: int, inbox: int, approver: string, moved: map<Key<string>, int>, after: Tables, s: string)
    requires ControlsRun(before) && PilotsMoved(before, PilotsOf(before, tenant, from), inbox, approver, moved, after)
    requires s in before.controls
    ensures s in after.controls && Running(after, s) in after.pilots
    ensures after.pilots[Running(after, s)]
            == if s in PilotsOf(before, tenant, from)
               then RepublishPilot(inbox, approver)(Running(before, s), before.pilots[Running(before, s)])
               else before.pilots[Running(before, s)]
  {
    var k := Running(before, s);
    if s in PilotsOf(before, tenant, from) {
      assert k in moved && New(k, moved) == Running(after, s);
    } else {
      assert after.controls[s] == before.controls[s];
    }
  }

  /** The pilot is not always brought back: publishing back takes along the scopes that
      already ran with the second inbox, and gives every scope the standard channel. A
      scope of the tenant ends with the inbox and the channel it had exactly when it did
      not run with the second inbox at the start and, if it ran with the first one, had
      the standard channel. */
  lemma PublishingBackOnThePilot(
      first: Tables, tenant: string, here: int, there: int, a: string, out: map<Key<string>, int>, second: Tables,
      b: string, back: map<Key<string>, int>, third: Tables, s: string)
    requires ControlsRun(first) && ControlsRun(second) && here != there
    requires PilotsMoved(first, PilotsOf(first, tenant, here), there, a, out, second)
    requires PilotsMoved(second, PilotsOf(second, tenant, there), here, b, back, third)
    requires s in first.controls && first.pilots[Running(first, s)].tenant == tenant
    ensures s in third.controls && Running(third, s) in third.pilots
    ensures var was, now := first.pilots[Running(first, s)], third.pilots[Running(third, s)];
            (now.inbox == was.inbox && now.channel == was.channel)
            <==> was.inbox != there && (was.inbox == here ==> was.channel == ChannelOf(here))
  {
    WhatRunsAfter(first, tenant, here, there, a, out, second, s);
    WhatRunsAfter(second, tenant, there, here, b, back, third, s);
  }

  /** A product on inbox 1, and a scope of the pilot of its tenant that runs with inbox 2. */
  const EXAMPLE_PRODUCT := Key(Product("tenant", "funnel"), 1)
  const EXAMPLE_BINDING := Binding(Active, 1, 1, Key("inbound", 1), BindingTerms(1, "link", "offer", [], [], ""))
  const EXAMPLE_PILOT := Pilot("tenant", true, 2, ChannelOf(2), "approver", PilotTerms(1, "offer", [], ""))
  const EXAMPLE_TABLES := Tables(
    map[EXAMPLE_PRODUCT := EXAMPLE_BINDING], map[], {}, map[Key("inbound", 1) := Inbound(true, 1, "approver", "")], [],
    map[], map[Key("pilot", 1) := EXAMPLE_PILOT], map["pilot" := Control(1, Inactive, 0)], [])

  lemma ExamplePublishes()
    ensures EXAMPLE_TABLES.Valid() && MayPublish(EXAMPLE_TABLES, "tenant", 2, 1)
  {
    var t := EXAMPLE_TABLES;
    assert ActiveOf(t.bindings, "tenant") == {EXAMPLE_PRODUCT};
    assert InboxesOf(t.bindings, "tenant") == {1};
    assert AccountsOf(t.bindings, "tenant") == {1};
    assert PilotsOf(t, "tenant", 1) == {};
  }

  /** Publishing from inbox 1 to inbox 2 goes through on these tables, and back to inbox 1
      takes the scope of the pilot along, which was on inbox 2 from the start. */
  lemma TheScopeIsTakenAlong(
      a: string, out: map<Key<string>, int>, second: Tables, b: string, back: map<Key<string>, int>, third: Tables)
    requires PilotsMoved(EXAMPLE_TABLES, PilotsOf(EXAMPLE_TABLES, "tenant", 1), 2, a, out, second) && ControlsRun(second)
    requires PilotsMoved(second, PilotsOf(second, "tenant", 2), 1, b, back, third)
    ensures MayPublish(EXAMPLE_TABLES, "tenant", 2, 1)
    ensures "pilot" in third.controls && Running(third, "pilot") in third.pilots
    ensures third.pilots[Running(third, "pilot")].inbox == 1 && EXAMPLE_TABLES.pilots[Running(EXAMPLE_TABLES, "pilot")].inbox == 2
  {
    ExamplePublishes();
    WhatRunsAfter(EXAMPLE_TABLES, "tenant", 1, 2, a, out, second, "pilot");
    WhatRunsAfter(second, "tenant", 2, 1, b, back, third, "pilot");
  }

  /** A second publication starts from the inbox that the first one went to. */
  lemma ReturnsFrom(first: Tables, tenant: string, there: int, out: Plan, second: Tables, from: int)
    requires out.bindings.Keys == ActiveOf(first.bindings, tenant) && ActiveOf(first.bindings, tenant) != {}
    requires Extends(first.bindings, out.bindings, Retire(), Rebind(there, out.scopes), second.bindings)
    requires InboxesOf(second.bindings, tenant) == {from}
    ensures from == there
  {
    ActiveAfter(first.bindings, tenant, out.bindings, there, out.scopes, second.bindings);
    assert (forall k :: k !in out.bindings) ==> ActiveOf(first.bindings, tenant) == {};
    var k :| k in out.bindings;
    var x := New(k, out.bindings);
    assert second.bindings[x] == Rebind(there, out.scopes)(k, first.bindings[k]);
    assert second.bindings[x].inbox in InboxesOf(second.bindings, tenant);
  }
}
