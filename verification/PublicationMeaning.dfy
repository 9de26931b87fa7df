/** What a publication that goes through means, row by row, for each table. */
module PublicationMeaning {
  import opened Wrappers
  import opened Text
  import opened Positions
  import opened VersionedTables
  import opened InstanceTables
  import opened InboxPublication

  // -------------------------------------------------------------------------
  // When it goes through
  // -------------------------------------------------------------------------

  /** An active binding of the tenant. */
  predicate Sells(t: Tables, tenant: string, k: Key<Product>) {
    k in t.bindings && k.name.tenant == tenant && t.bindings[k].status == Active
  }

  /** A scope of the tenant's pilot that runs a version with that inbox. */
  predicate RunsOn(t: Tables, tenant: string, inbox: int, s: string) {
    && s in t.controls
    && var k := Key(s, t.controls[s].version);
       k in t.pilots && t.pilots[k].tenant == tenant && t.pilots[k].inbox == inbox
  }

  /** A publication goes through exactly when there is an active binding, all of them are
      of one account and of the inbox left, which is another than the new one, with a
      published scope of that inbox and no discount policy, and no scope of the pilot
      on that inbox runs armed or closed. */
  lemma MayPublishMeans(t: Tables, tenant: string, inbox: int, from: int)
    ensures MayPublish(t, tenant, inbox, from) <==>
              && (exists k :: Sells(t, tenant, k)) && from != inbox
              && (forall k :: Sells(t, tenant, k) ==>
                    && t.bindings[k].inbox == from && k !in t.discounts
                    && t.bindings[k].scope in t.inbound
                    && t.inbound[t.bindings[k].scope].published && t.inbound[t.bindings[k].scope].inbox == from)
              && (forall j, k :: Sells(t, tenant, j) && Sells(t, tenant, k) ==> t.bindings[j].account == t.bindings[k].account)
              && (forall s :: RunsOn(t, tenant, from, s) ==> t.controls[s].state in {Inactive, Paused})
  {
    AllOnOneInbox(t.bindings, tenant, from);
    OneAccount(t.bindings, tenant);
    forall k
      ensures k in ActiveOf(t.bindings, tenant) <==> Sells(t, tenant, k)
    {
    }
    forall s
      ensures s in PilotsOf(t, tenant, from) <==> RunsOn(t, tenant, from, s)
    {
    }
  }

  lemma AllOnOneInbox(t: Bindings, tenant: string, from: int)
    ensures InboxesOf(t, tenant) == {from}
            <==> (exists k :: k in ActiveOf(t, tenant)) && forall k :: k in ActiveOf(t, tenant) ==> t[k].inbox == from
  {
    if InboxesOf(t, tenant) == {from} {
      assert from in InboxesOf(t, tenant);
      forall k | k in ActiveOf(t, tenant)
        ensures t[k].inbox == from
      {
        assert t[k].inbox in InboxesOf(t, tenant);
      }
    }
  }

  lemma Any<T>(s: set<T>) returns (x: T)
    requires |s| > 0
    ensures x in s
  {
    assert (forall y :: y !in s) ==> s == {};
    x :| x in s;
  }

  lemma OneAccount(t: Bindings, tenant: string)
    ensures (exists k :: k in ActiveOf(t, tenant)) ==>
              (|AccountsOf(t, tenant)| == 1
               <==> forall j, k :: j in ActiveOf(t, tenant) && k in ActiveOf(t, tenant) ==> t[j].account == t[k].account)
  {
    if k :| k in ActiveOf(t, tenant) {
      var accounts, a := AccountsOf(t, tenant), t[k].account;
      assert a in accounts;
      assert accounts == (accounts - {a}) + {a};
      if |accounts| == 1 {
        assert |accounts - {a}| == 0;
        forall j | j in ActiveOf(t, tenant)
          ensures t[j].account == a
        {
          assert t[j].account in accounts;
        }
      } else {
        var other := Any(accounts - {a});
        var j :| j in ActiveOf(t, tenant) && t[j].account == other;
      }
    }
  }

  // -------------------------------------------------------------------------
  // The rows afterwards
  // -------------------------------------------------------------------------

  /** What moves: the active bindings of the tenant, all on the inbox left, ... */
  lemma WhichBindingsMove(before: Tables, tenant: string, inbox: int, approver: string, plan: Plan, after: Tables)
    requires Published(before, tenant, inbox, approver, plan, after)
    ensures forall k :: k in plan.bindings <==> Sells(before, tenant, k)
    ensures forall k :: Sells(before, tenant, k) ==> before.bindings[k].inbox == plan.from
    ensures after.discounts == before.discounts && after.intents == before.intents
  {
    AllOnOneInbox(before.bindings, tenant, plan.from);
  }

  /** ... the inbound scopes they name, ... */
  lemma WhichScopesMove(before: Tables, tenant: string, inbox: int, approver: string, plan: Plan, after: Tables, s: Key<string>)
    requires Published(before, tenant, inbox, approver, plan, after)
    ensures s in plan.scopes <==> exists k :: Sells(before, tenant, k) && before.bindings[k].scope == s
  {
    if s in plan.scopes {
      var k :| k in ActiveOf(before.bindings, tenant) && before.bindings[k].scope == s;
      assert Sells(before, tenant, k);
    }
    if k :| Sells(before, tenant, k) && before.bindings[k].scope == s {
      assert k in plan.bindings;
    }
  }

  /** ... and the versions of the pilot that ran on the inbox left. */
  lemma WhichPilotsMove(before: Tables, tenant: string, inbox: int, approver: string, plan: Plan, after: Tables, k: Key<string>)
    requires Published(before, tenant, inbox, approver, plan, after)
    ensures k in plan.pilots <==> RunsOn(before, tenant, plan.from, k.name) && before.controls[k.name].version == k.version
  {
    assert RunsOn(before, tenant, plan.from, k.name) <==> k.name in PilotsOf(before, tenant, plan.from);
  }

  /** The row is of the tenant, active, and in that scope. */
  function GoesAlong(tenant: string, scope: Key<string>): Offer -> bool {
    (o: Offer) => o.scope == scope && o.tenant == tenant && o.active
  }

  function InScope(scope: Key<string>): Offer -> bool {
    (o: Offer) => o.scope == scope
  }

  lemma {:induction false} OffersAreFiltered(catalog: seq<Offer>, scope: Key<string>)
    ensures OffersAt(catalog, scope) == Filter(catalog, InScope(scope))
  {
    if catalog != [] {
      OffersAreFiltered(catalog[1..], scope);
    }
  }

  /** The rows copied are those that go along, one by one. */
  lemma {:induction false} CopiesAreTheActive(
      catalog: seq<Offer>, scope: Key<string>, tenant: string, to: Key<string>, approver: string)
    ensures AreCopies(Copies(OffersAt(catalog, scope), tenant, to, approver), Filter(catalog, GoesAlong(tenant, scope)), to, approver)
  {
    if catalog != [] {
      CopiesAreTheActive(catalog[1..], scope, tenant, to, approver);
      var rest := OffersAt(catalog[1..], scope);
      if catalog[0].scope == scope {
        assert ([catalog[0]] + rest)[1..] == rest;
        assert OffersAt(catalog, scope) == [catalog[0]] + rest;
      } else {
        assert OffersAt(catalog, scope) == rest;
      }
    }
  }

  ghost predicate AreCopies(copies: seq<Offer>, rows: seq<Offer>, to: Key<string>, approver: string) {
    |copies| == |rows| && forall a :: 0 <= a < |rows| ==> copies[a] == rows[a].(scope := to, approver := approver)
  }

  lemma SameTail<T>(a: seq<T>, b: seq<T>, c: seq<T>)
    requires a + b == a + c
    ensures b == c
  {
    assert (a + b)[|a|..] == b && (a + c)[|a|..] == c;
  }

  /** The rows of one scope among those that were added. */
  lemma AddedAt(before: seq<Offer>, tenant: string, scopes: map<Key<string>, int>, approver: string, added: seq<Offer>, s: Key<string>)
    requires CatalogCopied(before, tenant, scopes, approver, before + added)
    ensures forall k :: k in scopes && New(k, scopes) == s ==>
              Filter(added, InScope(s)) == Copies(OffersAt(before, k), tenant, s, approver)
    ensures (forall k :: k in scopes ==> New(k, scopes) != s) ==> Filter(added, InScope(s)) == []
  {
    OffersOfConcatenation(before, added, s);
    OffersAreFiltered(added, s);
    forall k | k in scopes && New(k, scopes) == s
      ensures Filter(added, InScope(s)) == Copies(OffersAt(before, k), tenant, s, approver)
    {
      SameTail(OffersAt(before, s), OffersAt(added, s), Copies(OffersAt(before, k), tenant, s, approver));
    }
    if forall k :: k in scopes ==> New(k, scopes) != s {
      SameTail(OffersAt(before, s), OffersAt(added, s), []);
    }
  }

  lemma ItsCatalog(before: Tables, tenant: string, inbox: int, approver: string, plan: Plan, after: Tables)
    requires Published(before, tenant, inbox, approver, plan, after)
    ensures CatalogCopied(before.catalog, tenant, plan.scopes, approver, after.catalog)
  {
  }

  lemma TheRest<T>(a: seq<T>, b: seq<T>) returns (c: seq<T>)
    requires a <= b
    ensures b == a + c
  {
    c := b[|a|..];
  }

  /** For each scope that moved, the rows added are, in their order, the active rows of
      the tenant at the old version, each equal to its row in all but the scope and the
      approver. */
  lemma RowsAreCopied(
      before: seq<Offer>, tenant: string, scopes: map<Key<string>, int>, approver: string, added: seq<Offer>, scope: Key<string>)
    returns (was: seq<nat>, now: seq<nat>)
    requires CatalogCopied(before, tenant, scopes, approver, before + added) && scope in scopes
    ensures ArePositions(before, GoesAlong(tenant, scope), was)
    ensures ArePositions(added, InScope(Key(scope.name, scopes[scope])), now)
    ensures |now| == |was|
    ensures forall a :: 0 <= a < |was| ==>
              added[now[a]] == before[was[a]].(scope := Key(scope.name, scopes[scope]), approver := approver)
  {
    var to := New(scope, scopes);
    AddedAt(before, tenant, scopes, approver, added, to);
    CopiesAreTheActive(before, scope, tenant, to, approver);
    was := FilterPicks(before, GoesAlong(tenant, scope));
    now := FilterPicks(added, InScope(to));
  }

  /** Every row that is added is of a scope that moved. */
  ghost predicate OfMovedScopes(added: seq<Offer>, scopes: map<Key<string>, int>) {
    forall i :: 0 <= i < |added| ==> IsNewOf(added[i].scope, scopes)
  }

  ghost predicate IsNewOf<N(!new)>(s: Key<N>, moved: map<Key<N>, int>) {
    exists k :: k in moved && s == Key(k.name, moved[k])
  }

  lemma NoOtherRow(before: seq<Offer>, tenant: string, scopes: map<Key<string>, int>, approver: string, added: seq<Offer>)
    requires CatalogCopied(before, tenant, scopes, approver, before + added)
    ensures OfMovedScopes(added, scopes)
  {
    forall i | 0 <= i < |added|
      ensures IsNewOf(added[i].scope, scopes)
    {
      var s := added[i].scope;
      AddedAt(before, tenant, scopes, approver, added, s);
      var at := FilterPicks(added, InScope(s));
      assert i in at;
      if k :| k in scopes && New(k, scopes) == s {
        assert s == Key(k.name, scopes[k]);
      }
    }
  }

  /** The catalog only gets rows at its end, and they are copies: for each scope that
      moved, of the active rows of the tenant at its old version, one for each in their
      order; and none for any other scope. */
  lemma TheCatalogIsCopied(before: Tables, tenant: string, inbox: int, approver: string, plan: Plan, after: Tables, scope: Key<string>)
    returns (added: seq<Offer>, was: seq<nat>, now: seq<nat>)
    requires Published(before, tenant, inbox, approver, plan, after) && scope in plan.scopes
    ensures after.catalog == before.catalog + added
    ensures ArePositions(before.catalog, GoesAlong(tenant, scope), was)
    ensures ArePositions(added, InScope(Key(scope.name, plan.scopes[scope])), now)
    ensures |now| == |was|
    ensures forall a :: 0 <= a < |was| ==>
              added[now[a]] == before.catalog[was[a]].(scope := Key(scope.name, plan.scopes[scope]), approver := approver)
    ensures OfMovedScopes(added, plan.scopes)
  {
    ItsCatalog(before, tenant, inbox, approver, plan, after);
    added := TheRest(before.catalog, after.catalog);
    NoOtherRow(before.catalog, tenant, plan.scopes, approver, added);
    was, now := RowsAreCopied(before.catalog, tenant, plan.scopes, approver, added, scope);
  }

  /** Each active binding of the tenant has, at a version its product never had, a copy on
      the new inbox over the new version of its scope, and is retired itself; its purchase
      policy goes with it. Every other row is as it was. */
  lemma TheBindingsMove(
      before: Tables, tenant: string, inbox: int, approver: string, plan: Plan, after: Tables, k: Key<Product>)
    requires Published(before, tenant, inbox, approver, plan, after) && k in before.bindings
    ensures k in after.bindings
    ensures !Sells(before, tenant, k) ==> after.bindings[k] == before.bindings[k]
    ensures Sells(before, tenant, k) ==>
              && k in plan.bindings && after.bindings[k] == before.bindings[k].(status := Retired)
              && var x, scope := Key(k.name, plan.bindings[k]), before.bindings[k].scope;
                 && (forall j :: j in before.bindings && j.name == k.name ==> j.version < x.version)
                 && scope in plan.scopes && x in after.bindings
                 && after.bindings[x] == before.bindings[k].(inbox := inbox, scope := Key(scope.name, plan.scopes[scope]))
                 && (k in before.purchases ==> x in after.purchases && after.purchases[x] == before.purchases[k])
  {
    if Sells(before, tenant, k) {
      assert k in ActiveOf(before.bindings, tenant);
      assert before.bindings[k].scope in plan.scopes;
      assert after.bindings[New(k, plan.bindings)] == Rebind(inbox, plan.scopes)(k, before.bindings[k]);
      assert New(k, plan.bindings) == Key(k.name, plan.bindings[k]);
    }
  }

  /** Each inbound scope that moved has a new version, the same but for the inbox and
      the approver. */
  lemma TheScopesMove(
      before: Tables, tenant: string, inbox: int, approver: string, plan: Plan, after: Tables, k: Key<string>)
    requires Published(before, tenant, inbox, approver, plan, after) && k in plan.scopes
    ensures k in before.inbound && forall j :: j in before.inbound && j.name == k.name ==> j.version < plan.scopes[k]
    ensures var x := Key(k.name, plan.scopes[k]);
            && before.inbound[k].published && before.inbound[k].inbox == plan.from
            && x in after.inbound && after.inbound[x] == before.inbound[k].(inbox := inbox, approver := approver)
  {
    var x := New(k, plan.scopes);
    assert after.inbound[x] == Republish(inbox, approver)(k, before.inbound[k]);
  }

  /** Each scope of the pilot that ran on the inbox left runs a new version, published on
      the new inbox and its channel, inactive and one generation later. The others run
      what they ran. */
  lemma ThePilotsMove(
      before: Tables, tenant: string, inbox: int, approver: string, plan: Plan, after: Tables, s: string)
    requires Published(before, tenant, inbox, approver, plan, after) && s in before.controls
    ensures s in after.controls
    ensures !RunsOn(before, tenant, plan.from, s) ==> after.controls[s] == before.controls[s]
    ensures RunsOn(before, tenant, plan.from, s) ==>
              var k, x := Key(s, before.controls[s].version), Key(s, after.controls[s].version);
              && after.controls[s].state == Inactive && after.controls[s].generation == before.controls[s].generation + 1
              && (forall j :: j in before.pilots && j.name == s ==> j.version < x.version)
              && x in after.pilots
              && after.pilots[x] == before.pilots[k].(published := true, inbox := inbox, approver := approver,
                                                      channel := after.pilots[x].channel)
              && (inbox >= 0 ==> after.pilots[x].channel == "chatwoot-inbox:" + Decimal(inbox))
              && (inbox < 0 ==> after.pilots[x].channel == "chatwoot-inbox:-" + Decimal(-inbox))
  {
    assert s in PilotsOf(before, tenant, plan.from) <==> RunsOn(before, tenant, plan.from, s);
    if RunsOn(before, tenant, plan.from, s) {
      var k := Key(s, before.controls[s].version);
      assert k in plan.pilots && New(k, plan.pilots) == Key(s, after.controls[s].version);
      assert after.pilots[New(k, plan.pilots)] == RepublishPilot(inbox, approver)(k, before.pilots[k]);
      ChannelMeans(inbox);
    }
  }

  lemma ChannelMeans(inbox: int)
    ensures inbox >= 0 ==> ChannelOf(inbox) == "chatwoot-inbox:" + Decimal(inbox)
    ensures inbox < 0 ==> ChannelOf(inbox) == "chatwoot-inbox:-" + Decimal(-inbox)
  {
    if inbox < 0 {
      Associate("chatwoot-inbox:", "-", Decimal(-inbox));
    }
  }

  /** It named a scope that moved, and now names its new version. */
  predicate MovedAlong(was: Option<Key<string>>, now: Option<Key<string>>, moved: map<Key<string>, int>) {
    was.Some? && was.value in moved && now == Some(Key(was.value.name, moved[was.value]))
  }

  /** The handoff policy as it was, but for the inbound scope, the scope of the pilot or
      both, which moved. */
  predicate PointsAlong(was: Handoff, now: Handoff, plan: Plan) {
    && was.active && now == was.(inbound := now.inbound, pilot := now.pilot)
    && (MovedAlong(was.inbound, now.inbound, plan.scopes) || MovedAlong(was.pilot, now.pilot, plan.pilots))
    && (now.inbound == was.inbound || MovedAlong(was.inbound, now.inbound, plan.scopes))
    && (now.pilot == was.pilot || MovedAlong(was.pilot, now.pilot, plan.pilots))
  }

  /** A new version of a policy. */
  ghost predicate IsNewVersion(before: map<Key<string>, Handoff>, after: map<Key<string>, Handoff>, k: Key<string>, x: Key<string>) {
    && x in after && x.name == k.name
    && forall j :: j in before && j.name == k.name ==> j.version < x.version
  }

  lemma FirstPass(before: map<Key<string>, Handoff>, plan: Plan, middle: map<Key<string>, Handoff>, k: Key<string>)
    requires plan.handoffs.Keys == HandoffsOfInbound(before, plan.scopes)
    requires Extends(before, plan.handoffs, Same(), PointToInbound(plan.scopes), middle) && k in before
    ensures k in middle && middle[k] == before[k]
    ensures before[k].active && before[k].inbound.Some? && before[k].inbound.value in plan.scopes ==>
              k in plan.handoffs && New(k, plan.handoffs) in middle
              && middle[New(k, plan.handoffs)]
                 == before[k].(inbound := Some(Key(before[k].inbound.value.name, plan.scopes[before[k].inbound.value])))
  {
    if k in plan.handoffs {
      assert middle[New(k, plan.handoffs)] == PointToInbound(plan.scopes)(k, before[k]);
    }
  }

  lemma SecondPass(middle: map<Key<string>, Handoff>, plan: Plan, after: map<Key<string>, Handoff>, k: Key<string>)
    requires plan.pilotHandoffs.Keys == HandoffsOfPilots(middle, plan.pilots)
    requires Extends(middle, plan.pilotHandoffs, Same(), PointToPilot(plan.pilots), after) && k in middle
    ensures k in after && after[k] == middle[k]
    ensures middle[k].active && middle[k].pilot.Some? && middle[k].pilot.value in plan.pilots ==>
              k in plan.pilotHandoffs && New(k, plan.pilotHandoffs) in after
              && after[New(k, plan.pilotHandoffs)]
                 == middle[k].(pilot := Some(Key(middle[k].pilot.value.name, plan.pilots[middle[k].pilot.value])))
  {
    if k in plan.pilotHandoffs {
      assert after[New(k, plan.pilotHandoffs)] == PointToPilot(plan.pilots)(k, middle[k]);
    }
  }

  /** A handoff policy stays, and follows each of the scopes it names that moved, with a
      new version. */
  lemma AHandoffFollows(
      before: map<Key<string>, Handoff>, plan: Plan, middle: map<Key<string>, Handoff>, after: map<Key<string>, Handoff>, k: Key<string>)
    returns (x: Key<string>, y: Key<string>)
    requires HandoffsMoved(before, plan, middle, after) && k in before
    ensures k in after && after[k] == before[k]
    ensures before[k].active && before[k].inbound.Some? && before[k].inbound.value in plan.scopes ==>
              && IsNewVersion(before, after, k, x)
              && after[x] == before[k].(inbound := Some(Key(before[k].inbound.value.name, plan.scopes[before[k].inbound.value])))
    ensures before[k].active && before[k].pilot.Some? && before[k].pilot.value in plan.pilots ==>
              && IsNewVersion(before, after, k, y)
              && after[y] == before[k].(pilot := Some(Key(before[k].pilot.value.name, plan.pilots[before[k].pilot.value])))
  {
    x, y := k, k;
    FirstPass(before, plan, middle, k);
    SecondPass(middle, plan, after, k);
    if k in plan.handoffs {
      x := New(k, plan.handoffs);
      SecondPass(middle, plan, after, x);
    }
    if k in plan.pilotHandoffs {
      y := New(k, plan.pilotHandoffs);
      forall j | j in before && j.name == k.name
        ensures j.version < y.version
      {
        FirstPass(before, plan, middle, j);
      }
    }
  }

  /** And every policy that was not there is such a version of one that was. */
  lemma ANewHandoffFollows(
      before: map<Key<string>, Handoff>, plan: Plan, middle: map<Key<string>, Handoff>, after: map<Key<string>, Handoff>, x: Key<string>)
    returns (k: Key<string>)
    requires HandoffsMoved(before, plan, middle, after) && x in after && x !in before
    ensures k in before && k.name == x.name && PointsAlong(before[k], after[x], plan)
  {
    if x in middle {
      SecondPass(middle, plan, after, x);
      k :| k in plan.handoffs && x == New(k, plan.handoffs);
      FirstPass(before, plan, middle, k);
    } else {
      var j :| j in plan.pilotHandoffs && x == New(j, plan.pilotHandoffs);
      SecondPass(middle, plan, after, j);
      if j in before {
        k := j;
        FirstPass(before, plan, middle, k);
      } else {
        k :| k in plan.handoffs && j == New(k, plan.handoffs);
        FirstPass(before, plan, middle, k);
      }
    }
  }

  lemma ItsHandoffs(before: Tables, tenant: string, inbox: int, approver: string, plan: Plan, after: Tables)
    returns (middle: map<Key<string>, Handoff>)
    requires Published(before, tenant, inbox, approver, plan, after)
    ensures HandoffsMoved(before.handoffs, plan, middle, after.handoffs)
  {
    middle :| HandoffsMoved(before.handoffs, plan, middle, after.handoffs);
  }

  /** Nothing else is added: a binding, an inbound scope or a version of the pilot that was
      not there is the new one of what moved, ... */
  lemma NothingElseIsAdded(before: Tables, tenant: string, inbox: int, approver: string, plan: Plan, after: Tables)
    requires Published(before, tenant, inbox, approver, plan, after)
    ensures forall x :: x in after.bindings && x !in before.bindings ==> IsNewOf(x, plan.bindings)
    ensures forall x :: x in after.inbound && x !in before.inbound ==> IsNewOf(x, plan.scopes)
    ensures forall x :: x in after.pilots && x !in before.pilots ==> IsNewOf(x, plan.pilots)
  {
    NothingElseIsNew(before.bindings, plan.bindings, after.bindings);
    NothingElseIsNew(before.inbound, plan.scopes, after.inbound);
    NothingElseIsNew(before.pilots, plan.pilots, after.pilots);
  }

  lemma NothingElseIsNew<N(!new), Row>(before: map<Key<N>, Row>, moved: map<Key<N>, int>, after: map<Key<N>, Row>)
    requires NothingElse(before, moved, after)
    ensures forall x :: x in after && x !in before ==> IsNewOf(x, moved)
  {
    forall x | x in after && x !in before
      ensures IsNewOf(x, moved)
    {
      var k :| k in moved && x == New(k, moved);
      assert x == Key(k.name, moved[k]);
    }
  }

  /** ... and so is a purchase policy. */
  lemma NoOtherPurchaseIsAdded(
      before: Tables, tenant: string, inbox: int, approver: string, plan: Plan, after: Tables, x: Key<Product>)
    returns (k: Key<Product>)
    requires Published(before, tenant, inbox, approver, plan, after) && x in after.purchases && x !in before.purchases
    ensures k in plan.bindings && k in before.purchases && x == Key(k.name, plan.bindings[k])
    ensures after.purchases[x] == before.purchases[k]
  {
    k :| k in plan.bindings && k in before.purchases && x == New(k, plan.bindings);
  }

  /** The final verification: every active binding of the tenant is on the new inbox, over
      a published scope of that inbox, there are as many as moved, and each scope of the
      pilot that moved, if its control runs a version, runs the new one, on the new inbox
      and its channel. */
  lemma TheVerificationSays(tables: Tables, tenant: string, inbox: int, plan: Plan)
    ensures Verifies(tables, tenant, inbox, plan) <==>
              && (forall k :: Sells(tables, tenant, k) ==>
                    && tables.bindings[k].inbox == inbox && tables.bindings[k].scope in tables.inbound
                    && tables.inbound[tables.bindings[k].scope].published
                    && tables.inbound[tables.bindings[k].scope].inbox == inbox)
              && |set k | k in tables.bindings && Sells(tables, tenant, k)| == |plan.bindings.Keys|
              && (forall k :: k in plan.pilots && k.name in tables.controls
                              && Key(k.name, tables.controls[k.name].version) in tables.pilots ==>
                    && tables.controls[k.name].version == plan.pilots[k]
                    && tables.pilots[Key(k.name, plan.pilots[k])].inbox == inbox
                    && tables.pilots[Key(k.name, plan.pilots[k])].channel == ChannelOf(inbox))
  {
    assert ActiveOf(tables.bindings, tenant) == set k | k in tables.bindings && Sells(tables, tenant, k);
    forall k
      ensures k in ActiveOf(tables.bindings, tenant) <==> Sells(tables, tenant, k)
    {
    }
    forall k | Sells(tables, tenant, k)
      ensures |Resolve(tables.bindings, k)| == 1
    {
      assert Resolve(tables.bindings, k) == {k};
    }
  }
}
