/** What a transaction that goes through adds, row by row, for each table. */
module OfferMeaning {
  import opened Wrappers
  import opened VersionedTables
  import opened InstanceTables
  import opened OfferAddition
  import opened OfferTransaction
  import opened Positions

  // -------------------------------------------------------------------------
  // The check before
  // -------------------------------------------------------------------------

  /** The row has the code, or the code was not asked for. */
  predicate MustBeThere(mine: seq<string>, row: Config, code: string) {
    code in mine ==> code in row.terms.codes
  }

  function CodesThere(mine: seq<string>, row: Config): string -> bool {
    code => MustBeThere(mine, row, code)
  }

  function LandingsThere(mine: seq<string>, row: Config): Landing -> bool {
    (landing: Landing) => MustBeThere(mine, row, landing.offer)
  }

  /** The row's codes and landings are those of the manifest, at these places, without the codes
      asked for that it lacks; it differs in nothing else. */
  ghost predicate IsManifestWithout(row: Config, config: Config, mine: seq<string>, ps: seq<nat>, qs: seq<nat>) {
    && row == config.(terms := config.terms.(codes := row.terms.codes, landings := row.terms.landings))
    && ArePositions(config.terms.codes, CodesThere(mine, row), ps)
    && Picks(row.terms.codes, config.terms.codes, ps)
    && ArePositions(config.terms.landings, LandingsThere(mine, row), qs)
    && Picks(row.terms.landings, config.terms.landings, qs)
  }

  lemma {:induction false} LessIsFiltered(codes: seq<string>, mine: seq<string>, row: Config)
    ensures Less(codes, Missing(mine, row)) == Filter(codes, CodesThere(mine, row))
  {
    if codes != [] {
      LessIsFiltered(codes[1..], mine, row);
    }
  }

  lemma {:induction false} LessLandingsIsFiltered(landings: seq<Landing>, mine: seq<string>, row: Config)
    ensures LessLandings(landings, Missing(mine, row)) == Filter(landings, LandingsThere(mine, row))
  {
    if landings != [] {
      LessLandingsIsFiltered(landings[1..], mine, row);
    }
  }

  lemma SamePicks<T(!new)>(a: seq<T>, b: seq<T>, s: seq<T>, ps: seq<nat>)
    requires Picks(a, s, ps) && Picks(b, s, ps)
    ensures a == b
  {
  }

  /** At most 16 additional offers, none twice and none the default one; and landings, if there
      are any, one for each of them in their order. */
  ghost predicate IsARow(row: Config) {
    && |row.terms.codes| <= 16 && row.terms.offer !in row.terms.codes
    && (forall i, j :: 0 <= i < j < |row.terms.codes| ==> row.terms.codes[i] != row.terms.codes[j])
    && (row.terms.landings != [] ==>
          && |row.terms.landings| == |row.terms.codes|
          && forall i :: 0 <= i < |row.terms.codes| ==> row.terms.landings[i].offer == row.terms.codes[i])
  }

  lemma ARowIsValid(row: Config)
    ensures row.Valid() <==> IsARow(row)
  {
    DistinctWithHead(row.terms.offer, row.terms.codes);
    OffersOfMeans(row.terms.landings, row.terms.codes);
  }

  lemma DistinctWithHead(x: string, s: seq<string>)
    ensures Distinct([x] + s) <==> x !in s && forall i, j :: 0 <= i < j < |s| ==> s[i] != s[j]
  {
    var all := [x] + s;
    assert all[0] == x && forall i :: 0 <= i < |s| ==> all[i + 1] == s[i];
    assert forall i :: 0 < i < |all| ==> all[i] == s[i - 1];
  }

  lemma OffersOfMeans(landings: seq<Landing>, codes: seq<string>)
    ensures OffersOf(landings) == codes <==>
              |landings| == |codes| && forall i :: 0 <= i < |codes| ==> landings[i].offer == codes[i]
  {
    assert forall i :: 0 <= i < |landings| ==> OffersOf(landings)[i] == landings[i].offer;
  }

  /** A row passes the check exactly when it is a valid one, and the manifest without codes asked
      for. */
  lemma WhenTheRowIsCurrent(config: Config, mine: seq<string>, row: Config)
    ensures RowIsCurrent(config, mine, row)
            <==> IsARow(row) && exists ps, qs :: IsManifestWithout(row, config, mine, ps, qs)
  {
    ARowIsValid(row);
    LessIsFiltered(config.terms.codes, mine, row);
    LessLandingsIsFiltered(config.terms.landings, mine, row);
    var codes, landings := Filter(config.terms.codes, CodesThere(mine, row)), Filter(config.terms.landings, LandingsThere(mine, row));
    var ps := FilterPicks(config.terms.codes, CodesThere(mine, row));
    var qs := FilterPicks(config.terms.landings, LandingsThere(mine, row));
    if RowIsCurrent(config, mine, row) {
      assert IsManifestWithout(row, config, mine, ps, qs);
    }
    if xs, ys :| IsManifestWithout(row, config, mine, xs, ys) {
      PositionsAreUnique(config.terms.codes, CodesThere(mine, row), ps, xs);
      PositionsAreUnique(config.terms.landings, LandingsThere(mine, row), qs, ys);
      SamePicks(row.terms.codes, codes, config.terms.codes, ps);
      SamePicks(row.terms.landings, landings, config.terms.landings, qs);
    }
  }

  /** What a run of a valid plan leaves. */
  ghost predicate Ran(before: Tables, plan: seq<Item>, after: Tables, approver: string) {
    ValidPlan(plan) && Adds(before, plan, after, approver) && AllSettled(after, plan)
  }

  // -------------------------------------------------------------------------
  // The bindings
  // -------------------------------------------------------------------------

  /** The rows of the plan, active, have the new lists and are otherwise as they were; so
      are all other rows, and the tables of policies, scopes and controls. */
  lemma TheRowsAreRelisted(before: Tables, plan: seq<Item>, after: Tables, approver: string)
    requires Ran(before, plan, after, approver)
    ensures after.bindings.Keys == before.bindings.Keys
    ensures forall i :: 0 <= i < |plan| ==>
              && plan[i].key in before.bindings && before.bindings[plan[i].key].status == Active
              && after.bindings[plan[i].key]
                 == before.bindings[plan[i].key].(
                      terms := before.bindings[plan[i].key].terms.(codes := plan[i].newCodes, landings := plan[i].newLandings))
    ensures forall k :: k in before.bindings && (forall i :: 0 <= i < |plan| ==> plan[i].key != k) ==>
              after.bindings[k] == before.bindings[k]
    ensures after.purchases == before.purchases && after.discounts == before.discounts && after.inbound == before.inbound
            && after.handoffs == before.handoffs && after.controls == before.controls
  {
    forall i | 0 <= i < |plan|
      ensures plan[i].key in before.bindings && before.bindings[plan[i].key].status == Active
    {
      assert Settled(after, plan[i]);
    }
    forall k | k in before.bindings && (forall i :: 0 <= i < |plan| ==> plan[i].key != k)
      ensures !Planned(plan, k)
    {
    }
  }

  // -------------------------------------------------------------------------
  // The intents
  // -------------------------------------------------------------------------

  /** An active intent for an offer of a product. */
  predicate IsIntentOf(i: Intent, product: int, code: string) {
    i.active && i.product == product && i.offer == code
  }

  /** The intent is of this funnel and link. */
  predicate BelongsTo(i: Intent, k: Key<Product>, b: Binding) {
    i.tenant == k.name.tenant && i.funnel == k.name.funnel && i.hotlink == b.terms.hotlink
  }

  /** The `n`-th intent is the first of the binding's default offer. */
  ghost predicate IsDefaultIntent(intents: seq<Intent>, n: nat, k: Key<Product>, b: Binding) {
    && n < |intents| && IsIntentOf(intents[n], b.terms.product, b.terms.offer) && BelongsTo(intents[n], k, b)
    && forall m :: 0 <= m < n ==> !(IsIntentOf(intents[m], b.terms.product, b.terms.offer) && BelongsTo(intents[m], k, b))
  }

  lemma {:induction false} TheDefaultIntent(intents: seq<Intent>, k: Key<Product>, b: Binding) returns (n: nat)
    requires DefaultLookback(intents, k, b).Some?
    ensures IsDefaultIntent(intents, n, k, b) && intents[n].lookback == DefaultLookback(intents, k, b).value
  {
    if ActiveFor(intents[0], b.terms.product, b.terms.offer) && IsOwn(intents[0], k, b) {
      n := 0;
    } else {
      var rest := TheDefaultIntent(intents[1..], k, b);
      n := rest + 1;
      assert forall m :: 0 < m < |intents| ==> intents[m] == intents[1..][m - 1];
    }
  }

  /** No intent goes. Each that comes is of an offer that the plan asks for, had none
      before it, and is active, of the binding's product, funnel and link, with the
      lookback of the intent of the default offer. */
  lemma AnIntentIsAdded(before: Tables, plan: seq<Item>, after: Tables, approver: string, m: nat) returns (i: nat, j: nat, n: nat)
    requires Ran(before, plan, after, approver) && |before.intents| <= m < |after.intents|
    ensures before.intents <= after.intents
    ensures i < |plan| && j < |plan[i].offers| && plan[i].key in before.bindings
    ensures var k, b := plan[i].key, before.bindings[plan[i].key];
            && IsDefaultIntent(after.intents[..m], n, k, b)
            && after.intents[m] == Intent(k.name.tenant, k.name.funnel, b.terms.product, b.terms.hotlink,
                                          plan[i].offers[j].code, after.intents[n].lookback, true)
            && forall e :: 0 <= e < m ==> !IsIntentOf(after.intents[e], b.terms.product, plan[i].offers[j].code)
  {
    i := WhichItemAsksForTheIntent(before, plan, after, approver, m);
    j, n := TheIntentAsked(before.bindings, plan[i], after.intents[..m], after.intents[m]);
    assert after.intents[..m][n] == after.intents[n];
    forall e | 0 <= e < m
      ensures !IsIntentOf(after.intents[e], before.bindings[plan[i].key].terms.product, plan[i].offers[j].code)
    {
      assert after.intents[..m][e] == after.intents[e];
    }
  }

  lemma WhichItemAsksForTheIntent(before: Tables, plan: seq<Item>, after: Tables, approver: string, m: nat) returns (i: nat)
    requires Ran(before, plan, after, approver) && |before.intents| <= m < |after.intents|
    ensures before.intents <= after.intents && i < |plan|
    ensures IntentOf(before.bindings, plan[i], after.intents[..m], after.intents[m])
    ensures !HasIntent(after.intents[..m], after.intents[m].product, after.intents[m].offer)
  {
    assert AskedIntent(before.bindings, plan, after.intents, m);
    i :| 0 <= i < |plan| && IntentOf(before.bindings, plan[i], after.intents[..m], after.intents[m]);
  }

  lemma TheIntentAsked(bindings: Bindings, item: Item, earlier: seq<Intent>, row: Intent) returns (j: nat, n: nat)
    requires IntentOf(bindings, item, earlier, row) && !HasIntent(earlier, row.product, row.offer)
    ensures j < |item.offers| && item.key in bindings
    ensures var k, b := item.key, bindings[item.key];
            && IsDefaultIntent(earlier, n, k, b)
            && row == Intent(k.name.tenant, k.name.funnel, b.terms.product, b.terms.hotlink,
                             item.offers[j].code, earlier[n].lookback, true)
            && forall e :: 0 <= e < |earlier| ==> !IsIntentOf(earlier[e], b.terms.product, item.offers[j].code)
  {
    j :| 0 <= j < |item.offers| && Codes(item.offers)[j] == row.offer;
    n := TheDefaultIntent(earlier, item.key, Relisted(bindings[item.key], item));
  }

  /** Afterwards every offer asked for has an intent, all of the binding's. */
  lemma EveryOfferHasItsIntent(before: Tables, plan: seq<Item>, after: Tables, approver: string, i: nat, j: nat)
    requires Ran(before, plan, after, approver) && i < |plan| && j < |plan[i].offers|
    ensures plan[i].key in before.bindings
    ensures var k, b, code := plan[i].key, before.bindings[plan[i].key], plan[i].offers[j].code;
            && (exists n :: 0 <= n < |after.intents| && IsIntentOf(after.intents[n], b.terms.product, code))
            && (forall n :: 0 <= n < |after.intents| && IsIntentOf(after.intents[n], b.terms.product, code) ==>
                  BelongsTo(after.intents[n], k, b))
  {
    var k, b, code := plan[i].key, after.bindings[plan[i].key], plan[i].offers[j].code;
    assert Settled(after, plan[i]) && Codes(plan[i].offers)[j] == code;
    assert HasOwn(after.intents, k, b, code) && !TakenByOther(after.intents, k, b, code);
    var own :| own in after.intents && ActiveFor(own, b.terms.product, code) && IsOwn(own, k, b);
    var n :| 0 <= n < |after.intents| && after.intents[n] == own;
    assert IsIntentOf(after.intents[n], b.terms.product, code);
    forall n | 0 <= n < |after.intents| && IsIntentOf(after.intents[n], b.terms.product, code)
      ensures BelongsTo(after.intents[n], k, b)
    {
      assert after.intents[n] in after.intents;
    }
  }

  // -------------------------------------------------------------------------
  // The catalog
  // -------------------------------------------------------------------------

  /** The same text but for the case of its letters. */
  predicate SameLetters(a: string, b: string) {
    |a| == |b| && forall i :: 0 <= i < |a| ==>
      || a[i] == b[i]
      || ('A' <= a[i] <= 'Z' && b[i] as int == a[i] as int + 32)
      || ('A' <= b[i] <= 'Z' && a[i] as int == b[i] as int + 32)
  }

  lemma LowerMeans(a: string, b: string)
    ensures Lower(a) == Lower(b) <==> SameLetters(a, b)
  {
    if Lower(a) == Lower(b) {
      assert |Lower(a)| == |Lower(b)|;
      forall i | 0 <= i < |a|
        ensures a[i] == b[i] || ('A' <= a[i] <= 'Z' && b[i] as int == a[i] as int + 32)
                || ('A' <= b[i] <= 'Z' && a[i] as int == b[i] as int + 32)
      {
        assert Lower(a)[i] == Lower(b)[i];
      }
    }
  }

  /** An active default row of the binding's product in its inbound scope. */
  predicate IsDefaultRow(o: Offer, tenant: string, b: Binding) {
    o.tenant == tenant && o.scope == b.scope && o.active && o.terms.isDefault && SameLetters(o.terms.product, b.terms.hotlink)
  }

  lemma {:induction false} TheDefaultRow(catalog: seq<Offer>, tenant: string, b: Binding) returns (n: nat)
    requires DefaultOffer(catalog, tenant, b).Some?
    ensures n < |catalog| && catalog[n] == DefaultOffer(catalog, tenant, b).value && IsDefaultRow(catalog[n], tenant, b)
    ensures forall m :: 0 <= m < n ==> !IsDefaultRow(catalog[m], tenant, b)
  {
    LowerMeans(catalog[0].terms.product, b.terms.hotlink);
    if IsDefaultRow(catalog[0], tenant, b) {
      n := 0;
    } else {
      var rest := TheDefaultRow(catalog[1..], tenant, b);
      n := rest + 1;
      assert forall m :: 0 < m < |catalog| ==> catalog[m] == catalog[1..][m - 1];
    }
  }

  /** A row of the same offer of the same product as `d`. */
  predicate IsRowOf(o: Offer, d: Offer, code: string) {
    o.tenant == d.tenant && o.scope == d.scope && o.terms.product == d.terms.product && o.terms.code == code
  }

  lemma {:induction false} GreatestVersion(catalog: seq<Offer>, d: Offer, code: string)
    ensures forall o :: o in catalog && IsRowOf(o, d, code) ==> o.terms.version <= MaxVersion(catalog, d, code)
    ensures MaxVersion(catalog, d, code) == 0
            || exists o :: o in catalog && IsRowOf(o, d, code) && o.terms.version == MaxVersion(catalog, d, code)
  {
    if catalog != [] {
      GreatestVersion(catalog[1..], d, code);
      assert forall o :: o in catalog <==> o == catalog[0] || o in catalog[1..];
    }
  }

  /** No row goes. Each that comes is of an offer that the plan asks for, with the landing
      asked for it; it had no active row before it; and it is the default row of the
      binding's product but for that, its approver and its version, the next one. */
  lemma ARowIsAdded(before: Tables, plan: seq<Item>, after: Tables, approver: string, m: nat) returns (i: nat, j: nat, n: nat)
    requires Ran(before, plan, after, approver) && |before.catalog| <= m < |after.catalog|
    ensures before.catalog <= after.catalog
    ensures i < |plan| && j < |plan[i].offers| && plan[i].key in before.bindings && n < |before.catalog|
    ensures IsDefaultRow(before.catalog[n], plan[i].key.name.tenant, before.bindings[plan[i].key])
    ensures forall e :: 0 <= e < n ==> !IsDefaultRow(before.catalog[e], plan[i].key.name.tenant, before.bindings[plan[i].key])
    ensures var d, wanted, row := before.catalog[n], plan[i].offers[j], after.catalog[m];
            && row == d.(approver := approver,
                         terms := d.terms.(code := wanted.code, landing := wanted.landing, isDefault := false,
                                           version := row.terms.version))
            && (forall e :: 0 <= e < m && IsRowOf(after.catalog[e], d, wanted.code) ==>
                  !after.catalog[e].active && after.catalog[e].terms.version < row.terms.version)
            && (row.terms.version == 1
                || exists e :: 0 <= e < m && IsRowOf(after.catalog[e], d, wanted.code)
                               && after.catalog[e].terms.version == row.terms.version - 1)
  {
    i := WhichItemAsksForTheRow(before, plan, after, approver, m);
    n := TheDefaultRow(before.catalog, plan[i].key.name.tenant, Relisted(before.bindings[plan[i].key], plan[i]));
    j := TheOfferAsked(after.catalog[..m], before.catalog[n], plan[i].offers, after.catalog[m], approver);
    RowIsNext(after.catalog, m, before.catalog[n], plan[i].offers[j].code);
  }

  lemma WhichItemAsksForTheRow(before: Tables, plan: seq<Item>, after: Tables, approver: string, m: nat) returns (i: nat)
    requires Ran(before, plan, after, approver) && |before.catalog| <= m < |after.catalog|
    ensures before.catalog <= after.catalog && i < |plan| && plan[i].key in before.bindings && DefaultOf(before, plan[i]).Some?
    ensures AskedOf(after.catalog[..m], DefaultOf(before, plan[i]).value, plan[i].offers, after.catalog[m], approver)
  {
    assert AskedOffer(before, plan, after.catalog, m, approver);
    i :| 0 <= i < |plan| && OfferOf(before, plan[i], after.catalog[..m], after.catalog[m], approver);
  }

  lemma TheOfferAsked(earlier: seq<Offer>, d: Offer, offers: seq<Wanted>, row: Offer, approver: string) returns (j: nat)
    requires AskedOf(earlier, d, offers, row, approver) && d.active
    ensures j < |offers| && !HasOffer(earlier, d, offers[j].code)
    ensures row == d.(approver := approver,
                      terms := d.terms.(code := offers[j].code, landing := offers[j].landing, isDefault := false,
                                        version := MaxVersion(earlier, d, offers[j].code) + 1))
  {
    var w :| w in offers && row == NewOffer(d, w, MaxVersion(earlier, d, w.code) + 1, approver);
    j :| 0 <= j < |offers| && offers[j] == w;
  }

  lemma RowIsNext(catalog: seq<Offer>, m: nat, d: Offer, code: string)
    requires m <= |catalog| && !HasOffer(catalog[..m], d, code)
    ensures var version := MaxVersion(catalog[..m], d, code) + 1;
            && (forall e :: 0 <= e < m && IsRowOf(catalog[e], d, code) ==>
                  !catalog[e].active && catalog[e].terms.version < version)
            && (version == 1
                || exists e :: 0 <= e < m && IsRowOf(catalog[e], d, code) && catalog[e].terms.version == version - 1)
  {
    var earlier := catalog[..m];
    GreatestVersion(earlier, d, code);
    forall e | 0 <= e < m && IsRowOf(catalog[e], d, code)
      ensures !catalog[e].active && catalog[e].terms.version <= MaxVersion(earlier, d, code)
    {
      assert earlier[e] == catalog[e] && catalog[e] in earlier;
      assert OfferFor(catalog[e], d, code);
    }
    if MaxVersion(earlier, d, code) != 0 {
      var o :| o in earlier && IsRowOf(o, d, code) && o.terms.version == MaxVersion(earlier, d, code);
      var e :| 0 <= e < m && earlier[e] == o;
      assert IsRowOf(catalog[e], d, code);
    }
  }

  /** Afterwards every offer asked for has an active row of the product of the default one. */
  lemma EveryOfferHasItsRow(before: Tables, plan: seq<Item>, after: Tables, approver: string, i: nat, j: nat)
    returns (n: nat, e: nat)
    requires Ran(before, plan, after, approver) && i < |plan| && j < |plan[i].offers|
    ensures plan[i].key in before.bindings && n < |after.catalog| && e < |after.catalog|
    ensures IsDefaultRow(after.catalog[n], plan[i].key.name.tenant, before.bindings[plan[i].key])
    ensures IsRowOf(after.catalog[e], after.catalog[n], plan[i].offers[j].code) && after.catalog[e].active
  {
    var k, b := plan[i].key, after.bindings[plan[i].key];
    assert Settled(after, plan[i]) && Codes(plan[i].offers)[j] == plan[i].offers[j].code;
    n := TheDefaultRow(after.catalog, k.name.tenant, b);
    assert HasOffer(after.catalog, after.catalog[n], plan[i].offers[j].code);
    var o :| o in after.catalog && OfferFor(o, after.catalog[n], plan[i].offers[j].code) && o.active;
    e :| 0 <= e < |after.catalog| && after.catalog[e] == o;
  }

  // -------------------------------------------------------------------------
  // The scopes of the pilot
  // -------------------------------------------------------------------------

  /** A control that is not closed runs this published version, of the product of the binding. */
  predicate SellsIn(t: Tables, binding: Key<Product>, k: Key<string>) {
    && binding in t.bindings && k in t.pilots
    && k.name in t.controls && t.controls[k.name].version == k.version && t.controls[k.name].state != Closed
    && t.pilots[k].published && t.pilots[k].tenant == binding.name.tenant
    && t.pilots[k].terms.product == t.bindings[binding].terms.product
  }

  /** An item of the plan and one of its offers. */
  datatype Place = Place(item: nat, offer: nat)

  predicate Precedes(a: Place, b: Place) {
    a.item < b.item || (a.item == b.item && a.offer < b.offer)
  }

  /** The place of an offer that the plan asks of the scope. */
  predicate Asks(t: Tables, plan: seq<Item>, k: Key<string>, p: Place) {
    p.item < |plan| && p.offer < |plan[p.item].offers| && SellsIn(t, plan[p.item].key, k)
  }

  /** Those places, in order, hold the codes asked of the scope, in theirs. */
  ghost predicate AreThePlaces(t: Tables, plan: seq<Item>, k: Key<string>, codes: seq<string>, at: seq<Place>) {
    && |at| == |codes|
    && (forall a :: 0 <= a < |at| ==> Asks(t, plan, k, at[a]) && plan[at[a].item].offers[at[a].offer].code == codes[a])
    && (forall a, b :: 0 <= a < b < |at| ==> Precedes(at[a], at[b]))
    && (forall p :: Asks(t, plan, k, p) ==> p in at)
  }

  lemma {:induction false} ThePlacesAsked(t: Tables, plan: seq<Item>, k: Key<string>) returns (at: seq<Place>)
    requires k in t.pilots
    ensures AreThePlaces(t, plan, k, Requested(t, plan, k), at)
  {
    if plan == [] {
      at := [];
    } else {
      var init, last := plan[..|plan| - 1], plan[|plan| - 1];
      var before := ThePlacesAsked(t, init, k);
      var asks := last.key in t.bindings && k in ScopesFor(t, last, t.bindings[last.key]);
      assert asks <==> SellsIn(t, last.key, k);
      var more: seq<Place> := if asks then seq(|last.offers|, j requires 0 <= j => Place(|init|, j)) else [];
      at := before + more;
      OneMorePlace(t, plan, k, before, more, Requested(t, init, k), if asks then Codes(last.offers) else []);
    }
  }

  lemma OneMorePlace(
      t: Tables, plan: seq<Item>, k: Key<string>, before: seq<Place>, more: seq<Place>, codes: seq<string>, last: seq<string>)
    requires plan != [] && AreThePlaces(t, plan[..|plan| - 1], k, codes, before)
    requires last == (if SellsIn(t, plan[|plan| - 1].key, k) then Codes(plan[|plan| - 1].offers) else [])
    requires |more| == |last| && forall j :: 0 <= j < |more| ==> more[j] == Place(|plan| - 1, j)
    ensures AreThePlaces(t, plan, k, codes + last, before + more)
  {
    var init, at := plan[..|plan| - 1], before + more;
    forall a | 0 <= a < |at|
      ensures Asks(t, plan, k, at[a]) && plan[at[a].item].offers[at[a].offer].code == (codes + last)[a]
    {
      if a < |before| {
        assert Asks(t, init, k, before[a]) && init[before[a].item] == plan[at[a].item];
      }
    }
    forall a, b | 0 <= a < b < |at|
      ensures Precedes(at[a], at[b])
    {
      if a < |before| <= b {
        assert Asks(t, init, k, before[a]);
      }
    }
    forall p | Asks(t, plan, k, p)
      ensures p in at
    {
      if p.item < |init| {
        assert Asks(t, init, k, p);
      } else {
        assert more[p.offer] == p;
      }
    }
  }

  /** The codes that are lacking are where each of them comes first. */
  lemma {:induction false} WhereLacked(codes: seq<string>, held: set<string>) returns (ps: seq<nat>)
    ensures |ps| == |Lacked(codes, held)|
    ensures forall a :: 0 <= a < |ps| ==> ps[a] < |codes| && Lacked(codes, held)[a] == codes[ps[a]]
    ensures forall a, b :: 0 <= a < b < |ps| ==> ps[a] < ps[b]
  {
    if codes == [] {
      ps := [];
    } else {
      var rest := WhereLacked(codes[1..], held + (if codes[0] in held then {} else {codes[0]}));
      assert codes[0] in held ==> held + {} == held;
      var later := seq(|rest|, a requires 0 <= a < |rest| => rest[a] + 1);
      ps := if codes[0] in held then later else [0] + later;
    }
  }

  /** What a scope lacks of the codes that the plan asks of it: each of those once, in the
      order of the plan. */
  lemma WhatItLacks(t: Tables, plan: seq<Item>, k: Key<string>, held: set<string>) returns (at: seq<Place>)
    requires k in t.pilots
    ensures var more := Lacked(Requested(t, plan, k), held);
            && (forall c :: c in more <==> c !in held && exists p :: Asks(t, plan, k, p) && plan[p.item].offers[p.offer].code == c)
            && |at| == |more|
            && (forall a :: 0 <= a < |at| ==> Asks(t, plan, k, at[a]) && plan[at[a].item].offers[at[a].offer].code == more[a])
            && (forall a, b :: 0 <= a < b < |at| ==> Precedes(at[a], at[b]) && more[a] != more[b])
  {
    var codes := Requested(t, plan, k);
    LackedMeans(codes, held);
    var places := ThePlacesAsked(t, plan, k);
    AskedAmong(t, plan, k, codes, places);
    var ps := WhereLacked(codes, held);
    at := PlacesAt(t, plan, k, codes, places, Lacked(codes, held), ps);
  }

  lemma PlacesAt(
      t: Tables, plan: seq<Item>, k: Key<string>, codes: seq<string>, places: seq<Place>, more: seq<string>, ps: seq<nat>)
    returns (at: seq<Place>)
    requires AreThePlaces(t, plan, k, codes, places) && Distinct(more) && |ps| == |more|
    requires forall a :: 0 <= a < |ps| ==> ps[a] < |codes| && more[a] == codes[ps[a]]
    requires forall a, b :: 0 <= a < b < |ps| ==> ps[a] < ps[b]
    ensures |at| == |more|
    ensures forall a :: 0 <= a < |at| ==> Asks(t, plan, k, at[a]) && plan[at[a].item].offers[at[a].offer].code == more[a]
    ensures forall a, b :: 0 <= a < b < |at| ==> Precedes(at[a], at[b]) && more[a] != more[b]
  {
    at := seq(|ps|, a requires 0 <= a < |ps| => places[ps[a]]);
  }

  /** A scope of the pilot keeps its list and gets at the end, in the order of the plan and
      each once, the offers that the plan asks for its product and that it did not have;
      nothing else of it changes. */
  lemma AScopeGains(before: Tables, plan: seq<Item>, after: map<Key<string>, Pilot>, k: Key<string>)
    returns (more: seq<string>, at: seq<Place>)
    requires PilotsGain(before, plan, after) && k in before.pilots
    ensures after.Keys == before.pilots.Keys
    ensures after[k] == before.pilots[k].(terms := before.pilots[k].terms.(codes := before.pilots[k].terms.codes + more))
    ensures forall c :: c in more <==>
              && c != before.pilots[k].terms.offer && c !in before.pilots[k].terms.codes
              && exists p :: Asks(before, plan, k, p) && plan[p.item].offers[p.offer].code == c
    ensures |at| == |more|
    ensures forall a :: 0 <= a < |at| ==> Asks(before, plan, k, at[a]) && plan[at[a].item].offers[at[a].offer].code == more[a]
    ensures forall a, b :: 0 <= a < b < |at| ==> Precedes(at[a], at[b]) && more[a] != more[b]
  {
    more := Lacked(Requested(before, plan, k), Held(before.pilots[k].terms));
    at := WhatItLacks(before, plan, k, Held(before.pilots[k].terms));
  }

  lemma AskedAmong(t: Tables, plan: seq<Item>, k: Key<string>, codes: seq<string>, at: seq<Place>)
    requires AreThePlaces(t, plan, k, codes, at)
    ensures forall c :: c in codes <==> exists p :: Asks(t, plan, k, p) && plan[p.item].offers[p.offer].code == c
  {
    forall c | c in codes
      ensures exists p :: Asks(t, plan, k, p) && plan[p.item].offers[p.offer].code == c
    {
      var a :| 0 <= a < |codes| && codes[a] == c;
      assert Asks(t, plan, k, at[a]);
    }
    forall p | Asks(t, plan, k, p)
      ensures plan[p.item].offers[p.offer].code in codes
    {
      var a :| 0 <= a < |at| && at[a] == p;
    }
  }

  // -------------------------------------------------------------------------
  // What is refused
  // -------------------------------------------------------------------------

  /** The offers of an item that a scope of the pilot does not have. */
  function LackedOf(item: Item, terms: PilotTerms): set<string> {
    set j | 0 <= j < |item.offers| && item.offers[j].code != terms.offer && item.offers[j].code !in terms.codes :: item.offers[j].code
  }

  lemma {:induction false} LessIsASet(codes: seq<string>, out: set<string>)
    requires Distinct(codes)
    ensures |Less(codes, out)| == |set c | c in codes && c !in out|
  {
    if codes != [] {
      LessIsASet(codes[1..], out);
      var rest := set c | c in codes[1..] && c !in out;
      OneMoreOfASet(codes, out, rest);
    }
  }

  lemma OneMoreOfASet(codes: seq<string>, out: set<string>, rest: set<string>)
    requires codes != [] && Distinct(codes) && rest == set c | c in codes[1..] && c !in out
    ensures codes[0] !in rest && (set c | c in codes && c !in out) == if codes[0] in out then rest else rest + {codes[0]}
  {
    assert forall i :: 0 < i < |codes| ==> codes[i] == codes[1..][i - 1] && codes[0] != codes[i];
    assert forall c :: c in codes <==> c == codes[0] || c in codes[1..];
  }

  lemma LackedIsNotIn(item: Item, terms: PilotTerms)
    requires item.Valid()
    ensures Distinct(Codes(item.offers)) && |NotIn(Codes(item.offers), terms)| == |LackedOf(item, terms)|
  {
    var codes, held := Codes(item.offers), (set c | c in terms.codes) + {terms.offer};
    LessIsASet(codes, held);
    forall c
      ensures c in LackedOf(item, terms) <==> c in codes && c !in held
    {
      if c in codes && c !in held {
        var j :| 0 <= j < |codes| && codes[j] == c;
        assert item.offers[j].code == c;
      }
      if c in LackedOf(item, terms) {
        var j :| 0 <= j < |item.offers| && item.offers[j].code == c;
        assert codes[j] == c;
      }
    }
    assert (set c | c in codes && c !in held) == LackedOf(item, terms);
  }

  /** The scope can take what it lacks: it lacks nothing, or it repeats no offer and has
      room for it. */
  predicate HasRoom(item: Item, terms: PilotTerms) {
    || LackedOf(item, terms) == {}
    || (|terms.codes| + |LackedOf(item, terms)| <= 16 && terms.offer !in terms.codes
        && forall i, j :: 0 <= i < j < |terms.codes| ==> terms.codes[i] != terms.codes[j])
  }

  lemma FitsMeans(item: Item, terms: PilotTerms)
    requires item.Valid()
    ensures Fits(terms, Codes(item.offers)) <==> HasRoom(item, terms)
  {
    var codes := Codes(item.offers);
    LackedIsNotIn(item, terms);
    assert LackedOf(item, terms) == {} <==> |LackedOf(item, terms)| == 0;
    DistinctFirst(terms.offer, terms.codes);
    if NotIn(codes, terms) != [] {
      WhenAppendable(terms, codes);
    }
  }

  lemma {:induction false} LookbackIsThere(intents: seq<Intent>, k: Key<Product>, b: Binding)
    ensures DefaultLookback(intents, k, b).Some?
            <==> exists n :: 0 <= n < |intents| && IsIntentOf(intents[n], b.terms.product, b.terms.offer) && BelongsTo(intents[n], k, b)
  {
    if intents != [] {
      LookbackIsThere(intents[1..], k, b);
      if n :| 0 <= n < |intents| && IsIntentOf(intents[n], b.terms.product, b.terms.offer) && BelongsTo(intents[n], k, b) {
        assert n > 0 ==> intents[1..][n - 1] == intents[n];
      }
    }
  }

  lemma {:induction false} DefaultIsThere(catalog: seq<Offer>, tenant: string, b: Binding)
    ensures DefaultOffer(catalog, tenant, b).Some? <==> exists n :: 0 <= n < |catalog| && IsDefaultRow(catalog[n], tenant, b)
  {
    if catalog != [] {
      DefaultIsThere(catalog[1..], tenant, b);
      LowerMeans(catalog[0].terms.product, b.terms.hotlink);
      if n :| 0 <= n < |catalog| && IsDefaultRow(catalog[n], tenant, b) {
        assert n > 0 ==> catalog[1..][n - 1] == catalog[n];
      }
    }
  }

  /** No intent of an offer asked for is of another funnel or link. */
  ghost predicate NoneOfAnother(intents: seq<Intent>, item: Item, b: Binding) {
    forall n, j :: 0 <= n < |intents| && 0 <= j < |item.offers| && IsIntentOf(intents[n], b.terms.product, item.offers[j].code) ==>
      BelongsTo(intents[n], item.key, b)
  }

  lemma NoneTakenMeans(intents: seq<Intent>, item: Item, b: Binding)
    ensures NoneTaken(intents, item.key, b, Codes(item.offers)) <==> NoneOfAnother(intents, item, b)
  {
    var codes := Codes(item.offers);
    if NoneTaken(intents, item.key, b, codes) {
      forall n, j | 0 <= n < |intents| && 0 <= j < |item.offers| && IsIntentOf(intents[n], b.terms.product, item.offers[j].code)
        ensures BelongsTo(intents[n], item.key, b)
      {
        assert codes[j] in codes && !TakenByOther(intents, item.key, b, codes[j]);
        assert intents[n] in intents && ActiveFor(intents[n], b.terms.product, codes[j]);
      }
    }
    if NoneOfAnother(intents, item, b) {
      forall c | c in codes
        ensures !TakenByOther(intents, item.key, b, c)
      {
        var j :| 0 <= j < |codes| && codes[j] == c;
        forall i | i in intents && ActiveFor(i, b.terms.product, c)
          ensures IsOwn(i, item.key, b)
        {
          var n :| 0 <= n < |intents| && intents[n] == i;
          assert IsIntentOf(intents[n], b.terms.product, item.offers[j].code);
        }
      }
    }
  }

  /** An item goes through exactly when its binding is active with the new lists or the
      old ones, the default offer has its intent and its catalog row, no intent asked for
      is another's, and each scope of the product has room. */
  lemma WhenAnItemGoesThrough(t: Tables, item: Item)
    requires item.Valid()
    ensures Refusal(t, item).None? <==>
              && item.key in t.bindings && t.bindings[item.key].status == Active
              && var was := t.bindings[item.key];
                 && (if was.terms.codes == item.newCodes then was.terms.landings == item.newLandings
                     else was.terms.codes == item.oldCodes && was.terms.landings == item.oldLandings)
                 && (exists n :: 0 <= n < |t.intents| && IsIntentOf(t.intents[n], was.terms.product, was.terms.offer)
                                 && BelongsTo(t.intents[n], item.key, was))
                 && NoneOfAnother(t.intents, item, was)
                 && (exists n :: 0 <= n < |t.catalog| && IsDefaultRow(t.catalog[n], item.key.name.tenant, was))
                 && (forall k :: SellsIn(t, item.key, k) ==> HasRoom(item, t.pilots[k].terms))
  {
    if item.key in t.bindings {
      var b := RowFor(t.bindings[item.key], item);
      LookbackIsThere(t.intents, item.key, b);
      NoneTakenMeans(t.intents, item, b);
      DefaultIsThere(t.catalog, item.key.name.tenant, b);
      RoomForAll(t, item, b);
      assert IsDefaultRowAlike(t, item, b);
    }
  }

  /** The row with the new lists has the same default row, and the intents are the same. */
  ghost predicate IsDefaultRowAlike(t: Tables, item: Item, b: Binding)
    requires item.key in t.bindings
  {
    var was := t.bindings[item.key];
    && (forall o, tenant :: IsDefaultRow(o, tenant, b) <==> IsDefaultRow(o, tenant, was))
    && (forall i :: BelongsTo(i, item.key, b) <==> BelongsTo(i, item.key, was))
    && (NoneOfAnother(t.intents, item, b) <==> NoneOfAnother(t.intents, item, was))
  }

  lemma RoomForAll(t: Tables, item: Item, b: Binding)
    requires item.Valid() && item.key in t.bindings && b.terms.product == t.bindings[item.key].terms.product
    ensures AllFit(t.pilots, ScopesFor(t, item, b), Codes(item.offers))
            <==> forall k :: SellsIn(t, item.key, k) ==> HasRoom(item, t.pilots[k].terms)
  {
    forall k
      ensures k in ScopesFor(t, item, b) <==> SellsIn(t, item.key, k)
    {
    }
    forall k | k in t.pilots
      ensures Fits(t.pilots[k].terms, Codes(item.offers)) <==> HasRoom(item, t.pilots[k].terms)
    {
      FitsMeans(item, t.pilots[k].terms);
    }
  }

  // -------------------------------------------------------------------------
  // The report
  // -------------------------------------------------------------------------

  function OffersOfIntents(rows: seq<Intent>): seq<string> {
    seq(|rows|, n requires 0 <= n < |rows| => rows[n].offer)
  }

  /** The report says what changed: the codes of the intents and of the catalog rows that
      came, in their order, and exactly the bindings and the scopes that are not as they were. */
  ghost predicate Reports(before: Tables, after: Tables, r: Report) {
    && before.intents <= after.intents && r.intents == OffersOfIntents(after.intents[|before.intents|..])
    && before.catalog <= after.catalog && r.catalog == CodesOf(after.catalog[|before.catalog|..])
    && after.bindings.Keys == before.bindings.Keys
    && (forall k :: k in r.bindings <==> k in before.bindings && after.bindings[k] != before.bindings[k])
    && after.pilots.Keys == before.pilots.Keys
    && (forall k :: k in before.pilots ==> before.pilots[k].terms.codes <= after.pilots[k].terms.codes)
    && (forall k :: k in r.pilots <==> k in before.pilots && after.pilots[k].terms.codes != before.pilots[k].terms.codes)
  }

  lemma OwnOffers(k: Key<Product>, b: Binding, codes: seq<string>, lookback: string)
    ensures OffersOfIntents(OwnIntents(k, b, codes, lookback)) == codes
  {
  }

  /** The report of one item. */
  lemma AnItemReports(t: Tables, item: Item, approver: string)
    requires Refusal(t, item).None?
    ensures Reports(t, After(t, item, approver), ReportFor(t, item, approver))
    ensures forall k :: k in t.bindings && k != item.key ==> After(t, item, approver).bindings[k] == t.bindings[k]
  {
    var was := t.bindings[item.key];
    var b, codes := RowFor(was, item), Codes(item.offers);
    var after := After(t, item, approver);
    OwnOffers(item.key, b, Intentless(t.intents, b.terms.product, codes), DefaultLookback(t.intents, item.key, b).value);
    Added(t.intents, AddedIntents(t.intents, item.key, b, codes));
    Added(t.catalog, AddedOffers(t.catalog, item.key.name.tenant, b, item.offers, approver));
    assert was.terms.codes != item.newCodes ==> b != was;
    forall k | k in t.pilots
      ensures t.pilots[k].terms.codes <= after.pilots[k].terms.codes
      ensures k in Lacking(t.pilots, ScopesFor(t, item, b), codes) <==> after.pilots[k].terms.codes != t.pilots[k].terms.codes
    {
      var more := NotIn(codes, t.pilots[k].terms);
      assert more != [] ==> |t.pilots[k].terms.codes + more| > |t.pilots[k].terms.codes|;
    }
  }

  lemma Added<T>(a: seq<T>, b: seq<T>)
    ensures a <= a + b && (a + b)[|a|..] == b
  {
  }

  lemma ReportsTogether(a: Tables, b: Tables, c: Tables, r: Report, s: Report)
    requires Reports(a, b, r) && Reports(b, c, s)
    requires forall k :: k in a.bindings ==> b.bindings[k] == a.bindings[k] || c.bindings[k] == b.bindings[k]
    ensures Reports(a, c, Plus(r, s))
  {
    assert c.intents[|a.intents|..] == b.intents[|a.intents|..] + c.intents[|b.intents|..];
    assert c.catalog[|a.catalog|..] == b.catalog[|a.catalog|..] + c.catalog[|b.catalog|..];
    forall k | k in a.pilots
      ensures a.pilots[k].terms.codes <= c.pilots[k].terms.codes
    {
    }
  }

  /** The report of a run that goes through. */
  lemma {:induction false} TheReportSays(t: Tables, plan: seq<Item>, approver: string)
    requires ValidPlan(plan) && PlanRefusal(t, plan, approver).None?
    ensures Reports(t, AfterAll(t, plan, approver), PlanReport(t, plan, approver))
  {
    if plan != [] {
      var init, last := plan[..|plan| - 1], plan[|plan| - 1];
      var middle := AfterAll(t, init, approver);
      TheReportSays(t, init, approver);
      AnItemReports(middle, last, approver);
      PlanRelists(t, init, approver);
      LastIsUnplanned(plan);
      ReportsTogether(t, middle, AfterAll(t, plan, approver), PlanReport(t, init, approver), ReportFor(middle, last, approver));
    }
  }
}
