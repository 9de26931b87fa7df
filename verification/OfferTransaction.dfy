/** The transaction that adds offers (`SQL_APPLY` of `add_instance_offers.py`): what it
    does with one binding and with a whole plan, when it is refused, and what exactly
    a run of it adds to the tables. */
module OfferTransaction {
  import opened Wrappers
  import opened VersionedTables
  import opened InstanceTables
  import opened OfferAddition

  // -------------------------------------------------------------------------
  // What the transaction does with one binding
  // -------------------------------------------------------------------------

  predicate IsActive(tables: Tables, k: Key<Product>) {
    k in tables.bindings && tables.bindings[k].status == Active
  }

  predicate ListsAre(b: Binding, codes: seq<string>, landings: seq<Landing>) {
    b.terms.codes == codes && b.terms.landings == landings
  }

  function Relisted(b: Binding, item: Item): Binding {
    b.(terms := b.terms.(codes := item.newCodes, landings := item.newLandings))
  }

  /** The row of the binding after step 1. */
  function RowFor(was: Binding, item: Item): Binding {
    if was.terms.codes == item.newCodes then was else Relisted(was, item)
  }

  /** Step 1: the row of the binding, with the new lists; it must have the old ones. */
  method UpdateBinding(db: Database, item: Item) returns (r: Result<seq<Key<Product>>, AddError>)
    modifies db
    ensures r.Failure? ==> r.error == BindingChanged && db.tables == old(db.tables)
    ensures r.Success? <==>
              && IsActive(old(db.tables), item.key)
              && (old(db.tables.bindings)[item.key].terms.codes == item.newCodes
                  || ListsAre(old(db.tables.bindings)[item.key], item.oldCodes, item.oldLandings))
    ensures r.Success? ==>
              var was := old(db.tables.bindings)[item.key];
              && r.value == (if was.terms.codes == item.newCodes then [] else [item.key])
              && db.tables == old(db.tables).(bindings := old(db.tables.bindings)[item.key := RowFor(was, item)])
  {
    if !IsActive(db.tables, item.key) {
      return Failure(BindingChanged);
    }
    var b := db.tables.bindings[item.key];
    if b.terms.codes == item.newCodes {
      assert db.tables.bindings == db.tables.bindings[item.key := b];
      return Success([]);
    }
    if !ListsAre(b, item.oldCodes, item.oldLandings) {
      return Failure(BindingChanged);
    }
    db.tables := db.tables.(bindings := db.tables.bindings[item.key := Relisted(b, item)]);
    return Success([item.key]);
  }

  function ScopesFor(t: Tables, item: Item, b: Binding): set<Key<string>> {
    ProductScopes(t.controls, t.pilots, item.key.name.tenant, b.terms.product)
  }

  /** The first of steps 2 to 4 that refuses, if one does. */
  function ProductRefusal(t: Tables, item: Item, b: Binding): Option<AddError> {
    if DefaultLookback(t.intents, item.key, b).None? then Some(DefaultIntentMissing)
    else if !NoneTaken(t.intents, item.key, b, Codes(item.offers)) then Some(IntentTaken)
    else if DefaultOffer(t.catalog, item.key.name.tenant, b).None? then Some(CatalogDefaultMissing)
    else if !AllFit(t.pilots, ScopesFor(t, item, b), Codes(item.offers)) then Some(Refused)
    else None
  }

  function AfterProduct(t: Tables, item: Item, b: Binding, approver: string): Tables {
    t.(intents := t.intents + AddedIntents(t.intents, item.key, b, Codes(item.offers)),
       catalog := t.catalog + AddedOffers(t.catalog, item.key.name.tenant, b, item.offers, approver),
       pilots := WithAppended(t.pilots, ScopesFor(t, item, b), Codes(item.offers)))
  }

  function ProductReport(t: Tables, item: Item, b: Binding, approver: string): Report {
    Report([], Intentless(t.intents, b.terms.product, Codes(item.offers)),
           CodesOf(AddedOffers(t.catalog, item.key.name.tenant, b, item.offers, approver)),
           Lacking(t.pilots, ScopesFor(t, item, b), Codes(item.offers)))
  }

  /** Steps 2 to 4, on the row as step 1 left it. */
  method AddToProduct(db: Database, item: Item, b: Binding, approver: string) returns (r: Result<Report, AddError>)
    requires item.Valid()
    modifies db
    ensures match ProductRefusal(old(db.tables), item, b)
            case Some(e) => r == Failure(e)
            case None =>
              && r == Success(ProductReport(old(db.tables), item, b, approver))
              && db.tables == AfterProduct(old(db.tables), item, b, approver)
  {
    var codes := Codes(item.offers);
    var intents := AddIntents(db, item.key, b, codes);
    if intents.Failure? {
      return Failure(intents.error);
    }
    var catalog := AddCatalog(db, item.key.name.tenant, b, item.offers, approver);
    if catalog.Failure? {
      return Failure(catalog.error);
    }
    var pilots := AddToPilots(db, ScopesFor(db.tables, item, b), codes);
    if pilots.Failure? {
      return Failure(pilots.error);
    }
    r := Success(Report([], intents.value, catalog.value, pilots.value));
  }

  /** Why the transaction refuses one binding, if it does. */
  function Refusal(t: Tables, item: Item): Option<AddError> {
    if !IsActive(t, item.key) then Some(BindingChanged)
    else
      var was := t.bindings[item.key];
      if was.terms.codes != item.newCodes && !ListsAre(was, item.oldCodes, item.oldLandings) then Some(BindingChanged)
      else
        match ProductRefusal(t, item, RowFor(was, item))
        case Some(e) => Some(e)
        case None => if ListsAre(RowFor(was, item), item.newCodes, item.newLandings) then None else Some(Unverified)
  }

  function After(t: Tables, item: Item, approver: string): Tables {
    if item.key !in t.bindings then t
    else
      var b := RowFor(t.bindings[item.key], item);
      AfterProduct(t.(bindings := t.bindings[item.key := b]), item, b, approver)
  }

  function ReportFor(t: Tables, item: Item, approver: string): Report {
    if item.key !in t.bindings then NOTHING
    else
      var was := t.bindings[item.key];
      ProductReport(t, item, RowFor(was, item), approver).(
        bindings := if was.terms.codes == item.newCodes then [] else [item.key])
  }

  // -------------------------------------------------------------------------
  // What is settled
  // -------------------------------------------------------------------------

  /** Everything that names the offers of the product has the ones of the item. */
  predicate Settled(tables: Tables, item: Item) {
    && IsActive(tables, item.key)
    && var k, b := item.key, tables.bindings[item.key];
       && ListsAre(b, item.newCodes, item.newLandings)
       && IntentsSettled(tables.intents, k, b, Codes(item.offers))
       && CatalogSettled(tables.catalog, k.name.tenant, b, Codes(item.offers))
       && PilotsSettled(tables, k.name.tenant, b, Codes(item.offers))
  }

  predicate IntentsSettled(intents: seq<Intent>, k: Key<Product>, b: Binding, codes: seq<string>) {
    && DefaultLookback(intents, k, b).Some?
    && forall c :: c in codes ==> HasOwn(intents, k, b, c) && !TakenByOther(intents, k, b, c)
  }

  predicate CatalogSettled(catalog: seq<Offer>, tenant: string, b: Binding, codes: seq<string>) {
    && DefaultOffer(catalog, tenant, b).Some?
    && forall c :: c in codes ==> HasOffer(catalog, DefaultOffer(catalog, tenant, b).value, c)
  }

  predicate PilotsSettled(tables: Tables, tenant: string, b: Binding, codes: seq<string>) {
    forall k, c :: k in ProductScopes(tables.controls, tables.pilots, tenant, b.terms.product) && c in codes ==>
      k in tables.pilots && (c == tables.pilots[k].terms.offer || c in tables.pilots[k].terms.codes)
  }

  /** The verification at the end of the item. */
  predicate Verified(tables: Tables, item: Item) {
    && IsActive(tables, item.key)
    && var k, b := item.key, tables.bindings[item.key];
       && ListsAre(b, item.newCodes, item.newLandings)
       && (forall c :: c in Codes(item.offers) ==>
             && (exists i :: i in tables.intents && ActiveFor(i, b.terms.product, c)
                             && i.tenant == k.name.tenant && i.funnel == k.name.funnel)
             && (exists o :: o in tables.catalog && o.tenant == k.name.tenant && o.scope == b.scope
                             && o.terms.code == c && o.active))
       && PilotsSettled(tables, k.name.tenant, b, Codes(item.offers))
  }

  lemma {:induction false} DefaultOfferIsIts(catalog: seq<Offer>, tenant: string, b: Binding)
    ensures DefaultOffer(catalog, tenant, b).Some? ==>
              var d := DefaultOffer(catalog, tenant, b).value;
              d in catalog && d.tenant == tenant && d.scope == b.scope && d.active && d.terms.isDefault
  {
    if catalog != [] {
      DefaultOfferIsIts(catalog[1..], tenant, b);
    }
  }

  lemma SettledIsVerified(tables: Tables, item: Item)
    requires Settled(tables, item)
    ensures Verified(tables, item)
  {
    var k, b := item.key, tables.bindings[item.key];
    DefaultOfferIsIts(tables.catalog, k.name.tenant, b);
    var d := DefaultOffer(tables.catalog, k.name.tenant, b).value;
    forall c | c in Codes(item.offers)
      ensures exists i :: i in tables.intents && ActiveFor(i, b.terms.product, c)
                          && i.tenant == k.name.tenant && i.funnel == k.name.funnel
      ensures exists o :: o in tables.catalog && o.tenant == k.name.tenant && o.scope == b.scope
                          && o.terms.code == c && o.active
    {
      var i :| i in tables.intents && ActiveFor(i, b.terms.product, c) && IsOwn(i, k, b);
      var o :| o in tables.catalog && OfferFor(o, d, c) && o.active;
    }
  }

  // What each step settles.

  lemma {:induction false} LookbackStays(intents: seq<Intent>, more: seq<Intent>, k: Key<Product>, b: Binding)
    requires DefaultLookback(intents, k, b).Some?
    ensures DefaultLookback(intents + more, k, b) == DefaultLookback(intents, k, b)
  {
    if !(ActiveFor(intents[0], b.terms.product, b.terms.offer) && IsOwn(intents[0], k, b)) {
      assert (intents + more)[1..] == intents[1..] + more;
      LookbackStays(intents[1..], more, k, b);
    }
  }

  lemma {:induction false} DefaultOfferStays(catalog: seq<Offer>, more: seq<Offer>, tenant: string, b: Binding)
    requires DefaultOffer(catalog, tenant, b).Some?
    ensures DefaultOffer(catalog + more, tenant, b) == DefaultOffer(catalog, tenant, b)
  {
    if !(catalog[0].tenant == tenant && catalog[0].scope == b.scope && catalog[0].active && catalog[0].terms.isDefault
         && Lower(catalog[0].terms.product) == Lower(b.terms.hotlink)) {
      assert (catalog + more)[1..] == catalog[1..] + more;
      DefaultOfferStays(catalog[1..], more, tenant, b);
    }
  }

  lemma IntentsAreSettled(intents: seq<Intent>, k: Key<Product>, b: Binding, codes: seq<string>, lookback: string)
    requires DefaultLookback(intents, k, b) == Some(lookback)
    requires forall c :: c in codes ==> !TakenByOther(intents, k, b, c)
    ensures IntentsSettled(intents + OwnIntents(k, b, Intentless(intents, b.terms.product, codes), lookback), k, b, codes)
  {
    var added := Intentless(intents, b.terms.product, codes);
    var own := OwnIntents(k, b, added, lookback);
    var all := intents + own;
    LookbackStays(intents, own, k, b);
    IntentlessKeeps(intents, b.terms.product, codes);
    forall i | i in own
      ensures IsOwn(i, k, b)
    {
    }
    forall c | c in codes
      ensures HasOwn(all, k, b, c) && !TakenByOther(all, k, b, c)
    {
      if c in added {
        var n :| 0 <= n < |added| && added[n] == c;
        assert own[n] in all;
      } else {
        HasIntentMeans(intents, b.terms.product, c);
        var i :| i in intents && ActiveFor(i, b.terms.product, c);
        assert i in all && IsOwn(i, k, b);
      }
    }
  }

  lemma CatalogIsSettled(catalog: seq<Offer>, tenant: string, b: Binding, offers: seq<Wanted>, approver: string)
    requires DefaultOffer(catalog, tenant, b).Some?
    ensures var d := DefaultOffer(catalog, tenant, b).value;
            CatalogSettled(catalog + NewOffers(catalog, d, offers, approver), tenant, b, Codes(offers))
  {
    var d := DefaultOffer(catalog, tenant, b).value;
    DefaultOfferStays(catalog, NewOffers(catalog, d, offers, approver), tenant, b);
    NewOffersKeeps(catalog, d, offers, approver);
    forall c | c in Codes(offers)
      ensures HasOffer(catalog + NewOffers(catalog, d, offers, approver), d, c)
    {
      var n :| 0 <= n < |offers| && Codes(offers)[n] == c;
      assert offers[n] in offers;
    }
  }

  /** The scopes of a product are the same when the scopes of the pilot only gain offers. */
  lemma ScopesStay(
      controls: map<string, Control>, before: map<Key<string>, Pilot>, done: set<Key<string>>, codes: seq<string>,
      tenant: string, product: int)
    ensures ProductScopes(controls, WithAppended(before, done, codes), tenant, product)
            == ProductScopes(controls, before, tenant, product)
  {
  }

  lemma PilotsAreSettled(t: Tables, tenant: string, b: Binding, codes: seq<string>, after: Tables)
    requires after.controls == t.controls
    requires after.pilots == WithAppended(t.pilots, ProductScopes(t.controls, t.pilots, tenant, b.terms.product), codes)
    ensures PilotsSettled(after, tenant, b, codes)
  {
    var scopes := ProductScopes(t.controls, t.pilots, tenant, b.terms.product);
    ScopesStay(t.controls, t.pilots, scopes, codes, tenant, b.terms.product);
    forall k, c | k in scopes && c in codes
      ensures k in after.pilots && (c == after.pilots[k].terms.offer || c in after.pilots[k].terms.codes)
    {
      var terms := t.pilots[k].terms;
      LessKeeps(codes, (set x | x in terms.codes) + {terms.offer});
      assert after.pilots[k] == Appended(t.pilots[k], codes);
    }
  }

  predicate ProductSettled(tables: Tables, item: Item, b: Binding) {
    && IntentsSettled(tables.intents, item.key, b, Codes(item.offers))
    && CatalogSettled(tables.catalog, item.key.name.tenant, b, Codes(item.offers))
    && PilotsSettled(tables, item.key.name.tenant, b, Codes(item.offers))
  }

  lemma ProductIsSettled(t: Tables, item: Item, b: Binding, approver: string)
    requires ProductRefusal(t, item, b).None?
    ensures ProductSettled(AfterProduct(t, item, b, approver), item, b)
  {
    var k, codes := item.key, Codes(item.offers);
    IntentsAreSettled(t.intents, k, b, codes, DefaultLookback(t.intents, k, b).value);
    CatalogIsSettled(t.catalog, k.name.tenant, b, item.offers, approver);
    PilotsAreSettled(t, k.name.tenant, b, codes, AfterProduct(t, item, b, approver));
  }

  lemma AfterIsSettled(t: Tables, item: Item, approver: string)
    requires Refusal(t, item).None?
    ensures Settled(After(t, item, approver), item)
  {
    var b := RowFor(t.bindings[item.key], item);
    ProductIsSettled(t.(bindings := t.bindings[item.key := b]), item, b, approver);
  }

  // Where everything is settled, nothing is left to do.

  lemma NoIntents(intents: seq<Intent>, k: Key<Product>, b: Binding, codes: seq<string>)
    requires IntentsSettled(intents, k, b, codes)
    ensures Intentless(intents, b.terms.product, codes) == [] && AddedIntents(intents, k, b, codes) == []
  {
    forall c | c in codes
      ensures HasIntent(intents, b.terms.product, c)
    {
      HasIntentMeans(intents, b.terms.product, c);
    }
    NoneIntentless(intents, b.terms.product, codes);
  }

  lemma {:induction false} NoNewOffers(catalog: seq<Offer>, d: Offer, offers: seq<Wanted>, approver: string)
    requires forall n :: 0 <= n < |offers| ==> HasOffer(catalog, d, offers[n].code)
    ensures NewOffers(catalog, d, offers, approver) == []
  {
    if offers != [] {
      NoNewOffers(catalog, d, offers[..|offers| - 1], approver);
    }
  }

  lemma NoOffers(catalog: seq<Offer>, tenant: string, b: Binding, offers: seq<Wanted>, approver: string)
    requires CatalogSettled(catalog, tenant, b, Codes(offers))
    ensures AddedOffers(catalog, tenant, b, offers, approver) == []
  {
    var d := DefaultOffer(catalog, tenant, b).value;
    forall n | 0 <= n < |offers|
      ensures HasOffer(catalog, d, offers[n].code)
    {
      assert Codes(offers)[n] in Codes(offers);
    }
    NoNewOffers(catalog, d, offers, approver);
  }

  lemma NothingToAppend(t: Tables, tenant: string, b: Binding, codes: seq<string>)
    requires PilotsSettled(t, tenant, b, codes)
    ensures var scopes := ProductScopes(t.controls, t.pilots, tenant, b.terms.product);
            AllFit(t.pilots, scopes, codes) && Lacking(t.pilots, scopes, codes) == {}
            && WithAppended(t.pilots, scopes, codes) == t.pilots
  {
    var scopes := ProductScopes(t.controls, t.pilots, tenant, b.terms.product);
    forall k | k in scopes && k in t.pilots
      ensures NotIn(codes, t.pilots[k].terms) == []
    {
      var terms := t.pilots[k].terms;
      NothingLess(codes, (set c | c in terms.codes) + {terms.offer});
    }
    assert forall k :: k in scopes && k in t.pilots ==> Appended(t.pilots[k], codes) == t.pilots[k];
  }

  lemma SettledIsDone(t: Tables, item: Item, approver: string)
    requires Settled(t, item)
    ensures Refusal(t, item).None? && After(t, item, approver) == t && ReportFor(t, item, approver) == NOTHING
  {
    var k, b, codes := item.key, t.bindings[item.key], Codes(item.offers);
    assert t.bindings[k := b] == t.bindings;
    NoIntents(t.intents, k, b, codes);
    NoOffers(t.catalog, k.name.tenant, b, item.offers, approver);
    NothingToAppend(t, k.name.tenant, b, codes);
  }

  /** One turn of the loop over the plan. It fails in the verification only when the codes
      were the new ones with other landings. */
  method ApplyItem(db: Database, item: Item, approver: string) returns (r: Result<Report, AddError>)
    requires item.Valid()
    modifies db
    ensures match Refusal(old(db.tables), item)
            case Some(e) => r == Failure(e)
            case None => r == Success(ReportFor(old(db.tables), item, approver)) && db.tables == After(old(db.tables), item, approver)
  {
    ghost var before := db.tables;
    var bindings := UpdateBinding(db, item);
    if bindings.Failure? {
      return Failure(bindings.error);
    }
    ghost var middle := db.tables;
    var b := db.tables.bindings[item.key];
    var added := AddToProduct(db, item, b, approver);
    if added.Failure? {
      return Failure(added.error);
    }
    if ListsAre(b, item.newCodes, item.newLandings) {
      ProductIsSettled(middle, item, b, approver);
      SettledIsVerified(db.tables, item);
    }
    if !Verified(db.tables, item) {
      return Failure(Unverified);
    }
    r := Success(added.value.(bindings := bindings.value));
  }

  // -------------------------------------------------------------------------
  // The plan
  // -------------------------------------------------------------------------

  ghost predicate ValidPlan(plan: seq<Item>) {
    && (forall i :: 0 <= i < |plan| ==> plan[i].Valid())
    && forall i, j :: 0 <= i < j < |plan| ==> plan[i].key != plan[j].key
  }

  ghost predicate AllSettled(tables: Tables, plan: seq<Item>) {
    forall i :: 0 <= i < |plan| ==> Settled(tables, plan[i])
  }

  /** The tables after the items of a plan. */
  function AfterAll(t: Tables, plan: seq<Item>, approver: string): Tables {
    if plan == [] then t else After(AfterAll(t, plan[..|plan| - 1], approver), plan[|plan| - 1], approver)
  }

  /** Why the first item that is refused is. */
  function PlanRefusal(t: Tables, plan: seq<Item>, approver: string): Option<AddError> {
    if plan == [] then None
    else
      match PlanRefusal(t, plan[..|plan| - 1], approver)
      case Some(e) => Some(e)
      case None => Refusal(AfterAll(t, plan[..|plan| - 1], approver), plan[|plan| - 1])
  }

  function PlanReport(t: Tables, plan: seq<Item>, approver: string): Report {
    if plan == [] then NOTHING
    else
      Plus(PlanReport(t, plan[..|plan| - 1], approver),
           ReportFor(AfterAll(t, plan[..|plan| - 1], approver), plan[|plan| - 1], approver))
  }

  lemma {:induction false} RefusedEarly(t: Tables, plan: seq<Item>, n: nat, approver: string)
    requires n <= |plan| && PlanRefusal(t, plan[..n], approver).Some?
    ensures PlanRefusal(t, plan, approver) == PlanRefusal(t, plan[..n], approver)
    decreases |plan|
  {
    if n == |plan| {
      assert plan[..n] == plan;
    } else {
      var init := plan[..|plan| - 1];
      assert init[..n] == plan[..n];
      RefusedEarly(t, init, n, approver);
    }
  }

  ghost predicate IntentsGrown(before: seq<Intent>, after: seq<Intent>) {
    && before <= after
    && forall n :: |before| <= n < |after| ==> !HasIntent(before, after[n].product, after[n].offer)
  }

  ghost predicate CatalogGrown(before: seq<Offer>, after: seq<Offer>) {
    before <= after && forall n :: |before| <= n < |after| ==> !after[n].terms.isDefault
  }

  lemma IntentsGrow(intents: seq<Intent>, k: Key<Product>, b: Binding, codes: seq<string>)
    ensures IntentsGrown(intents, intents + AddedIntents(intents, k, b, codes))
  {
    IntentlessKeeps(intents, b.terms.product, codes);
    var added := Intentless(intents, b.terms.product, codes);
    assert forall n :: 0 <= n < |added| ==> added[n] in added;
  }

  lemma CatalogGrows(catalog: seq<Offer>, tenant: string, b: Binding, offers: seq<Wanted>, approver: string)
    ensures CatalogGrown(catalog, catalog + AddedOffers(catalog, tenant, b, offers, approver))
  {
    var more := AddedOffers(catalog, tenant, b, offers, approver);
    if DefaultOffer(catalog, tenant, b).Some? {
      NewOffersKeeps(catalog, DefaultOffer(catalog, tenant, b).value, offers, approver);
    }
    assert forall n :: 0 <= n < |more| ==> more[n] in more;
  }

  lemma IntentsStaySettled(before: seq<Intent>, after: seq<Intent>, k: Key<Product>, b: Binding, codes: seq<string>)
    requires IntentsSettled(before, k, b, codes) && IntentsGrown(before, after)
    ensures IntentsSettled(after, k, b, codes)
  {
    LookbackStays(before, after[|before|..], k, b);
    assert before + after[|before|..] == after;
    forall c | c in codes
      ensures HasOwn(after, k, b, c) && !TakenByOther(after, k, b, c)
    {
      HasIntentMeans(before, b.terms.product, c);
      var i :| i in before && ActiveFor(i, b.terms.product, c) && IsOwn(i, k, b);
      assert i in after;
      forall x | x in after && ActiveFor(x, b.terms.product, c)
        ensures IsOwn(x, k, b)
      {
        var n :| 0 <= n < |after| && after[n] == x;
        assert n < |before| ==> before[n] == x && x in before;
      }
    }
  }

  lemma CatalogStaysSettled(before: seq<Offer>, after: seq<Offer>, tenant: string, b: Binding, codes: seq<string>)
    requires CatalogSettled(before, tenant, b, codes) && CatalogGrown(before, after)
    ensures CatalogSettled(after, tenant, b, codes)
  {
    DefaultOfferStays(before, after[|before|..], tenant, b);
    assert before + after[|before|..] == after;
    forall c | c in codes
      ensures HasOffer(after, DefaultOffer(before, tenant, b).value, c)
    {
      MoreOffers(before, after, DefaultOffer(before, tenant, b).value, c);
    }
  }

  lemma PilotsStaySettled(t: Tables, after: Tables, done: set<Key<string>>, more: seq<string>, tenant: string, b: Binding, codes: seq<string>)
    requires after.controls == t.controls && after.pilots == WithAppended(t.pilots, done, more)
    requires PilotsSettled(t, tenant, b, codes)
    ensures PilotsSettled(after, tenant, b, codes)
  {
    ScopesStay(t.controls, t.pilots, done, more, tenant, b.terms.product);
  }

  /** What one item adds unsettles no other. */
  lemma OthersStaySettled(t: Tables, item: Item, approver: string, other: Item)
    requires Settled(t, other) && other.key != item.key
    ensures Settled(After(t, item, approver), other)
  {
    var after := After(t, item, approver);
    if item.key in t.bindings {
      var row := RowFor(t.bindings[item.key], item);
      var k, b, codes := other.key, t.bindings[other.key], Codes(other.offers);
      assert after.bindings[k] == b;
      IntentsGrow(t.intents, item.key, row, Codes(item.offers));
      IntentsStaySettled(t.intents, after.intents, k, b, codes);
      CatalogGrows(t.catalog, item.key.name.tenant, row, item.offers, approver);
      CatalogStaysSettled(t.catalog, after.catalog, k.name.tenant, b, codes);
      PilotsStaySettled(t, after, ScopesFor(t, item, row), Codes(item.offers), k.name.tenant, b, codes);
    }
  }

  lemma AllStaySettled(t: Tables, plan: seq<Item>, item: Item, approver: string)
    requires AllSettled(t, plan) && forall i :: 0 <= i < |plan| ==> plan[i].key != item.key
    ensures AllSettled(After(t, item, approver), plan)
  {
    forall i | 0 <= i < |plan|
      ensures Settled(After(t, item, approver), plan[i])
    {
      OthersStaySettled(t, item, approver, plan[i]);
    }
  }

  lemma AllSettledFromInit(t: Tables, plan: seq<Item>)
    requires plan != [] && AllSettled(t, plan[..|plan| - 1]) && Settled(t, plan[|plan| - 1])
    ensures AllSettled(t, plan)
  {
    var init := plan[..|plan| - 1];
    assert forall i :: 0 <= i < |init| ==> plan[i] == init[i];
  }

  /** A plan that is not refused leaves everything settled. */
  lemma {:induction false} AfterAllIsSettled(t: Tables, plan: seq<Item>, approver: string)
    requires ValidPlan(plan) && PlanRefusal(t, plan, approver).None?
    ensures AllSettled(AfterAll(t, plan, approver), plan)
  {
    if plan != [] {
      var init, last := plan[..|plan| - 1], plan[|plan| - 1];
      AfterAllIsSettled(t, init, approver);
      AllStaySettled(AfterAll(t, init, approver), init, last, approver);
      AfterIsSettled(AfterAll(t, init, approver), last, approver);
      AllSettledFromInit(AfterAll(t, plan, approver), plan);
    }
  }

  /** Where everything is settled, the plan changes nothing and reports nothing. */
  lemma {:induction false} AllSettledIsDone(t: Tables, plan: seq<Item>, approver: string)
    requires AllSettled(t, plan)
    ensures PlanRefusal(t, plan, approver).None? && AfterAll(t, plan, approver) == t && PlanReport(t, plan, approver) == NOTHING
  {
    if plan != [] {
      var init, last := plan[..|plan| - 1], plan[|plan| - 1];
      assert forall i :: 0 <= i < |init| ==> init[i] == plan[i];
      AllSettledIsDone(t, init, approver);
      SettledIsDone(t, last, approver);
    }
  }

  // -------------------------------------------------------------------------
  // What exactly a plan adds
  // -------------------------------------------------------------------------

  lemma {:induction false} OnlyFourTables(t: Tables, plan: seq<Item>, approver: string)
    ensures var after := AfterAll(t, plan, approver);
            after == t.(bindings := after.bindings, intents := after.intents, catalog := after.catalog, pilots := after.pilots)
  {
    if plan != [] {
      OnlyFourTables(t, plan[..|plan| - 1], approver);
    }
  }

  ghost predicate Planned(plan: seq<Item>, k: Key<Product>) {
    exists i :: 0 <= i < |plan| && plan[i].key == k
  }

  /** The rows of the plan have the new lists, the others are as they were. */
  ghost predicate RowsRelisted(before: Bindings, plan: seq<Item>, after: Bindings) {
    && after.Keys == before.Keys
    && (forall k :: k in before && !Planned(plan, k) ==> after[k] == before[k])
    && forall i :: 0 <= i < |plan| ==> plan[i].key in before && after[plan[i].key] == Relisted(before[plan[i].key], plan[i])
  }

  lemma LastIsUnplanned(plan: seq<Item>)
    requires ValidPlan(plan) && plan != []
    ensures !Planned(plan[..|plan| - 1], plan[|plan| - 1].key)
    ensures forall k :: Planned(plan, k) <==> Planned(plan[..|plan| - 1], k) || k == plan[|plan| - 1].key
  {
    var init := plan[..|plan| - 1];
    forall k | Planned(plan, k) && k != plan[|plan| - 1].key
      ensures Planned(init, k)
    {
      var i :| 0 <= i < |plan| && plan[i].key == k;
      assert init[i].key == k;
    }
    forall k | Planned(init, k)
      ensures Planned(plan, k)
    {
      var i :| 0 <= i < |init| && init[i].key == k;
      assert plan[i].key == k;
    }
    assert Planned(plan, plan[|plan| - 1].key);
  }

  lemma OneMoreRelisted(before: Bindings, plan: seq<Item>, after: Bindings)
    requires ValidPlan(plan) && plan != []
    requires RowsRelisted(before, plan[..|plan| - 1], after) && plan[|plan| - 1].key in before
    ensures var last := plan[|plan| - 1];
            && after[last.key] == before[last.key]
            && RowsRelisted(before, plan, after[last.key := Relisted(before[last.key], last)])
  {
    var init, last := plan[..|plan| - 1], plan[|plan| - 1];
    LastIsUnplanned(plan);
    var next := after[last.key := Relisted(before[last.key], last)];
    forall i | 0 <= i < |plan|
      ensures plan[i].key in before && next[plan[i].key] == Relisted(before[plan[i].key], plan[i])
    {
      if i < |init| {
        assert init[i] == plan[i] && Planned(init, init[i].key);
      }
    }
  }

  lemma {:induction false} PlanRelists(t: Tables, plan: seq<Item>, approver: string)
    requires ValidPlan(plan) && PlanRefusal(t, plan, approver).None?
    ensures RowsRelisted(t.bindings, plan, AfterAll(t, plan, approver).bindings)
  {
    if plan != [] {
      var init, last := plan[..|plan| - 1], plan[|plan| - 1];
      PlanRelists(t, init, approver);
      OneMoreRelisted(t.bindings, plan, AfterAll(t, init, approver).bindings);
    }
  }

  /** What the last item of a plan adds, by the row that its binding had at the start. */
  lemma LastTurn(t: Tables, plan: seq<Item>, approver: string)
    requires ValidPlan(plan) && PlanRefusal(t, plan, approver).None? && plan != []
    ensures plan[|plan| - 1].key in t.bindings
    ensures var last := plan[|plan| - 1];
            var b := Relisted(t.bindings[last.key], last);
            var middle, after := AfterAll(t, plan[..|plan| - 1], approver), AfterAll(t, plan, approver);
            && after.intents == middle.intents + AddedIntents(middle.intents, last.key, b, Codes(last.offers))
            && after.catalog == middle.catalog + AddedOffers(middle.catalog, last.key.name.tenant, b, last.offers, approver)
            && after.pilots == WithAppended(middle.pilots, ScopesFor(middle, last, b), Codes(last.offers))
            && middle.controls == t.controls
  {
    var init, last := plan[..|plan| - 1], plan[|plan| - 1];
    var middle := AfterAll(t, init, approver);
    PlanRelists(t, init, approver);
    OneMoreRelisted(t.bindings, plan, middle.bindings);
    OnlyFourTables(t, init, approver);
    assert RowFor(middle.bindings[last.key], last) == Relisted(t.bindings[last.key], last);
  }

  // The scopes of the pilot.

  /** The codes that are neither held nor come earlier. */
  function Lacked(codes: seq<string>, held: set<string>): seq<string> {
    if codes == [] then []
    else if codes[0] in held then Lacked(codes[1..], held)
    else [codes[0]] + Lacked(codes[1..], held + {codes[0]})
  }

  function Held(terms: PilotTerms): set<string> {
    (set c | c in terms.codes) + {terms.offer}
  }

  lemma {:induction false} LackedMeans(codes: seq<string>, held: set<string>)
    ensures Distinct(Lacked(codes, held))
    ensures forall c :: c in Lacked(codes, held) <==> c in codes && c !in held
  {
    if codes != [] {
      var more := held + (if codes[0] in held then {} else {codes[0]});
      var rest := Lacked(codes[1..], more);
      LackedMeans(codes[1..], more);
      assert more == held || more == held + {codes[0]};
      assert forall c :: c in codes <==> c == codes[0] || c in codes[1..];
      assert forall i :: 0 <= i < |rest| ==> rest[i] in rest;
    }
  }

  lemma {:induction false} LackedOfConcatenation(a: seq<string>, b: seq<string>, held: set<string>)
    ensures Lacked(a + b, held) == Lacked(a, held) + Lacked(b, held + set c | c in a)
  {
    if a == [] {
      assert a + b == b;
      assert held + (set c | c in a) == held;
    } else {
      var more := held + {a[0]};
      assert (a + b)[1..] == a[1..] + b;
      assert forall c :: c in a <==> c == a[0] || c in a[1..];
      assert more + (set c | c in a[1..]) == held + set c | c in a;
      LackedOfConcatenation(a[1..], b, more);
      assert a[0] in held ==> more == held;
    }
  }

  /** Of codes that do not repeat, the lacked ones are those that are not held. */
  lemma {:induction false} LackedOfDistinct(codes: seq<string>, held: set<string>)
    requires Distinct(codes)
    ensures Lacked(codes, held) == Less(codes, held)
  {
    if codes != [] {
      var rest := codes[1..];
      if codes[0] in held {
        LackedOfDistinct(rest, held);
      } else {
        LackedOfDistinct(rest, held + {codes[0]});
        assert forall i :: 0 <= i < |rest| ==> rest[i] == codes[i + 1] && codes[0] != codes[i + 1];
        SameLess(rest, held + {codes[0]}, held);
      }
    }
  }

  /** Everything that the plan asks of a scope, in the order of the plan. */
  function Requested(t: Tables, plan: seq<Item>, k: Key<string>): seq<string> {
    if plan == [] then []
    else
      var last := plan[|plan| - 1];
      Requested(t, plan[..|plan| - 1], k)
      + if last.key in t.bindings && k in ScopesFor(t, last, t.bindings[last.key]) then Codes(last.offers) else []
  }

  /** A scope with the codes that it lacked, each once, in the order they were asked for. */
  function Gained(p: Pilot, codes: seq<string>): Pilot {
    p.(terms := p.terms.(codes := p.terms.codes + Lacked(codes, Held(p.terms))))
  }

  /** The old list comes first, then nothing but what was asked for and was lacking, all
      of it; and no offer is repeated unless one was before. */
  lemma GainedMeans(p: Pilot, codes: seq<string>)
    ensures var was, now := p.terms, Gained(p, codes).terms;
            && was.codes <= now.codes
            && (forall c :: c in now.codes[|was.codes|..] <==> c in codes && c !in was.codes && c != was.offer)
            && (Distinct([was.offer] + was.codes) ==> Distinct([now.offer] + now.codes))
  {
    var was, now := p.terms, Gained(p, codes).terms;
    var more := Lacked(codes, Held(was));
    LackedMeans(codes, Held(was));
    assert now.codes[|was.codes|..] == more;
    if Distinct([was.offer] + was.codes) {
      assert forall c :: c in [was.offer] + was.codes <==> c in Held(was);
      DistinctTogether([was.offer] + was.codes, more);
      assert [now.offer] + now.codes == [was.offer] + was.codes + more;
    }
  }

  lemma GainsMore(p: Pilot, codes: seq<string>, more: seq<string>)
    requires Distinct(more)
    ensures Appended(Gained(p, codes), more) == Gained(p, codes + more)
  {
    var held, gained := Held(p.terms), Gained(p, codes).terms;
    LackedOfConcatenation(codes, more, held);
    LackedOfDistinct(more, held + set c | c in codes);
    LackedMeans(codes, held);
    assert Held(gained) == held + set c | c in codes;
    assert p.terms.codes + (Lacked(codes, held) + Less(more, Held(gained))) == gained.codes + Less(more, Held(gained));
  }

  /** Which scopes a product has does not change while offers are added. */
  ghost predicate SameScopes(before: map<Key<string>, Pilot>, after: map<Key<string>, Pilot>) {
    && after.Keys == before.Keys
    && forall k :: k in before ==> after[k] == before[k].(terms := before[k].terms.(codes := after[k].terms.codes))
  }

  lemma ScopesOfSame(controls: map<string, Control>, before: map<Key<string>, Pilot>, after: map<Key<string>, Pilot>, tenant: string, product: int)
    requires SameScopes(before, after)
    ensures ProductScopes(controls, after, tenant, product) == ProductScopes(controls, before, tenant, product)
  {
    forall s | s in controls && Key(s, controls[s].version) in before
      ensures SellsProduct(after[Key(s, controls[s].version)], tenant, product)
              <==> SellsProduct(before[Key(s, controls[s].version)], tenant, product)
    {
    }
  }

  /** Each scope ends with its old list and then the offers it lacked of all those the
      plan asks of it, in the order of the plan, each once. */
  ghost predicate PilotsGain(t: Tables, plan: seq<Item>, after: map<Key<string>, Pilot>) {
    && after.Keys == t.pilots.Keys
    && forall k :: k in t.pilots ==> after[k] == Gained(t.pilots[k], Requested(t, plan, k))
  }

  lemma OneScopeGains(t: Tables, plan: seq<Item>, k: Key<string>)
    requires ValidPlan(plan) && plan != [] && plan[|plan| - 1].key in t.bindings && k in t.pilots
    ensures var last, p := plan[|plan| - 1], Gained(t.pilots[k], Requested(t, plan[..|plan| - 1], k));
            Gained(t.pilots[k], Requested(t, plan, k))
            == if k in ScopesFor(t, last, t.bindings[last.key]) then Appended(p, Codes(last.offers)) else p
  {
    var init, last := plan[..|plan| - 1], plan[|plan| - 1];
    GainsMore(t.pilots[k], Requested(t, init, k), Codes(last.offers));
    assert Requested(t, init, k) + [] == Requested(t, init, k);
  }

  lemma OneMorePilotsGain(t: Tables, plan: seq<Item>, pilots: map<Key<string>, Pilot>)
    requires ValidPlan(plan) && plan != [] && plan[|plan| - 1].key in t.bindings
    requires PilotsGain(t, plan[..|plan| - 1], pilots)
    ensures var last := plan[|plan| - 1];
            var product := t.bindings[last.key].terms.product;
            var done := ProductScopes(t.controls, pilots, last.key.name.tenant, product);
            PilotsGain(t, plan, WithAppended(pilots, done, Codes(last.offers)))
  {
    var last := plan[|plan| - 1];
    assert SameScopes(t.pilots, pilots);
    ScopesOfSame(t.controls, t.pilots, pilots, last.key.name.tenant, t.bindings[last.key].terms.product);
    forall k | k in t.pilots
      ensures (if k in ScopesFor(t, last, t.bindings[last.key]) then Appended(pilots[k], Codes(last.offers)) else pilots[k])
              == Gained(t.pilots[k], Requested(t, plan, k))
    {
      OneScopeGains(t, plan, k);
    }
  }

  lemma {:induction false} PlanGains(t: Tables, plan: seq<Item>, approver: string)
    requires ValidPlan(plan) && PlanRefusal(t, plan, approver).None?
    ensures PilotsGain(t, plan, AfterAll(t, plan, approver).pilots)
  {
    if plan != [] {
      var init, last := plan[..|plan| - 1], plan[|plan| - 1];
      var middle := AfterAll(t, init, approver);
      PlanGains(t, init, approver);
      LastTurn(t, plan, approver);
      OneMorePilotsGain(t, plan, middle.pilots);
    } else {
      assert forall k :: k in t.pilots ==> Gained(t.pilots[k], []) == t.pilots[k];
    }
  }

  // The intents.

  predicate IntentFor(i: Intent, product: int, code: string) {
    i.product == product && i.offer == code
  }

  /** The row is the intent of an offer that the item asks for, with the lookback that the
      intent of the default offer had by then. */
  ghost predicate IntentOf(bindings: Bindings, item: Item, earlier: seq<Intent>, row: Intent) {
    && item.key in bindings && row.offer in Codes(item.offers)
    && var b := Relisted(bindings[item.key], item);
       && DefaultLookback(earlier, item.key, b) == Some(row.lookback)
       && row == OwnIntent(item.key, b, row.offer, row.lookback)
  }

  /** The row at `m` is asked for, and there was none before it. */
  ghost predicate AskedIntent(bindings: Bindings, plan: seq<Item>, intents: seq<Intent>, m: nat)
    requires m < |intents|
  {
    && !HasIntent(intents[..m], intents[m].product, intents[m].offer)
    && exists i :: 0 <= i < |plan| && IntentOf(bindings, plan[i], intents[..m], intents[m])
  }

  /** No row goes, and every row that comes is asked for. */
  ghost predicate IntentsAdded(t: Tables, plan: seq<Item>, after: seq<Intent>) {
    t.intents <= after && forall m :: |t.intents| <= m < |after| ==> AskedIntent(t.bindings, plan, after, m)
  }

  lemma {:induction false} IntentlessIsDistinct(intents: seq<Intent>, product: int, codes: seq<string>)
    requires Distinct(codes)
    ensures Distinct(Intentless(intents, product, codes))
  {
    if codes != [] {
      var init, last := codes[..|codes| - 1], codes[|codes| - 1];
      IntentlessIsDistinct(intents, product, init);
      IntentlessKeeps(intents, product, init);
      var rest := Intentless(intents, product, init);
      forall i | 0 <= i < |rest|
        ensures rest[i] != last
      {
        assert rest[i] in rest;
        var n :| 0 <= n < |init| && init[n] == rest[i];
        assert codes[n] != codes[|codes| - 1];
      }
    }
  }

  /** Each intent that step 2 adds is asked for, and is the first one of its offer. */
  lemma AddedIntentIsAsked(bindings: Bindings, item: Item, intents: seq<Intent>, n: nat)
    requires item.Valid() && item.key in bindings
    requires var b := Relisted(bindings[item.key], item); n < |AddedIntents(intents, item.key, b, Codes(item.offers))|
    ensures var b := Relisted(bindings[item.key], item);
            var added := AddedIntents(intents, item.key, b, Codes(item.offers));
            && IntentOf(bindings, item, intents + added[..n], added[n])
            && !HasIntent(intents + added[..n], added[n].product, added[n].offer)
  {
    var k, b, codes := item.key, Relisted(bindings[item.key], item), Codes(item.offers);
    var lookback := DefaultLookback(intents, k, b).value;
    var added, own := Intentless(intents, b.terms.product, codes), AddedIntents(intents, k, b, codes);
    IntentlessIsDistinct(intents, b.terms.product, codes);
    IntentlessKeeps(intents, b.terms.product, codes);
    assert added[n] in added;
    assert own[..n] == OwnIntents(k, b, added[..n], lookback);
    assert forall i :: 0 <= i < n ==> added[..n][i] == added[i] && added[i] != added[n];
    OthersDoNotCount(intents, k, b, added[..n], lookback, added[n]);
    LookbackStays(intents, own[..n], k, b);
  }

  lemma OneMoreIntentsAdded(t: Tables, plan: seq<Item>, intents: seq<Intent>)
    requires ValidPlan(plan) && plan != [] && plan[|plan| - 1].key in t.bindings
    requires IntentsAdded(t, plan[..|plan| - 1], intents)
    ensures var last := plan[|plan| - 1];
            var b := Relisted(t.bindings[last.key], last);
            IntentsAdded(t, plan, intents + AddedIntents(intents, last.key, b, Codes(last.offers)))
  {
    var init, last := plan[..|plan| - 1], plan[|plan| - 1];
    var added := AddedIntents(intents, last.key, Relisted(t.bindings[last.key], last), Codes(last.offers));
    var after := intents + added;
    forall m | |t.intents| <= m < |after|
      ensures AskedIntent(t.bindings, plan, after, m)
    {
      if m < |intents| {
        assert after[..m] == intents[..m];
        assert AskedIntent(t.bindings, init, intents, m);
        var i :| 0 <= i < |init| && IntentOf(t.bindings, init[i], intents[..m], intents[m]);
        assert IntentOf(t.bindings, plan[i], after[..m], after[m]);
      } else {
        var n := m - |intents|;
        assert after[..m] == intents + added[..n];
        AddedIntentIsAsked(t.bindings, last, intents, n);
        assert IntentOf(t.bindings, plan[|plan| - 1], after[..m], after[m]);
      }
    }
  }

  lemma {:induction false} PlanAddsIntents(t: Tables, plan: seq<Item>, approver: string)
    requires ValidPlan(plan) && PlanRefusal(t, plan, approver).None?
    ensures IntentsAdded(t, plan, AfterAll(t, plan, approver).intents)
  {
    if plan != [] {
      var init, last := plan[..|plan| - 1], plan[|plan| - 1];
      var middle := AfterAll(t, init, approver);
      PlanAddsIntents(t, init, approver);
      LastTurn(t, plan, approver);
      OneMoreIntentsAdded(t, plan, middle.intents);
    }
  }

  ghost predicate AsksForIntent(bindings: Bindings, plan: seq<Item>, product: int, code: string) {
    exists i :: 0 <= i < |plan| && plan[i].key in bindings
                && bindings[plan[i].key].terms.product == product && code in Codes(plan[i].offers)
  }

  ghost predicate GetsIntent(before: seq<Intent>, after: seq<Intent>, product: int, code: string) {
    exists m :: |before| <= m < |after| && IntentFor(after[m], product, code)
  }

  /** An intent that is added is the first one of its offer. */
  lemma IntentIsFirst(bindings: Bindings, plan: seq<Item>, intents: seq<Intent>, m: nat, n: nat)
    requires n < m < |intents| && AskedIntent(bindings, plan, intents, m) && intents[n].active
    ensures !IntentFor(intents[n], intents[m].product, intents[m].offer)
  {
    assert intents[..m][n] == intents[n];
  }

  lemma OnlyRequestedIntents(t: Tables, plan: seq<Item>, all: seq<Intent>, product: int, code: string)
    requires IntentsAdded(t, plan, all) && GetsIntent(t.intents, all, product, code)
    ensures AsksForIntent(t.bindings, plan, product, code) && !HasIntent(t.intents, product, code)
  {
    var m :| |t.intents| <= m < |all| && IntentFor(all[m], product, code);
    assert AskedIntent(t.bindings, plan, all, m);
    var i :| 0 <= i < |plan| && IntentOf(t.bindings, plan[i], all[..m], all[m]);
    assert plan[i].key in t.bindings && t.bindings[plan[i].key].terms.product == product;
    forall n | 0 <= n < |t.intents| && t.intents[n].active
      ensures !IntentFor(t.intents[n], product, code)
    {
      IntentIsFirst(t.bindings, plan, all, m, n);
    }
  }

  lemma AllRequestedIntents(t: Tables, plan: seq<Item>, after: Tables, product: int, code: string)
    requires t.intents <= after.intents && RowsRelisted(t.bindings, plan, after.bindings) && AllSettled(after, plan)
    requires AsksForIntent(t.bindings, plan, product, code) && !HasIntent(t.intents, product, code)
    ensures GetsIntent(t.intents, after.intents, product, code)
  {
    var i :| 0 <= i < |plan| && plan[i].key in t.bindings
             && t.bindings[plan[i].key].terms.product == product && code in Codes(plan[i].offers);
    assert Settled(after, plan[i]);
    assert HasOwn(after.intents, plan[i].key, after.bindings[plan[i].key], code);
    HasIntentMeans(after.intents, product, code);
    IntentIsNew(t.intents, after.intents, product, code);
  }

  lemma IntentIsNew(before: seq<Intent>, after: seq<Intent>, product: int, code: string)
    requires before <= after && !HasIntent(before, product, code) && HasIntent(after, product, code)
    ensures GetsIntent(before, after, product, code)
  {
    var m :| 0 <= m < |after| && after[m].active && after[m].product == product && after[m].offer == code;
    assert |before| <= m;
    assert IntentFor(after[m], product, code);
  }

  /** The intents that a plan adds are exactly those of the offers it asks for that had none. */
  lemma ExactlyTheRequestedIntents(t: Tables, plan: seq<Item>, after: Tables, product: int, code: string)
    requires IntentsAdded(t, plan, after.intents) && RowsRelisted(t.bindings, plan, after.bindings) && AllSettled(after, plan)
    ensures GetsIntent(t.intents, after.intents, product, code)
            <==> AsksForIntent(t.bindings, plan, product, code) && !HasIntent(t.intents, product, code)
  {
    if GetsIntent(t.intents, after.intents, product, code) {
      OnlyRequestedIntents(t, plan, after.intents, product, code);
    } else if AsksForIntent(t.bindings, plan, product, code) && !HasIntent(t.intents, product, code) {
      AllRequestedIntents(t, plan, after, product, code);
    }
  }

  /** And there is one of each. */
  lemma AddedIntentsDiffer(t: Tables, plan: seq<Item>, all: seq<Intent>, m: nat, n: nat)
    requires IntentsAdded(t, plan, all) && |t.intents| <= n < m < |all|
    ensures !IntentFor(all[n], all[m].product, all[m].offer)
  {
    assert AskedIntent(t.bindings, plan, all, n) && AskedIntent(t.bindings, plan, all, m);
    IntentIsFirst(t.bindings, plan, all, m, n);
  }

  // The catalog.

  /** The default row of the product of an item. */
  function DefaultOf(t: Tables, item: Item): Option<Offer>
    requires item.key in t.bindings
  {
    DefaultOffer(t.catalog, item.key.name.tenant, Relisted(t.bindings[item.key], item))
  }

  /** The row is that of an offer that the item asks for, copied from the default row of
      its product, at the next version. */
  ghost predicate OfferOf(t: Tables, item: Item, earlier: seq<Offer>, row: Offer, approver: string) {
    && item.key in t.bindings
    && DefaultOf(t, item).Some? && AskedOf(earlier, DefaultOf(t, item).value, item.offers, row, approver)
  }

  /** There was no active row of the offer before it. */
  ghost predicate AskedOf(earlier: seq<Offer>, d: Offer, offers: seq<Wanted>, row: Offer, approver: string) {
    && !HasOffer(earlier, d, row.terms.code)
    && exists w :: w in offers && row == NewOffer(d, w, MaxVersion(earlier, d, w.code) + 1, approver)
  }

  ghost predicate AskedOffer(t: Tables, plan: seq<Item>, catalog: seq<Offer>, m: nat, approver: string)
    requires m < |catalog|
  {
    exists i :: 0 <= i < |plan| && OfferOf(t, plan[i], catalog[..m], catalog[m], approver)
  }

  ghost predicate OffersAdded(t: Tables, plan: seq<Item>, after: seq<Offer>, approver: string) {
    t.catalog <= after && forall m :: |t.catalog| <= m < |after| ==> AskedOffer(t, plan, after, m, approver)
  }

  lemma NextIsAsked(catalog: seq<Offer>, d: Offer, offers: seq<Wanted>, n: nat, approver: string)
    requires n < |offers| && Distinct(Codes(offers))
    requires !HasOffer(catalog, d, offers[n].code)
    ensures var more := NewOffers(catalog, d, offers[..n], approver);
            var row := NewOffer(d, offers[n], MaxVersion(catalog, d, offers[n].code) + 1, approver);
            && NewOffers(catalog, d, offers[..n + 1], approver) == more + [row]
            && AskedOf(catalog + more, d, offers, row, approver)
  {
    NextNewOffer(catalog, d, offers, n, approver);
    assert offers[n] in offers;
  }

  lemma {:induction false} NewOffersAreAsked(catalog: seq<Offer>, d: Offer, offers: seq<Wanted>, n: nat, m: nat, approver: string)
    requires n <= |offers| && Distinct(Codes(offers)) && m < |NewOffers(catalog, d, offers[..n], approver)|
    ensures var more := NewOffers(catalog, d, offers[..n], approver);
            AskedOf(catalog + more[..m], d, offers, more[m], approver)
  {
    if n > 0 {
      var init, more := NewOffers(catalog, d, offers[..n - 1], approver), NewOffers(catalog, d, offers[..n], approver);
      assert offers[..n][..n - 1] == offers[..n - 1];
      if m < |init| {
        NewOffersAreAsked(catalog, d, offers, n - 1, m, approver);
        assert more[..m] == init[..m];
      } else {
        NextIsAsked(catalog, d, offers, n - 1, approver);
        assert more[..m] == init;
      }
    }
  }

  /** Rows that are not the default do not change what the default row is. */
  lemma {:induction false} SameDefaultOffer(before: seq<Offer>, after: seq<Offer>, tenant: string, b: Binding)
    requires CatalogGrown(before, after)
    ensures DefaultOffer(after, tenant, b) == DefaultOffer(before, tenant, b)
    decreases |after|
  {
    if before != [] {
      SameDefaultOffer(before[1..], after[1..], tenant, b);
    } else if after != [] {
      SameDefaultOffer([], after[1..], tenant, b);
    }
  }

  lemma StaysAsked(t: Tables, plan: seq<Item>, catalog: seq<Offer>, more: seq<Offer>, m: nat, approver: string)
    requires plan != [] && m < |catalog| && AskedOffer(t, plan[..|plan| - 1], catalog, m, approver)
    ensures AskedOffer(t, plan, catalog + more, m, approver)
  {
    assert (catalog + more)[..m] == catalog[..m];
    var init := plan[..|plan| - 1];
    var i :| 0 <= i < |init| && OfferOf(t, init[i], catalog[..m], catalog[m], approver);
    assert OfferOf(t, plan[i], catalog[..m], catalog[m], approver);
  }

  lemma AddedOfferIsAsked(t: Tables, item: Item, catalog: seq<Offer>, n: nat, approver: string)
    requires item.Valid() && item.key in t.bindings && CatalogGrown(t.catalog, catalog)
    requires var b := Relisted(t.bindings[item.key], item);
             n < |AddedOffers(catalog, item.key.name.tenant, b, item.offers, approver)|
    ensures var b := Relisted(t.bindings[item.key], item);
            var added := AddedOffers(catalog, item.key.name.tenant, b, item.offers, approver);
            OfferOf(t, item, catalog + added[..n], added[n], approver)
  {
    var tenant, b := item.key.name.tenant, Relisted(t.bindings[item.key], item);
    SameDefaultOffer(t.catalog, catalog, tenant, b);
    assert item.offers[..|item.offers|] == item.offers;
    NewOffersAreAsked(catalog, DefaultOffer(catalog, tenant, b).value, item.offers, |item.offers|, n, approver);
  }

  lemma OneMoreOffersAdded(t: Tables, plan: seq<Item>, catalog: seq<Offer>, approver: string)
    requires ValidPlan(plan) && plan != [] && plan[|plan| - 1].key in t.bindings
    requires OffersAdded(t, plan[..|plan| - 1], catalog, approver)
    ensures var last := plan[|plan| - 1];
            var b := Relisted(t.bindings[last.key], last);
            OffersAdded(t, plan, catalog + AddedOffers(catalog, last.key.name.tenant, b, last.offers, approver), approver)
  {
    var init, last := plan[..|plan| - 1], plan[|plan| - 1];
    var added := AddedOffers(catalog, last.key.name.tenant, Relisted(t.bindings[last.key], last), last.offers, approver);
    var after := catalog + added;
    AddedAreNotDefault(t, init, catalog, approver);
    forall m | |t.catalog| <= m < |after|
      ensures AskedOffer(t, plan, after, m, approver)
    {
      if m < |catalog| {
        StaysAsked(t, plan, catalog, added, m, approver);
      } else {
        assert after[..m] == catalog + added[..m - |catalog|];
        AddedOfferIsAsked(t, last, catalog, m - |catalog|, approver);
        assert OfferOf(t, plan[|plan| - 1], after[..m], after[m], approver);
      }
    }
  }

  lemma AddedAreNotDefault(t: Tables, plan: seq<Item>, catalog: seq<Offer>, approver: string)
    requires OffersAdded(t, plan, catalog, approver)
    ensures CatalogGrown(t.catalog, catalog)
  {
    forall m | |t.catalog| <= m < |catalog|
      ensures !catalog[m].terms.isDefault
    {
      assert AskedOffer(t, plan, catalog, m, approver);
    }
  }

  lemma {:induction false} PlanAddsOffers(t: Tables, plan: seq<Item>, approver: string)
    requires ValidPlan(plan) && PlanRefusal(t, plan, approver).None?
    ensures OffersAdded(t, plan, AfterAll(t, plan, approver).catalog, approver)
  {
    if plan != [] {
      var init, last := plan[..|plan| - 1], plan[|plan| - 1];
      var middle := AfterAll(t, init, approver);
      PlanAddsOffers(t, init, approver);
      LastTurn(t, plan, approver);
      OneMoreOffersAdded(t, plan, middle.catalog, approver);
    }
  }

  predicate SameProduct(a: Offer, b: Offer) {
    a.tenant == b.tenant && a.scope == b.scope && a.terms.product == b.terms.product
  }

  /** The plan asks for an offer of the product of the row `d`. */
  ghost predicate AsksForOffer(t: Tables, plan: seq<Item>, d: Offer, code: string) {
    exists i :: 0 <= i < |plan| && plan[i].key in t.bindings && code in Codes(plan[i].offers)
                && DefaultOf(t, plan[i]).Some? && SameProduct(DefaultOf(t, plan[i]).value, d)
  }

  ghost predicate GetsOffer(before: seq<Offer>, after: seq<Offer>, d: Offer, code: string) {
    exists m :: |before| <= m < |after| && OfferFor(after[m], d, code)
  }

  /** A row that is added is for an offer that the plan asks for, and the first active one of it. */
  lemma OfferIsFirst(t: Tables, plan: seq<Item>, all: seq<Offer>, m: nat, approver: string)
    requires OffersAdded(t, plan, all, approver) && |t.catalog| <= m < |all|
    ensures all[m].active && AsksForOffer(t, plan, all[m], all[m].terms.code)
    ensures !HasOffer(all[..m], all[m], all[m].terms.code)
  {
    assert AskedOffer(t, plan, all, m, approver);
    var i :| 0 <= i < |plan| && OfferOf(t, plan[i], all[..m], all[m], approver);
    var e := DefaultOf(t, plan[i]).value;
    var w :| w in plan[i].offers && all[m] == NewOffer(e, w, MaxVersion(all[..m], e, w.code) + 1, approver);
    var n :| 0 <= n < |plan[i].offers| && plan[i].offers[n] == w;
    assert Codes(plan[i].offers)[n] == w.code;
    assert SameProduct(e, all[m]);
    assert forall o :: OfferFor(o, e, w.code) <==> OfferFor(o, all[m], w.code);
  }

  lemma OnlyRequestedOffers(t: Tables, plan: seq<Item>, all: seq<Offer>, approver: string, d: Offer, code: string)
    requires OffersAdded(t, plan, all, approver) && GetsOffer(t.catalog, all, d, code)
    ensures AsksForOffer(t, plan, d, code) && !HasOffer(t.catalog, d, code)
  {
    var m :| |t.catalog| <= m < |all| && OfferFor(all[m], d, code);
    OfferIsFirst(t, plan, all, m, approver);
    forall o | o in t.catalog && OfferFor(o, d, code)
      ensures !o.active
    {
      var n :| 0 <= n < |t.catalog| && t.catalog[n] == o;
      assert all[..m][n] == o;
      assert OfferFor(o, all[m], code);
    }
  }

  lemma AllRequestedOffers(t: Tables, plan: seq<Item>, after: Tables, approver: string, d: Offer, code: string)
    requires OffersAdded(t, plan, after.catalog, approver) && RowsRelisted(t.bindings, plan, after.bindings) && AllSettled(after, plan)
    requires AsksForOffer(t, plan, d, code) && !HasOffer(t.catalog, d, code)
    ensures GetsOffer(t.catalog, after.catalog, d, code)
  {
    var i :| 0 <= i < |plan| && plan[i].key in t.bindings && code in Codes(plan[i].offers)
             && DefaultOf(t, plan[i]).Some? && SameProduct(DefaultOf(t, plan[i]).value, d);
    assert Settled(after, plan[i]);
    AddedAreNotDefault(t, plan, after.catalog, approver);
    SameDefaultOffer(t.catalog, after.catalog, plan[i].key.name.tenant, after.bindings[plan[i].key]);
    OfferIsNew(t.catalog, after.catalog, DefaultOf(t, plan[i]).value, d, code);
  }

  lemma OfferIsNew(before: seq<Offer>, after: seq<Offer>, e: Offer, d: Offer, code: string)
    requires before <= after && SameProduct(e, d) && !HasOffer(before, d, code) && HasOffer(after, e, code)
    ensures GetsOffer(before, after, d, code)
  {
    var row :| row in after && OfferFor(row, e, code) && row.active;
    var m :| 0 <= m < |after| && after[m] == row;
    assert OfferFor(after[m], d, code);
    assert |before| <= m;
  }

  /** The catalog rows that a plan adds are exactly those of the offers it asks for that had
      no active one. */
  lemma ExactlyTheRequestedOffers(t: Tables, plan: seq<Item>, after: Tables, approver: string, d: Offer, code: string)
    requires OffersAdded(t, plan, after.catalog, approver) && RowsRelisted(t.bindings, plan, after.bindings) && AllSettled(after, plan)
    ensures GetsOffer(t.catalog, after.catalog, d, code) <==> AsksForOffer(t, plan, d, code) && !HasOffer(t.catalog, d, code)
  {
    if GetsOffer(t.catalog, after.catalog, d, code) {
      OnlyRequestedOffers(t, plan, after.catalog, approver, d, code);
    } else if AsksForOffer(t, plan, d, code) && !HasOffer(t.catalog, d, code) {
      AllRequestedOffers(t, plan, after, approver, d, code);
    }
  }

  /** And there is one of each. */
  lemma AddedOffersDiffer(t: Tables, plan: seq<Item>, all: seq<Offer>, m: nat, n: nat, approver: string)
    requires OffersAdded(t, plan, all, approver) && |t.catalog| <= n < m < |all|
    ensures !OfferFor(all[n], all[m], all[m].terms.code)
  {
    OfferIsFirst(t, plan, all, m, approver);
    OfferIsFirst(t, plan, all, n, approver);
    assert all[..m][n] == all[n];
  }

  // -------------------------------------------------------------------------
  // The whole transaction
  // -------------------------------------------------------------------------

  /** What a run of the transaction changes, exactly: the lists of the rows of the plan,
      intents and catalog rows for the offers asked for, and offers at the end of the
      lists of the scopes of their products. Nothing else: no control moves. */
  ghost predicate Adds(before: Tables, plan: seq<Item>, after: Tables, approver: string) {
    && after == before.(bindings := after.bindings, intents := after.intents, catalog := after.catalog, pilots := after.pilots)
    && RowsRelisted(before.bindings, plan, after.bindings)
    && IntentsAdded(before, plan, after.intents)
    && OffersAdded(before, plan, after.catalog, approver)
    && PilotsGain(before, plan, after.pilots)
  }

  lemma PlanAdds(t: Tables, plan: seq<Item>, approver: string)
    requires ValidPlan(plan) && PlanRefusal(t, plan, approver).None?
    ensures Adds(t, plan, AfterAll(t, plan, approver), approver)
    ensures AllSettled(AfterAll(t, plan, approver), plan)
  {
    OnlyFourTables(t, plan, approver);
    PlanRelists(t, plan, approver);
    PlanAddsIntents(t, plan, approver);
    PlanAddsOffers(t, plan, approver);
    PlanGains(t, plan, approver);
    AfterAllIsSettled(t, plan, approver);
  }

  /** The transaction over the whole plan: it goes through exactly when no item is refused
      where its turn comes, it fails with the reason of the first that is, and one that
      fails changes nothing. */
  method Apply(db: Database, plan: seq<Item>, actor: string) returns (r: Result<Report, AddError>)
    requires ValidPlan(plan)
    modifies db
    ensures r.Success? <==> PlanRefusal(old(db.tables), plan, "add-offers:" + actor).None?
    ensures r.Failure? ==> Some(r.error) == PlanRefusal(old(db.tables), plan, "add-offers:" + actor) && db.tables == old(db.tables)
    ensures r.Success? ==>
              && r.value == PlanReport(old(db.tables), plan, "add-offers:" + actor)
              && db.tables == AfterAll(old(db.tables), plan, "add-offers:" + actor)
              && Adds(old(db.tables), plan, db.tables, "add-offers:" + actor)
              && AllSettled(db.tables, plan)
  {
    var before, approver := db.tables, "add-offers:" + actor;
    var report := NOTHING;
    for n := 0 to |plan|
      invariant PlanRefusal(before, plan[..n], approver).None?
      invariant db.tables == AfterAll(before, plan[..n], approver)
      invariant report == PlanReport(before, plan[..n], approver)
    {
      var one := ApplyItem(db, plan[n], approver);
      assert plan[..n + 1][..n] == plan[..n];
      if one.Failure? {
        RefusedEarly(before, plan, n + 1, approver);
        db.tables := before;
        return Failure(one.error);
      }
      report := Plus(report, one.value);
    }
    assert plan[..|plan|] == plan;
    PlanAdds(before, plan, approver);
    r := Success(report);
  }

  /** The same offers for the same bindings, whatever the lists said to be there before. */
  ghost predicate SameRequest(plan: seq<Item>, again: seq<Item>) {
    && |again| == |plan|
    && forall i :: 0 <= i < |plan| ==>
         again[i] == plan[i].(oldCodes := again[i].oldCodes, oldLandings := again[i].oldLandings)
  }

  /** A second run, with lists of any kind for the ones before, changes no table and
      reports four empty lists. */
  method ApplyTwice(db: Database, plan: seq<Item>, again: seq<Item>, actor: string)
    returns (first: Result<Report, AddError>, second: Result<Report, AddError>)
    requires ValidPlan(plan) && SameRequest(plan, again)
    modifies db
    ensures first.Success? <==> PlanRefusal(old(db.tables), plan, "add-offers:" + actor).None?
    ensures first.Success? ==> second == Success(Report([], [], [], {}))
    ensures first.Success? ==> db.tables == AfterAll(old(db.tables), plan, "add-offers:" + actor)
    ensures first.Failure? ==> db.tables == old(db.tables) && second == first
  {
    first := Apply(db, plan, actor);
    if first.Failure? {
      return first, first;
    }
    assert AllSettled(db.tables, again) by {
      forall i | 0 <= i < |again|
        ensures Settled(db.tables, again[i])
      {
        assert Settled(db.tables, plan[i]);
      }
    }
    AllSettledIsDone(db.tables, again, "add-offers:" + actor);
    second := Apply(db, again, actor);
  }

  // -------------------------------------------------------------------------
  // The bridge with the new manifest
  // -------------------------------------------------------------------------

  /** `build_plan` and `check_current`: what is asked for one binding. */
  function ItemOf(config: Config, mine: seq<string>, landings: string -> string, row: Config): Item {
    Item(config.key, config.terms.codes, config.terms.landings, row.terms.codes, row.terms.landings,
         seq(|mine|, i requires 0 <= i < |mine| => Wanted(mine[i], landings(mine[i]))))
  }

  /** When the check passes and the transaction succeeds, the row is the new manifest:
      the bridge that starts with it resolves its binding. */
  lemma TheManifestResolves(
      config: Config, mine: seq<string>, landings: string -> string, before: Tables, plan: seq<Item>, i: nat, after: Bindings)
    requires IsActive(before, config.key) && RowIsCurrent(config, mine, ConfigOf(config.key, before.bindings[config.key]))
    requires i < |plan| && plan[i] == ItemOf(config, mine, landings, ConfigOf(config.key, before.bindings[config.key]))
    requires RowsRelisted(before.bindings, plan, after)
    ensures config.key in after && after[config.key].status == Active && ConfigOf(config.key, after[config.key]) == config
  {
  }
}
