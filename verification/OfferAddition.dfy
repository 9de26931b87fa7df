/** Adding offers to an instance that runs (`add_instance_offers.py`): the check that the
    database is the new manifest without the offers, and the transaction that adds them
    to everything that names the offers of a product. */
module OfferAddition {
  import opened Wrappers
  import opened Sets
  import opened VersionedTables
  import opened InstanceTables

  // -------------------------------------------------------------------------
  // The manifest and the row of the binding
  // -------------------------------------------------------------------------

  /** `CommercialAllyConfig`: a binding as the manifest declares it. */
  datatype Config = Config(key: Key<Product>, account: int, inbox: int, scope: Key<string>, terms: BindingTerms)
  {
    predicate Valid() {
      && Distinct([terms.offer] + terms.codes) && |terms.codes| <= MAX_OFFERS
      && (terms.landings != [] ==> OffersOf(terms.landings) == terms.codes)
    }
  }

  predicate Distinct(s: seq<string>) {
    forall i, j :: 0 <= i < j < |s| ==> s[i] != s[j]
  }

  function OffersOf(landings: seq<Landing>): seq<string> {
    seq(|landings|, i requires 0 <= i < |landings| => landings[i].offer)
  }

  function ConfigOf(key: Key<Product>, row: Binding): Config {
    Config(key, row.account, row.inbox, row.scope, row.terms)
  }

  function Less(codes: seq<string>, out: set<string>): seq<string> {
    if codes == [] then []
    else (if codes[0] in out then [] else [codes[0]]) + Less(codes[1..], out)
  }

  function LessLandings(landings: seq<Landing>, out: set<string>): seq<Landing> {
    if landings == [] then []
    else (if landings[0].offer in out then [] else [landings[0]]) + LessLandings(landings[1..], out)
  }

  /** `_without`: the binding of the manifest without some offers. */
  function Without(config: Config, out: set<string>): Config {
    config.(terms := config.terms.(codes := Less(config.terms.codes, out),
                                   landings := LessLandings(config.terms.landings, out)))
  }

  /** The offers asked for that the row does not have. */
  function Missing(mine: seq<string>, row: Config): set<string> {
    set c | c in mine && c !in row.terms.codes
  }

  /** `check_current` on one binding: the row is the manifest without the missing offers. */
  predicate RowIsCurrent(config: Config, mine: seq<string>, row: Config) {
    row.Valid() && row == Without(config, Missing(mine, row))
  }

  lemma {:induction false} LessKeeps(codes: seq<string>, out: set<string>)
    ensures forall c :: c in Less(codes, out) <==> c in codes && c !in out
  {
    if codes != [] {
      LessKeeps(codes[1..], out);
      assert forall c :: c in codes <==> c == codes[0] || c in codes[1..];
    }
  }

  lemma {:induction false} SameLess(codes: seq<string>, a: set<string>, b: set<string>)
    requires forall c :: c in codes ==> (c in a <==> c in b)
    ensures Less(codes, a) == Less(codes, b)
  {
    if codes != [] {
      SameLess(codes[1..], a, b);
    }
  }

  /** The check passes exactly when the row is the manifest without some of the offers
      asked for, whichever they are: nothing else may differ. */
  lemma CurrentMeansOnlyRequestedMissing(config: Config, mine: seq<string>, row: Config)
    requires config.Valid() && row.Valid() && forall c :: c in mine ==> c in config.terms.codes
    ensures RowIsCurrent(config, mine, row) <==> exists out: set<string> :: (forall c :: c in out ==> c in mine) && row == Without(config, out)
  {
    if RowIsCurrent(config, mine, row) {
      var out := Missing(mine, row);
      assert row == Without(config, out);
    }
    if out: set<string> :| (forall c :: c in out ==> c in mine) && row == Without(config, out) {
      LessKeeps(config.terms.codes, out);
      var missing := Missing(mine, row);
      assert forall c :: c in missing <==> c in out;
      assert missing == out;
    }
  }

  // -------------------------------------------------------------------------
  // The plan
  // -------------------------------------------------------------------------

  datatype Wanted = Wanted(code: string, landing: string)

  /** What the transaction is asked to do with one binding. */
  datatype Item = Item(
    key: Key<Product>,
    newCodes: seq<string>, newLandings: seq<Landing>,
    oldCodes: seq<string>, oldLandings: seq<Landing>,
    offers: seq<Wanted>)
  {
    predicate Valid() {
      forall i, j :: 0 <= i < j < |offers| ==> offers[i].code != offers[j].code
    }
  }

  function Codes(offers: seq<Wanted>): seq<string> {
    seq(|offers|, i requires 0 <= i < |offers| => offers[i].code)
  }

  datatype AddError =
    | BindingChanged
    | DefaultIntentMissing
    | IntentTaken
    | CatalogDefaultMissing
    | Refused
    | Unverified

  /** What the transaction says it changed. */
  datatype Report = Report(bindings: seq<Key<Product>>, intents: seq<string>, catalog: seq<string>, pilots: set<Key<string>>)

  const NOTHING := Report([], [], [], {})

  function Plus(a: Report, b: Report): Report {
    Report(a.bindings + b.bindings, a.intents + b.intents, a.catalog + b.catalog, a.pilots + b.pilots)
  }

  // -------------------------------------------------------------------------
  // Step 2: the intents
  // -------------------------------------------------------------------------

  function OwnIntent(k: Key<Product>, b: Binding, code: string, lookback: string): Intent {
    Intent(k.name.tenant, k.name.funnel, b.terms.product, b.terms.hotlink, code, lookback, true)
  }

  predicate IsOwn(i: Intent, k: Key<Product>, b: Binding) {
    i.tenant == k.name.tenant && i.funnel == k.name.funnel && i.hotlink == b.terms.hotlink
  }

  predicate ActiveFor(i: Intent, product: int, code: string) {
    i.active && i.product == product && i.offer == code
  }

  predicate HasOwn(intents: seq<Intent>, k: Key<Product>, b: Binding, code: string) {
    exists i :: i in intents && ActiveFor(i, b.terms.product, code) && IsOwn(i, k, b)
  }

  predicate TakenByOther(intents: seq<Intent>, k: Key<Product>, b: Binding, code: string) {
    exists i :: i in intents && ActiveFor(i, b.terms.product, code) && !IsOwn(i, k, b)
  }

  /** The lookback of the intent of the default offer. */
  function DefaultLookback(intents: seq<Intent>, k: Key<Product>, b: Binding): Option<string> {
    if intents == [] then None
    else if ActiveFor(intents[0], b.terms.product, b.terms.offer) && IsOwn(intents[0], k, b) then Some(intents[0].lookback)
    else DefaultLookback(intents[1..], k, b)
  }

  /** The codes without an active intent, in their order. */
  function Intentless(intents: seq<Intent>, product: int, codes: seq<string>): seq<string> {
    if codes == [] then []
    else
      Intentless(intents, product, codes[..|codes| - 1])
      + if HasIntent(intents, product, codes[|codes| - 1]) then [] else [codes[|codes| - 1]]
  }

  function OwnIntents(k: Key<Product>, b: Binding, codes: seq<string>, lookback: string): seq<Intent> {
    seq(|codes|, i requires 0 <= i < |codes| => OwnIntent(k, b, codes[i], lookback))
  }

  lemma {:induction false} IntentlessKeeps(intents: seq<Intent>, product: int, codes: seq<string>)
    ensures forall c :: c in Intentless(intents, product, codes) <==> c in codes && !HasIntent(intents, product, c)
  {
    if codes != [] {
      IntentlessKeeps(intents, product, codes[..|codes| - 1]);
      assert codes == codes[..|codes| - 1] + [codes[|codes| - 1]];
    }
  }

  lemma {:induction false} NoneIntentless(intents: seq<Intent>, product: int, codes: seq<string>)
    requires forall c :: c in codes ==> HasIntent(intents, product, c)
    ensures Intentless(intents, product, codes) == []
  {
    if codes != [] {
      assert codes == codes[..|codes| - 1] + [codes[|codes| - 1]];
      NoneIntentless(intents, product, codes[..|codes| - 1]);
    }
  }

  lemma HasIntentMeans(intents: seq<Intent>, product: int, code: string)
    ensures HasIntent(intents, product, code) <==> exists i :: i in intents && ActiveFor(i, product, code)
  {
    if i :| i in intents && ActiveFor(i, product, code) {
      var n :| 0 <= n < |intents| && intents[n] == i;
      assert intents[n].active;
    }
    if HasIntent(intents, product, code) {
      var n :| 0 <= n < |intents| && intents[n].active && intents[n].product == product && intents[n].offer == code;
      assert intents[n] in intents && ActiveFor(intents[n], product, code);
    }
  }

  /** After the intents of other codes are added, a code has an intent if it had one. */
  lemma OthersDoNotCount(intents: seq<Intent>, k: Key<Product>, b: Binding, added: seq<string>, lookback: string, code: string)
    requires code !in added
    ensures var more := intents + OwnIntents(k, b, added, lookback);
            && (HasIntent(more, b.terms.product, code) <==> HasIntent(intents, b.terms.product, code))
            && (TakenByOther(more, k, b, code) <==> TakenByOther(intents, k, b, code))
  {
    var own := OwnIntents(k, b, added, lookback);
    var more := intents + own;
    forall i | i in own
      ensures !ActiveFor(i, b.terms.product, code)
    {
      var n :| 0 <= n < |own| && own[n] == i;
      assert own[n].offer == added[n];
    }
    assert forall i :: i in more <==> i in intents || i in own;
    HasIntentMeans(intents, b.terms.product, code);
    HasIntentMeans(more, b.terms.product, code);
  }

  predicate NoneTaken(intents: seq<Intent>, k: Key<Product>, b: Binding, codes: seq<string>) {
    forall c :: c in codes ==> !TakenByOther(intents, k, b, c)
  }

  /** What step 2 adds. */
  function AddedIntents(intents: seq<Intent>, k: Key<Product>, b: Binding, codes: seq<string>): seq<Intent> {
    match DefaultLookback(intents, k, b)
    case None => []
    case Some(lookback) => OwnIntents(k, b, Intentless(intents, b.terms.product, codes), lookback)
  }

  /** The loop over the offers: each one that has no active intent gets its own. */
  method AddIntents(db: Database, k: Key<Product>, b: Binding, codes: seq<string>)
    returns (r: Result<seq<string>, AddError>)
    requires Distinct(codes)
    modifies db
    ensures r.Success? <==> DefaultLookback(old(db.tables.intents), k, b).Some? && NoneTaken(old(db.tables.intents), k, b, codes)
    ensures r.Failure? ==>
              r.error == if DefaultLookback(old(db.tables.intents), k, b).None? then DefaultIntentMissing else IntentTaken
    ensures r.Success? ==>
              && r.value == Intentless(old(db.tables.intents), b.terms.product, codes)
              && db.tables == old(db.tables).(intents := old(db.tables.intents) + AddedIntents(old(db.tables.intents), k, b, codes))
  {
    ghost var before := db.tables.intents;
    var lookback := DefaultLookback(db.tables.intents, k, b);
    if lookback.None? {
      return Failure(DefaultIntentMissing);
    }
    var added: seq<string> := [];
    assert codes[..0] == [];
    assert before + OwnIntents(k, b, [], lookback.value) == before;
    for n := 0 to |codes|
      invariant added == Intentless(before, b.terms.product, codes[..n])
      invariant forall m :: 0 <= m < n ==> !TakenByOther(before, k, b, codes[m])
      invariant db.tables == old(db.tables).(intents := before + OwnIntents(k, b, added, lookback.value))
    {
      var code := codes[n];
      IntentlessKeeps(before, b.terms.product, codes[..n]);
      OthersDoNotCount(before, k, b, added, lookback.value, code);
      assert codes[..n + 1][..n] == codes[..n];
      if TakenByOther(db.tables.intents, k, b, code) {
        return Failure(IntentTaken);
      }
      if !HasIntent(db.tables.intents, b.terms.product, code) {
        var ok := db.InsertIntent(OwnIntent(k, b, code, lookback.value));
        assert OwnIntents(k, b, added + [code], lookback.value)
            == OwnIntents(k, b, added, lookback.value) + [OwnIntent(k, b, code, lookback.value)];
        added := added + [code];
      }
    }
    assert codes[..|codes|] == codes;
    return Success(added);
  }

  // -------------------------------------------------------------------------
  // Step 3: the catalog
  // -------------------------------------------------------------------------

  function Lower(s: string): string {
    seq(|s|, i requires 0 <= i < |s| => if 'A' <= s[i] <= 'Z' then s[i] - 'A' + 'a' else s[i])
  }

  /** The active default row of the product in the inbound scope of the binding. */
  function DefaultOffer(catalog: seq<Offer>, tenant: string, b: Binding): Option<Offer> {
    if catalog == [] then None
    else if catalog[0].tenant == tenant && catalog[0].scope == b.scope && catalog[0].active && catalog[0].terms.isDefault
            && Lower(catalog[0].terms.product) == Lower(b.terms.hotlink) then Some(catalog[0])
    else DefaultOffer(catalog[1..], tenant, b)
  }

  predicate OfferFor(o: Offer, d: Offer, code: string) {
    o.tenant == d.tenant && o.scope == d.scope && o.terms.product == d.terms.product && o.terms.code == code
  }

  predicate HasOffer(catalog: seq<Offer>, d: Offer, code: string) {
    exists o :: o in catalog && OfferFor(o, d, code) && o.active
  }

  /** The greatest version of the rows of an offer, 0 if it has none. */
  function MaxVersion(catalog: seq<Offer>, d: Offer, code: string): int {
    if catalog == [] then 0
    else
      var rest := MaxVersion(catalog[1..], d, code);
      if OfferFor(catalog[0], d, code) && catalog[0].terms.version > rest then catalog[0].terms.version else rest
  }

  function NewOffer(d: Offer, wanted: Wanted, version: int, approver: string): Offer {
    Offer(d.tenant, d.scope, true, approver,
          d.terms.(code := wanted.code, landing := wanted.landing, isDefault := false, version := version))
  }

  /** The rows for the offers that have no active one, in their order. */
  function NewOffers(catalog: seq<Offer>, d: Offer, offers: seq<Wanted>, approver: string): seq<Offer> {
    if offers == [] then []
    else
      var last := offers[|offers| - 1];
      NewOffers(catalog, d, offers[..|offers| - 1], approver)
      + if HasOffer(catalog, d, last.code) then []
        else [NewOffer(d, last, MaxVersion(catalog, d, last.code) + 1, approver)]
  }

  /** A new row has a version that the table does not: the unique key admits it. */
  lemma {:induction false} NewVersionIsFree(catalog: seq<Offer>, d: Offer, code: string)
    ensures forall o :: o in catalog && OfferFor(o, d, code) ==> o.terms.version <= MaxVersion(catalog, d, code)
  {
    if catalog != [] {
      NewVersionIsFree(catalog[1..], d, code);
      assert forall o :: o in catalog <==> o == catalog[0] || o in catalog[1..];
    }
  }

  lemma {:induction false} NewOffersKeeps(catalog: seq<Offer>, d: Offer, offers: seq<Wanted>, approver: string)
    ensures forall o :: o in NewOffers(catalog, d, offers, approver) ==>
              o.active && !o.terms.isDefault && o.tenant == d.tenant && o.scope == d.scope
              && o.terms.product == d.terms.product && o.terms.code in Codes(offers) && !HasOffer(catalog, d, o.terms.code)
    ensures forall w :: w in offers ==> HasOffer(catalog + NewOffers(catalog, d, offers, approver), d, w.code)
  {
    if offers != [] {
      var init, last := offers[..|offers| - 1], offers[|offers| - 1];
      NewOffersKeeps(catalog, d, init, approver);
      assert offers == init + [last];
      assert Codes(offers) == Codes(init) + [last.code];
      var fewer, more := NewOffers(catalog, d, init, approver), NewOffers(catalog, d, offers, approver);
      forall w | w in offers
        ensures HasOffer(catalog + more, d, w.code)
      {
        if w in init {
          MoreOffers(catalog + fewer, catalog + more, d, w.code);
        } else if HasOffer(catalog, d, last.code) {
          MoreOffers(catalog, catalog + more, d, last.code);
        } else {
          assert more[|more| - 1] in catalog + more;
        }
      }
    }
  }

  lemma MoreOffers(a: seq<Offer>, b: seq<Offer>, d: Offer, code: string)
    requires a <= b && HasOffer(a, d, code)
    ensures HasOffer(b, d, code)
  {
    var o :| o in a && OfferFor(o, d, code) && o.active;
    var n :| 0 <= n < |a| && a[n] == o;
    assert b[n] == o;
  }

  /** The rows added for other codes do not count for a code. */
  lemma OtherOffersDoNotCount(catalog: seq<Offer>, d: Offer, more: seq<Offer>, code: string)
    requires forall o :: o in more ==> o.terms.code != code
    ensures HasOffer(catalog + more, d, code) <==> HasOffer(catalog, d, code)
    ensures MaxVersion(catalog + more, d, code) == MaxVersion(catalog, d, code)
  {
    assert forall o :: o in catalog + more <==> o in catalog || o in more;
    VersionsOfOthers(catalog, d, more, code);
  }

  lemma {:induction false} VersionsOfOthers(catalog: seq<Offer>, d: Offer, more: seq<Offer>, code: string)
    requires forall o :: o in more ==> o.terms.code != code
    ensures MaxVersion(catalog + more, d, code) == MaxVersion(catalog, d, code)
  {
    if catalog != [] {
      assert (catalog + more)[1..] == catalog[1..] + more;
      VersionsOfOthers(catalog[1..], d, more, code);
    } else {
      assert catalog + more == more;
      if more != [] {
        assert more[0] in more;
        VersionsOfOthers([], d, more[1..], code);
        assert [] + more[1..] == more[1..];
      }
    }
  }

  lemma EarlierOffersAreOthers(catalog: seq<Offer>, d: Offer, offers: seq<Wanted>, n: nat, approver: string)
    requires n < |offers| && Distinct(Codes(offers))
    ensures forall o :: o in NewOffers(catalog, d, offers[..n], approver) ==> o.terms.code != offers[n].code
  {
    NewOffersKeeps(catalog, d, offers[..n], approver);
    forall o | o in NewOffers(catalog, d, offers[..n], approver)
      ensures o.terms.code != offers[n].code
    {
      var m :| 0 <= m < n && Codes(offers[..n])[m] == o.terms.code;
      assert Codes(offers)[m] != Codes(offers)[n];
    }
  }

  /** The rows to add up to an offer. */
  lemma NextNewOffer(catalog: seq<Offer>, d: Offer, offers: seq<Wanted>, n: nat, approver: string)
    requires n < |offers| && Distinct(Codes(offers))
    ensures var more := NewOffers(catalog, d, offers[..n], approver);
            var code := offers[n].code;
            && (HasOffer(catalog + more, d, code) <==> HasOffer(catalog, d, code))
            && MaxVersion(catalog + more, d, code) == MaxVersion(catalog, d, code)
            && NewOffers(catalog, d, offers[..n + 1], approver)
               == more + if HasOffer(catalog, d, code) then []
                         else [NewOffer(d, offers[n], MaxVersion(catalog, d, code) + 1, approver)]
  {
    assert offers[..n + 1][..n] == offers[..n];
    EarlierOffersAreOthers(catalog, d, offers, n, approver);
    OtherOffersDoNotCount(catalog, d, NewOffers(catalog, d, offers[..n], approver), offers[n].code);
  }

  lemma NewOfferIsAdmitted(catalog: seq<Offer>, d: Offer, wanted: Wanted, approver: string)
    ensures var row := NewOffer(d, wanted, MaxVersion(catalog, d, wanted.code) + 1, approver);
            forall o :: o in catalog ==> !SameOfferVersion(o, row)
  {
    NewVersionIsFree(catalog, d, wanted.code);
    var row := NewOffer(d, wanted, MaxVersion(catalog, d, wanted.code) + 1, approver);
    forall o | o in catalog && SameOfferVersion(o, row)
      ensures false
    {
      assert OfferFor(o, d, wanted.code);
    }
  }

  /** One turn of the loop: the offer gets a row unless it has an active one. The insert is never refused. */
  method AddOffer(db: Database, d: Offer, offers: seq<Wanted>, n: nat, approver: string, ghost before: seq<Offer>)
    returns (added: seq<string>)
    requires n < |offers| && Distinct(Codes(offers))
    requires db.tables.catalog == before + NewOffers(before, d, offers[..n], approver)
    modifies db
    ensures db.tables == old(db.tables).(catalog := before + NewOffers(before, d, offers[..n + 1], approver))
    ensures CodesOf(NewOffers(before, d, offers[..n], approver)) + added == CodesOf(NewOffers(before, d, offers[..n + 1], approver))
  {
    var wanted := offers[n];
    ghost var more := NewOffers(before, d, offers[..n], approver);
    NextNewOffer(before, d, offers, n, approver);
    if HasOffer(db.tables.catalog, d, wanted.code) {
      assert NewOffers(before, d, offers[..n + 1], approver) == more;
      return [];
    }
    var row := NewOffer(d, wanted, MaxVersion(db.tables.catalog, d, wanted.code) + 1, approver);
    assert NewOffers(before, d, offers[..n + 1], approver) == more + [row];
    assert before + (more + [row]) == before + more + [row];
    NewOfferIsAdmitted(db.tables.catalog, d, wanted, approver);
    var ok := db.InsertOffer(row);
    return [wanted.code];
  }

  /** What step 3 adds. */
  function AddedOffers(catalog: seq<Offer>, tenant: string, b: Binding, offers: seq<Wanted>, approver: string): seq<Offer> {
    match DefaultOffer(catalog, tenant, b)
    case None => []
    case Some(d) => NewOffers(catalog, d, offers, approver)
  }

  /** The loop over the offers: each one without an active row gets one, copied from the default. */
  method AddCatalog(db: Database, tenant: string, b: Binding, offers: seq<Wanted>, approver: string)
    returns (r: Result<seq<string>, AddError>)
    requires Distinct(Codes(offers))
    modifies db
    ensures r.Failure? ==> r.error == CatalogDefaultMissing && db.tables == old(db.tables)
    ensures r.Success? <==> DefaultOffer(old(db.tables.catalog), tenant, b).Some?
    ensures r.Success? ==>
              var more := AddedOffers(old(db.tables.catalog), tenant, b, offers, approver);
              r.value == CodesOf(more) && db.tables == old(db.tables).(catalog := old(db.tables.catalog) + more)
  {
    ghost var before := db.tables.catalog;
    var found := DefaultOffer(db.tables.catalog, tenant, b);
    if found.None? {
      return Failure(CatalogDefaultMissing);
    }
    var d := found.value;
    var added: seq<string> := [];
    assert before + [] == before;
    for n := 0 to |offers|
      invariant added == CodesOf(NewOffers(before, d, offers[..n], approver))
      invariant db.tables == old(db.tables).(catalog := before + NewOffers(before, d, offers[..n], approver))
    {
      var one := AddOffer(db, d, offers, n, approver, before);
      added := added + one;
    }
    assert offers[..|offers|] == offers;
    return Success(added);
  }

  function CodesOf(offers: seq<Offer>): seq<string> {
    seq(|offers|, i requires 0 <= i < |offers| => offers[i].terms.code)
  }

  // -------------------------------------------------------------------------
  // Step 4: the scopes of the pilot
  // -------------------------------------------------------------------------

  /** The published scopes of the product that a control not closed runs. */
  function ProductScopes(controls: map<string, Control>, pilots: map<Key<string>, Pilot>, tenant: string, product: int)
    : set<Key<string>>
  {
    set s | s in controls && Key(s, controls[s].version) in pilots && controls[s].state != Closed
            && SellsProduct(pilots[Key(s, controls[s].version)], tenant, product)
        :: Key(s, controls[s].version)
  }

  predicate SellsProduct(p: Pilot, tenant: string, product: int) {
    p.published && p.tenant == tenant && p.terms.product == product
  }

  /** The offers that a scope does not have, in their order. */
  function NotIn(codes: seq<string>, terms: PilotTerms): seq<string> {
    Less(codes, (set c | c in terms.codes) + {terms.offer})
  }

  function Appended(p: Pilot, codes: seq<string>): Pilot {
    p.(terms := p.terms.(codes := p.terms.codes + NotIn(codes, p.terms)))
  }

  /** The old list first, then the offers it lacked, in order; the other scopes as they were. */
  function WithAppended(pilots: map<Key<string>, Pilot>, done: set<Key<string>>, codes: seq<string>): map<Key<string>, Pilot> {
    map k | k in pilots :: if k in done then Appended(pilots[k], codes) else pilots[k]
  }

  /** The scopes that step 4 changes. */
  function Lacking(pilots: map<Key<string>, Pilot>, done: set<Key<string>>, codes: seq<string>): set<Key<string>> {
    set k | k in done && k in pilots && NotIn(codes, pilots[k].terms) != []
  }

  lemma {:induction false} LessIsDistinct(codes: seq<string>, out: set<string>)
    requires Distinct(codes)
    ensures Distinct(Less(codes, out))
  {
    if codes != [] {
      LessIsDistinct(codes[1..], out);
      LessKeeps(codes[1..], out);
      var rest := Less(codes[1..], out);
      assert forall i :: 0 <= i < |rest| ==> rest[i] in codes[1..];
    }
  }

  lemma {:induction false} NothingLess(codes: seq<string>, out: set<string>)
    ensures Less(codes, out) == [] <==> forall c :: c in codes ==> c in out
  {
    if codes != [] {
      NothingLess(codes[1..], out);
      assert forall c :: c in codes <==> c == codes[0] || c in codes[1..];
    }
  }

  lemma DistinctFirst(x: string, s: seq<string>)
    ensures Distinct([x] + s) <==> x !in s && Distinct(s)
  {
    var all := [x] + s;
    assert forall i :: 0 <= i < |s| ==> s[i] == all[i + 1];
    if Distinct(all) {
      forall i | 0 <= i < |s|
        ensures s[i] != x
      {
        assert all[0] != all[i + 1];
      }
      forall i, j | 0 <= i < j < |s|
        ensures s[i] != s[j]
      {
        assert all[i + 1] != all[j + 1];
      }
    }
  }

  lemma DistinctPrefix(a: seq<string>, b: seq<string>)
    requires Distinct(a + b)
    ensures Distinct(a)
  {
    assert forall i :: 0 <= i < |a| ==> (a + b)[i] == a[i];
  }

  lemma DistinctTogether(a: seq<string>, b: seq<string>)
    requires Distinct(a) && Distinct(b) && forall c :: c in b ==> c !in a
    ensures Distinct(a + b)
  {
    forall i, j | 0 <= i < j < |a + b|
      ensures (a + b)[i] != (a + b)[j]
    {
      if i < |a| <= j {
        assert b[j - |a|] in b && a[i] in a;
      }
    }
  }

  /** When the trigger admits the offers of a scope: they fit, and the scope repeats none. */
  lemma WhenAppendable(terms: PilotTerms, codes: seq<string>)
    requires Distinct(codes) && NotIn(codes, terms) != []
    ensures Appendable(terms, terms.codes + NotIn(codes, terms)) <==>
              Distinct([terms.offer] + terms.codes) && |terms.codes| + |NotIn(codes, terms)| <= MAX_OFFERS
  {
    var more := NotIn(codes, terms);
    LessIsDistinct(codes, (set c | c in terms.codes) + {terms.offer});
    LessKeeps(codes, (set c | c in terms.codes) + {terms.offer});
    DistinctFirst(terms.offer, terms.codes + more);
    assert [terms.offer] + (terms.codes + more) == [terms.offer] + terms.codes + more;
    if Distinct([terms.offer] + terms.codes) {
      DistinctTogether([terms.offer] + terms.codes, more);
    } else if Distinct([terms.offer] + terms.codes + more) {
      DistinctPrefix([terms.offer] + terms.codes, more);
    }
  }

  /** The loop over the scopes. No control is touched. */
  method AddToPilots(db: Database, selected: set<Key<string>>, codes: seq<string>)
    returns (r: Result<set<Key<string>>, AddError>)
    requires selected <= db.tables.pilots.Keys && forall k :: k in selected ==> db.tables.pilots[k].published
    modifies db
    ensures r.Failure? ==> r.error == Refused
    ensures r.Success? ==>
              && r.value == Lacking(old(db.tables.pilots), selected, codes)
              && db.tables == old(db.tables).(pilots := WithAppended(old(db.tables.pilots), selected, codes))
    ensures r.Success? <==> AllFit(old(db.tables.pilots), selected, codes)
  {
    ghost var before := db.tables.pilots;
    var rest := selected;
    var changed: set<Key<string>> := {};
    assert WithAppended(before, selected - rest, codes) == before;
    while rest != {}
      invariant rest <= selected
      invariant db.tables == old(db.tables).(pilots := WithAppended(before, selected - rest, codes))
      invariant changed == Lacking(before, selected - rest, codes)
      invariant AllFit(before, selected - rest, codes)
    {
      var k := Any(rest);
      OneTaken(selected, rest, k);
      OneMoreAppended(before, selected - rest, codes, k);
      assert db.tables.pilots[k] == before[k];
      var more := NotIn(codes, db.tables.pilots[k].terms);
      if more != [] {
        var ok := db.AppendOffers(k, db.tables.pilots[k].terms.codes + more);
        if !ok {
          assert !Fits(before[k].terms, codes);
          return Failure(Refused);
        }
        changed := changed + {k};
      }
      rest := rest - {k};
    }
    assert selected - rest == selected;
    return Success(changed);
  }

  lemma OneMoreAppended(pilots: map<Key<string>, Pilot>, done: set<Key<string>>, codes: seq<string>, k: Key<string>)
    requires k in pilots && k !in done
    ensures var more := NotIn(codes, pilots[k].terms);
            && WithAppended(pilots, done + {k}, codes)
               == (if more == [] then WithAppended(pilots, done, codes)
                   else WithCodes(WithAppended(pilots, done, codes), k, pilots[k].terms.codes + more))
            && Lacking(pilots, done + {k}, codes) == Lacking(pilots, done, codes) + if more == [] then {} else {k}
  {
    if NotIn(codes, pilots[k].terms) == [] {
      assert Appended(pilots[k], codes) == pilots[k];
    }
  }

  predicate AllFit(pilots: map<Key<string>, Pilot>, scopes: set<Key<string>>, codes: seq<string>) {
    forall k :: k in scopes && k in pilots ==> Fits(pilots[k].terms, codes)
  }

  predicate Fits(terms: PilotTerms, codes: seq<string>) {
    NotIn(codes, terms) == [] || Appendable(terms, terms.codes + NotIn(codes, terms))
  }
}
