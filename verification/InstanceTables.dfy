/** The tables that the publication of an inbox and the addition of offers touch, and
    the statements that change them, with the constraints the database holds them to. */
module InstanceTables {
  import opened Wrappers
  import opened VersionedTables

  datatype Status = Draft | Validated | Approved | Active | Retired

  datatype Product = Product(tenant: string, funnel: string)

  /** The landing of an additional offer. */
  datatype Landing = Landing(offer: string, landing: string, page: string)

  /** What a binding sells: the product, its default offer and the additional ones.
      `rest` stands for the fields that neither command looks at. */
  datatype BindingTerms = BindingTerms(
    product: int, hotlink: string, offer: string, codes: seq<string>, landings: seq<Landing>, rest: string)

  /** A version of the binding of a product. */
  datatype Binding = Binding(status: Status, account: int, inbox: int, scope: Key<string>, terms: BindingTerms)

  /** A version of an inbound scope. */
  datatype Inbound = Inbound(published: bool, inbox: int, approver: string, body: string)

  /** A row of the catalog of offers of one inbound scope. */
  datatype Offer = Offer(tenant: string, scope: Key<string>, active: bool, approver: string, terms: OfferTerms)

  datatype OfferTerms = OfferTerms(
    funnel: string, product: string, code: string, landing: string, isDefault: bool, version: int, rest: string)

  /** A version of a handoff policy, which names an inbound scope or a scope of the pilot. */
  datatype Handoff = Handoff(active: bool, inbound: Option<Key<string>>, pilot: Option<Key<string>>, body: string)

  /** A version of a scope of the pilot. */
  datatype Pilot = Pilot(tenant: string, published: bool, inbox: int, channel: string, approver: string, terms: PilotTerms)

  datatype PilotTerms = PilotTerms(product: int, offer: string, codes: seq<string>, rest: string)

  /** A scope of purchase intent. */
  datatype Intent = Intent(
    tenant: string, funnel: string, product: int, hotlink: string, offer: string, lookback: string, active: bool)

  datatype RuntimeState = Inactive | Armed | Paused | Closed

  /** Which version of a pilot scope runs, and how. */
  datatype Control = Control(version: int, state: RuntimeState, generation: int)

  type Bindings = map<Key<Product>, Binding>

  datatype Tables = Tables(
    bindings: Bindings,
    purchases: map<Key<Product>, string>,
    discounts: set<Key<Product>>,
    inbound: map<Key<string>, Inbound>,
    catalog: seq<Offer>,
    handoffs: map<Key<string>, Handoff>,
    pilots: map<Key<string>, Pilot>,
    controls: map<string, Control>,
    intents: seq<Intent>)
  {
    /** The unique index and the foreign keys. */
    ghost predicate Valid() {
      && OneActive(bindings)
      && purchases.Keys <= bindings.Keys
      && forall s :: s in controls ==> Key(s, controls[s].version) in pilots
    }
  }

  datatype PublishError =
    | NoActiveBinding
    | MixedInboxes
    | AccountMismatch
    | SameInbox
    | DiscountPoliciesUnsupported
    | ControlArmed
    | ScopeMismatch
    | NotNullViolation
    | UniqueViolation
    | ActivationInvalid
    | ActivationRefused
    | VerificationFailed

  /** At most one active binding of each product. */
  ghost predicate OneActive(t: Bindings) {
    forall i, j :: i in t && j in t && i.name == j.name && t[i].status == Active && t[j].status == Active ==> i == j
  }

  /** `activate_lancemos_pilot_scope_version` and what it answers. */
  datatype Activation = Activation(version: int, state: RuntimeState, changed: bool)

  class Database {
    var tables: Tables

    constructor (tables: Tables)
      ensures this.tables == tables
    {
      this.tables := tables;
    }

    /** An insert: refused by the primary key or the index of active bindings. */
    method InsertBinding(k: Key<Product>, row: Binding) returns (ok: bool)
      requires OneActive(tables.bindings)
      modifies this
      ensures ok <==> k !in old(tables.bindings) && OneActive(old(tables.bindings)[k := row])
      ensures ok ==> tables == old(tables).(bindings := old(tables.bindings)[k := row])
      ensures !ok ==> tables == old(tables)
    {
      if k in tables.bindings {
        return false;
      }
      ok := MayHold(k, row);
      if ok {
        tables := tables.(bindings := tables.bindings[k := row]);
      }
    }

    /** An update of the status, held to the same index. */
    method SetStatus(k: Key<Product>, status: Status) returns (ok: bool)
      requires OneActive(tables.bindings) && k in tables.bindings
      modifies this
      ensures var row := old(tables.bindings)[k].(status := status);
              && (ok <==> OneActive(old(tables.bindings)[k := row]))
              && (ok ==> tables == old(tables).(bindings := old(tables.bindings)[k := row]))
              && (!ok ==> tables == old(tables))
    {
      var row := tables.bindings[k].(status := status);
      ok := MayHold(k, row);
      if ok {
        tables := tables.(bindings := tables.bindings[k := row]);
      }
    }

    method MayHold(k: Key<Product>, row: Binding) returns (ok: bool)
      requires OneActive(tables.bindings)
      ensures ok <==> OneActive(tables.bindings[k := row])
    {
      var t := tables.bindings;
      var next := t[k := row];
      if row.status == Active && exists j :: j in t && j != k && j.name == k.name && t[j].status == Active {
        var j :| j in t && j != k && j.name == k.name && t[j].status == Active;
        assert next[j] == t[j] && next[k] == row;
        return false;
      }
      return true;
    }

    /** The control points to a published version of its scope, inactive and one
        generation later; only from `inactive` or `paused`. */
    method Activate(scope: string, version: int, expected: int) returns (r: Result<Activation, PublishError>)
      modifies this
      ensures r.Failure? ==> tables == old(tables)
      ensures r.Success? ==> scope in old(tables.controls)
      ensures r.Success? && r.value.changed ==>
                && r.value == Activation(version, Inactive, true)
                && tables == old(tables).(controls := old(tables.controls)[scope := Control(version, Inactive, expected + 1)])
      ensures r.Success? && !r.value.changed ==> tables == old(tables) && old(tables.controls)[scope].version == version
      ensures r.Success? && r.value.changed <==>
                && Key(scope, version) in old(tables.pilots) && old(tables.pilots)[Key(scope, version)].published
                && scope in old(tables.controls)
                && old(tables.controls)[scope].generation == expected
                && old(tables.controls)[scope].version != version
                && old(tables.controls)[scope].state in {Inactive, Paused}
    {
      if Key(scope, version) !in tables.pilots || !tables.pilots[Key(scope, version)].published
         || scope !in tables.controls {
        return Failure(ActivationInvalid);
      }
      var control := tables.controls[scope];
      if control.generation != expected {
        return Failure(ActivationInvalid);
      }
      if control.version == version {
        return Success(Activation(control.version, control.state, false));
      }
      if control.state !in {Inactive, Paused} {
        return Failure(ActivationRefused);
      }
      tables := tables.(controls := tables.controls[scope := Control(version, Inactive, control.generation + 1)]);
      return Success(Activation(version, Inactive, true));
    }

    /** An insert into the intents: one active row for each product and offer. */
    method InsertIntent(row: Intent) returns (ok: bool)
      requires row.active
      modifies this
      ensures ok <==> !HasIntent(old(tables.intents), row.product, row.offer)
      ensures tables == if ok then old(tables).(intents := old(tables.intents) + [row]) else old(tables)
    {
      ok := !HasIntent(tables.intents, row.product, row.offer);
      if ok {
        tables := tables.(intents := tables.intents + [row]);
      }
    }

    /** An insert into the catalog, held to its unique key. */
    method InsertOffer(row: Offer) returns (ok: bool)
      modifies this
      ensures ok <==> forall o :: o in old(tables.catalog) ==> !SameOfferVersion(o, row)
      ensures tables == if ok then old(tables).(catalog := old(tables.catalog) + [row]) else old(tables)
    {
      ok := forall o :: o in tables.catalog ==> !SameOfferVersion(o, row);
      if ok {
        tables := tables.(catalog := tables.catalog + [row]);
      }
    }

    /** The one update that the trigger admits on a published pilot scope: offers after
        the ones it has, without repeating any, at most 16 and not the default one. */
    method AppendOffers(k: Key<string>, codes: seq<string>) returns (ok: bool)
      requires k in tables.pilots && tables.pilots[k].published
      modifies this
      ensures var terms := old(tables.pilots)[k].terms;
              ok <==> terms.codes < codes && |codes| <= 16 && terms.offer !in codes
                      && forall i, j :: 0 <= i < j < |codes| ==> codes[i] != codes[j]
      ensures tables == if ok then old(tables).(pilots := WithCodes(old(tables.pilots), k, codes)) else old(tables)
    {
      ok := Appendable(tables.pilots[k].terms, codes);
      if ok {
        tables := tables.(pilots := WithCodes(tables.pilots, k, codes));
      }
    }
  }

  predicate HasIntent(intents: seq<Intent>, product: int, offer: string) {
    exists i :: 0 <= i < |intents| && intents[i].active && intents[i].product == product && intents[i].offer == offer
  }

  predicate SameOfferVersion(a: Offer, b: Offer) {
    && a.tenant == b.tenant && a.scope == b.scope && a.terms.product == b.terms.product
    && a.terms.code == b.terms.code && a.terms.version == b.terms.version
  }

  const MAX_OFFERS := 16

  predicate Appendable(terms: PilotTerms, codes: seq<string>) {
    && terms.codes < codes
    && |codes| <= MAX_OFFERS && terms.offer !in codes
    && forall i, j :: 0 <= i < j < |codes| ==> codes[i] != codes[j]
  }

  function WithCodes(t: map<Key<string>, Pilot>, k: Key<string>, codes: seq<string>): map<Key<string>, Pilot>
    requires k in t
  {
    t[k := t[k].(terms := t[k].terms.(codes := codes))]
  }
}
