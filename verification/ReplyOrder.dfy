/** The parts of a batch arrive in order: what the server shows of a reply whose texts
    are fixed, in every run of the protocol. */
module ReplyOrder {
  import opened Wrappers
  import opened Messages
  import opened HistoryReader
  import opened ReplyAuthorization
  import opened ReplyDecision
  import opened ReplyProtocol

  /** The reply of a batch, fixed once and for all: its texts in order. */
  datatype Manifest = Manifest(conversation: int, bot: int, trigger: int, texts: seq<string>)
  {
    predicate Valid() {
      1 <= |texts| <= 4 && forall i :: 0 <= i < |texts| ==> texts[i] != ""
    }

    /** Part `k`, as the sender is asked to send it. */
    function PartOf(k: nat): Reply
      requires 1 <= k <= |texts|
    {
      Reply(conversation, bot, trigger, k, |texts|, texts[k - 1], texts[..k - 1])
    }

    function BatchHash(): Hash {
      Batch(conversation, trigger)
    }
  }

  /** If the reply belongs to the batch, it is one of the manifest's parts. */
  predicate Conforms(r: Reply, m: Manifest) {
    r.BatchHash() == m.BatchHash() ==> 1 <= r.index <= |m.texts| && r == m.PartOf(r.index)
  }

  predicate StepConforms(step: Step, m: Manifest) {
    step.Start? ==> Conforms(step.reply, m)
  }

  /** A reply hash of the batch. */
  predicate OfBatch(hash: Hash, batch: Hash) {
    hash == batch || (hash.Part? && hash.batch == batch)
  }

  /** What the conversation shows of the batch. */
  function View(h: History, m: Manifest): History {
    if h == [] then []
    else
      var rest := View(h[..|h| - 1], m);
      var last := h[|h| - 1];
      if Ours(last, m.bot) && OfBatch(last.marks.value.replyHash.value, m.BatchHash()) then rest + [last] else rest
  }

  /** The first parts of the manifest, in order, each once and with its text. */
  ghost predicate ShowsParts(view: History, m: Manifest) {
    && |view| <= |m.texts|
    && forall i :: 0 <= i < |view| ==> IsPart(view[i], m.PartOf(i + 1), i + 1, m.texts[i])
  }

  ghost predicate Faithful(w: World, m: Manifest) {
    && m.Valid() && m.conversation == w.conversation && m.bot == w.bot
    && (forall id :: id in w.workers ==> Conforms(w.workers[id].reply, m))
    && (forall i :: 0 <= i < |w.issued| ==> Conforms(w.issued[i].reply, m))
  }

  lemma {:induction false} ViewHolds(h: History, m: Manifest)
    ensures forall x :: x in View(h, m) <==>
                        x in h && Ours(x, m.bot) && OfBatch(x.marks.value.replyHash.value, m.BatchHash())
  {
    if h != [] {
      ViewHolds(h[..|h| - 1], m);
      assert h == h[..|h| - 1] + [h[|h| - 1]];
    }
  }

  lemma {:induction false} NothingOfOurs(h: History, m: Manifest)
    requires forall x :: x in h ==> !Ours(x, m.bot)
    ensures View(h, m) == []
  {
    if h != [] {
      NothingOfOurs(h[..|h| - 1], m);
    }
  }

  lemma {:induction false} ShownHolds(h: History)
    ensures forall x :: x in Shown(h) ==> x in h
  {
    if h != [] {
      ShownHolds(h[1..]);
    }
  }

  /** A POST that lands brings the next part. */
  lemma LandingIsNext(w: World, m: Manifest, r: Reply)
    requires Inv(w) && Faithful(w, m) && ShowsParts(View(w.history, m), m)
    requires r in w.inFlight && r.BatchHash() == m.BatchHash()
    ensures 1 <= r.index <= |m.texts| && r == m.PartOf(r.index)
    ensures |View(w.history, m)| == r.index - 1
  {
    assert WasIssued(w, r);
    var i :| 0 <= i < |w.issued| && w.issued[i].reply == r;
    assert Conforms(w.issued[i].reply, m);
    NotLater(w, m, r);
    NotEarlier(w, m, r, w.issued[i].lastRead);
  }

  /** The part is not there yet. */
  lemma NotLater(w: World, m: Manifest, r: Reply)
    requires Inv(w) && Faithful(w, m) && ShowsParts(View(w.history, m), m)
    requires r in w.inFlight && 1 <= r.index <= |m.texts| && r == m.PartOf(r.index)
    ensures |View(w.history, m)| < r.index
  {
    var view := View(w.history, m);
    if |view| >= r.index {
      var x := view[r.index - 1];
      ViewHolds(w.history, m);
      assert x in view;
      assert IsPart(x, m.PartOf(r.index), r.index, m.texts[r.index - 1]);
      InFlightIsNotThere(w, r, x);
    }
  }

  /** The part before it is. */
  lemma NotEarlier(w: World, m: Manifest, r: Reply, lastRead: History)
    requires Inv(w) && Faithful(w, m) && ShowsParts(View(w.history, m), m)
    requires 1 <= r.index <= |m.texts| && r == m.PartOf(r.index)
    requires ReadBefore(w, lastRead, r)
    ensures |View(w.history, m)| >= r.index - 1
  {
    if r.index > 1 {
      var x := SawThePartBefore(w.history, lastRead, r);
      ViewHolds(w.history, m);
    }
  }

  lemma SawThePartBefore(h: History, lastRead: History, r: Reply) returns (x: Message)
    requires Increasing(h) && lastRead <= h && r.Valid() && Cleared(lastRead, r) && r.index > 1
    ensures x in h && IsPart(x, r, r.index - 1, r.prior[r.index - 2])
  {
    ClearedMeans(h, lastRead, r);
    var messages := Last(lastRead, REACH);
    var tail := messages[Find(messages, r.trigger).value + 1..];
    x := Shown(tail)[r.index - 2];
    ShownHolds(tail);
    assert x in Shown(tail);
    assert x in tail;
    assert x in messages;
    assert x in lastRead;
    assert x in h;
  }

  lemma {:induction false} StepKeepsTheParts(w: World, step: Step, next: World, m: Manifest)
    requires Inv(w) && Faithful(w, m) && ShowsParts(View(w.history, m), m)
    requires StepConforms(step, m) && Apply(w, step) == Some(next)
    ensures Faithful(next, m) && ShowsParts(View(next.history, m), m)
  {
    FaithfulStep(w, step, next, m);
    if step.Land? {
      LandShowsTheNextPart(w, step.reply, step.messageId, step.createdAt, m);
    } else if step.Others? {
      assert (w.history + [step.message])[..|w.history|] == w.history;
    }
  }

  lemma LandShowsTheNextPart(w: World, r: Reply, messageId: int, createdAt: int, m: Manifest)
    requires Inv(w) && Faithful(w, m) && ShowsParts(View(w.history, m), m)
    requires r in w.inFlight
    ensures ShowsParts(View(w.history + [Posted(r, messageId, createdAt)], m), m)
  {
    var view := View(w.history, m);
    assert WasIssued(w, r);
    if r.BatchHash() == m.BatchHash() {
      LandingIsNext(w, m, r);
      PartFollows(view, m, r.index, messageId, createdAt);
    }
  }

  lemma PartFollows(view: History, m: Manifest, k: nat, messageId: int, createdAt: int)
    requires 1 <= k <= |m.texts| && ShowsParts(view, m) && |view| == k - 1
    ensures ShowsParts(view + [Posted(m.PartOf(k), messageId, createdAt)], m)
  {
  }

  lemma FaithfulStep(w: World, step: Step, next: World, m: Manifest)
    requires Faithful(w, m) && StepConforms(step, m) && Apply(w, step) == Some(next)
    ensures Faithful(next, m)
  {
  }

  lemma {:induction false} RunKeepsTheParts(w: World, steps: seq<Step>, last: World, m: Manifest)
    requires Inv(w) && Faithful(w, m) && ShowsParts(View(w.history, m), m)
    requires Run(w, steps) == Some(last) && forall i :: 0 <= i < |steps| ==> StepConforms(steps[i], m)
    ensures ShowsParts(View(last.history, m), m)
    decreases |steps|
  {
    if steps != [] {
      var next := Apply(w, steps[0]).value;
      StepKeepsTheParts(w, steps[0], next, m);
      StepKeepsInv(w, steps[0], next);
      RunKeepsTheParts(next, steps[1..], last, m);
    }
  }

  lemma {:induction false} ViewInOrder(h: History, m: Manifest)
    requires Increasing(h)
    ensures Increasing(View(h, m))
  {
    if h != [] {
      var before := h[..|h| - 1];
      assert Increasing(before);
      ViewInOrder(before, m);
      ViewHolds(before, m);
      var view := View(before, m);
      assert forall i :: 0 <= i < |view| ==> view[i] in view;
    }
  }

  /** In every interleaving of workers, crashes, retries and late POSTs, what the server
      shows of the batch, in its order and without leaving anything out, is the first
      parts of the manifest, each once and with its text. */
  lemma PartsArriveInOrder(w: World, steps: seq<Step>, last: World, m: Manifest) returns (view: History)
    requires Initial(w) && m.Valid() && m.conversation == w.conversation && m.bot == w.bot
    requires Run(w, steps) == Some(last) && forall i :: 0 <= i < |steps| ==> StepConforms(steps[i], m)
    ensures |view| <= |m.texts|
    ensures forall i :: 0 <= i < |view| ==> IsOurPart(view[i], m.PartOf(i + 1), i + 1, m.texts[i])
    ensures forall i, j :: 0 <= i < j < |view| ==> view[i].id < view[j].id
    ensures forall x :: x in view <==>
              && x in last.history && x.sender == AgentBot(m.bot) && x.marks.Some? && x.marks.value.replyHash.Some?
              && match x.marks.value.replyHash.value
                 case Batch(_, _) => x.marks.value.replyHash.value == Batch(m.conversation, m.trigger)
                 case Part(batch, _, _) => batch == Batch(m.conversation, m.trigger)
  {
    InitialInv(w);
    NothingOfOurs(w.history, m);
    RunKeepsTheParts(w, steps, last, m);
    RunKeepsInv(w, steps, last);
    view := View(last.history, m);
    ViewInOrder(last.history, m);
    ViewHolds(last.history, m);
    forall i | 0 <= i < |view|
      ensures IsOurPart(view[i], m.PartOf(i + 1), i + 1, m.texts[i])
    {
      assert IsPart(view[i], m.PartOf(i + 1), i + 1, m.texts[i]);
      PartIsOurs(view[i], m.PartOf(i + 1), i + 1, m.texts[i]);
    }
  }
}
