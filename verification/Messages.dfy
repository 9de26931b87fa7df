/** Messages of one conversation as the messages endpoint serves them, and the
    identities (hashes) a reply stamps on the messages it posts.

    A hash is modelled as the text that is hashed: two hashes are equal exactly
    when their texts are. */
module Messages {
  import opened Wrappers

  /** `Batch` identifies a logical reply by its conversation and the message that
      triggered it; `Part` identifies one of several parts of it. */
  datatype Hash =
    | Batch(conversation: int, trigger: int)
    | Part(batch: Hash, index: int, count: int)

  /** The identity of one part: a reply of a single part keeps the batch hash. */
  function PartHash(batch: Hash, index: int, count: int): Hash {
    if count == 1 then batch else Part(batch, index, count)
  }

  /** `sender` of a message, by the `type` field of the object. */
  datatype Sender = NotAnObject | Contact | AgentBot(id: int) | OtherSender

  /** `content_attributes` when it is an object. */
  datatype Marks = Marks(
    replyHash: Option<Hash>,
    batchHash: Option<Hash>,
    partIndex: Option<int>,
    partCount: Option<int>)

  /** `private`, `kind` (message_type) and `createdAt` are `None` when the payload
      does not carry a value of the right type. `speaks` says that the message has
      text, or an attachment the program accepts in its place. */
  datatype Message = Message(
    id: int,
    conversation: int,
    createdAt: Option<int>,
    isPrivate: Option<bool>,
    kind: Option<int>,
    sender: Sender,
    content: string,
    speaks: bool,
    marks: Option<Marks>)

  const INCOMING := 0
  const OUTGOING := 1
  const ACTIVITY := 2

  type History = seq<Message>

  /** The server hands out message ids in increasing order. */
  ghost predicate Increasing(h: History) {
    forall i, j :: 0 <= i < j < |h| ==> h[i].id < h[j].id
  }

  function Ids(h: History): set<int> {
    set m | m in h :: m.id
  }

  /** The last `n` elements, or all of them when there are fewer. */
  function Last<T>(s: seq<T>, n: int): seq<T>
    requires n >= 0
  {
    if n >= |s| then s else s[|s| - n..]
  }

  lemma IdsOfConcatenation(a: History, b: History)
    ensures Ids(a + b) == Ids(a) + Ids(b)
  {
    forall id
      ensures id in Ids(a + b) <==> id in Ids(a) + Ids(b)
    {
      if id in Ids(a) + Ids(b) {
        var m :| (m in a || m in b) && m.id == id;
        assert m in a + b;
      }
    }
  }

  lemma {:induction false} IdsAreAsManyAsMessages(h: History)
    requires Increasing(h)
    ensures |Ids(h)| == |h|
  {
    if h != [] {
      IdsAreAsManyAsMessages(h[1..]);
      assert h == [h[0]] + h[1..];
      IdsOfConcatenation([h[0]], h[1..]);
      assert Ids([h[0]]) == {h[0].id} by {
        assert h[0] in [h[0]];
      }
      assert h[0].id !in Ids(h[1..]);
    }
  }

  /** Two histories in id order with the same messages are the same history. */
  lemma {:induction false} IncreasingIsUnique(a: History, b: History)
    requires Increasing(a) && Increasing(b)
    requires forall m :: m in a <==> m in b
    ensures a == b
  {
    if a != [] {
      assert a[0] in b;
    }
    if b != [] {
      assert b[0] in a;
    }
    if a != [] && b != [] {
      LeastIsFirst(a);
      LeastIsFirst(b);
      RestOfIncreasing(a);
      RestOfIncreasing(b);
      IncreasingIsUnique(a[1..], b[1..]);
      assert a == [a[0]] + a[1..] && b == [b[0]] + b[1..];
    }
  }

  lemma LeastIsFirst(h: History)
    requires Increasing(h) && h != []
    ensures forall m :: m in h ==> m == h[0] || h[0].id < m.id
  {
  }

  lemma RestOfIncreasing(h: History)
    requires Increasing(h) && h != []
    ensures forall m :: m in h[1..] <==> m in h && m != h[0]
  {
    assert h == [h[0]] + h[1..];
    assert forall i :: 0 <= i < |h[1..]| ==> h[1..][i] == h[i + 1];
  }
}
