/**
  `sendMessage`: write the message node, then read the sender's counter and
  write it back plus one. The three requests run one after another; the
  first rejection ends the operation and is passed on to the caller, with the
  writes made before it left in place.
 */
module Sending {
  import opened Wrappers
  import opened JsText
  import opened Store
  import opened Codec
  import opened History
  import opened Counters

  /** The database after the operation, and whether the caller's promise rejected. */
  datatype Sent = Sent(db: Db, rejected: bool)

  lemma CountsHasNoDigit(k: nat)
    requires k < |CountsKey|
    ensures !IsDecimalDigit(CountsKey[k])
  {
  }

  /**
    A message path never lies on the way to a counter of the reverse key: that
    would need the sender-first key to be `Counts` and the rendered timestamp,
    all digits, to be a rearrangement of it.
   */
  lemma MessagePathOffCounters(sender: string, recipient: string, timestamp: nat, leaf: string)
    ensures !Related(MessagePath(sender, recipient, timestamp), CountPath(ChatId(recipient, sender), leaf))
  {
    var mp := MessagePath(sender, recipient, timestamp);
    var cp := CountPath(ChatId(recipient, sender), leaf);
    if IsPrefix(mp, cp) {
      assert mp[2] == cp[2] && mp[3] == cp[3];
      var w := ChatId(recipient, sender);
      assert ChatId(sender, recipient) == CountsKey;
      assert w == NatToString(timestamp);
      var k := if |recipient| > 0 then |sender| else 0;
      assert w[0] == ChatId(sender, recipient)[k];
      CountsHasNoDigit(k);
    }
  }

  /**
    `sendMessage(sender, recipient, text)` at time `timestamp`. It writes the
    encoded message at its path and then the sender's counter, whose new
    value is the old one plus one (0 when absent). Nothing else in the tree
    changes, and the operation rejects exactly when one of the two paths is
    refused.
   */
  function SendMessage(db: Db, sender: string, recipient: string, text: string, timestamp: nat): (r: Sent)
    ensures r.db.faults == db.faults
    ensures r.rejected <==>
      MessagePath(sender, recipient, timestamp) in db.faults || SenderCountPath(sender, recipient) in db.faults
    ensures MessagePath(sender, recipient, timestamp) in db.faults ==> r.db == db
    ensures MessagePath(sender, recipient, timestamp) !in db.faults ==>
      Get(r.db.root, MessagePath(sender, recipient, timestamp)) == Some(EncodeMessage(sender, recipient, text))
    ensures !r.rejected ==>
      Get(r.db.root, SenderCountPath(sender, recipient)) ==
        Some(Increment(CounterValue(Read(db, SenderCountPath(sender, recipient)))))
    ensures SenderCountPath(sender, recipient) in db.faults ==>
      Get(r.db.root, SenderCountPath(sender, recipient)) == Get(db.root, SenderCountPath(sender, recipient))
    ensures forall q ::
      !Related(q, MessagePath(sender, recipient, timestamp)) && !Related(q, SenderCountPath(sender, recipient)) ==>
        Get(r.db.root, q) == Get(db.root, q)
  {
    var mp := MessagePath(sender, recipient, timestamp);
    var cp := SenderCountPath(sender, recipient);
    MessagePathOffCounters(sender, recipient, timestamp, sender);
    match Write(db, mp, EncodeMessage(sender, recipient, text))
    case Rejected => Sent(db, true)
    case Ok(db1) =>
      assert Read(db1, cp) == Read(db, cp);
      Bump(db1, cp)
  }

  /** The second half of a send: read the counter at `p` and write it back plus one. */
  function Bump(db: Db, p: Path): (r: Sent)
    ensures r.db.faults == db.faults
    ensures r.rejected <==> p in db.faults
    ensures p in db.faults ==> r.db == db
    ensures p !in db.faults ==> Get(r.db.root, p) == Some(Increment(CounterValue(Read(db, p))))
    ensures forall q :: !Related(q, p) ==> Get(r.db.root, q) == Get(db.root, q)
  {
    match Read(db, p)
    case Rejected => Sent(db, true)
    case Ok(current) =>
      match Write(db, p, Increment(current.GetOr(Num(0))))
      case Rejected => Sent(db, true)
      case Ok(db2) => Sent(db2, false)
  }

  /** A send keeps a well-formed store well-formed: the message node has two distinct keys and a counter is a scalar. */
  lemma SendWF(db: Db, sender: string, recipient: string, text: string, timestamp: nat)
    requires WF(db.root)
    ensures WF(SendMessage(db, sender, recipient, text, timestamp).db.root)
  {
    var mp := MessagePath(sender, recipient, timestamp);
    var cp := SenderCountPath(sender, recipient);
    var node := EncodeMessage(sender, recipient, text);
    if mp !in db.faults {
      WriteWF(db, mp, node);
      var db1 := Write(db, mp, node).value;
      if cp !in db.faults {
        var x := Increment(CounterValue(Read(db1, cp)));
        WriteWF(db1, cp, x);
      }
    }
  }

  /** The message a reader `user` decodes from the node `sendMessage` writes. */
  function Delivered(sender: string, recipient: string, text: string, timestamp: nat, user: string, other: string): ChatMessage {
    ChatMessage(NatToString(timestamp), if sender == user then Me else other, sender, recipient, Str(text), Some(timestamp))
  }

  /** The requests a send followed by a read of the conversation makes are all served. */
  predicate Served(db: Db, sender: string, recipient: string, timestamp: nat) {
    && MessagePath(sender, recipient, timestamp) !in db.faults
    && SenderCountPath(sender, recipient) !in db.faults
    && InboxPath(ChatId(sender, recipient)) !in db.faults
    && InboxPath(ChatId(recipient, sender)) !in db.faults
  }

  /** A message that decodes: two different non-empty names and non-empty text. */
  predicate Decodable(sender: string, recipient: string, text: string) {
    sender != recipient && sender != "" && recipient != "" && text != ""
  }

  lemma AbsentKey(v: V, p: Path, k: string)
    requires Get(v, p + [k]) == None
    ensures k !in KeysOf(ChildrenAt(v, p))
  {
    GetChild(v, p, k);
  }

  /** The inbox the message goes to gains exactly the decoded message, at the end. */
  lemma SendExtendsInbox(db: Db, sender: string, recipient: string, text: string, timestamp: nat, user: string, other: string)
    requires Decodable(sender, recipient, text)
    requires MessagePath(sender, recipient, timestamp) !in db.faults
    requires ChatId(sender, recipient) != CountsKey
    requires Get(db.root, MessagePath(sender, recipient, timestamp)) == None
    ensures InboxMessages(SendMessage(db, sender, recipient, text, timestamp).db, ChatId(sender, recipient), user, other)
      == InboxMessages(db, ChatId(sender, recipient), user, other) + [Delivered(sender, recipient, text, timestamp, user, other)]
  {
    var id := ChatId(sender, recipient);
    var k := NatToString(timestamp);
    var node := EncodeMessage(sender, recipient, text);
    var after := SendMessage(db, sender, recipient, text, timestamp).db;
    var db1 := Write(db, MessagePath(sender, recipient, timestamp), node).value;
    var cp := SenderCountPath(sender, recipient);
    assert !Related(InboxPath(id), cp) by {
      assert InboxPath(id)[2] != cp[2];
    }
    assert Get(after.root, InboxPath(id)) == Get(db1.root, InboxPath(id));
    GetSetChild(db.root, InboxPath(id), k, node);
    AbsentKey(db.root, InboxPath(id), k);
    var cs := ChildrenAt(db.root, InboxPath(id));
    assert ChildrenAt(after.root, InboxPath(id)) == cs + [(k, node)];
    DecodeChildrenAppend(cs, (k, node), user, other);
    DecodeEncode(sender, recipient, text, timestamp, user, other);
    assert k != CountsKey by {
      assert IsDecimalDigit(k[0]);
    }
  }

  /** The reverse inbox is untouched unless the two keys coincide. */
  lemma SendKeepsOtherInbox(db: Db, sender: string, recipient: string, text: string, timestamp: nat, id: string, user: string, other: string)
    requires id != ChatId(sender, recipient) && id != CountsKey
    ensures InboxMessages(SendMessage(db, sender, recipient, text, timestamp).db, id, user, other)
      == InboxMessages(db, id, user, other)
  {
    var cp := SenderCountPath(sender, recipient);
    var mp := MessagePath(sender, recipient, timestamp);
    assert !Related(InboxPath(id), cp) by {
      assert InboxPath(id)[2] != cp[2];
    }
    assert !Related(InboxPath(id), mp) by {
      assert InboxPath(id)[2] != mp[2];
    }
  }

  /**
    Round trip through the store: after a served send of a decodable message
    at a fresh timestamp, the sender's view of the conversation holds exactly
    one more copy of the delivered message (two when the keys in both orders
    coincide and both reads hit the same inbox), and nothing else changes.
   */
  lemma SendThenGetMessages(db: Db, sender: string, recipient: string, text: string, timestamp: nat)
    requires Decodable(sender, recipient, text) && Served(db, sender, recipient, timestamp)
    requires ChatId(sender, recipient) != CountsKey && ChatId(recipient, sender) != CountsKey
    requires Get(db.root, MessagePath(sender, recipient, timestamp)) == None
    ensures var m := Delivered(sender, recipient, text, timestamp, sender, recipient);
      var after := SendMessage(db, sender, recipient, text, timestamp).db;
      multiset(GetMessages(after, sender, recipient)) ==
        multiset(GetMessages(db, sender, recipient)) + multiset{m}
        + (if ChatId(sender, recipient) == ChatId(recipient, sender) then multiset{m} else multiset{})
  {
    var m := Delivered(sender, recipient, text, timestamp, sender, recipient);
    var twice: seq<ChatMessage> := if ChatId(sender, recipient) == ChatId(recipient, sender) then [m] else [];
    var after := SendMessage(db, sender, recipient, text, timestamp).db;
    InboxesAfterSend(db, sender, recipient, text, timestamp);
    GetMessagesAppended(db, after, sender, recipient, [m], twice);
    assert multiset(twice) == if ChatId(sender, recipient) == ChatId(recipient, sender) then multiset{m} else multiset{};
  }

  /** On a store where neither direction holds anything yet, the conversation after one send is that one message. */
  lemma FirstMessageOfConversation(db: Db, sender: string, recipient: string, text: string, timestamp: nat)
    requires Decodable(sender, recipient, text) && Served(db, sender, recipient, timestamp)
    requires ChatId(sender, recipient) != CountsKey && ChatId(recipient, sender) != CountsKey
    requires ChatId(sender, recipient) != ChatId(recipient, sender)
    requires Get(db.root, InboxPath(ChatId(sender, recipient))) == None
    requires Get(db.root, InboxPath(ChatId(recipient, sender))) == None
    ensures GetMessages(SendMessage(db, sender, recipient, text, timestamp).db, sender, recipient)
      == [Delivered(sender, recipient, text, timestamp, sender, recipient)]
  {
    var m := Delivered(sender, recipient, text, timestamp, sender, recipient);
    var ab := ChatId(sender, recipient);
    var ba := ChatId(recipient, sender);
    var sent := SendMessage(db, sender, recipient, text, timestamp);
    GetChild(db.root, InboxPath(ab), NatToString(timestamp));
    InboxesAfterSend(db, sender, recipient, text, timestamp);
    assert InboxMessages(sent.db, ab, sender, recipient) == [m];
    assert InboxMessages(sent.db, ba, sender, recipient) == [];
    GetMessagesOfOne(sent.db, sender, recipient, m);
  }

  /** A conversation's preview is the content of a message newer than all the others in it. */
  lemma PreviewOfNewest(ms: seq<ChatMessage>, m: ChatMessage)
    requires Ascending(ms) && m in ms && m.timestamp.Some?
    requires forall x :: x in ms ==> x == m || (x.timestamp.Some? && x.timestamp.value < m.timestamp.value)
    ensures Preview(ms) == m.content
  {
    var j :| 0 <= j < |ms| && ms[j] == m;
    var i :| 0 <= i < |ms| && Preview(ms) == ms[i].content &&
      forall j :: 0 <= j < |ms| ==> ms[j].timestamp.value <= ms[i].timestamp.value;
    assert ms[i] in ms;
  }

  /** The two inboxes a reader of the conversation sees after a send, each given by its old contents. */
  lemma InboxesAfterSend(db: Db, sender: string, recipient: string, text: string, timestamp: nat)
    requires Decodable(sender, recipient, text) && MessagePath(sender, recipient, timestamp) !in db.faults
    requires ChatId(sender, recipient) != CountsKey && ChatId(recipient, sender) != CountsKey
    requires Get(db.root, MessagePath(sender, recipient, timestamp)) == None
    ensures var m := Delivered(sender, recipient, text, timestamp, sender, recipient);
      var after := SendMessage(db, sender, recipient, text, timestamp).db;
      var ab := ChatId(sender, recipient);
      var ba := ChatId(recipient, sender);
      && InboxMessages(after, ab, sender, recipient) == InboxMessages(db, ab, sender, recipient) + [m]
      && InboxMessages(after, ba, sender, recipient) ==
           InboxMessages(db, ba, sender, recipient) + (if ab == ba then [m] else [])
  {
    SendExtendsInbox(db, sender, recipient, text, timestamp, sender, recipient);
    if ChatId(sender, recipient) != ChatId(recipient, sender) {
      SendKeepsOtherInbox(db, sender, recipient, text, timestamp, ChatId(recipient, sender), sender, recipient);
    }
  }

  /** Appending a message newer than every other to either of two lists keeps them all numeric, with it the newest. */
  lemma NewestAppended(old1: seq<ChatMessage>, old2: seq<ChatMessage>, m: ChatMessage, twice: bool)
    requires m.timestamp.Some?
    requires forall i :: 0 <= i < |old1 + old2| ==>
      (old1 + old2)[i].timestamp.Some? && (old1 + old2)[i].timestamp.value < m.timestamp.value
    ensures var both := (old1 + [m]) + (old2 + if twice then [m] else []);
      && AllNumeric(both) && m in both
      && forall x :: x in both ==> x == m || (x.timestamp.Some? && x.timestamp.value < m.timestamp.value)
  {
    var both := (old1 + [m]) + (old2 + if twice then [m] else []);
    forall x | x in both ensures x == m || (x.timestamp.Some? && x.timestamp.value < m.timestamp.value) {
      if x != m {
        assert x in old1 + old2;
        var k :| 0 <= k < |old1 + old2| && (old1 + old2)[k] == x;
      }
    }
    forall i | 0 <= i < |both| ensures both[i].timestamp.Some? {
      assert both[i] in both;
    }
    assert both[|old1|] == m;
  }

  /** A sorted rearrangement of such a list previews the newest message. */
  lemma PreviewOfRearranged(ms: seq<ChatMessage>, both: seq<ChatMessage>, m: ChatMessage)
    requires multiset(ms) == multiset(both) && Ascending(ms) && m in both && m.timestamp.Some?
    requires forall x :: x in both ==> x == m || (x.timestamp.Some? && x.timestamp.value < m.timestamp.value)
    ensures Preview(ms) == m.content
  {
    forall x | x in ms ensures x == m || (x.timestamp.Some? && x.timestamp.value < m.timestamp.value) {
      assert x in multiset(both);
    }
    assert m in multiset(ms);
    PreviewOfNewest(ms, m);
  }

  /**
    A send stamped later than every message already in the conversation
    becomes its preview, when all the stored timestamps are numbers.
   */
  lemma NewestSendIsPreview(db: Db, sender: string, recipient: string, text: string, timestamp: nat)
    requires Decodable(sender, recipient, text) && Served(db, sender, recipient, timestamp)
    requires ChatId(sender, recipient) != CountsKey && ChatId(recipient, sender) != CountsKey
    requires Get(db.root, MessagePath(sender, recipient, timestamp)) == None
    requires var both := InboxMessages(db, ChatId(sender, recipient), sender, recipient)
                         + InboxMessages(db, ChatId(recipient, sender), sender, recipient);
      forall i :: 0 <= i < |both| ==> both[i].timestamp.Some? && both[i].timestamp.value < timestamp
    ensures LastMessage(SendMessage(db, sender, recipient, text, timestamp).db, sender, recipient) == Str(text)
  {
    var m := Delivered(sender, recipient, text, timestamp, sender, recipient);
    var after := SendMessage(db, sender, recipient, text, timestamp).db;
    var ab := ChatId(sender, recipient);
    var ba := ChatId(recipient, sender);
    InboxesAfterSend(db, sender, recipient, text, timestamp);
    NewestAppended(InboxMessages(db, ab, sender, recipient), InboxMessages(db, ba, sender, recipient), m, ab == ba);
    var both := InboxMessages(after, ab, sender, recipient) + InboxMessages(after, ba, sender, recipient);
    PreviewOfRearranged(GetMessages(after, sender, recipient), both, m);
  }

  /**
    With the corrected reading convention, the recipient's unread count for
    the sender rises by one on every served send (from an absent counter to 1).
   */
  lemma SendBumpsUnreadCount(db: Db, sender: string, recipient: string, text: string, timestamp: nat)
    requires MessagePath(sender, recipient, timestamp) !in db.faults
    requires SenderCountPath(sender, recipient) !in db.faults
    ensures UnreadCount(Corrected, SendMessage(db, sender, recipient, text, timestamp).db, recipient, sender)
      == Increment(UnreadCount(Corrected, db, recipient, sender))
  {
    WritersAgreeWithCorrectedReader(recipient, sender);
  }

  /**
    As written, the recipient's unread count for the sender never moves when
    the sender writes: the send bumps a counter the recipient's reader does
    not consult.
   */
  lemma SendMissesAsWrittenUnreadCount(db: Db, sender: string, recipient: string, text: string, timestamp: nat)
    requires sender != recipient
    ensures UnreadCount(AsWritten, SendMessage(db, sender, recipient, text, timestamp).db, recipient, sender)
      == UnreadCount(AsWritten, db, recipient, sender)
  {
    var rp := ReaderPath(AsWritten, recipient, sender);
    WritersAgreeWithCorrectedReader(recipient, sender);
    MessagePathOffCounters(sender, recipient, timestamp, recipient);
    assert !Related(rp, MessagePath(sender, recipient, timestamp));
  }

  /** Ann writes to Ben on an empty store: Ben's count as written stays 0, under the corrected reader it is 1. */
  lemma UnreadCountExample()
    ensures var after := SendMessage(Db(Obj([]), {}), "Ann", "Ben", "hi", 1000).db;
      && UnreadCount(AsWritten, after, "Ben", "Ann") == Num(0)
      && UnreadCount(Corrected, after, "Ben", "Ann") == Num(1)
  {
    var db := Db(Obj([]), {});
    assert Get(db.root, SenderCountPath("Ann", "Ben")) == None;
    assert Get(db.root, ReaderPath(AsWritten, "Ben", "Ann")) == None;
    SendBumpsUnreadCount(db, "Ann", "Ben", "hi", 1000);
    SendMissesAsWrittenUnreadCount(db, "Ann", "Ben", "hi", 1000);
  }
}
