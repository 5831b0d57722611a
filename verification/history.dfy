/**
  Reading a conversation: both directional inboxes are decoded, concatenated
  and sorted by timestamp with a stable sort, and the newest content is the
  conversation's preview line.
 */
module History {
  import opened Wrappers
  import opened Store
  import opened Codec

  /** The comparator `a.timestamp - b.timestamp` is positive; a `NaN` timestamp makes it false. */
  predicate After(a: ChatMessage, b: ChatMessage) {
    a.timestamp.Some? && b.timestamp.Some? && a.timestamp.value > b.timestamp.value
  }

  predicate AllNumeric(ms: seq<ChatMessage>) {
    forall i :: 0 <= i < |ms| ==> ms[i].timestamp.Some?
  }

  /** Every timestamp is a number and they never decrease. */
  predicate Ascending(ms: seq<ChatMessage>) {
    && AllNumeric(ms)
    && forall i, j :: 0 <= i < j < |ms| ==> ms[i].timestamp.value <= ms[j].timestamp.value
  }

  /** The messages stamped `t`, in their order. */
  function WithTimestamp(ms: seq<ChatMessage>, t: int): seq<ChatMessage> {
    if ms == [] then []
    else (if ms[0].timestamp == Some(t) then [ms[0]] else []) + WithTimestamp(ms[1..], t)
  }

  /** Places `m` before the first message it does not belong after. */
  function Insert(m: ChatMessage, ms: seq<ChatMessage>): (r: seq<ChatMessage>)
    ensures multiset(r) == multiset(ms) + multiset{m}
  {
    if ms == [] || !After(m, ms[0]) then
      [m] + ms
    else
      assert ms == [ms[0]] + ms[1..];
      [ms[0]] + Insert(m, ms[1..])
  }

  /** Inserting adds `m` and nothing else. */
  lemma InsertMember(m: ChatMessage, ms: seq<ChatMessage>, x: ChatMessage)
    requires x in Insert(m, ms)
    ensures x == m || x in ms
  {
    assert x in multiset(Insert(m, ms));
    assert x in multiset(ms) + multiset{m};
  }

  lemma {:induction false} InsertAscending(m: ChatMessage, ms: seq<ChatMessage>)
    requires m.timestamp.Some? && Ascending(ms)
    ensures Ascending(Insert(m, ms))
  {
    if ms != [] && After(m, ms[0]) {
      var tail := ms[1..];
      assert Ascending(tail) by {
        forall i, j | 0 <= i < j < |tail| ensures tail[i].timestamp.value <= tail[j].timestamp.value {
          assert tail[i] == ms[i + 1] && tail[j] == ms[j + 1];
        }
      }
      var rest := Insert(m, tail);
      InsertAscending(m, tail);
      var r := [ms[0]] + rest;
      assert Insert(m, ms) == r;
      forall j | 0 < j < |r| ensures ms[0].timestamp.value <= r[j].timestamp.value {
        var x := rest[j - 1];
        assert r[j] == x;
        InsertMember(m, tail, x);
        if x != m {
          var k :| 0 <= k < |tail| && tail[k] == x;
          assert ms[k + 1] == x;
        }
      }
    }
  }

  lemma WithTimestampCons(x: ChatMessage, xs: seq<ChatMessage>, t: int)
    ensures x.timestamp == Some(t) ==> WithTimestamp([x] + xs, t) == [x] + WithTimestamp(xs, t)
    ensures x.timestamp != Some(t) ==> WithTimestamp([x] + xs, t) == WithTimestamp(xs, t)
  {
    assert ([x] + xs)[0] == x && ([x] + xs)[1..] == xs;
  }

  /** The step of `InsertStable` where `m` moves past the first message. */
  lemma InsertStableStep(m: ChatMessage, ms: seq<ChatMessage>, t: int)
    requires ms != [] && After(m, ms[0])
    requires m.timestamp == Some(t) ==> WithTimestamp(Insert(m, ms[1..]), t) == [m] + WithTimestamp(ms[1..], t)
    requires m.timestamp != Some(t) ==> WithTimestamp(Insert(m, ms[1..]), t) == WithTimestamp(ms[1..], t)
    ensures m.timestamp == Some(t) ==> WithTimestamp(Insert(m, ms), t) == [m] + WithTimestamp(ms, t)
    ensures m.timestamp != Some(t) ==> WithTimestamp(Insert(m, ms), t) == WithTimestamp(ms, t)
  {
    var tail := ms[1..];
    var rest := Insert(m, tail);
    var r := Insert(m, ms);
    assert r == [ms[0]] + rest;
    assert r != [] && r[0] == ms[0] && r[1..] == rest;
    if m.timestamp == Some(t) {
      assert ms[0].timestamp != Some(t);
      assert WithTimestamp(r, t) == WithTimestamp(rest, t);
      assert WithTimestamp(ms, t) == WithTimestamp(tail, t);
    } else if ms[0].timestamp == Some(t) {
      assert WithTimestamp(r, t) == [ms[0]] + WithTimestamp(rest, t);
      assert WithTimestamp(ms, t) == [ms[0]] + WithTimestamp(tail, t);
    } else {
      assert WithTimestamp(r, t) == WithTimestamp(rest, t);
      assert WithTimestamp(ms, t) == WithTimestamp(tail, t);
    }
  }

  /** Equal-timestamp messages keep their order; `m` lands ahead of those it ties with. */
  lemma {:induction false} InsertStable(m: ChatMessage, ms: seq<ChatMessage>, t: int)
    ensures m.timestamp == Some(t) ==> WithTimestamp(Insert(m, ms), t) == [m] + WithTimestamp(ms, t)
    ensures m.timestamp != Some(t) ==> WithTimestamp(Insert(m, ms), t) == WithTimestamp(ms, t)
  {
    if ms == [] || !After(m, ms[0]) {
      assert Insert(m, ms) == [m] + ms;
      WithTimestampCons(m, ms, t);
    } else {
      InsertStable(m, ms[1..], t);
      InsertStableStep(m, ms, t);
    }
  }

  /** `Array.prototype.sort` with the timestamp comparator: stable, as the language requires. */
  function Sort(ms: seq<ChatMessage>): (r: seq<ChatMessage>)
    ensures multiset(r) == multiset(ms)
  {
    if ms == [] then []
    else
      assert ms == [ms[0]] + ms[1..];
      Insert(ms[0], Sort(ms[1..]))
  }

  /** With numeric timestamps the sort puts them in ascending order. */
  lemma {:induction false} SortAscending(ms: seq<ChatMessage>)
    requires AllNumeric(ms)
    ensures Ascending(Sort(ms))
  {
    if ms != [] {
      SortAscending(ms[1..]);
      InsertAscending(ms[0], Sort(ms[1..]));
    }
  }

  /** With numeric timestamps the sort keeps messages of equal timestamp in their original order. */
  lemma {:induction false} SortStable(ms: seq<ChatMessage>, t: int)
    requires AllNumeric(ms)
    ensures WithTimestamp(Sort(ms), t) == WithTimestamp(ms, t)
  {
    if ms != [] {
      SortAscending(ms[1..]);
      SortStable(ms[1..], t);
      InsertStable(ms[0], Sort(ms[1..]), t);
    }
  }

  /** The decoded messages of the inbox keyed `chatId`, as the tree holds them. */
  function InboxMessages(db: Db, chatId: string, user: string, other: string): seq<ChatMessage> {
    DecodeChildren(ChildrenAt(db.root, InboxPath(chatId)), user, other)
  }

  /** One inbox read: rejected with the read, otherwise that inbox's decoded messages. */
  function ReadInbox(db: Db, chatId: string, user: string, other: string): (r: Result<seq<ChatMessage>>)
    ensures r.Rejected? <==> InboxPath(chatId) in db.faults
    ensures r.Ok? ==> r.value == InboxMessages(db, chatId, user, other)
  {
    match Read(db, InboxPath(chatId))
    case Rejected => Rejected
    case Ok(snapshot) => Ok(DecodeInbox(snapshot, user, other))
  }

  /**
    `getMessages(user, other)`: the messages of both directional inboxes, sorted
    ascending by timestamp with ties kept in reading order; the empty list when
    either read is rejected.
   */
  function GetMessages(db: Db, user: string, other: string): (r: seq<ChatMessage>)
    ensures InboxPath(ChatId(user, other)) in db.faults || InboxPath(ChatId(other, user)) in db.faults ==> r == []
    ensures InboxPath(ChatId(user, other)) !in db.faults && InboxPath(ChatId(other, user)) !in db.faults ==>
      var both := InboxMessages(db, ChatId(user, other), user, other) + InboxMessages(db, ChatId(other, user), user, other);
      && multiset(r) == multiset(both)
      && (AllNumeric(both) ==> Ascending(r))
      && (AllNumeric(both) ==> forall t :: WithTimestamp(r, t) == WithTimestamp(both, t))
  {
    match ReadInbox(db, ChatId(user, other), user, other)
    case Rejected => []
    case Ok(first) =>
      match ReadInbox(db, ChatId(other, user), user, other)
      case Rejected => []
      case Ok(second) =>
        var both := first + second;
        if AllNumeric(both) then
          SortAscending(both);
          assert forall t :: WithTimestamp(Sort(both), t) == WithTimestamp(both, t) by {
            forall t { SortStable(both, t); }
          }
          Sort(both)
        else
          Sort(both)
  }

  /** Appending to the two inboxes adds the appended messages to the conversation, as a multiset. */
  lemma GetMessagesAppended(db: Db, after: Db, user: string, other: string, more1: seq<ChatMessage>, more2: seq<ChatMessage>)
    requires InboxPath(ChatId(user, other)) !in db.faults && InboxPath(ChatId(other, user)) !in db.faults
    requires InboxPath(ChatId(user, other)) !in after.faults && InboxPath(ChatId(other, user)) !in after.faults
    requires InboxMessages(after, ChatId(user, other), user, other) == InboxMessages(db, ChatId(user, other), user, other) + more1
    requires InboxMessages(after, ChatId(other, user), user, other) == InboxMessages(db, ChatId(other, user), user, other) + more2
    ensures multiset(GetMessages(after, user, other)) == multiset(GetMessages(db, user, other)) + multiset(more1) + multiset(more2)
  {
    var first := InboxMessages(db, ChatId(user, other), user, other);
    var second := InboxMessages(db, ChatId(other, user), user, other);
    assert multiset((first + more1) + (second + more2)) == multiset(first + second) + multiset(more1) + multiset(more2);
  }

  /** A conversation whose one inbox holds a single message and whose other inbox is empty reads as that message. */
  lemma GetMessagesOfOne(db: Db, user: string, other: string, m: ChatMessage)
    requires InboxPath(ChatId(user, other)) !in db.faults && InboxPath(ChatId(other, user)) !in db.faults
    requires InboxMessages(db, ChatId(user, other), user, other) == [m]
    requires InboxMessages(db, ChatId(other, user), user, other) == []
    ensures GetMessages(db, user, other) == [m]
  {
    assert ReadInbox(db, ChatId(user, other), user, other) == Ok([m]);
    assert ReadInbox(db, ChatId(other, user), user, other) == Ok([]);
    assert [m] + [] == [m];
    assert Sort([m]) == Insert(m, Sort([]));
  }

  const NoMessagesText := "Tap to start chatting"

  /** `ms[i]` is a newest message of `ms`, and no message after it ties with it. */
  predicate LastNewest(ms: seq<ChatMessage>, i: int) {
    && 0 <= i < |ms|
    && AllNumeric(ms)
    && (forall j :: 0 <= j < |ms| ==> ms[j].timestamp.value <= ms[i].timestamp.value)
    && (forall j :: i < j < |ms| ==> ms[j].timestamp.value < ms[i].timestamp.value)
  }

  /**
    The preview of a sorted conversation: the content of its last message, or
    the placeholder text when there is none. When the list is ascending that
    is the content of a message no other message is newer than, and the last
    of those that tie at the newest timestamp.
   */
  function Preview(ms: seq<ChatMessage>): (r: V)
    ensures ms == [] ==> r == Str(NoMessagesText)
    ensures ms != [] ==> exists i :: 0 <= i < |ms| && r == ms[i].content
    ensures ms != [] && Ascending(ms) ==>
      exists i :: LastNewest(ms, i) && r == ms[i].content
  {
    if |ms| > 0 then
      assert Ascending(ms) ==> forall j :: 0 <= j < |ms| ==> ms[j].timestamp.value <= ms[|ms| - 1].timestamp.value;
      assert Ascending(ms) ==> LastNewest(ms, |ms| - 1);
      ms[|ms| - 1].content
    else
      Str(NoMessagesText)
  }

  /**
    `getLastMessage(user, other)`: the placeholder when either inbox read is
    refused or both inboxes are empty; otherwise, with numeric timestamps, the
    content of the conversation's newest message, the last of the two inboxes
    among those that tie at the newest timestamp.
   */
  function LastMessage(db: Db, user: string, other: string): (r: V)
    ensures InboxPath(ChatId(user, other)) in db.faults || InboxPath(ChatId(other, user)) in db.faults ==>
      r == Str(NoMessagesText)
    ensures InboxPath(ChatId(user, other)) !in db.faults && InboxPath(ChatId(other, user)) !in db.faults ==>
      var both := InboxMessages(db, ChatId(user, other), user, other) + InboxMessages(db, ChatId(other, user), user, other);
      && (both == [] ==> r == Str(NoMessagesText))
      && (both != [] && AllNumeric(both) ==>
            exists i :: LastNewest(both, i) && r == both[i].content)
  {
    var ms := GetMessages(db, user, other);
    if InboxPath(ChatId(user, other)) !in db.faults && InboxPath(ChatId(other, user)) !in db.faults then
      var both := InboxMessages(db, ChatId(user, other), user, other) + InboxMessages(db, ChatId(other, user), user, other);
      PreviewOfListing(ms, both);
      Preview(ms)
    else
      Preview(ms)
  }

  /** No message is stamped `t` when none is listed as stamped `t`. */
  lemma NoneWithTimestamp(ms: seq<ChatMessage>, t: int)
    requires WithTimestamp(ms, t) == []
    ensures forall j :: 0 <= j < |ms| ==> ms[j].timestamp != Some(t)
  {
  }

  /** The last message stamped `t` is the last in the list with that stamp. */
  lemma {:induction false} LastWithTimestamp(ms: seq<ChatMessage>, t: int) returns (k: nat)
    requires WithTimestamp(ms, t) != []
    ensures k < |ms| && ms[k].timestamp == Some(t)
    ensures forall j :: k < j < |ms| ==> ms[j].timestamp != Some(t)
    ensures WithTimestamp(ms, t)[|WithTimestamp(ms, t)| - 1] == ms[k]
  {
    var w := WithTimestamp(ms[1..], t);
    if w == [] {
      NoneWithTimestamp(ms[1..], t);
      assert ms[0].timestamp == Some(t);
      assert WithTimestamp(ms, t) == [ms[0]];
      k := 0;
      forall j | 0 < j < |ms| ensures ms[j].timestamp != Some(t) {
        assert ms[j] == ms[1..][j - 1];
      }
    } else {
      var k1 := LastWithTimestamp(ms[1..], t);
      k := k1 + 1;
      var pre := if ms[0].timestamp == Some(t) then [ms[0]] else [];
      assert WithTimestamp(ms, t) == pre + w;
      assert (pre + w)[|pre + w| - 1] == w[|w| - 1];
      forall j | k < j < |ms| ensures ms[j].timestamp != Some(t) {
        assert ms[j] == ms[1..][j - 1];
      }
    }
  }

  /**
    In an ascending list whose messages stamped with its last timestamp are
    listed in the same order as in `both`, the last message is the last in
    `both` with that stamp, and it is newest there.
   */
  lemma LastOfStable(ms: seq<ChatMessage>, both: seq<ChatMessage>, t: int) returns (k: nat)
    requires multiset(ms) == multiset(both) && ms != [] && Ascending(ms)
    requires t == ms[|ms| - 1].timestamp.value && WithTimestamp(ms, t) == WithTimestamp(both, t)
    ensures k < |both| && both[k] == ms[|ms| - 1]
    ensures forall j :: 0 <= j < |both| ==> both[j].timestamp.Some? && both[j].timestamp.value <= t
    ensures forall j :: k < j < |both| ==> both[j].timestamp != Some(t)
  {
    var last := |ms| - 1;
    if WithTimestamp(ms, t) == [] {
      NoneWithTimestamp(ms, t);
      assert false;
    }
    var km := LastWithTimestamp(ms, t);
    assert km == last;
    k := LastWithTimestamp(both, t);
    forall j | 0 <= j < |both| ensures both[j].timestamp.Some? && both[j].timestamp.value <= t {
      assert both[j] in multiset(ms);
      var l :| 0 <= l < |ms| && ms[l] == both[j];
    }
  }

  /**
    The preview of an ascending, stably ordered permutation of `both` is the
    content of a newest message of `both`, the last among those that tie.
   */
  lemma PreviewOfListing(ms: seq<ChatMessage>, both: seq<ChatMessage>)
    requires multiset(ms) == multiset(both)
    requires AllNumeric(both) ==> Ascending(ms)
    requires AllNumeric(both) ==> forall t :: WithTimestamp(ms, t) == WithTimestamp(both, t)
    ensures both == [] ==> Preview(ms) == Str(NoMessagesText)
    ensures both != [] && AllNumeric(both) ==>
      exists i :: LastNewest(both, i) && Preview(ms) == both[i].content
  {
    if both == [] {
      assert |ms| == |multiset(ms)| == 0;
    } else if AllNumeric(both) {
      assert |ms| == |multiset(both)| == |both|;
      var t := ms[|ms| - 1].timestamp.value;
      assert WithTimestamp(ms, t) == WithTimestamp(both, t);
      var k := LastOfStable(ms, both, t);
      assert both[k].timestamp.value == t;
      assert Preview(ms) == both[k].content;
      assert forall j :: k < j < |both| ==> both[j].timestamp.value < t;
      assert LastNewest(both, k);
    }
  }

  function Unattributed(ms: seq<ChatMessage>): (r: seq<ChatMessage>)
    ensures |r| == |ms|
    ensures forall i :: 0 <= i < |ms| ==> r[i] == ms[i].(senderId := "")
  {
    if ms == [] then [] else [ms[0].(senderId := "")] + Unattributed(ms[1..])
  }

  lemma UnattributedConcat(a: seq<ChatMessage>, b: seq<ChatMessage>)
    ensures Unattributed(a + b) == Unattributed(a) + Unattributed(b)
  {
  }

  lemma {:induction false} UnattributedInsert(m: ChatMessage, ms: seq<ChatMessage>)
    ensures multiset(Unattributed(Insert(m, ms))) == multiset(Unattributed(ms)) + multiset{m.(senderId := "")}
  {
    if ms != [] && After(m, ms[0]) {
      UnattributedInsert(m, ms[1..]);
      assert Unattributed(ms) == [ms[0].(senderId := "")] + Unattributed(ms[1..]);
      assert Unattributed(Insert(m, ms)) == [ms[0].(senderId := "")] + Unattributed(Insert(m, ms[1..]));
    } else {
      assert Unattributed(Insert(m, ms)) == [m.(senderId := "")] + Unattributed(ms);
    }
  }

  /** Blanking sender ids commutes with sorting. */
  lemma {:induction false} UnattributedSort(ms: seq<ChatMessage>)
    ensures multiset(Unattributed(Sort(ms))) == multiset(Unattributed(ms))
  {
    if ms != [] {
      UnattributedSort(ms[1..]);
      UnattributedInsert(ms[0], Sort(ms[1..]));
      assert Unattributed(ms) == [ms[0].(senderId := "")] + Unattributed(ms[1..]);
    }
  }

  /** Decoding for one reader or the other differs only in `senderId`. */
  lemma {:induction false} DecodeReaderAgnostic(cs: seq<(string, V)>, u1: string, o1: string, u2: string, o2: string)
    ensures Unattributed(DecodeChildren(cs, u1, o1)) == Unattributed(DecodeChildren(cs, u2, o2))
  {
    if cs != [] {
      DecodeReaderAgnostic(cs[1..], u1, o1, u2, o2);
      UnattributedConcat(DecodeEntry(cs[0], u1, o1), DecodeChildren(cs[1..], u1, o1));
      UnattributedConcat(DecodeEntry(cs[0], u2, o2), DecodeChildren(cs[1..], u2, o2));
    }
  }

  /**
    Both participants read the same conversation: apart from `senderId`, the
    two lists are equal as multisets (their order may differ where
    timestamps tie).
   */
  lemma MessagesSymmetric(db: Db, a: string, b: string)
    ensures multiset(Unattributed(GetMessages(db, a, b))) == multiset(Unattributed(GetMessages(db, b, a)))
  {
    var ab := ChatId(a, b);
    var ba := ChatId(b, a);
    if InboxPath(ab) !in db.faults && InboxPath(ba) !in db.faults {
      var x1 := InboxMessages(db, ab, a, b);
      var x2 := InboxMessages(db, ba, a, b);
      var y1 := InboxMessages(db, ba, b, a);
      var y2 := InboxMessages(db, ab, b, a);
      assert GetMessages(db, a, b) == Sort(x1 + x2);
      assert GetMessages(db, b, a) == Sort(y1 + y2);
      UnattributedSort(x1 + x2);
      UnattributedSort(y1 + y2);
      UnattributedConcat(x1, x2);
      UnattributedConcat(y1, y2);
      DecodeReaderAgnostic(ChildrenAt(db.root, InboxPath(ab)), a, b, b, a);
      DecodeReaderAgnostic(ChildrenAt(db.root, InboxPath(ba)), a, b, b, a);
    }
  }

  /**
    When the two names concatenate to the same key in both orders, both reads
    hit the same inbox and every message of it is listed twice.
   */
  lemma CommutingNamesListTwice(db: Db, a: string, b: string)
    requires ChatId(a, b) == ChatId(b, a)
    requires InboxPath(ChatId(a, b)) !in db.faults
    ensures var once := InboxMessages(db, ChatId(a, b), a, b);
      multiset(GetMessages(db, a, b)) == multiset(once) + multiset(once)
  {
  }
}
