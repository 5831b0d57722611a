/**
  Conversation keys and the message codec. A conversation direction is keyed
  by the two names glued together, sender first; a message is the node
  `Inboxes/<sender><recipient>/<timestamp>` whose children are named after the
  two people: the sender's child holds the text, the recipient's child `""`.
 */
module Codec {
  import opened Wrappers
  import opened JsText
  import opened Store

  datatype ChatMessage = ChatMessage(
    id: string,
    senderId: string,
    senderName: string,
    recipientName: string,
    content: V,
    timestamp: Option<int>)

  const InboxesKey := "Inboxes"
  const CountsKey := "Counts"
  /** The `senderId` of a message the reading user wrote. */
  const Me := "me"

  /** `createChatId`: the two names concatenated, no separator. */
  function ChatId(first: string, second: string): string {
    first + second
  }

  /** The key is directional: two different names of equal length give two different keys. */
  lemma ChatIdDirectional(a: string, b: string)
    requires a != b && |a| == |b|
    ensures ChatId(a, b) != ChatId(b, a)
  {
    assert ChatId(a, b)[..|a|] == a;
    assert ChatId(b, a)[..|b|] == b;
  }

  /** The key is not collision-free: different pairs of names can share one key. */
  lemma ChatIdCollides()
    ensures ChatId("Ann", "aBen") == ChatId("Anna", "Ben")
  {
  }

  function InboxPath(chatId: string): Path {
    [UniversityData, InboxesKey, chatId]
  }

  /** Where `sendMessage` stores a message: under the sender-first key, keyed by the rendered timestamp. */
  function MessagePath(sender: string, recipient: string, timestamp: nat): Path {
    InboxPath(ChatId(sender, recipient)) + [NatToString(timestamp)]
  }

  /**
    The object literal `{ [recipient]: '', [sender]: text }`. When both names
    are the same the second entry overwrites the first, in the first one's
    place, leaving a single child holding the text.
   */
  function EncodeMessage(sender: string, recipient: string, text: string): (node: V)
    ensures node.Obj? && WF(node)
    ensures forall k :: k in Keys(node) <==> k == sender || k == recipient
    ensures Prop(node, sender) == Some(Str(text))
    ensures sender != recipient ==> Prop(node, recipient) == Some(Str(""))
  {
    if sender == recipient then Obj([(sender, Str(text))])
    else
      var node := Obj([(recipient, Str("")), (sender, Str(text))]);
      assert Keys(node) == [recipient, sender];
      LookupCons((recipient, Str("")), [(sender, Str(text))], sender);
      node
  }

  /** The first child whose value is `""` (when `blank`) or is anything else (when not). */
  function FirstBlank(cs: seq<(string, V)>, blank: bool): (r: Option<nat>)
    ensures r.Some? ==> r.value < |cs| && (cs[r.value].1 == Str("")) == blank
    ensures r.Some? ==> forall j :: 0 <= j < r.value ==> (cs[j].1 == Str("")) != blank
    ensures r.None? ==> forall j :: 0 <= j < |cs| ==> (cs[j].1 == Str("")) != blank
  {
    if cs == [] then None
    else if (cs[0].1 == Str("")) == blank then Some(0)
    else match FirstBlank(cs[1..], blank)
      case None => None
      case Some(i) => Some(i + 1)
  }

  /**
    Decodes the node stored under `key` for the reader `user` talking to
    `other`. The sender is the first child whose value is not `""`, the
    recipient the first child whose value is `""`; the node is skipped when
    either is missing or its key is the empty (falsy) string. The timestamp is
    `parseInt(key)`, `None` standing for `NaN`.
   */
  function DecodeMessage(key: string, node: V, user: string, other: string): (r: Option<ChatMessage>)
    ensures r.Some? ==>
      && r.value.id == key
      && r.value.timestamp == ParseInt(key)
      && r.value.senderName != "" && r.value.recipientName != ""
      && (r.value.senderName, r.value.content) in ChildrenOf(node) && r.value.content != Str("")
      && (r.value.recipientName, Str("")) in ChildrenOf(node)
      && r.value.senderId == (if r.value.senderName == user then Me else other)
    ensures r.Some? ==>
      && FirstBlank(ChildrenOf(node), false).Some? && FirstBlank(ChildrenOf(node), true).Some?
      && r.value.senderName == ChildrenOf(node)[FirstBlank(ChildrenOf(node), false).value].0
      && r.value.recipientName == ChildrenOf(node)[FirstBlank(ChildrenOf(node), true).value].0
    ensures r.None? <==>
      var s := FirstBlank(ChildrenOf(node), false);
      var b := FirstBlank(ChildrenOf(node), true);
      s.None? || b.None? || ChildrenOf(node)[s.value].0 == "" || ChildrenOf(node)[b.value].0 == ""
  {
    var cs := ChildrenOf(node);
    var s := FirstBlank(cs, false);
    var b := FirstBlank(cs, true);
    if s.None? || b.None? || cs[s.value].0 == "" || cs[b.value].0 == "" then None
    else
      var sender := cs[s.value].0;
      assert cs[s.value] in cs && cs[b.value] in cs;
      Some(ChatMessage(key, if sender == user then Me else other, sender, cs[b.value].0,
                       cs[s.value].1, ParseInt(key)))
  }

  /**
    Round trip: a message node written by `EncodeMessage` under its rendered
    timestamp decodes to exactly that message, provided the two names differ,
    neither is empty and the text is not empty.
   */
  lemma DecodeEncode(sender: string, recipient: string, text: string, timestamp: nat, user: string, other: string)
    requires sender != recipient && sender != "" && recipient != "" && text != ""
    ensures DecodeMessage(NatToString(timestamp), EncodeMessage(sender, recipient, text), user, other)
      == Some(ChatMessage(NatToString(timestamp), if sender == user then Me else other,
                          sender, recipient, Str(text), Some(timestamp)))
  {
    ParseIntOfNatToString(timestamp);
    var cs := ChildrenOf(EncodeMessage(sender, recipient, text));
    assert cs == [(recipient, Str("")), (sender, Str(text))];
    assert FirstBlank(cs, false) == Some(1);
    assert FirstBlank(cs, true) == Some(0);
  }

  /** A message to oneself, or one with empty text, never decodes: one of the two marks is missing. */
  lemma EncodeUndecodable(sender: string, recipient: string, text: string, key: string, user: string, other: string)
    requires sender == recipient || text == ""
    ensures DecodeMessage(key, EncodeMessage(sender, recipient, text), user, other).None?
  {
    var cs := ChildrenOf(EncodeMessage(sender, recipient, text));
    if sender == recipient {
      assert cs == [(sender, Str(text))];
    } else {
      assert cs == [(recipient, Str("")), (sender, Str(""))];
    }
  }

  /** The messages one child of an inbox contributes: none for the reserved `Counts` key or an undecodable node. */
  function DecodeEntry(e: (string, V), user: string, other: string): (r: seq<ChatMessage>)
    ensures |r| <= 1
    ensures r != [] ==> e.0 != CountsKey && DecodeMessage(e.0, e.1, user, other) == Some(r[0])
    ensures r == [] <==> e.0 == CountsKey || DecodeMessage(e.0, e.1, user, other).None?
  {
    if e.0 == CountsKey then []
    else match DecodeMessage(e.0, e.1, user, other)
      case None => []
      case Some(m) => [m]
  }

  /** The decoded children of an inbox node, in enumeration order. */
  function DecodeChildren(cs: seq<(string, V)>, user: string, other: string): (r: seq<ChatMessage>)
    ensures |r| <= |cs|
    ensures forall m :: m in r ==> m.id != CountsKey && exists e :: e in cs && e.0 == m.id
  {
    if cs == [] then []
    else
      var r := DecodeEntry(cs[0], user, other) + DecodeChildren(cs[1..], user, other);
      assert forall e :: e in cs[1..] ==> e in cs;
      r
  }

  lemma {:induction false} DecodeChildrenAppend(cs: seq<(string, V)>, e: (string, V), user: string, other: string)
    ensures DecodeChildren(cs + [e], user, other) == DecodeChildren(cs, user, other) + DecodeEntry(e, user, other)
  {
    if cs != [] {
      assert (cs + [e])[1..] == cs[1..] + [e];
      DecodeChildrenAppend(cs[1..], e, user, other);
    }
  }

  /** The messages of one directional inbox snapshot; none when the snapshot does not exist. */
  function DecodeInbox(snapshot: Option<V>, user: string, other: string): seq<ChatMessage> {
    if snapshot.Some? then DecodeChildren(ChildrenOf(snapshot.value), user, other) else []
  }
}
