/**
  The listener side of the chat: which locations `subscribeToMessages` and
  `subscribeToUnreadCounts` watch, what their unsubscribe functions detach,
  which writes wake a watch, and the count map a counter listener hands its
  callback. Delivery itself, its timing and its ordering are the store's
  business and are not modelled.
 */
module Subscriptions {
  import opened Wrappers
  import opened JsText
  import opened Store
  import opened Codec
  import opened History
  import opened Counters
  import opened Participants
  import opened Sending

  /** The listeners attached in the store, counted per watched location. */
  type Watches = multiset<Path>

  /** `off(ref)` with no callback: every listener at that location goes, whoever attached it. */
  function Off(w: Watches, p: Path): (r: Watches)
    ensures r[p] == 0
    ensures forall q :: q != p ==> r[q] == w[q]
  {
    w[p := 0]
  }

  /** Attaching one listener per location of a handle. */
  function Attach(w: Watches, handle: seq<Path>): (r: Watches)
    ensures forall q :: r[q] == w[q] + multiset(handle)[q]
  {
    w + multiset(handle)
  }

  /** The returned unsubscribe function: `off` on every location the subscription attached to. */
  function Detach(w: Watches, handle: seq<Path>): (r: Watches)
    ensures forall p :: p in handle ==> r[p] == 0
    ensures forall q :: q !in handle ==> r[q] == w[q]
    decreases |handle|
  {
    if handle == [] then w else Detach(Off(w, handle[0]), handle[1..])
  }

  /** The two inboxes `subscribeToMessages` listens to, the user-first key first. */
  function MessageWatchPaths(user: string, other: string): (r: seq<Path>)
    ensures |r| == 2
    ensures forall p :: p in r <==> p == InboxPath(ChatId(user, other)) || p == InboxPath(ChatId(other, user))
  {
    [InboxPath(ChatId(user, other)), InboxPath(ChatId(other, user))]
  }

  /** The counters `subscribeToUnreadCounts` listens to, one per participant in the given order. */
  function CountWatchPaths(conv: Convention, user: string, ps: seq<Participant>): (r: seq<Path>)
    ensures |r| == |ps|
    ensures forall i :: 0 <= i < |ps| ==> r[i] == ReaderPath(conv, user, ps[i].name)
  {
    seq(|ps|, i requires 0 <= i < |ps| => ReaderPath(conv, user, ps[i].name))
  }

  /**
    `subscribeToMessages` attaches one listener to each inbox; when the two
    keys coincide that inbox carries two of them.
   */
  lemma SubscribeToMessagesWatches(w: Watches, user: string, other: string)
    ensures var r := Attach(w, MessageWatchPaths(user, other));
      var p1 := InboxPath(ChatId(user, other));
      var p2 := InboxPath(ChatId(other, user));
      && r[p1] == w[p1] + (if p1 == p2 then 2 else 1)
      && r[p2] == w[p2] + (if p1 == p2 then 2 else 1)
      && forall q :: q != p1 && q != p2 ==> r[q] == w[q]
  {
    var h := MessageWatchPaths(user, other);
    assert h == [h[0]] + [h[1]];
  }

  /**
    Subscribing and then calling the returned function restores the watches
    exactly, provided nobody else was listening at those locations.
   */
  lemma {:induction false} AttachThenDetach(w: Watches, handle: seq<Path>)
    requires forall p :: p in handle ==> w[p] == 0
    ensures Detach(Attach(w, handle), handle) == w
  {
    var r := Detach(Attach(w, handle), handle);
    forall q ensures r[q] == w[q] {
      if q !in handle {
        assert multiset(handle)[q] == 0;
      }
    }
  }

  /**
    Two subscriptions that share a location do not own their listeners:
    when one is closed the other no longer hears anything there, though its
    own unsubscribe function has not been called.
   */
  lemma DetachDropsSharedWatch(w: Watches, first: seq<Path>, second: seq<Path>, p: Path)
    requires p in first && p in second
    ensures Attach(w, second)[p] > 0
    ensures Detach(Attach(Attach(w, first), second), first)[p] == 0
  {
    assert multiset(second)[p] > 0;
  }

  /** A second view of the same conversation loses its live updates when the first view is closed. */
  lemma SecondViewLosesUpdates(w: Watches, user: string, other: string)
    ensures var h := MessageWatchPaths(user, other);
      Detach(Attach(Attach(w, h), h), h)[InboxPath(ChatId(user, other))] == 0
  {
    var h := MessageWatchPaths(user, other);
    DetachDropsSharedWatch(w, h, h, InboxPath(ChatId(user, other)));
  }

  /** A listener wakes when the value at its location differs between two states of the store. */
  predicate Fires(before: Db, after: Db, p: Path) {
    Get(before.root, p) != Get(after.root, p)
  }

  /** Adding one to a counter always changes what is stored there. */
  lemma IncrementChanges(v: V)
    ensures Increment(v) != v
  {
    match v
    case Str(s) => assert |s + "1"| != |s|;
    case _ =>
  }

  /** A served send of a fresh message wakes the sender's conversation listener. */
  lemma SendWakesConversation(db: Db, sender: string, recipient: string, text: string, timestamp: nat)
    requires MessagePath(sender, recipient, timestamp) !in db.faults
    requires Get(db.root, MessagePath(sender, recipient, timestamp)) == None
    ensures Fires(db, SendMessage(db, sender, recipient, text, timestamp).db, InboxPath(ChatId(sender, recipient)))
  {
    var after := SendMessage(db, sender, recipient, text, timestamp).db;
    var k := NatToString(timestamp);
    GetChild(db.root, InboxPath(ChatId(sender, recipient)), k);
    GetChild(after.root, InboxPath(ChatId(sender, recipient)), k);
  }

  /** With the corrected reader, a served send wakes the recipient's counter listener for the sender. */
  lemma SendWakesCorrectedBadge(db: Db, sender: string, recipient: string, text: string, timestamp: nat)
    requires MessagePath(sender, recipient, timestamp) !in db.faults
    requires SenderCountPath(sender, recipient) !in db.faults
    ensures Fires(db, SendMessage(db, sender, recipient, text, timestamp).db, ReaderPath(Corrected, recipient, sender))
  {
    WritersAgreeWithCorrectedReader(recipient, sender);
    var p := SenderCountPath(sender, recipient);
    var before := Get(db.root, p);
    var after := SendMessage(db, sender, recipient, text, timestamp).db;
    MessagePathOffCounters(sender, recipient, timestamp, sender);
    assert Get(Write(db, MessagePath(sender, recipient, timestamp), EncodeMessage(sender, recipient, text)).value.root, p) == before;
    var read := Read(db, p);
    if before.Some? {
      if read.value.Some? {
        IncrementChanges(before.value);
      }
    }
  }

  /** As written, the recipient's counter listener for the sender sleeps through every send. */
  lemma SendMissesAsWrittenBadge(db: Db, sender: string, recipient: string, text: string, timestamp: nat)
    requires sender != recipient
    ensures !Fires(db, SendMessage(db, sender, recipient, text, timestamp).db, ReaderPath(AsWritten, recipient, sender))
  {
    WritersAgreeWithCorrectedReader(recipient, sender);
    MessagePathOffCounters(sender, recipient, timestamp, recipient);
  }

  /**
    The i-th counter listener of `subscribeToUnreadCounts(user, ps)` belongs to
    the conversation with the i-th participant: watching the counter the
    senders fill, it wakes on every served send from that participant to the
    user; watching the as-written path, it never wakes on one.
   */
  lemma CountWatchWakes(db: Db, user: string, ps: seq<Participant>, i: nat, text: string, timestamp: nat)
    requires i < |ps|
    requires MessagePath(ps[i].name, user, timestamp) !in db.faults
    requires SenderCountPath(ps[i].name, user) !in db.faults
    ensures var after := SendMessage(db, ps[i].name, user, text, timestamp).db;
      && Fires(db, after, CountWatchPaths(Corrected, user, ps)[i])
      && (ps[i].name != user ==> !Fires(db, after, CountWatchPaths(AsWritten, user, ps)[i]))
  {
    SendWakesCorrectedBadge(db, ps[i].name, user, text, timestamp);
    if ps[i].name != user {
      SendMissesAsWrittenBadge(db, ps[i].name, user, text, timestamp);
    }
  }

  /** Every listed name counted as zero, as the count map starts out. */
  function ZeroCounts(names: seq<string>): (r: map<string, V>)
    ensures r.Keys == set n | n in names
    ensures forall n :: n in r ==> r[n] == Num(0)
    decreases |names|
  {
    if names == [] then map[]
    else
      var front := names[..|names| - 1];
      assert forall n :: n in names <==> n in front || n == names[|names| - 1];
      ZeroCounts(front)[names[|names| - 1] := Num(0)]
  }

  /**
    The map one counter listener passes to its callback: every participant 0,
    except the one whose counter fired, which carries the stored value when
    there is one. Counts reported earlier for the others are not carried over.
   */
  function CountMap(names: seq<string>, fired: string, snapshot: Option<V>): (r: map<string, V>)
    requires fired in names
    ensures r.Keys == set n | n in names
    ensures forall n :: n in r && n != fired ==> r[n] == Num(0)
    ensures r[fired] == snapshot.GetOr(Num(0))
  {
    if snapshot.Some? then ZeroCounts(names)[fired := snapshot.value] else ZeroCounts(names)
  }

  /**
    What the listener of participant `i` hands the callback on a change: the
    count map built from a fresh snapshot of that counter, or nothing when the
    store refuses the location and cancels the listener. The fired entry
    agrees with `getUnreadCount` read at the same moment.
   */
  function CountsOnChange(conv: Convention, db: Db, user: string, ps: seq<Participant>, i: nat): (r: Option<map<string, V>>)
    requires i < |ps|
    ensures r.None? <==> ReaderPath(conv, user, ps[i].name) in db.faults
    ensures r.Some? ==> r.value.Keys == set n | n in NamesOf(ps)
    ensures r.Some? ==> r.value[ps[i].name] == UnreadCount(conv, db, user, ps[i].name)
    ensures r.Some? ==> forall n :: n in r.value && n != ps[i].name ==> r.value[n] == Num(0)
  {
    assert NamesOf(ps)[i] == ps[i].name;
    match Read(db, ReaderPath(conv, user, ps[i].name))
    case Rejected => None
    case Ok(snapshot) => Some(CountMap(NamesOf(ps), ps[i].name, snapshot))
  }
}
