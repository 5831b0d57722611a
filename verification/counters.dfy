/**
  Unread counters under `Inboxes/Counts/<chatId>/<leaf>`. `sendMessage`
  bumps `Counts/<recipient+sender>/<sender>` and `initializeChatCounts`
  creates `Counts/<user+participant>/<participant>`, but the reading side
  (`getUnreadCount`, `resetUnreadCount`, `subscribeToUnreadCounts`) uses the
  leaf `<user>`. The reading side is modelled both as written and with the
  leaf the writers use.
 */
module Counters {
  import opened Wrappers
  import opened JsText
  import opened Store
  import opened Codec
  import opened Participants

  function CountPath(chatId: string, leaf: string): Path {
    [UniversityData, InboxesKey, CountsKey, chatId, leaf]
  }

  /** Which counter a reader consults. */
  datatype Convention =
    | AsWritten   // Counts/<user+other>/<user>
    | Corrected   // Counts/<user+other>/<other>, the counter the writers maintain

  /** The counter `user` consults for the conversation with `other`. */
  function ReaderPath(conv: Convention, user: string, other: string): Path {
    match conv
    case AsWritten => CountPath(ChatId(user, other), user)
    case Corrected => CountPath(ChatId(user, other), other)
  }

  /** The counter `sendMessage(sender, recipient, …)` increments. */
  function SenderCountPath(sender: string, recipient: string): Path {
    CountPath(ChatId(recipient, sender), sender)
  }

  /** The counter `initializeChatCounts(user, …)` creates for one participant. */
  function InitCountPath(user: string, participant: string): Path {
    CountPath(ChatId(user, participant), participant)
  }

  /** The writers agree with each other and with the corrected reader; the as-written reader is another counter. */
  lemma WritersAgreeWithCorrectedReader(user: string, other: string)
    ensures SenderCountPath(other, user) == ReaderPath(Corrected, user, other)
    ensures InitCountPath(user, other) == ReaderPath(Corrected, user, other)
    ensures user != other ==> !Related(ReaderPath(AsWritten, user, other), SenderCountPath(other, user))
  {
    if user != other {
      assert ReaderPath(AsWritten, user, other)[4] != SenderCountPath(other, user)[4];
      SameLengthUnrelated(ReaderPath(AsWritten, user, other), SenderCountPath(other, user));
    }
  }

  /** JavaScript `v + 1` on whatever the counter node holds. */
  function Increment(v: V): V {
    match v
    case Num(n) => Num(n + 1)
    case Bool(b) => Num(if b then 2 else 1)
    case Str(s) => Str(s + "1")
    case Obj(_) => Str("[object Object]1")
  }

  /** The value a read of a counter settles on: the stored value, or 0 when it is absent or the read is rejected. */
  function CounterValue(read: Result<Option<V>>): V {
    if read.Ok? && read.value.Some? then read.value.value else Num(0)
  }

  /**
    `getUnreadCount(user, other)`: the value stored at the reader's counter, 0
    when none is stored or the read is rejected.
   */
  function UnreadCount(conv: Convention, db: Db, user: string, other: string): (r: V)
    ensures ReaderPath(conv, user, other) in db.faults ==> r == Num(0)
    ensures Get(db.root, ReaderPath(conv, user, other)) in {None, Some(Obj([]))} ==> r == Num(0)
    ensures ReaderPath(conv, user, other) !in db.faults && r != Num(0) ==>
      Get(db.root, ReaderPath(conv, user, other)) == Some(r)
    ensures var node := Get(db.root, ReaderPath(conv, user, other));
      ReaderPath(conv, user, other) !in db.faults && node.Some? && node.value != Obj([]) ==> r == node.value
  {
    CounterValue(Read(db, ReaderPath(conv, user, other)))
  }

  /** `resetUnreadCount(user, other)`: writes 0 at the reader's counter; a rejected write changes nothing. */
  function ResetUnreadCount(conv: Convention, db: Db, user: string, other: string): (r: Db)
    ensures r.faults == db.faults
    ensures ReaderPath(conv, user, other) in db.faults ==> r == db
    ensures ReaderPath(conv, user, other) !in db.faults ==>
      Get(r.root, ReaderPath(conv, user, other)) == Some(Num(0))
    ensures forall q :: !Related(q, ReaderPath(conv, user, other)) ==> Get(r.root, q) == Get(db.root, q)
  {
    match Write(db, ReaderPath(conv, user, other), Num(0))
    case Rejected => db
    case Ok(db') => db'
  }

  /** Reading a counter right after resetting it gives 0, under either convention and even when the service rejects both. */
  lemma ResetThenRead(conv: Convention, db: Db, user: string, other: string)
    ensures UnreadCount(conv, ResetUnreadCount(conv, db, user, other), user, other) == Num(0)
  {
  }

  /**
    `initializeChatCounts(user, participants)`: for each participant in turn,
    writes 0 at its counter when none exists. The first rejected request ends
    the loop; the writes made before it stay.
   */
  function InitializeChatCounts(db: Db, user: string, ps: seq<Participant>): (r: Db)
    ensures r.faults == db.faults
    decreases |ps|
  {
    if ps == [] then db
    else
      var p := InitCountPath(user, ps[0].name);
      match Read(db, p)
      case Rejected => db
      case Ok(Some(_)) => InitializeChatCounts(db, user, ps[1..])
      case Ok(None) =>
        match Write(db, p, Num(0))
        case Rejected => db
        case Ok(db') => InitializeChatCounts(db', user, ps[1..])
  }

  /** No participant's counter lies on the way to or below `q`. */
  predicate AwayFromCounters(q: Path, user: string, ps: seq<Participant>) {
    forall i :: 0 <= i < |ps| ==> !Related(q, InitCountPath(user, ps[i].name))
  }

  /** Initialization writes only at the participants' counters: every other location keeps its node. */
  lemma {:induction false} InitFrame(db: Db, user: string, ps: seq<Participant>, q: Path)
    requires AwayFromCounters(q, user, ps)
    ensures Get(InitializeChatCounts(db, user, ps).root, q) == Get(db.root, q)
    decreases |ps|
  {
    if ps != [] {
      var p := InitCountPath(user, ps[0].name);
      assert !Related(q, p);
      assert AwayFromCounters(q, user, ps[1..]) by {
        forall i | 0 <= i < |ps[1..]| ensures !Related(q, InitCountPath(user, ps[1..][i].name)) {
          assert ps[1..][i] == ps[i + 1];
        }
      }
      match Read(db, p)
      case Rejected =>
      case Ok(Some(_)) => InitFrame(db, user, ps[1..], q);
      case Ok(None) =>
        match Write(db, p, Num(0))
        case Rejected =>
        case Ok(db') => InitFrame(db', user, ps[1..], q);
    }
  }

  /** Initialization keeps a well-formed store well-formed. */
  lemma {:induction false} InitWF(db: Db, user: string, ps: seq<Participant>)
    requires WF(db.root)
    ensures WF(InitializeChatCounts(db, user, ps).root)
    decreases |ps|
  {
    if ps != [] {
      var p := InitCountPath(user, ps[0].name);
      match Read(db, p)
      case Rejected =>
      case Ok(Some(_)) => InitWF(db, user, ps[1..]);
      case Ok(None) =>
        match Write(db, p, Num(0))
        case Rejected =>
        case Ok(db') =>
          WriteWF(db, p, Num(0));
          InitWF(db', user, ps[1..]);
    }
  }

  /** Resetting a counter keeps a well-formed store well-formed. */
  lemma ResetWF(conv: Convention, db: Db, user: string, other: string)
    requires WF(db.root)
    ensures WF(ResetUnreadCount(conv, db, user, other).root)
  {
    if ReaderPath(conv, user, other) !in db.faults {
      WriteWF(db, ReaderPath(conv, user, other), Num(0));
    }
  }

  lemma SameLengthUnrelated(p: Path, q: Path)
    requires |p| == |q| && p != q
    ensures !Related(p, q)
  {
  }

  /** Initialization never touches a counter-shaped path that already holds a value. */
  lemma {:induction false} InitKeeps(db: Db, user: string, ps: seq<Participant>, q: Path, v: V)
    requires |q| == 5 && Read(db, q) == Ok(Some(v))
    ensures Read(InitializeChatCounts(db, user, ps), q) == Ok(Some(v))
    decreases |ps|
  {
    if ps != [] {
      var p := InitCountPath(user, ps[0].name);
      match Read(db, p)
      case Rejected =>
      case Ok(Some(_)) => InitKeeps(db, user, ps[1..], q, v);
      case Ok(None) =>
        SameLengthUnrelated(q, p);
        match Write(db, p, Num(0))
        case Rejected =>
        case Ok(db') => InitKeeps(db', user, ps[1..], q, v);
    }
  }

  predicate NoneRejected(db: Db, user: string, ps: seq<Participant>) {
    forall i :: 0 <= i < |ps| ==> InitCountPath(user, ps[i].name) !in db.faults
  }

  /**
    When the service rejects none of the requests, afterwards every
    participant's counter exists: an existing one keeps its value and a
    missing one holds 0.
   */
  lemma {:induction false} InitResult(db: Db, user: string, ps: seq<Participant>, i: nat)
    requires NoneRejected(db, user, ps) && i < |ps|
    ensures var p := InitCountPath(user, ps[i].name);
      Read(InitializeChatCounts(db, user, ps), p) ==
        if Read(db, p).value.Some? then Read(db, p) else Ok(Some(Num(0)))
    decreases |ps|, 1
  {
    match Read(db, InitCountPath(user, ps[0].name))
    case Ok(Some(v)) => InitResultKept(db, user, ps, i, v);
    case Ok(None) => InitResultWritten(db, user, ps, i);
  }

  /** `InitResult` when the first participant's counter already exists. */
  lemma {:induction false} InitResultKept(db: Db, user: string, ps: seq<Participant>, i: nat, v: V)
    requires NoneRejected(db, user, ps) && i < |ps|
    requires Read(db, InitCountPath(user, ps[0].name)) == Ok(Some(v))
    ensures var p := InitCountPath(user, ps[i].name);
      Read(InitializeChatCounts(db, user, ps), p) ==
        if Read(db, p).value.Some? then Read(db, p) else Ok(Some(Num(0)))
    decreases |ps|, 0
  {
    var tail := ps[1..];
    assert InitializeChatCounts(db, user, ps) == InitializeChatCounts(db, user, tail);
    if i == 0 {
      InitKeeps(db, user, tail, InitCountPath(user, ps[0].name), v);
    } else {
      assert tail[i - 1] == ps[i];
      TailNoneRejected(db, user, ps);
      InitResult(db, user, tail, i - 1);
    }
  }

  /** `InitResult` when the first participant's counter is missing and gets written. */
  lemma {:induction false} InitResultWritten(db: Db, user: string, ps: seq<Participant>, i: nat)
    requires NoneRejected(db, user, ps) && i < |ps|
    requires Read(db, InitCountPath(user, ps[0].name)) == Ok(None)
    ensures var p := InitCountPath(user, ps[i].name);
      Read(InitializeChatCounts(db, user, ps), p) ==
        if Read(db, p).value.Some? then Read(db, p) else Ok(Some(Num(0)))
    decreases |ps|, 0
  {
    var p0 := InitCountPath(user, ps[0].name);
    var p := InitCountPath(user, ps[i].name);
    var tail := ps[1..];
    var db' := Write(db, p0, Num(0)).value;
    assert InitializeChatCounts(db, user, ps) == InitializeChatCounts(db', user, tail);
    if i == 0 {
      InitKeeps(db', user, tail, p0, Num(0));
    } else {
      assert tail[i - 1] == ps[i];
      TailNoneRejected(db', user, ps);
      InitResult(db', user, tail, i - 1);
      if p != p0 {
        SameLengthUnrelated(p, p0);
        ReadAfterWrite(db, p0, Num(0), p);
      }
    }
  }

  lemma TailNoneRejected(db: Db, user: string, ps: seq<Participant>)
    requires ps != [] && forall i :: 1 <= i < |ps| ==> InitCountPath(user, ps[i].name) !in db.faults
    ensures NoneRejected(db, user, ps[1..])
  {
    assert forall j :: 0 <= j < |ps[1..]| ==> ps[1..][j] == ps[j + 1];
  }

  /** Running the initialization a second time changes nothing, whether or not the first run was cut short. */
  lemma {:induction false} InitIdempotent(db: Db, user: string, ps: seq<Participant>)
    ensures var once := InitializeChatCounts(db, user, ps);
      InitializeChatCounts(once, user, ps) == once
    decreases |ps|
  {
    if ps != [] {
      var p := InitCountPath(user, ps[0].name);
      match Read(db, p)
      case Rejected =>
      case Ok(Some(v)) =>
        InitKeeps(db, user, ps[1..], p, v);
        InitIdempotent(db, user, ps[1..]);
      case Ok(None) =>
        var db' := Write(db, p, Num(0)).value;
        InitKeeps(db', user, ps[1..], p, Num(0));
        InitIdempotent(db', user, ps[1..]);
    }
  }
}
