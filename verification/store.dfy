/**
  The realtime database as an immutable value. A node is a string, a number,
  a boolean or an object whose children are kept in the order the client
  enumerates them. A path is the list of its segments. A database value also
  records which paths the service refuses to serve, so that every read and
  write can fail the way a rejected promise does.
 */
module Store {
  import opened Wrappers

  datatype V = Str(s: string) | Num(n: int) | Bool(b: bool) | Obj(children: seq<(string, V)>)

  type Path = seq<string>

  /** Root segment every path of the chat layer starts with. */
  const UniversityData := "University Data"

  /** The keys of an object's children, in order. */
  function KeysOf(cs: seq<(string, V)>): (ks: seq<string>)
    ensures |ks| == |cs|
    ensures forall i :: 0 <= i < |cs| ==> ks[i] == cs[i].0
  {
    if cs == [] then [] else [cs[0].0] + KeysOf(cs[1..])
  }

  /** `Object.keys(v)` for a node; only objects have own enumerable keys here. */
  function Keys(v: V): seq<string> {
    if v.Obj? then KeysOf(v.children) else []
  }

  /** The children of a node, empty for a primitive. */
  function ChildrenOf(v: V): seq<(string, V)> {
    if v.Obj? then v.children else []
  }

  /** The value under key `k`: the first child with that key. */
  function Lookup(cs: seq<(string, V)>, k: string): (r: Option<V>)
    ensures r.Some? <==> k in KeysOf(cs)
  {
    if cs == [] then None
    else if cs[0].0 == k then Some(cs[0].1)
    else
      var r := Lookup(cs[1..], k);
      assert KeysOf(cs) == [cs[0].0] + KeysOf(cs[1..]);
      r
  }

  /** A found value is the value of a child with that key. */
  lemma {:induction false} LookupFound(cs: seq<(string, V)>, k: string)
    requires Lookup(cs, k).Some?
    ensures exists i :: 0 <= i < |cs| && cs[i] == (k, Lookup(cs, k).value)
  {
    if cs[0].0 != k {
      LookupFound(cs[1..], k);
      var i :| 0 <= i < |cs[1..]| && cs[1..][i] == (k, Lookup(cs, k).value);
      assert cs[i + 1] == cs[1..][i];
    }
  }

  /** `v[k]`: the property `k` of a node, `None` standing for `undefined`. */
  function Prop(v: V, k: string): Option<V> {
    if v.Obj? then Lookup(v.children, k) else None
  }

  /** JavaScript truthiness of a node value. */
  predicate Truthy(v: V) {
    match v
    case Str(s) => s != ""
    case Num(n) => n != 0
    case Bool(b) => b
    case Obj(_) => true
  }

  /** Truthiness of a property that may be `undefined`. */
  predicate TruthyProp(v: V, k: string) {
    var p := Prop(v, k);
    p.Some? && Truthy(p.value)
  }

  predicate UniqueKeys(cs: seq<(string, V)>) {
    forall i, j :: 0 <= i < j < |cs| ==> cs[i].0 != cs[j].0
  }

  /** Well-formed: no object anywhere holds two children with the same key, as in a JavaScript object. */
  predicate WF(v: V) {
    match v
    case Obj(cs) => UniqueKeys(cs) && forall i :: 0 <= i < |cs| ==> WF(cs[i].1)
    case _ => true
  }

  /** Looking up in a list with one more child in front. */
  lemma LookupCons(e: (string, V), rest: seq<(string, V)>, j: string)
    ensures Lookup([e] + rest, j) == if e.0 == j then Some(e.1) else Lookup(rest, j)
  {
    assert ([e] + rest)[1..] == rest;
  }

  /** Replaces the child with key `k`, or appends one when there is none. */
  function Put(cs: seq<(string, V)>, k: string, x: V): (r: seq<(string, V)>)
    ensures Lookup(r, k) == Some(x)
    ensures forall j :: j != k ==> Lookup(r, j) == Lookup(cs, j)
    ensures k !in KeysOf(cs) ==> r == cs + [(k, x)]
    ensures forall e :: e in r ==> e in cs || e == (k, x)
  {
    if cs == [] then [(k, x)]
    else
      var head := cs[0];
      var tail := cs[1..];
      assert cs == [head] + tail;
      if head.0 == k then
        LookupCons((k, x), tail, k);
        assert forall j :: j != k ==> Lookup([(k, x)] + tail, j) == Lookup(cs, j) by {
          forall j | j != k ensures Lookup([(k, x)] + tail, j) == Lookup(cs, j) {
            LookupCons((k, x), tail, j);
            LookupCons(head, tail, j);
          }
        }
        assert k in KeysOf(cs) by { assert KeysOf(cs)[0] == k; }
        [(k, x)] + tail
      else
        var rest := Put(tail, k, x);
        PutStep(head, tail, k, x, rest);
        [head] + rest
  }

  /** `Put` past a first child whose key differs: what holds of the tail holds with the child in front. */
  lemma PutStep(head: (string, V), tail: seq<(string, V)>, k: string, x: V, rest: seq<(string, V)>)
    requires head.0 != k
    requires Lookup(rest, k) == Some(x)
    requires forall j :: j != k ==> Lookup(rest, j) == Lookup(tail, j)
    requires k !in KeysOf(tail) ==> rest == tail + [(k, x)]
    ensures Lookup([head] + rest, k) == Some(x)
    ensures forall j :: j != k ==> Lookup([head] + rest, j) == Lookup([head] + tail, j)
    ensures k !in KeysOf([head] + tail) ==> [head] + rest == ([head] + tail) + [(k, x)]
  {
    LookupCons(head, rest, k);
    forall j | j != k ensures Lookup([head] + rest, j) == Lookup([head] + tail, j) {
      LookupCons(head, rest, j);
      LookupCons(head, tail, j);
    }
    assert KeysOf([head] + tail) == [head.0] + KeysOf(tail) by {
      assert ([head] + tail)[1..] == tail;
    }
    if k !in KeysOf([head] + tail) {
      assert [head] + (tail + [(k, x)]) == ([head] + tail) + [(k, x)];
    }
  }

  /** The node at path `p`, if any. */
  function Get(v: V, p: Path): Option<V>
    decreases p
  {
    if p == [] then Some(v)
    else match Prop(v, p[0])
      case None => None
      case Some(c) => Get(c, p[1..])
  }

  /** The child under `k`, or an empty object to build on when there is none. */
  function ChildOr(v: V, k: string): V {
    Prop(v, k).GetOr(Obj([]))
  }

  /**
    The tree after `set(ref(p), x)`: the node at `p` becomes `x`, missing
    objects on the way are created and a primitive on the way is replaced by
    an object.
   */
  function SetAt(v: V, p: Path, x: V): V
    decreases p
  {
    if p == [] then x
    else Obj(Put(ChildrenOf(v), p[0], SetAt(ChildOr(v, p[0]), p[1..], x)))
  }

  predicate IsPrefix(p: Path, q: Path) {
    |p| <= |q| && q[..|p|] == p
  }

  /** Two paths are related when one lies on the way to the other. */
  predicate Related(p: Path, q: Path) {
    IsPrefix(p, q) || IsPrefix(q, p)
  }

  /** Children of the node at `p`, empty when that node is missing or primitive. */
  function ChildrenAt(v: V, p: Path): seq<(string, V)> {
    match Get(v, p)
    case Some(n) => ChildrenOf(n)
    case None => []
  }

  lemma {:induction false} GetSetSame(v: V, p: Path, x: V)
    ensures Get(SetAt(v, p, x), p) == Some(x)
    decreases p
  {
    if p != [] {
      GetSetSame(ChildOr(v, p[0]), p[1..], x);
    }
  }

  lemma GetViaChild(v: V, p: Path)
    requires |p| >= 2
    ensures Get(v, p) == Get(ChildOr(v, p[0]), p[1..])
  {
  }

  lemma PrefixTails(p: Path, q: Path)
    requires p != [] && q != [] && p[0] == q[0]
    ensures IsPrefix(p, q) <==> IsPrefix(p[1..], q[1..])
  {
    if |p| <= |q| {
      assert q[..|p|] == [q[0]] + q[1..][..|p| - 1];
    }
  }

  /** A write leaves every path unrelated to the written one as it was. */
  lemma {:induction false} GetSetOther(v: V, q: Path, x: V, p: Path)
    requires !Related(p, q)
    ensures Get(SetAt(v, q, x), p) == Get(v, p)
    decreases q
  {
    assert p != [] && q != [];
    if p[0] == q[0] {
      PrefixTails(p, q);
      PrefixTails(q, p);
      GetSetOther(ChildOr(v, q[0]), q[1..], x, p[1..]);
      assert |p| >= 2;
      GetViaChild(v, p);
    }
  }

  /** A write one level below `p` puts that child among the children of the node at `p`. */
  lemma {:induction false} GetSetChild(v: V, p: Path, k: string, x: V)
    ensures Get(SetAt(v, p + [k], x), p) == Some(Obj(Put(ChildrenAt(v, p), k, x)))
    decreases p
  {
    if p != [] {
      assert (p + [k])[0] == p[0];
      assert (p + [k])[1..] == p[1..] + [k];
      GetSetChild(ChildOr(v, p[0]), p[1..], k, x);
      if |p| >= 2 {
        GetViaChild(v, p);
      }
    }
  }

  /** The node one level below `p` under key `k`. */
  lemma {:induction false} GetChild(v: V, p: Path, k: string)
    ensures Get(v, p + [k]) == (if Get(v, p).Some? then Prop(Get(v, p).value, k) else None)
    decreases p
  {
    if p == [] {
      assert [k][1..] == [];
    } else {
      assert (p + [k])[1..] == p[1..] + [k];
      match Prop(v, p[0])
      case None =>
      case Some(c) => GetChild(c, p[1..], k);
    }
  }

  lemma {:induction false} KeysOfPut(cs: seq<(string, V)>, k: string, x: V)
    ensures KeysOf(Put(cs, k, x)) == if k in KeysOf(cs) then KeysOf(cs) else KeysOf(cs) + [k]
  {
    assert cs != [] ==> KeysOf(cs) == [cs[0].0] + KeysOf(cs[1..]);
    if cs != [] && cs[0].0 != k {
      KeysOfPut(cs[1..], k, x);
    }
  }

  lemma PutWF(cs: seq<(string, V)>, k: string, x: V)
    requires UniqueKeys(cs) && forall i :: 0 <= i < |cs| ==> WF(cs[i].1)
    requires WF(x)
    ensures UniqueKeys(Put(cs, k, x)) && forall i :: 0 <= i < |Put(cs, k, x)| ==> WF(Put(cs, k, x)[i].1)
  {
    var r := Put(cs, k, x);
    KeysOfPut(cs, k, x);
    var ks := KeysOf(r);
    var old_ks := KeysOf(cs);
    forall i, j | 0 <= i < j < |r| ensures r[i].0 != r[j].0 {
      assert r[i].0 == ks[i] && r[j].0 == ks[j];
      if k in old_ks {
        assert ks[i] == old_ks[i] && ks[j] == old_ks[j];
      } else if j < |cs| {
        assert ks[i] == old_ks[i] && ks[j] == old_ks[j];
      } else {
        assert ks[j] == k && ks[i] == old_ks[i];
      }
    }
    forall i | 0 <= i < |r| ensures WF(r[i].1) {
      assert r[i] in r;
    }
  }

  /** Writing a well-formed value keeps the whole tree well-formed. */
  lemma {:induction false} SetAtWF(v: V, p: Path, x: V)
    requires WF(v) && WF(x)
    ensures WF(SetAt(v, p, x))
    decreases p
  {
    if p != [] {
      var c := ChildOr(v, p[0]);
      assert WF(c) by {
        if v.Obj? && Lookup(v.children, p[0]).Some? {
          LookupFound(v.children, p[0]);
          var i :| 0 <= i < |v.children| && v.children[i] == (p[0], c);
        }
      }
      SetAtWF(c, p[1..], x);
      PutWF(ChildrenOf(v), p[0], SetAt(c, p[1..], x));
    }
  }

  /** The whole database: its tree and the paths at which the service rejects a request. */
  datatype Db = Db(root: V, faults: set<Path>)

  /** The settled value of a request: `Ok` when the promise resolves, `Rejected` when it rejects. */
  datatype Result<+T> = Ok(value: T) | Rejected

  /**
    `get(ref(p))`: rejected at a faulted path; otherwise the snapshot, which
    does not exist for a missing node or an empty object.
   */
  function Read(db: Db, p: Path): (r: Result<Option<V>>)
    ensures r.Rejected? <==> p in db.faults
    ensures r.Ok? && r.value.Some? ==> Get(db.root, p) == r.value && r.value.value != Obj([])
    ensures r.Ok? && r.value.None? ==> Get(db.root, p) in {None, Some(Obj([]))}
  {
    if p in db.faults then Rejected
    else match Get(db.root, p)
      case None => Ok(None)
      case Some(v) => if v == Obj([]) then Ok(None) else Ok(Some(v))
  }

  /** `set(ref(p), x)`: rejected at a faulted path, otherwise the updated database. */
  function Write(db: Db, p: Path, x: V): (r: Result<Db>)
    ensures r.Rejected? <==> p in db.faults
    ensures r.Ok? ==> r.value.faults == db.faults
    ensures r.Ok? ==> Get(r.value.root, p) == Some(x)
    ensures r.Ok? ==> forall q :: !Related(q, p) ==> Get(r.value.root, q) == Get(db.root, q)
  {
    if p in db.faults then Rejected
    else
      var root := SetAt(db.root, p, x);
      GetSetSame(db.root, p, x);
      assert forall q :: !Related(q, p) ==> Get(root, q) == Get(db.root, q) by {
        forall q | !Related(q, p) ensures Get(root, q) == Get(db.root, q) {
          GetSetOther(db.root, p, x, q);
        }
      }
      Ok(Db(root, db.faults))
  }

  /** A write of a well-formed value keeps the store well-formed. */
  lemma WriteWF(db: Db, p: Path, x: V)
    requires WF(db.root) && WF(x) && Write(db, p, x).Ok?
    ensures WF(Write(db, p, x).value.root)
  {
    SetAtWF(db.root, p, x);
  }

  /** A read at a path unrelated to a write sees the same snapshot before and after it. */
  lemma ReadAfterWrite(db: Db, p: Path, x: V, q: Path)
    requires Write(db, p, x).Ok? && !Related(q, p)
    ensures Read(Write(db, p, x).value, q) == Read(db, q)
  {
  }
}
