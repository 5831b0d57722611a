/**
  Who a user may chat with. A counselor sees the students of their caseload
  and every other counselor of the university directory; a student sees the
  first counselor whose caseload lists them and that counselor's colleagues at
  the first school that lists the counselor.
 */
module Participants {
  import opened Wrappers
  import opened JsText
  import opened Store

  datatype Role = Student | Counselor

  /**
    A chat participant. The source stores `getInitials(name)` next to the name
    when it builds the record and never changes it, so here the initials are
    derived from the name on demand (`Initials(p.name)`) instead of stored.
   */
  datatype Participant = Participant(name: string, role: Role)

  /** Two-letter avatar text for a display name (see `InitialsOf`). */
  function Initials(name: string): string {
    var t := Trim(name);
    var parts := Split(t);
    if |parts| >= 2 then
      SplitFirst(t);
      LastPart(t, parts);
      [parts[0][0], parts[|parts| - 1][0]]
    else
      FirstTwo(name)
  }

  /**
    When the trimmed name holds a space the initials are the first character
    of the trimmed name followed by the character after its last space;
    otherwise they are the first two characters of the name as given (fewer
    for a shorter name). No case change either way.
   */
  lemma InitialsOf(name: string)
    ensures ' ' in Trim(name) ==> Initials(name) == [Trim(name)[0], Trim(name)[LastSpace(Trim(name)) + 1]]
    ensures ' ' !in Trim(name) ==> Initials(name) == FirstTwo(name)
  {
    var t := Trim(name);
    if ' ' in t {
      SplitFirst(t);
      LastPart(t, Split(t));
    }
  }

  /** A word with no white space in it. */
  predicate IsWord(w: string) {
    w != [] && forall i :: 0 <= i < |w| ==> !IsSpace(w[i])
  }

  lemma TrimWord(w: string)
    requires IsWord(w)
    ensures TrimStart(w) == w && TrimEnd(w) == w && Trim(w) == w
  {
  }

  /** A first and a last name separated by one space give their first letters. */
  lemma InitialsOfFullName(first: string, last: string)
    requires IsWord(first) && IsWord(last)
    ensures Initials(first + " " + last) == [first[0], last[0]]
  {
    var name := first + " " + last;
    assert IsWord(first) && IsSpace(' ');
    assert !IsSpace(name[0]) && !IsSpace(name[|name| - 1]);
    assert TrimStart(name) == name && TrimEnd(name) == name;
    assert ' ' !in last by {
      forall i | 0 <= i < |last| ensures last[i] != ' ' {
        assert !IsSpace(last[i]);
      }
    }
    LastSpaceBefore(first, last);
    InitialsOf(name);
    assert name[|first| + 1] == last[0];
  }

  /**
    A single word padded with two leading spaces yields two blanks: the
    fallback takes the first two characters of the untrimmed name.
   */
  lemma InitialsOfPaddedWord(w: string)
    requires IsWord(w)
    ensures Initials("  " + w) == "  "
  {
    var name := "  " + w;
    TrimPadded(w);
    assert ' ' !in w by {
      forall i | 0 <= i < |w| ensures w[i] != ' ' {
        assert !IsSpace(w[i]);
      }
    }
    InitialsOf(name);
    assert FirstTwo(name) == name[..2];
  }

  lemma TrimPadded(w: string)
    requires IsWord(w)
    ensures Trim("  " + w) == w
  {
    var name := "  " + w;
    var once := name[1..];
    assert name[0] == ' ' && once[0] == ' ' && once[1..] == w;
    TrimWord(w);
    assert TrimStart(once) == TrimStart(w);
    assert TrimStart(name) == TrimStart(once);
  }

  function AsParticipants(names: seq<string>, role: Role): (r: seq<Participant>)
    ensures |r| == |names|
    ensures forall i :: 0 <= i < |r| ==> r[i] == Participant(names[i], role)
  {
    seq(|names|, i requires 0 <= i < |names| => Participant(names[i], role))
  }

  function NamesOf(ps: seq<Participant>): (r: seq<string>)
    ensures |r| == |ps| && forall i :: 0 <= i < |ps| ==> r[i] == ps[i].name
  {
    seq(|ps|, i requires 0 <= i < |ps| => ps[i].name)
  }

  /** `names.filter(n => n !== name)`. */
  function Without(names: seq<string>, name: string): (r: seq<string>)
    ensures |r| <= |names|
    ensures forall k :: k in r <==> k in names && k != name
    ensures multiset(r) == multiset(names)[name := 0]
  {
    if names == [] then []
    else
      assert names == [names[0]] + names[1..];
      if names[0] == name then Without(names[1..], name)
      else [names[0]] + Without(names[1..], name)
  }

  /** Filtering distributes over concatenation, so the kept names stay in their order. */
  lemma {:induction false} WithoutConcat(a: seq<string>, b: seq<string>, name: string)
    ensures Without(a + b, name) == Without(a, name) + Without(b, name)
  {
    if a == [] {
      assert a + b == b;
    } else {
      assert (a + b)[0] == a[0] && (a + b)[1..] == a[1..] + b;
      WithoutConcat(a[1..], b, name);
      var x, y := Without(a[1..], name), Without(b, name);
      if a[0] != name {
        assert [a[0]] + (x + y) == ([a[0]] + x) + y;
      }
    }
  }

  const CaseloadsPath: Path := [UniversityData, "Caseloads"]
  const DirectoryPath: Path := [UniversityData, "University Counsellors"]
  const SchoolsPath: Path := [UniversityData, "School Counsellors"]

  function CaseloadPath(counselor: string): Path {
    CaseloadsPath + [counselor]
  }

  /** The keys of a snapshot's value; none when the snapshot does not exist. */
  function SnapshotKeys(snapshot: Option<V>): seq<string> {
    if snapshot.Some? then Keys(snapshot.value) else []
  }

  /**
    The list a counselor is offered, built from the caseload's keys and the
    directory's keys: every caseload key as a student, in order, then every
    directory key other than the counselor's own name as a counselor.
   */
  function CounselorList(caseload: seq<string>, directory: seq<string>, counselor: string): (r: seq<Participant>)
    ensures |caseload| <= |r| <= |caseload| + |directory|
    ensures forall i :: 0 <= i < |r| ==> (r[i].role == Student <==> i < |caseload|)
    ensures NamesOf(r[..|caseload|]) == caseload
    ensures forall k :: k in NamesOf(r[|caseload|..]) <==> k in directory && k != counselor
    ensures NamesOf(r[|caseload|..]) == Without(directory, counselor)
    ensures forall i :: 0 <= i < |r| && r[i].role == Counselor ==> r[i].name != counselor
  {
    var students := AsParticipants(caseload, Student);
    var others := AsParticipants(Without(directory, counselor), Counselor);
    var r := students + others;
    assert NamesOf(students) == caseload;
    assert NamesOf(others) == Without(directory, counselor);
    assert forall i :: 0 <= i < |others| ==> others[i].name in Without(directory, counselor);
    assert r[|students|..] == others && r[..|students|] == students;
    r
  }

  /**
    The participants of a counselor: `CounselorList` over the keys of their
    caseload node and of the directory node, a missing node having no keys. A
    rejected read anywhere yields the empty list, dropping what was gathered
    before it.
   */
  function CounselorParticipants(db: Db, counselor: string): (r: seq<Participant>)
    ensures Read(db, CaseloadPath(counselor)).Rejected? || Read(db, DirectoryPath).Rejected? ==> r == []
    ensures Read(db, CaseloadPath(counselor)).Ok? && Read(db, DirectoryPath).Ok? ==>
      r == CounselorList(Keys(Get(db.root, CaseloadPath(counselor)).GetOr(Obj([]))),
                         Keys(Get(db.root, DirectoryPath).GetOr(Obj([]))), counselor)
  {
    match Read(db, CaseloadPath(counselor))
    case Rejected => []
    case Ok(caseload) =>
      match Read(db, DirectoryPath)
      case Rejected => []
      case Ok(directory) =>
        CounselorList(SnapshotKeys(caseload), SnapshotKeys(directory), counselor)
  }

  /**
    The first child, in enumeration order, whose value has a truthy property
    `k`: the shape of both first-match loops (`for (x in obj) if (obj[x][k]) …
    break`).
   */
  function FirstWith(cs: seq<(string, V)>, k: string): (r: Option<nat>)
    ensures r.Some? ==> r.value < |cs| && TruthyProp(cs[r.value].1, k)
    ensures r.Some? ==> forall j :: 0 <= j < r.value ==> !TruthyProp(cs[j].1, k)
    ensures r.None? ==> forall j :: 0 <= j < |cs| ==> !TruthyProp(cs[j].1, k)
  {
    if cs == [] then None
    else if TruthyProp(cs[0].1, k) then Some(0)
    else match FirstWith(cs[1..], k)
      case None => None
      case Some(i) => Some(i + 1)
  }

  /** The counselor's colleagues: the other keys, in order, of the first school node that lists the counselor. */
  function SchoolPeers(schools: seq<(string, V)>, counselor: string): (r: seq<string>)
    ensures counselor !in r
    ensures FirstWith(schools, counselor).None? ==> r == []
    ensures FirstWith(schools, counselor).Some? ==>
      forall k :: k in r <==> k in Keys(schools[FirstWith(schools, counselor).value].1) && k != counselor
    ensures FirstWith(schools, counselor).Some? ==>
      multiset(r) == multiset(Keys(schools[FirstWith(schools, counselor).value].1))[counselor := 0]
    ensures FirstWith(schools, counselor).Some? ==>
      r == Without(Keys(schools[FirstWith(schools, counselor).value].1), counselor)
  {
    match FirstWith(schools, counselor)
    case None => []
    case Some(i) => Without(Keys(schools[i].1), counselor)
  }

  /** `cs[i]` is the first child, in order, whose value lists `student` truthily. */
  predicate IsFirstListing(cs: seq<(string, V)>, i: nat, student: string) {
    && i < |cs|
    && TruthyProp(cs[i].1, student)
    && forall j :: 0 <= j < i ==> !TruthyProp(cs[j].1, student)
  }

  /** The first listing is the one the search finds. */
  lemma FirstListingFound(cs: seq<(string, V)>, i: nat, student: string)
    requires IsFirstListing(cs, i, student)
    ensures FirstWith(cs, student) == Some(i)
  {
  }

  /**
    The list a student is offered, built from the caseload nodes and the
    school nodes: the chosen counselor (the key of the first caseload that
    lists the student truthily, if that key is a non-empty string), then the
    counselor's school peers. Every entry is a counselor.
   */
  function StudentList(caseloads: seq<(string, V)>, schools: seq<(string, V)>, student: string): (r: seq<Participant>)
    ensures forall i :: 0 <= i < |r| ==> r[i].role == Counselor
    ensures r != [] ==>
      r[0].name != "" && exists i: nat :: IsFirstListing(caseloads, i, student) && caseloads[i].0 == r[0].name
    ensures r == [] <==> forall i: nat :: IsFirstListing(caseloads, i, student) ==> caseloads[i].0 == ""
    ensures r != [] ==> r[0].name !in NamesOf(r[1..])
    ensures r != [] ==> NamesOf(r[1..]) == SchoolPeers(schools, r[0].name)
  {
    var found := FirstWith(caseloads, student);
    var chosen := if found.Some? then caseloads[found.value].0 else "";
    assert forall i: nat :: IsFirstListing(caseloads, i, student) ==> found == Some(i) by {
      forall i: nat | IsFirstListing(caseloads, i, student) ensures found == Some(i) {
        FirstListingFound(caseloads, i, student);
      }
    }
    if chosen == "" then []
    else
      var peers := AsParticipants(SchoolPeers(schools, chosen), Counselor);
      var r := [Participant(chosen, Counselor)] + peers;
      assert r[1..] == peers;
      assert NamesOf(peers) == SchoolPeers(schools, chosen);
      assert IsFirstListing(caseloads, found.value, student);
      r
  }

  /**
    The participants of a student: `StudentList` over the children of the
    caseloads node and of the school-counsellors node, a missing node having
    none; the empty list when either read is rejected.
   */
  function StudentParticipants(db: Db, student: string): (r: seq<Participant>)
    ensures Read(db, CaseloadsPath).Rejected? || Read(db, SchoolsPath).Rejected? ==> r == []
    ensures Read(db, CaseloadsPath).Ok? && Read(db, SchoolsPath).Ok? ==>
      r == StudentList(ChildrenAt(db.root, CaseloadsPath), ChildrenAt(db.root, SchoolsPath), student)
  {
    match Read(db, CaseloadsPath)
    case Rejected => []
    case Ok(caseloads) =>
      match Read(db, SchoolsPath)
      case Rejected => []
      case Ok(schools) =>
        var cs := if caseloads.Some? then ChildrenOf(caseloads.value) else [];
        var ss := if schools.Some? then ChildrenOf(schools.value) else [];
        assert cs == ChildrenAt(db.root, CaseloadsPath);
        assert ss == ChildrenAt(db.root, SchoolsPath);
        StudentList(cs, ss, student)
  }

  lemma LookupUnique(cs: seq<(string, V)>, i: nat)
    requires UniqueKeys(cs) && i < |cs|
    ensures Lookup(cs, cs[i].0) == Some(cs[i].1)
  {
    var r := Lookup(cs, cs[i].0);
    assert cs[i].0 in KeysOf(cs) by { assert KeysOf(cs)[i] == cs[i].0; }
    LookupFound(cs, cs[i].0);
    var j :| 0 <= j < |cs| && cs[j] == (cs[i].0, r.value);
    assert j == i;
  }

  lemma {:induction false} GetWF(v: V, p: Path)
    requires WF(v)
    ensures Get(v, p).Some? ==> WF(Get(v, p).value)
    decreases p
  {
    if p != [] && Prop(v, p[0]).Some? {
      LookupFound(v.children, p[0]);
      var i :| 0 <= i < |v.children| && v.children[i] == (p[0], Prop(v, p[0]).value);
      GetWF(Prop(v, p[0]).value, p[1..]);
    }
  }

  /**
    The counselor a student is routed to lists that student back: in a
    well-formed tree the caseload node that matched is the one the counselor's
    own lookup reads.
   */
  lemma AssignedCounselorSeesStudent(db: Db, student: string)
    requires WF(db.root)
    requires StudentParticipants(db, student) != []
    requires CaseloadPath(StudentParticipants(db, student)[0].name) !in db.faults
    requires DirectoryPath !in db.faults
    ensures Participant(student, Student) in
      CounselorParticipants(db, StudentParticipants(db, student)[0].name)
  {
    var r := StudentParticipants(db, student);
    var c := r[0].name;
    var cs := ChildrenAt(db.root, CaseloadsPath);
    assert Read(db, CaseloadsPath).Ok? && Read(db, SchoolsPath).Ok?;
    assert r == StudentList(cs, ChildrenAt(db.root, SchoolsPath), student);
    var i: nat :| IsFirstListing(cs, i, student) && cs[i].0 == c;
    var caseload := CaseloadOf(db, student, c, i);
    StudentInCounselorList(db, c, caseload, student);
  }

  lemma StudentInCounselorList(db: Db, c: string, caseload: V, student: string)
    requires Read(db, CaseloadPath(c)) == Ok(Some(caseload))
    requires student in Keys(caseload)
    requires DirectoryPath !in db.faults
    ensures Participant(student, Student) in CounselorParticipants(db, c)
  {
    var students := Keys(caseload);
    var k :| 0 <= k < |students| && students[k] == student;
    var r := CounselorParticipants(db, c);
    assert r == CounselorList(students, Keys(Get(db.root, DirectoryPath).GetOr(Obj([]))), c);
    assert NamesOf(r[..|students|])[k] == student;
    assert r[k] == Participant(student, Student);
  }

  /** The caseload node the student search matched is the one at the counselor's caseload path. */
  lemma CaseloadOf(db: Db, student: string, c: string, i: nat) returns (caseload: V)
    requires WF(db.root)
    requires IsFirstListing(ChildrenAt(db.root, CaseloadsPath), i, student)
    requires ChildrenAt(db.root, CaseloadsPath)[i].0 == c
    requires CaseloadPath(c) !in db.faults
    ensures Read(db, CaseloadPath(c)) == Ok(Some(caseload))
    ensures student in Keys(caseload)
  {
    var cs := ChildrenAt(db.root, CaseloadsPath);
    GetWF(db.root, CaseloadsPath);
    var node := Get(db.root, CaseloadsPath).value;
    assert node.Obj? && cs == node.children;
    LookupUnique(cs, i);
    GetChild(db.root, CaseloadsPath, c);
    caseload := cs[i].1;
    assert Get(db.root, CaseloadPath(c)) == Some(caseload);
  }
}
